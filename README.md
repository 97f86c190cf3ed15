# Ledger reconcile loop, modelled in Dafny

This project models `process_files`, the reconcile loop of a small command-line
tool. The tool matches the rows of a bank CSV export against the transactions
of a plain-text ledger file and marks the matched transactions as cleared.

The loop has three parts, and the model follows them module by module:

- **Blocks** (`blocks.dfy`): the candidate-block builder. It slides a window of
  three lines over the ledger, drops every window whose first line already
  starts with `*`, and joins each remaining window with newlines. The blocks
  are built once, from the ledger as read, before any row is processed.
- **Matcher** (`matcher.dfy`): normalises one CSV row and every block, then
  keeps every `(index, block)` whose normalised text contains all three fields,
  in increasing index order. On the row side:
  - the date is trimmed only;
  - the description is trimmed and lower-cased;
  - the amount is trimmed and stripped of `$`.
  On the block side, the block text is lower-cased and stripped of `$`.
- **Resolver** (`resolver.dfy`): the per-row loop over the in-memory ledger
  buffer.
  - A row with no match is ignored, answered with a new three-line entry
    pushed onto the buffer, or ends the run (Exit).
  - A row with matches either clears the line at the chosen block's index
    (rewritten as `* ` followed by the line without its leading whitespace)
    or is ignored.
  - Rust's string operations are modelled in `text.dfy`: `trim`,
    `trim_start`, ASCII `to_lowercase`, `replace(c, "")`, `contains`,
    `starts_with` and `join`.

The terminal prompt is replaced by a sequence of answers, one per row. An
answer is either the option chosen or `Failed`, and a failed prompt falls back
to the prompt's default, as the source's `unwrap_or_else` does.

The loop is specified by:
- `Decide`: what a row does, which depends only on the fixed blocks, the row
  and the answer;
- `Apply`: the update that action makes to the buffer;
- `Run`/`Reconcile`: the whole loop.

`ProcessFiles` is the imperative loop, with `push`, the indexed write and the
early return on Exit. Its invariant proves that it computes `Reconcile`. The
output text is the final buffer joined with newlines.

The model keeps the source's behaviour as written, including these quirks,
each proved as a lemma in `quirks.dfy`, `resolver.dfy` and `matcher.dfy`:
- The index of a match is its position in the *filtered* block list, and it
  is used as a line number. When a window before the chosen block was
  filtered out, selecting the block clears line j, its position in the
  filtered list, which lies above the window's first line
  (`Quirks.ClearedLineAtOrAboveWindow` in general,
  `Quirks.FilteredIndexClearsWrongLine` for a concrete case).
- The blocks are built once, so a block cleared for one row is still offered
  for the next, and clearing it twice stacks the marker
  (`Resolver.RepeatedSelectionClearsTwice`).
- The chosen block is found by text equality, so of several equal blocks the
  first is always the one cleared (`Matcher.SelectionPicksFirstEqualBlock`).
- The date is not lower-cased while the block is, so a date with an upper-case
  letter never matches (`Matcher.UpperCaseDateNeverMatches`). By the same
  reasoning, a `$` in the date or description rules out every match
  (`Matcher.DollarOutsideAmountNeverMatches`).

## Model

| member | source | states |
|---|---|---|
| Text.TrimStart | src/main.rs:133 | `trim_start`: drops the leading ASCII whitespace of a line; what it drops and keeps is stated by `Text.TrimStartSpec` |
| Text.TrimStartSpec | src/main.rs:133 | `trim_start` removes exactly a leading run of whitespace; the rest of the line is kept and does not start with whitespace |
| Text.TrimEnd | src/main.rs:51-53 | the trailing half of `trim`: drops trailing ASCII whitespace; stated by `Text.TrimEndSpec` |
| Text.Trim | src/main.rs:51-53 | `trim` is `trim_start` then the trailing half; its result has no outer whitespace (`Text.TrimHasNoOuterSpace`) and trimming again changes nothing (`Text.TrimIdempotent`) |
| Text.TrimEndSpec | src/main.rs:51-53 | the trailing half of `trim` removes exactly a trailing run of whitespace and keeps the front of the string |
| Text.TrimHasNoOuterSpace | src/main.rs:51-53 | a trimmed field has no whitespace at either end |
| Text.TrimIdempotent | src/main.rs:51-53 | trimming a trimmed field changes nothing |
| Text.Lower | src/main.rs:52 | ASCII lower-casing maps each upper-case letter to the lower-case letter at the same place in the alphabet and leaves every other character alone |
| Text.ToLower | src/main.rs:66 | lower-casing keeps the length and lower-cases each character in place |
| Text.ToLowerHasNoUpper | src/main.rs:66 | a lower-cased text holds no upper-case letter |
| Text.ToLowerIdempotent | src/main.rs:52 | lower-casing a lower-cased text changes nothing |
| Text.Remove | src/main.rs:53 | `replace(c, "")` character by character; its result is stated by `Text.RemoveSpec` and `Text.RemoveConcat` |
| Text.RemoveSpec | src/main.rs:53 | `replace('$', "")` keeps every character other than `$` as often as it occurs, drops every `$`, and changes nothing without `$` |
| Text.RemoveConcat | src/main.rs:66 | removal distributes over concatenation, so the kept characters stay in their original order |
| Text.RemoveIdempotent | src/main.rs:66 | stripping `$` twice is stripping it once |
| Text.Contains | src/main.rs:68-70 | `contains` with a string pattern; equivalent to an occurrence at some position (`Text.ContainsIff`) |
| Text.ContainsIff | src/main.rs:68-70 | `contains` holds exactly when the pattern occurs at some position (both directions) |
| Text.StartsWith | src/main.rs:36 | `starts_with`: the pattern is a prefix of the text, as used by the filter on a window's first line |
| Text.Join | src/main.rs:141 | `join(sep)`: the parts with the separator between consecutive ones; for a window, `Text.JoinThree` |
| Text.JoinThree | src/main.rs:37 | joining a window of three lines writes the newline separator exactly twice |
| Text.JoinSnoc | src/main.rs:141 | joining one more part appends the separator and that part to the joined text of the others |
| Blocks.IsCleared | src/main.rs:36 | a window is dropped when its first line starts with `*` |
| Blocks.Window | src/main.rs:35-37 | a window's block is its three lines with a newline between consecutive ones |
| Blocks.BlocksFrom | src/main.rs:34-38 | the kept windows from a start line on: none, or at most one per complete window left, so never more than the lines allow |
| Blocks.CandidateBlocks | src/main.rs:34-38 | there are at most `max(0, lines - 2)` blocks |
| Blocks.KeptStartsSound | src/main.rs:35-36 | every kept window start begins a complete window whose first line is not cleared |
| Blocks.KeptStartsComplete | src/main.rs:35-36 | every complete window whose first line is not cleared is kept |
| Blocks.KeptStartsSorted | src/main.rs:35-36 | the kept window starts are in increasing order |
| Blocks.KeptStartsShift | src/main.rs:34-38 | the j-th kept window start lies at least j lines in, and exactly j lines in when no window start before it is cleared |
| Blocks.BlocksFromOrigins | src/main.rs:34-38 | block j is the joined window at the j-th kept start, and there are as many blocks as kept starts |
| Blocks.CandidateBlocksSpec | src/main.rs:34-38 | the blocks are exactly the joined uncleared windows, in increasing order of their first line |
| Blocks.BlocksWithoutClearedLines | src/main.rs:34-38 | with no cleared line among the window start lines, block j is the window at line j and there are `lines - 2` blocks |
| Matcher.NormalizeRecord | src/main.rs:51-53 | the three row fields as the loop normalises them; stated by `Matcher.NormalizeRecordSpec` |
| Matcher.NormalizeRecordSpec | src/main.rs:51-53 | the date is kept as trimmed, the description is lower-cased with its length kept, the amount holds no `$` |
| Matcher.NormalizeBlock | src/main.rs:66 | a block lower-cased and stripped of `$`; stated by `Matcher.NormalizeBlockSpec` |
| Matcher.IsMatch | src/main.rs:68-70 | the match test: the normalised block contains each normalised field; by occurrences in `Matcher.MatchFromOccurrences` |
| Matcher.NormalizeBlockSpec | src/main.rs:66 | a normalised block holds neither `$` nor an upper-case letter |
| Matcher.MatchesFromSound | src/main.rs:62-77 | every entry of the match list is a matching block at its own index |
| Matcher.MatchesFromComplete | src/main.rs:62-77 | every matching block is an entry of the match list |
| Matcher.MatchesFromSorted | src/main.rs:62-77 | match list entries are in strictly increasing index order |
| Matcher.FindMatches | src/main.rs:62-77 | the match list of a row; characterised by `Matcher.FindMatchesSpec` and `Matcher.MatchesCharacterisation` |
| Matcher.MatchesFrom | src/main.rs:62-77 | the `enumerate().filter_map(..)` pass from position i on; its entries are matching blocks at their own positions (`Matcher.MatchesFromSound`), every matching block is listed (`Matcher.MatchesFromComplete`), in increasing position (`Matcher.MatchesFromSorted`) |
| Matcher.FindMatchesSpec | src/main.rs:62-77 | the match list is exactly the matching blocks with their indices, in increasing index order |
| Matcher.MatchFromOccurrences | src/main.rs:66-70 | a block matches when its normalised text has an occurrence of each normalised field |
| Matcher.MatchesCharacterisation | src/main.rs:51-77 | `(i, b)` is a match of a row exactly when `b` is block i and its lower-cased, `$`-less text contains the trimmed date, the trimmed lower-cased description and the trimmed `$`-less amount |
| Matcher.FirstWithText | src/main.rs:130 | `find` by block text over the match list; characterised by `Matcher.FirstWithTextSpec` |
| Matcher.FirstWithTextSpec | src/main.rs:129-130 | `find` by text returns the first entry with that text, and returns none exactly when no entry has it |
| Matcher.SelectionPicksFirstEqualBlock | src/main.rs:129-132 | the selected index is the lowest-numbered block whose text equals the selection |
| Matcher.UpperCaseDateNeverMatches | src/main.rs:51-70 | a date holding an upper-case letter matches no block |
| Matcher.DollarOutsideAmountNeverMatches | src/main.rs:51-70 | a `$` in the date or the description matches no block |
| Resolver.Response | src/main.rs:87 | a prompt's result: the chosen option, or the fallback option when the prompt failed (also src/main.rs:122) |
| Resolver.NewEntry | src/main.rs:90-95 | the entry pushed for an unmatched row: the header `date description`, the expense posting and the bank posting for the amount, with the source's exact spacing |
| Resolver.ClearLine | src/main.rs:133 | a cleared line starts with `* `, and what follows is the old line from some position on, where everything before that position is whitespace and the kept part does not start with whitespace |
| Resolver.ClearTwice | src/main.rs:133 | clearing a line twice yields `* * ` followed by the old line without leading whitespace |
| Resolver.Decide | src/main.rs:79-138 | a cleared index is a position in the block list |
| Resolver.DecideSpec | src/main.rs:79-132 | Add and Exit are chosen exactly on an unmatched row, Add carries the formatted entry; a cleared block was chosen by text, matches, and is the first with its text; choosing any matching block other than "Ignore this line" clears one; a failed prompt ignores |
| Resolver.DecideClearsFirstChosen | src/main.rs:117-133 | a cleared block is the first block whose text is the chosen option, and it matches the row |
| Resolver.DecideClearsAnyChosen | src/main.rs:117-133 | choosing the text of a matching block, other than the Ignore option, always clears a block |
| Resolver.Apply | src/main.rs:96-133 | the buffer grows by one line on Add and keeps its length otherwise |
| Resolver.ApplySpec | src/main.rs:89-138 | Ignore and Exit leave the buffer alone; Add appends exactly its entry after the unchanged lines; clearing rewrites the chosen line and no other |
| Resolver.Output | src/main.rs:141 | the text written out is the buffer joined with newlines (also on Exit, src/main.rs:101) |
| Resolver.AddExtendsOutput | src/main.rs:96 | after an Add on a non-empty buffer, the output text is the earlier output followed by a newline and the new entry |
| Resolver.Run | src/main.rs:50-139 | the buffer never shrinks over the rest of the run |
| Resolver.Reconcile | src/main.rs:31-139 | the final buffer is at least as long as the ledger read |
| Resolver.TraceSpec | src/main.rs:50-139 | at most one decision per row, every cleared index is a block position, and an Exit can only be the last decision |
| Resolver.RunLength | src/main.rs:96 | the buffer grows by exactly the number of Add choices taken |
| Resolver.RunKeepsUnclearedLines | src/main.rs:129-138 | a line that no decision clears keeps its text |
| Resolver.RunMarksClearedLines | src/main.rs:132-133 | a line some decision clears starts with the `* ` marker in the final buffer |
| Resolver.RunAppendsEntries | src/main.rs:89-98 | the lines past the original buffer are the entries of the Add choices, in row order |
| Resolver.TraceClearsBelowBlocks | src/main.rs:132-133 | no decision clears a line at or past the number of blocks |
| Resolver.RunExitsOnExit | src/main.rs:99-103 | the run reports an early exit exactly when an Exit was chosen |
| Resolver.RunSplits | src/main.rs:50-139 | running the first n rows and then the rest from that buffer is running all rows |
| Resolver.ExitAtRow | src/main.rs:99-103 | an Exit at a row ends the run with the buffer as it stands |
| Resolver.ExitEmitsCurrentBuffer | src/main.rs:99-103 | Exit on a row makes the result the buffer as it stood after the earlier rows, flagged as exited |
| Resolver.RowsAfterExitIgnored | src/main.rs:99-103 | after an Exit, the later rows make no difference to the result |
| Resolver.FailedPromptsChangeNothing | src/main.rs:82-127 | when every prompt fails, every row is ignored and the ledger comes out unchanged |
| Resolver.ClearedIndexInBounds | src/main.rs:132-133 | every cleared index starts a complete window of the ledger as read, so the indexed write is in bounds |
| Resolver.SelectionClearsHeaderWhenNothingFiltered | src/main.rs:129-133 | with no cleared line among the window start lines, the cleared index is the first line of the chosen window |
| Resolver.RepeatedSelectionClearsTwice | src/main.rs:50-133 | the same row answered twice with the same block clears that block's line twice |
| Resolver.RunClearsTwice | src/main.rs:132-133 | two rows deciding the same clear rewrite the line twice and nothing else |
| Resolver.RunStep | src/main.rs:50-139 | a row that does not exit hands its updated buffer to the next row |
| Resolver.ProcessFiles | src/main.rs:29-145 | the loop's output is the final buffer of the run joined with newlines, and it reports whether Exit ended it |
| Quirks.FilteredIndexClearsWrongLine | src/main.rs:63-133 | when the first line is cleared, choosing the window at line 1 rewrites line 0 and leaves line 1 unchanged |
| Quirks.ClearedLineAtOrAboveWindow | src/main.rs:63-133 | a cleared index i names the window at the i-th kept start, lies at or above that window's first line, and equals it exactly when no window start before it was filtered out |
| Quirks.FilteredWindowIsBlockZero | src/main.rs:34-38 | when the first line is cleared, block 0 is the window at line 1 |
| Quirks.FilteredChoiceIsBlockZero | src/main.rs:129-132 | choosing that window decides to clear index 0 |
| Quirks.ClearedGroceriesHeader | src/main.rs:188 | clearing the test ledger's first header gives the line the test looks for |

## Left out

- Command-line parsing and the `LEDGER_FILE` fallback (src/main.rs:11-26, 197-214) are not modelled. They only choose the three paths.
- File reads and writes (src/main.rs:30, 40, 101, 141) are left out. The ledger comes in as a sequence of lines. What would be written is returned as the output text.
- The model starts from the ledger's lines and does not model `lines()` splitting the file text.
- CSV decoding through the `csv` crate, including dropping malformed rows (src/main.rs:41-48), is left out. A row is a sequence of at least three fields (`Record`), because the source's `record[0..2]` would panic on a shorter row.
- The interactive `inquire` prompts (src/main.rs:82-87, 120-122) are replaced by a sequence of answers, one per row. A row past the end of the sequence reads as a failed prompt.
- An answer may be any string, while the real prompt only returns one of the options it offered. An answer that is not an offered option decides Ignore, as the source's comparisons would; the model does not restrict answers to the offered options.
- Console output (`println!`) is left out. It has no effect on the ledger.
- Unicode: `to_lowercase` is modelled as ASCII lower-casing, and `trim`/`trim_start` as trimming ASCII whitespace (space and tab through carriage return).
- The unit test (src/main.rs:153-194) creates and removes files and needs a terminal. Only its expected cleared-line form is used, in `Quirks.ClearedGroceriesHeader`.
