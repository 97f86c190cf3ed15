/** The resolver of `process_files`: for each CSV row, in order, ask the user
    what to do and update the in-memory ledger lines. A row with no match may
    be ignored, answered with a new ledger entry, or end the run; a row with
    matches may mark one matched block's line cleared or be ignored. The
    prompt is an input sequence of answers, one per row processed. */
module Resolver {
  import opened Text
  import opened Blocks
  import opened Matcher
  import opened Records
  import opened Wrappers

  /** What one terminal prompt returned: the option the user chose, or a
      failure (no terminal, interrupted), which the loop replaces by the
      prompt's default option. */
  datatype Answer = Chose(option: string) | Failed

  // The prompt options, as the loop compares them.
  const IgnoreOption: string := "Ignore"
  const AddOption: string := "Add Stock Expense Item"
  const ExitOption: string := "Exit"
  const IgnoreLineOption: string := "Ignore this line"

  /** What the loop does with one row. */
  datatype Action = Ignored | Added(entry: string) | Exited | Cleared(index: nat)

  /** The ledger buffer, and whether the run stopped on Exit. */
  datatype State = State(buffer: seq<string>, exited: bool)

  /** The answer given at row `k`; a missing answer is a failed prompt. */
  function AnswerAt(answers: seq<Answer>, k: nat): Answer {
    if k < |answers| then answers[k] else Failed
  }

  /** `prompt().unwrap_or_else(|_| fallback)`. */
  function Response(answer: Answer, fallback: string): string {
    match answer
    case Chose(option) => option
    case Failed => fallback
  }

  /** The entry appended for an unmatched row: a header line with the date
      and the normalised description, an expense posting and the offsetting
      bank posting, both for the stripped amount. */
  function NewEntry(q: Query): string {
    q.date + " " + q.description
      + "\n    Expenses:Miscellaneous          $" + q.amount
      + "\n    Assets:Bank                    -$" + q.amount
  }

  /** The cleared form of a ledger line: the marker `* ` in front of the
      line with its leading whitespace removed. What follows the marker is
      the old line from its first non-whitespace character on. */
  function ClearLine(line: string): (r: string)
    ensures var n := |line| + 2 - |r|;
      StartsWith(r, "* ") && 0 <= n <= |line| && r[2..] == line[n..] &&
      (forall i :: 0 <= i < n ==> IsSpace(line[i])) &&
      (|r| > 2 ==> !IsSpace(r[2]))
  {
    TrimStartSpec(line);
    "* " + TrimStart(line)
  }

  /** Clearing a line twice (possible because the blocks are built once)
      stacks the marker: the line then starts with `* * `. */
  lemma ClearTwice(line: string)
    ensures ClearLine(ClearLine(line)) == "* * " + TrimStart(line)
  {
    var once := "* " + TrimStart(line);
    assert ClearLine(line) == once;
    assert !IsSpace(once[0]);
    assert TrimStart(once) == once;
  }

  /** The decision for one row, given the fixed candidate blocks and the
      user's answer. It never depends on the buffer. */
  function Decide(blocks: seq<string>, record: Record, answer: Answer): (a: Action)
    ensures a.Cleared? ==> a.index < |blocks|
  {
    var q := NormalizeRecord(record);
    var matches := FindMatches(blocks, q);
    if matches == [] then
      var action := Response(answer, IgnoreOption);
      if action == AddOption then Added(NewEntry(q))
      else if action == ExitOption then Exited
      else Ignored
    else
      var selected := Response(answer, IgnoreLineOption);
      if selected == IgnoreLineOption then Ignored
      else
        var found := FirstWithText(matches, selected);
        if found.Some? then
          FindMatchesSpec(blocks, q);
          FirstWithTextSpec(matches, selected);
          assert matches[found.value] in matches;
          Cleared(matches[found.value].index)
        else Ignored
  }

  /** The decision, characterised. Add and Exit are taken exactly when the
      row has no match and the user chose them, and Add carries the entry
      built from the row. A block is cleared only when the user chose its
      text and it matches the row, and it is the first block with that text;
      choosing the text of any matching block other than the Ignore option
      clears a block. A failed prompt decides Ignore. */
  lemma DecideSpec(blocks: seq<string>, record: Record, answer: Answer)
    ensures var a, q := Decide(blocks, record, answer), NormalizeRecord(record);
      (a.Added? <==> FindMatches(blocks, q) == [] && answer == Chose(AddOption)) &&
      (a.Added? ==> a.entry == NewEntry(q)) &&
      (a.Exited? <==> FindMatches(blocks, q) == [] && answer == Chose(ExitOption)) &&
      (a.Cleared? ==>
        a.index < |blocks| && answer == Chose(blocks[a.index]) && IsMatch(blocks[a.index], q) &&
        forall i :: 0 <= i < a.index ==> blocks[i] != blocks[a.index]) &&
      (answer == Failed ==> a == Ignored)
    ensures forall i ::
      (0 <= i < |blocks| && answer == Chose(blocks[i]) && blocks[i] != IgnoreLineOption &&
       IsMatch(blocks[i], NormalizeRecord(record))) ==> Decide(blocks, record, answer).Cleared?
  {
    DecideClearsFirstChosen(blocks, record, answer);
    DecideClearsAnyChosen(blocks, record, answer);
  }

  // A cleared block is the first block with the chosen text, and it matches.
  lemma DecideClearsFirstChosen(blocks: seq<string>, record: Record, answer: Answer)
    ensures var a := Decide(blocks, record, answer);
      a.Cleared? ==>
        a.index < |blocks| && answer == Chose(blocks[a.index]) && IsMatch(blocks[a.index], NormalizeRecord(record)) &&
        forall i :: 0 <= i < a.index ==> blocks[i] != blocks[a.index]
  {
    var q := NormalizeRecord(record);
    var matches := FindMatches(blocks, q);
    if matches != [] && answer.Chose? && answer.option != IgnoreLineOption {
      var text := answer.option;
      FindMatchesSpec(blocks, q);
      FirstWithTextSpec(matches, text);
      var found := FirstWithText(matches, text);
      if found.Some? {
        SelectionPicksFirstEqualBlock(blocks, q, text);
        assert matches[found.value] in matches;
      }
    }
  }

  // Choosing the text of a matching block clears some block.
  lemma DecideClearsAnyChosen(blocks: seq<string>, record: Record, answer: Answer)
    ensures forall i ::
      (0 <= i < |blocks| && answer == Chose(blocks[i]) && blocks[i] != IgnoreLineOption &&
       IsMatch(blocks[i], NormalizeRecord(record))) ==> Decide(blocks, record, answer).Cleared?
  {
    var q := NormalizeRecord(record);
    var matches := FindMatches(blocks, q);
    forall i | 0 <= i < |blocks| && answer == Chose(blocks[i]) && blocks[i] != IgnoreLineOption && IsMatch(blocks[i], q)
      ensures Decide(blocks, record, answer).Cleared?
    {
      FindMatchesSpec(blocks, q);
      assert Match(i, blocks[i]) in matches;
      FirstWithTextSpec(matches, blocks[i]);
      var p :| 0 <= p < |matches| && matches[p] == Match(i, blocks[i]);
      assert matches[p].block == blocks[i];
    }
  }

  /** The update an action makes to the buffer. */
  function Apply(buffer: seq<string>, a: Action): (r: seq<string>)
    requires a.Cleared? ==> a.index < |buffer|
    ensures |r| == if a.Added? then |buffer| + 1 else |buffer|
  {
    match a
    case Added(entry) => buffer + [entry]
    case Cleared(i) => buffer[i := ClearLine(buffer[i])]
    case _ => buffer
  }

  /** Ignore and Exit leave the buffer alone, Add appends exactly its entry,
      and clearing rewrites the one line it names and no other. */
  lemma ApplySpec(buffer: seq<string>, a: Action)
    requires a.Cleared? ==> a.index < |buffer|
    ensures var r := Apply(buffer, a);
      (a.Ignored? || a.Exited? ==> r == buffer) &&
      (a.Added? ==> r[..|buffer|] == buffer && r[|buffer|] == a.entry) &&
      (a.Cleared? ==>
        r[a.index] == ClearLine(buffer[a.index]) &&
        forall j :: 0 <= j < |buffer| && j != a.index ==> r[j] == buffer[j])
  {
  }

  /** The loop from row `k` on, with the buffer as it stands there. */
  function Run(blocks: seq<string>, buffer: seq<string>, records: seq<Record>, answers: seq<Answer>, k: nat): (s: State)
    requires k <= |records| && |blocks| <= |buffer|
    decreases |records| - k
    ensures |buffer| <= |s.buffer|
  {
    if k == |records| then State(buffer, false)
    else
      var a := Decide(blocks, records[k], AnswerAt(answers, k));
      if a.Exited? then State(buffer, true)
      else Run(blocks, Apply(buffer, a), records, answers, k + 1)
  }

  /** A whole run: blocks built once from the ledger as read, every row
      resolved in order against them. */
  function Reconcile(lines: seq<string>, records: seq<Record>, answers: seq<Answer>): (s: State)
    ensures |lines| <= |s.buffer|
  {
    Run(CandidateBlocks(lines), lines, records, answers, 0)
  }

  /** The text written to the output file: the buffer joined with newlines. */
  function Output(s: State): string {
    Join(s.buffer, "\n")
  }

  /** Adding an entry to a non-empty buffer extends the output text by a
      newline and the entry; the text already written is kept. */
  lemma AddExtendsOutput(buffer: seq<string>, entry: string, exited: bool)
    requires buffer != []
    ensures Output(State(Apply(buffer, Added(entry)), exited)) == Output(State(buffer, exited)) + "\n" + entry
  {
    JoinSnoc(buffer, entry, "\n");
  }

  /** The decisions taken from row `k` on, ending with the Exit if one is
      taken; computed without the buffer. */
  function Trace(blocks: seq<string>, records: seq<Record>, answers: seq<Answer>, k: nat): seq<Action>
    requires k <= |records|
    decreases |records| - k
  {
    if k == |records| then []
    else
      var a := Decide(blocks, records[k], AnswerAt(answers, k));
      if a.Exited? then [a] else [a] + Trace(blocks, records, answers, k + 1)
  }

  /** A trace holds at most one decision per remaining row, clears only
      positions of the block list, and holds an Exit only as its last
      decision. */
  lemma {:induction false} TraceSpec(blocks: seq<string>, records: seq<Record>, answers: seq<Answer>, k: nat)
    requires k <= |records|
    decreases |records| - k
    ensures var t := Trace(blocks, records, answers, k);
      |t| <= |records| - k &&
      (forall j :: 0 <= j < |t| && t[j].Cleared? ==> t[j].index < |blocks|) &&
      (forall j :: 0 <= j < |t| - 1 ==> !t[j].Exited?)
  {
    if k < |records| {
      var a := Decide(blocks, records[k], AnswerAt(answers, k));
      if !a.Exited? {
        TraceSpec(blocks, records, answers, k + 1);
        var t, rest := Trace(blocks, records, answers, k), Trace(blocks, records, answers, k + 1);
        assert t == [a] + rest;
        assert forall j :: 0 < j < |t| ==> t[j] == rest[j - 1];
      }
    }
  }

  /** The number of Add choices in a trace. */
  function CountAdded(t: seq<Action>): nat {
    if t == [] then 0 else (if t[0].Added? then 1 else 0) + CountAdded(t[1..])
  }

  /** The entries the Add choices of a trace append, in order. */
  function AddedEntries(t: seq<Action>): seq<string> {
    if t == [] then [] else (if t[0].Added? then [t[0].entry] else []) + AddedEntries(t[1..])
  }

  /** The buffer grows by exactly one line per Add choice taken. */
  lemma {:induction false} RunLength(blocks: seq<string>, buffer: seq<string>, records: seq<Record>, answers: seq<Answer>, k: nat)
    requires k <= |records| && |blocks| <= |buffer|
    decreases |records| - k
    ensures |Run(blocks, buffer, records, answers, k).buffer| == |buffer| + CountAdded(Trace(blocks, records, answers, k))
  {
    if k < |records| {
      var a := Decide(blocks, records[k], AnswerAt(answers, k));
      if !a.Exited? {
        RunLength(blocks, Apply(buffer, a), records, answers, k + 1);
        assert ([a] + Trace(blocks, records, answers, k + 1))[1..] == Trace(blocks, records, answers, k + 1);
      }
    }
  }

  /** A line that no decision clears keeps its text. */
  lemma {:induction false} RunKeepsUnclearedLines(blocks: seq<string>, buffer: seq<string>, records: seq<Record>, answers: seq<Answer>, k: nat, j: nat)
    requires k <= |records| && |blocks| <= |buffer|
    requires j < |buffer| && Cleared(j) !in Trace(blocks, records, answers, k)
    decreases |records| - k
    ensures Run(blocks, buffer, records, answers, k).buffer[j] == buffer[j]
  {
    if k < |records| {
      var a := Decide(blocks, records[k], AnswerAt(answers, k));
      if !a.Exited? {
        var t := Trace(blocks, records, answers, k);
        assert t == [a] + Trace(blocks, records, answers, k + 1);
        assert a != Cleared(j) && Cleared(j) !in Trace(blocks, records, answers, k + 1) by {
          assert t[0] == a;
          assert forall x :: x in Trace(blocks, records, answers, k + 1) ==> x in t;
        }
        RunKeepsUnclearedLines(blocks, Apply(buffer, a), records, answers, k + 1, j);
      }
    }
  }

  /** A line some decision clears ends up carrying the `* ` marker. */
  lemma {:induction false} RunMarksClearedLines(blocks: seq<string>, buffer: seq<string>, records: seq<Record>, answers: seq<Answer>, k: nat, j: nat)
    requires k <= |records| && |blocks| <= |buffer|
    requires Cleared(j) in Trace(blocks, records, answers, k)
    decreases |records| - k
    ensures j < |buffer| && StartsWith(Run(blocks, buffer, records, answers, k).buffer[j], "* ")
  {
    var a := Decide(blocks, records[k], AnswerAt(answers, k));
    var t := Trace(blocks, records, answers, k);
    TraceSpec(blocks, records, answers, k);
    assert j < |blocks| by {
      var p :| 0 <= p < |t| && t[p] == Cleared(j);
    }
    if a.Exited? {
      assert false;
    } else {
      var rest := Trace(blocks, records, answers, k + 1);
      assert t == [a] + rest;
      var next := Apply(buffer, a);
      ApplySpec(buffer, a);
      if Cleared(j) in rest {
        RunMarksClearedLines(blocks, next, records, answers, k + 1, j);
      } else {
        assert a == Cleared(j);
        RunKeepsUnclearedLines(blocks, next, records, answers, k + 1, j);
      }
    }
  }

  /** The lines past the original buffer are the appended entries, in the
      order their rows were processed. */
  lemma {:induction false} RunAppendsEntries(blocks: seq<string>, buffer: seq<string>, records: seq<Record>, answers: seq<Answer>, k: nat)
    requires k <= |records| && |blocks| <= |buffer|
    decreases |records| - k
    ensures Run(blocks, buffer, records, answers, k).buffer[|buffer|..] == AddedEntries(Trace(blocks, records, answers, k))
  {
    if k < |records| {
      var a := Decide(blocks, records[k], AnswerAt(answers, k));
      if !a.Exited? {
        var t, rest := Trace(blocks, records, answers, k), Trace(blocks, records, answers, k + 1);
        var next := Apply(buffer, a);
        var final := Run(blocks, next, records, answers, k + 1).buffer;
        assert Run(blocks, buffer, records, answers, k).buffer == final;
        RunAppendsEntries(blocks, next, records, answers, k + 1);
        assert t == [a] + rest;
        assert t[1..] == rest;
        if a.Added? {
          assert AddedEntries(t) == [a.entry] + AddedEntries(rest);
          TraceClearsBelowBlocks(blocks, records, answers, k + 1, |buffer|);
          RunKeepsUnclearedLines(blocks, next, records, answers, k + 1, |buffer|);
          SuffixAfterAppend(final, |buffer|);
        } else {
          assert AddedEntries(t) == AddedEntries(rest);
          assert |next| == |buffer|;
        }
      }
    }
  }

  // Splitting a suffix at its first element.
  lemma SuffixAfterAppend(s: seq<string>, n: nat)
    requires n < |s|
    ensures s[n..] == [s[n]] + s[n + 1..]
  {
  }

  // Cleared indices in a trace are positions in the block list.
  lemma TraceClearsBelowBlocks(blocks: seq<string>, records: seq<Record>, answers: seq<Answer>, k: nat, j: nat)
    requires k <= |records| && |blocks| <= j
    ensures Cleared(j) !in Trace(blocks, records, answers, k)
  {
    TraceSpec(blocks, records, answers, k);
  }

  /** The run stops exactly when an Exit is taken. */
  lemma {:induction false} RunExitsOnExit(blocks: seq<string>, buffer: seq<string>, records: seq<Record>, answers: seq<Answer>, k: nat)
    requires k <= |records| && |blocks| <= |buffer|
    decreases |records| - k
    ensures Run(blocks, buffer, records, answers, k).exited <==> Exited in Trace(blocks, records, answers, k)
  {
    if k < |records| {
      var a := Decide(blocks, records[k], AnswerAt(answers, k));
      if !a.Exited? {
        RunExitsOnExit(blocks, Apply(buffer, a), records, answers, k + 1);
        var rest := Trace(blocks, records, answers, k + 1);
        assert Trace(blocks, records, answers, k) == [a] + rest;
      }
    }
  }

  /** The run over the first `n` rows, then the rest from its buffer, is
      the run over all rows. */
  lemma {:induction false} RunSplits(blocks: seq<string>, buffer: seq<string>, records: seq<Record>, answers: seq<Answer>, k: nat, n: nat)
    requires k <= n <= |records| && |blocks| <= |buffer|
    decreases n - k
    ensures var s := Run(blocks, buffer, records[..n], answers, k);
      Run(blocks, buffer, records, answers, k) == if s.exited then s else Run(blocks, s.buffer, records, answers, n)
  {
    if k < n {
      assert records[..n][k] == records[k];
      var a := Decide(blocks, records[k], AnswerAt(answers, k));
      if !a.Exited? {
        RunSplits(blocks, Apply(buffer, a), records, answers, k + 1, n);
      }
    }
  }

  /** Exit on an unmatched row ends the run: no later row is looked at, and
      the emitted buffer is the buffer as it stood at that row. */
  lemma ExitEmitsCurrentBuffer(lines: seq<string>, records: seq<Record>, answers: seq<Answer>, n: nat)
    requires n < |records|
    requires !Run(CandidateBlocks(lines), lines, records[..n], answers, 0).exited
    requires Decide(CandidateBlocks(lines), records[n], AnswerAt(answers, n)).Exited?
    ensures Reconcile(lines, records, answers) == State(Run(CandidateBlocks(lines), lines, records[..n], answers, 0).buffer, true)
  {
    var blocks := CandidateBlocks(lines);
    var s := Run(blocks, lines, records[..n], answers, 0);
    RunSplits(blocks, lines, records, answers, 0, n);
    ExitAtRow(blocks, s.buffer, records, answers, n);
  }

  /** After an Exit, the remaining rows make no difference to the result. */
  lemma RowsAfterExitIgnored(lines: seq<string>, records: seq<Record>, answers: seq<Answer>, n: nat)
    requires n < |records|
    requires !Run(CandidateBlocks(lines), lines, records[..n], answers, 0).exited
    requires Decide(CandidateBlocks(lines), records[n], AnswerAt(answers, n)).Exited?
    ensures Reconcile(lines, records, answers) == Reconcile(lines, records[..n + 1], answers)
  {
    ExitEmitsCurrentBuffer(lines, records, answers, n);
    var prefix := records[..n + 1];
    assert prefix[..n] == records[..n];
    assert prefix[n] == records[n];
    ExitEmitsCurrentBuffer(lines, prefix, answers, n);
  }

  // An Exit decision at row `n` ends the run with the buffer unchanged.
  lemma ExitAtRow(blocks: seq<string>, buffer: seq<string>, records: seq<Record>, answers: seq<Answer>, n: nat)
    requires n < |records| && |blocks| <= |buffer|
    requires Decide(blocks, records[n], AnswerAt(answers, n)).Exited?
    ensures Run(blocks, buffer, records, answers, n) == State(buffer, true)
  {
  }

  /** When every prompt fails, every row defaults to Ignore and the ledger
      comes out as it went in. */
  lemma {:induction false} FailedPromptsChangeNothing(blocks: seq<string>, buffer: seq<string>, records: seq<Record>, answers: seq<Answer>, k: nat)
    requires k <= |records| && |blocks| <= |buffer|
    requires forall i :: k <= i < |records| ==> AnswerAt(answers, i) == Failed
    decreases |records| - k
    ensures Run(blocks, buffer, records, answers, k) == State(buffer, false)
  {
    if k < |records| {
      FailedPromptsChangeNothing(blocks, buffer, records, answers, k + 1);
    }
  }

  /** Every cleared index of a run is the start of a complete window of the
      ledger as read, so the write into the buffer is in bounds. */
  lemma ClearedIndexInBounds(lines: seq<string>, records: seq<Record>, answers: seq<Answer>, j: nat)
    requires Cleared(j) in Trace(CandidateBlocks(lines), records, answers, 0)
    ensures j + 3 <= |lines|
  {
    var t := Trace(CandidateBlocks(lines), records, answers, 0);
    TraceSpec(CandidateBlocks(lines), records, answers, 0);
    var p :| 0 <= p < |t| && t[p] == Cleared(j);
    assert t[p].index < |CandidateBlocks(lines)|;
  }

  /** When no window start line of the ledger is cleared yet, no window is
      filtered out and block positions coincide with line numbers, so selecting a block clears the first line of the chosen window. */
  lemma SelectionClearsHeaderWhenNothingFiltered(lines: seq<string>, record: Record, answer: Answer)
    requires forall p: nat :: p + 3 <= |lines| ==> !IsCleared(lines[p])
    requires Decide(CandidateBlocks(lines), record, answer).Cleared?
    ensures var i := Decide(CandidateBlocks(lines), record, answer).index;
      i + 3 <= |lines| && answer == Chose(Window(lines, i))
  {
    DecideClearsFirstChosen(CandidateBlocks(lines), record, answer);
    BlocksWithoutClearedLines(lines, 0);
  }

  /** The blocks are built once, so a row repeated with the same selection
      clears the same line a second time and the marker doubles. */
  lemma RepeatedSelectionClearsTwice(lines: seq<string>, record: Record, text: string)
    requires text != IgnoreLineOption
    requires exists i :: 0 <= i < |CandidateBlocks(lines)| && CandidateBlocks(lines)[i] == text
               && IsMatch(CandidateBlocks(lines)[i], NormalizeRecord(record))
    ensures var a := Decide(CandidateBlocks(lines), record, Chose(text));
      a.Cleared? && a.index < |lines| &&
      Reconcile(lines, [record, record], [Chose(text), Chose(text)]).buffer
        == lines[a.index := "* * " + TrimStart(lines[a.index])]
  {
    var blocks := CandidateBlocks(lines);
    var a := Decide(blocks, record, Chose(text));
    DecideClearsAnyChosen(blocks, record, Chose(text));
    var records := [record, record];
    var answers := [Chose(text), Chose(text)];
    assert records[0] == record && records[1] == record;
    assert AnswerAt(answers, 0) == Chose(text) && AnswerAt(answers, 1) == Chose(text);
    RunClearsTwice(blocks, lines, records, answers, a);
    assert Reconcile(lines, records, answers) == Run(blocks, lines, records, answers, 0);
    ClearTwice(lines[a.index]);
  }

  // Two rows that both decide the same Cleared action.
  lemma RunClearsTwice(blocks: seq<string>, lines: seq<string>, records: seq<Record>, answers: seq<Answer>, a: Action)
    requires |records| == 2 && |blocks| <= |lines|
    requires a.Cleared? && a.index < |blocks|
    requires Decide(blocks, records[0], AnswerAt(answers, 0)) == a
    requires Decide(blocks, records[1], AnswerAt(answers, 1)) == a
    ensures Run(blocks, lines, records, answers, 0).buffer == lines[a.index := ClearLine(ClearLine(lines[a.index]))]
  {
    var i := a.index;
    var once := Apply(lines, a);
    var twice := Apply(once, a);
    RunStep(blocks, lines, records, answers, 0);
    RunStep(blocks, once, records, answers, 1);
    assert once == lines[i := ClearLine(lines[i])];
    assert twice == once[i := ClearLine(once[i])];
  }

  // One step of the loop that does not exit.
  lemma RunStep(blocks: seq<string>, buffer: seq<string>, records: seq<Record>, answers: seq<Answer>, k: nat)
    requires k < |records| && |blocks| <= |buffer|
    requires !Decide(blocks, records[k], AnswerAt(answers, k)).Exited?
    ensures var a := Decide(blocks, records[k], AnswerAt(answers, k));
      Run(blocks, buffer, records, answers, k) == Run(blocks, Apply(buffer, a), records, answers, k + 1)
  {
  }

  /** The loop of `process_files` over an in-memory ledger: the blocks are
      built once, every row is resolved in order, the buffer grows by `push`
      and changes by one indexed write, and Exit returns early. The result is
      the text written out and whether Exit ended the run. */
  method ProcessFiles(lines: seq<string>, records: seq<Record>, answers: seq<Answer>) returns (output: string, exited: bool)
    ensures output == Output(Reconcile(lines, records, answers))
    ensures exited == Reconcile(lines, records, answers).exited
  {
    var ledgerLines := lines;
    var blocks := CandidateBlocks(lines);
    var k := 0;
    while k < |records|
      invariant k <= |records|
      invariant |blocks| <= |ledgerLines|
      invariant Reconcile(lines, records, answers) == Run(blocks, ledgerLines, records, answers, k)
    {
      var q := NormalizeRecord(records[k]);
      var matches := FindMatches(blocks, q);
      var answer := AnswerAt(answers, k);
      ghost var a := Decide(blocks, records[k], answer);
      assert Run(blocks, ledgerLines, records, answers, k)
        == if a.Exited? then State(ledgerLines, true) else Run(blocks, Apply(ledgerLines, a), records, answers, k + 1);
      if matches == [] {
        var action := Response(answer, IgnoreOption);
        if action == AddOption {
          assert a == Added(NewEntry(q));
          ledgerLines := ledgerLines + [NewEntry(q)];
        } else if action == ExitOption {
          assert a == Exited;
          output := Join(ledgerLines, "\n");
          exited := true;
          return;
        }
        k := k + 1;
        continue;
      }
      var selected := Response(answer, IgnoreLineOption);
      if selected == IgnoreLineOption {
        k := k + 1;
        continue;
      }
      var found := FirstWithText(matches, selected);
      if found.Some? {
        FindMatchesSpec(blocks, q);
        FirstWithTextSpec(matches, selected);
        var start := matches[found.value].index;
        assert matches[found.value] in matches;
        assert a == Cleared(start);
        ledgerLines := ledgerLines[start := "* " + TrimStart(ledgerLines[start])];
      } else {
        assert a == Ignored;
      }
      k := k + 1;
    }
    output := Join(ledgerLines, "\n");
    exited := false;
  }
}
