/** Behaviour of the reconcile loop that follows from how it is written
    rather than from what its messages suggest. */
module Quirks {
  import opened Text
  import opened Blocks
  import opened Matcher
  import opened Resolver
  import opened Records

  /** When the first line is cleared, the window at line 0 is filtered out
      and the window at line 1 becomes block 0. Its position in the filtered
      list is written through as a line number, so choosing it re-marks
      line 0 and leaves the header it was chosen for, line 1, unchanged. */
  lemma FilteredIndexClearsWrongLine(lines: seq<string>, record: Record)
    requires |lines| >= 4
    requires IsCleared(lines[0]) && !IsCleared(lines[1])
    requires IsMatch(Window(lines, 1), NormalizeRecord(record))
    ensures |CandidateBlocks(lines)| > 0 && CandidateBlocks(lines)[0] == Window(lines, 1)
    ensures Reconcile(lines, [record], [Chose(Window(lines, 1))]).buffer
      == lines[0 := "* " + TrimStart(lines[0])]
  {
    var blocks := CandidateBlocks(lines);
    var text := Window(lines, 1);
    FilteredWindowIsBlockZero(lines);
    var records := [record];
    var answers := [Chose(text)];
    assert Decide(blocks, record, Chose(text)) == Cleared(0) by {
      FilteredChoiceIsBlockZero(lines, record);
    }
    var next := lines[0 := ClearLine(lines[0])];
    assert Reconcile(lines, records, answers) == State(next, false) by {
      assert records[0] == record && AnswerAt(answers, 0) == Chose(text);
      RunStep(blocks, lines, records, answers, 0);
      assert Apply(lines, Cleared(0)) == next;
      assert Run(blocks, next, records, answers, 1) == State(next, false);
    }
  }

  // The window at line 1 is block 0.
  lemma FilteredWindowIsBlockZero(lines: seq<string>)
    requires |lines| >= 4 && IsCleared(lines[0]) && !IsCleared(lines[1])
    ensures |CandidateBlocks(lines)| > 0 && CandidateBlocks(lines)[0] == Window(lines, 1)
  {
    assert BlocksFrom(lines, 0) == BlocksFrom(lines, 1);
  }

  // Choosing the window at line 1 decides Cleared(0).
  lemma FilteredChoiceIsBlockZero(lines: seq<string>, record: Record)
    requires |lines| >= 4
    requires IsCleared(lines[0]) && !IsCleared(lines[1])
    requires IsMatch(Window(lines, 1), NormalizeRecord(record))
    ensures Decide(CandidateBlocks(lines), record, Chose(Window(lines, 1))) == Cleared(0)
  {
    var blocks := CandidateBlocks(lines);
    var text := Window(lines, 1);
    FilteredWindowIsBlockZero(lines);
    assert text != IgnoreLineOption by {
      assert text[|lines[1]|] == '\n';
      assert '\n' !in IgnoreLineOption;
    }
    DecideClearsAnyChosen(blocks, record, Chose(text));
    DecideClearsFirstChosen(blocks, record, Chose(text));
    assert blocks[0] == text;
  }

  /** In general, a cleared index i is the chosen block's position in the
      filtered list, and block i is the window at the i-th kept start. The
      rewritten line i lies at or above that window's first line, and it is
      that first line exactly when no window start before it was filtered
      out. */
  lemma ClearedLineAtOrAboveWindow(lines: seq<string>, record: Record, answer: Answer)
    requires Decide(CandidateBlocks(lines), record, answer).Cleared?
    ensures var i, s := Decide(CandidateBlocks(lines), record, answer).index, KeptStarts(lines, 0);
      i < |s| && s[i] + 3 <= |lines| && answer == Chose(Window(lines, s[i])) && i <= s[i] &&
      (i == s[i] <==> forall p :: 0 <= p < s[i] ==> !IsCleared(lines[p]))
  {
    var i := Decide(CandidateBlocks(lines), record, answer).index;
    DecideClearsFirstChosen(CandidateBlocks(lines), record, answer);
    BlocksFromOrigins(lines, 0);
    KeptStartsShift(lines, 0, i);
  }

  /** The cleared form of the test ledger's first header, as the unit test
      expects it in the output. */
  lemma ClearedGroceriesHeader()
    ensures ClearLine("2025-01-01 Groceries") == "* 2025-01-01 Groceries"
  {
    assert TrimStart("2025-01-01 Groceries") == "2025-01-01 Groceries";
  }
}
