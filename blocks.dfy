/** The candidate-block builder of `process_files`: slide a window of three
    over the ledger lines, drop the windows whose first line is already
    cleared (starts with `*`), and join each remaining window with newlines. */
module Blocks {
  import opened Text

  /** A ledger line that is already marked cleared. */
  predicate IsCleared(line: string) {
    StartsWith(line, "*")
  }

  /** The window of three lines starting at `k`, joined with newlines. */
  function Window(lines: seq<string>, k: nat): (b: string)
    requires k + 3 <= |lines|
    ensures b == lines[k] + "\n" + lines[k + 1] + "\n" + lines[k + 2]
  {
    JoinThree(lines[k], lines[k + 1], lines[k + 2], "\n");
    assert lines[k..k + 3] == [lines[k], lines[k + 1], lines[k + 2]];
    Join(lines[k..k + 3], "\n")
  }

  /** The kept windows starting at position `k` or later, in order. */
  function BlocksFrom(lines: seq<string>, k: nat): (r: seq<string>)
    decreases |lines| - k
    ensures r == [] || k + |r| + 2 <= |lines|
  {
    if k + 3 > |lines| then []
    else (if IsCleared(lines[k]) then [] else [Window(lines, k)]) + BlocksFrom(lines, k + 1)
  }

  /** The candidate blocks, built once from the ledger as read. */
  function CandidateBlocks(lines: seq<string>): (r: seq<string>)
    ensures |r| <= if |lines| >= 2 then |lines| - 2 else 0
  {
    BlocksFrom(lines, 0)
  }

  /** Reference definition: the window start positions from `k` on that the
      filter keeps. */
  function KeptStarts(lines: seq<string>, k: nat): seq<nat>
    decreases |lines| - k
  {
    if k + 3 > |lines| then []
    else (if IsCleared(lines[k]) then [] else [k]) + KeptStarts(lines, k + 1)
  }

  /** Positions in strictly increasing order. */
  predicate Increasing(r: seq<nat>) {
    forall a, b :: 0 <= a < b < |r| ==> r[a] < r[b]
  }

  /** Every kept position from `k` on is an uncleared window start. */
  lemma {:induction false} KeptStartsSound(lines: seq<string>, k: nat)
    decreases |lines| - k
    ensures forall p :: p in KeptStarts(lines, k) ==> k <= p && p + 3 <= |lines| && !IsCleared(lines[p])
  {
    if k + 3 <= |lines| {
      KeptStartsSound(lines, k + 1);
    }
  }

  /** Every uncleared window start from `k` on is kept. */
  lemma {:induction false} KeptStartsComplete(lines: seq<string>, k: nat)
    decreases |lines| - k
    ensures forall p :: k <= p && p + 3 <= |lines| && !IsCleared(lines[p]) ==> p in KeptStarts(lines, k)
  {
    if k + 3 <= |lines| {
      KeptStartsComplete(lines, k + 1);
    }
  }

  /** The kept positions increase. */
  lemma {:induction false} KeptStartsSorted(lines: seq<string>, k: nat)
    decreases |lines| - k
    ensures Increasing(KeptStarts(lines, k))
  {
    if k + 3 <= |lines| {
      KeptStartsSorted(lines, k + 1);
      var rest := KeptStarts(lines, k + 1);
      if !IsCleared(lines[k]) {
        KeptStartsSound(lines, k + 1);
        ConsIncreasing(k, rest);
        assert KeptStarts(lines, k) == [k] + rest;
      } else {
        assert KeptStarts(lines, k) == rest;
      }
    }
  }

  // A position below every position of an increasing list keeps it increasing in front.
  lemma ConsIncreasing(x: nat, rest: seq<nat>)
    requires Increasing(rest) && forall p :: p in rest ==> x < p
    ensures Increasing([x] + rest)
  {
    var r := [x] + rest;
    forall a, b | 0 <= a < b < |r| ensures r[a] < r[b] {
      assert r[b] == rest[b - 1] && rest[b - 1] in rest;
      if a > 0 {
        assert r[a] == rest[a - 1];
      }
    }
  }

  /** The j-th kept start from `k` lies at least j lines past `k`, and exactly
      j lines past it when no window start in between is cleared: each
      filtered window pushes the later kept starts one line further from
      their position in the list. */
  lemma {:induction false} KeptStartsShift(lines: seq<string>, k: nat, j: nat)
    requires j < |KeptStarts(lines, k)|
    decreases |lines| - k
    ensures var s := KeptStarts(lines, k)[j];
      s + 3 <= |lines| && k + j <= s &&
      (s == k + j <==> forall p :: k <= p < s ==> !IsCleared(lines[p]))
  {
    var rest := KeptStarts(lines, k + 1);
    if IsCleared(lines[k]) {
      assert KeptStarts(lines, k) == rest;
      KeptStartsShift(lines, k + 1, j);
    } else {
      assert KeptStarts(lines, k) == [k] + rest;
      if j > 0 {
        KeptStartsShift(lines, k + 1, j - 1);
      }
    }
  }

  /** Block j is the window at the j-th kept start position. */
  lemma {:induction false} BlocksFromOrigins(lines: seq<string>, k: nat)
    decreases |lines| - k
    ensures var r, s := BlocksFrom(lines, k), KeptStarts(lines, k);
      |r| == |s| && forall j :: 0 <= j < |r| ==> s[j] + 3 <= |lines| && r[j] == Window(lines, s[j])
  {
    if k + 3 <= |lines| {
      BlocksFromOrigins(lines, k + 1);
      if !IsCleared(lines[k]) {
        PrependWindow(lines, k, BlocksFrom(lines, k + 1), KeptStarts(lines, k + 1));
      }
    }
  }

  // One more kept window in front keeps blocks and starts in step.
  lemma PrependWindow(lines: seq<string>, k: nat, r: seq<string>, s: seq<nat>)
    requires k + 3 <= |lines| && |r| == |s|
    requires forall j :: 0 <= j < |r| ==> s[j] + 3 <= |lines| && r[j] == Window(lines, s[j])
    ensures var r', s' := [Window(lines, k)] + r, [k] + s;
      forall j :: 0 <= j < |r'| ==> s'[j] + 3 <= |lines| && r'[j] == Window(lines, s'[j])
  {
  }

  /** The block builder, characterised: there are as many blocks as kept
      windows, the j-th block is the three lines starting at the j-th kept
      position joined with newlines, and the positions are exactly the
      uncleared window starts, in increasing order. */
  lemma CandidateBlocksSpec(lines: seq<string>)
    ensures var blocks, starts := CandidateBlocks(lines), KeptStarts(lines, 0);
      |blocks| == |starts| &&
      (forall j :: 0 <= j < |blocks| ==>
        starts[j] + 3 <= |lines| && !IsCleared(lines[starts[j]]) &&
        blocks[j] == lines[starts[j]] + "\n" + lines[starts[j] + 1] + "\n" + lines[starts[j] + 2]) &&
      Increasing(starts) &&
      (forall p: nat :: p + 3 <= |lines| && !IsCleared(lines[p]) ==> p in starts)
  {
    var starts := KeptStarts(lines, 0);
    BlocksFromOrigins(lines, 0);
    KeptStartsSound(lines, 0);
    KeptStartsComplete(lines, 0);
    KeptStartsSorted(lines, 0);
    assert forall j :: 0 <= j < |starts| ==> starts[j] in starts;
  }


  /** With no cleared line among the window starts from `k` on (the last two
      lines start no window and may be anything), block j is exactly the
      window at line j, so the block index names the window's first line. */
  lemma {:induction false} BlocksWithoutClearedLines(lines: seq<string>, k: nat)
    requires forall p: nat :: k <= p && p + 3 <= |lines| ==> !IsCleared(lines[p])
    decreases |lines| - k
    ensures |BlocksFrom(lines, k)| == if k + 2 <= |lines| then |lines| - 2 - k else 0
    ensures forall j :: 0 <= j < |BlocksFrom(lines, k)| ==> BlocksFrom(lines, k)[j] == Window(lines, k + j)
  {
    if k + 3 <= |lines| {
      BlocksWithoutClearedLines(lines, k + 1);
    }
  }
}
