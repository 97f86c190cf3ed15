/** The matcher of `process_files`: normalise one CSV row and every candidate
    block, and keep the blocks whose normalised text contains all three
    normalised fields. */
module Matcher {
  import opened Text
  import opened Wrappers
  import opened Records

  /** The three normalised fields of a CSV row. */
  datatype Query = Query(date: string, description: string, amount: string)

  /** One entry of the match list: the position of the block in the
      candidate list, and the block's text as built. */
  datatype Match = Match(index: nat, block: string)

  /** The date is trimmed only, the description trimmed and lower-cased,
      the amount trimmed and stripped of `$`. */
  function NormalizeRecord(record: Record): Query
  {
    Query(Trim(record[0]), ToLower(Trim(record[1])), Remove(Trim(record[2]), '$'))
  }

  /** A normalised row keeps the date as trimmed, lower-cases the description
      without changing its length, and leaves no `$` in the amount. */
  lemma NormalizeRecordSpec(record: Record)
    ensures var q := NormalizeRecord(record);
      q.date == Trim(record[0]) &&
      |q.description| == |Trim(record[1])| &&
      (forall i :: 0 <= i < |q.description| ==> !('A' <= q.description[i] <= 'Z')) &&
      '$' !in q.amount && |q.amount| <= |Trim(record[2])|
  {
    ToLowerHasNoUpper(Trim(record[1]));
    RemoveSpec(Trim(record[2]), '$');
  }

  /** A block is lower-cased and stripped of `$` before the comparison. */
  function NormalizeBlock(block: string): string {
    Remove(ToLower(block), '$')
  }

  /** A normalised block holds neither `$` nor an upper-case letter. */
  lemma NormalizeBlockSpec(block: string)
    ensures var n := NormalizeBlock(block);
      '$' !in n && forall c :: c in n ==> !('A' <= c <= 'Z')
  {
    var lower := ToLower(block);
    ToLowerHasNoUpper(block);
    RemoveSpec(lower, '$');
  }

  /** The match test: the normalised block contains all three fields. */
  predicate IsMatch(block: string, q: Query) {
    var n := NormalizeBlock(block);
    Contains(n, q.date) && Contains(n, q.description) && Contains(n, q.amount)
  }

  /** The matching blocks at position `i` or later, in order. */
  function MatchesFrom(blocks: seq<string>, q: Query, i: nat): seq<Match>
    decreases |blocks| - i
  {
    if i >= |blocks| then []
    else (if IsMatch(blocks[i], q) then [Match(i, blocks[i])] else []) + MatchesFrom(blocks, q, i + 1)
  }

  /** The match list of one row: `(index, block)` for every matching block,
      in increasing index order. */
  function FindMatches(blocks: seq<string>, q: Query): seq<Match> {
    MatchesFrom(blocks, q, 0)
  }

  /** Every entry from position `i` on is a matching block at its own
      index. */
  lemma {:induction false} MatchesFromSound(blocks: seq<string>, q: Query, i: nat)
    decreases |blocks| - i
    ensures forall m :: m in MatchesFrom(blocks, q, i) ==>
      i <= m.index < |blocks| && m.block == blocks[m.index] && IsMatch(m.block, q)
  {
    if i < |blocks| {
      MatchesFromSound(blocks, q, i + 1);
    }
  }

  /** Every matching block from position `i` on is an entry. */
  lemma {:induction false} MatchesFromComplete(blocks: seq<string>, q: Query, i: nat)
    decreases |blocks| - i
    ensures forall j :: i <= j < |blocks| && IsMatch(blocks[j], q) ==> Match(j, blocks[j]) in MatchesFrom(blocks, q, i)
  {
    if i < |blocks| {
      MatchesFromComplete(blocks, q, i + 1);
    }
  }

  /** The entries of a match list are in strictly increasing index order. */
  predicate IndicesIncrease(ms: seq<Match>) {
    forall a, b :: 0 <= a < b < |ms| ==> ms[a].index < ms[b].index
  }

  /** The entries from position `i` on are in strictly increasing index
      order. */
  lemma {:induction false} MatchesFromSorted(blocks: seq<string>, q: Query, i: nat)
    decreases |blocks| - i
    ensures IndicesIncrease(MatchesFrom(blocks, q, i))
  {
    if i < |blocks| {
      MatchesFromSorted(blocks, q, i + 1);
      var rest := MatchesFrom(blocks, q, i + 1);
      if IsMatch(blocks[i], q) {
        MatchesFromSound(blocks, q, i + 1);
        ConsSorted(Match(i, blocks[i]), rest);
        assert MatchesFrom(blocks, q, i) == [Match(i, blocks[i])] + rest;
      } else {
        assert MatchesFrom(blocks, q, i) == rest;
      }
    }
  }

  // An entry below every index of a sorted list keeps it sorted in front.
  lemma ConsSorted(x: Match, rest: seq<Match>)
    requires IndicesIncrease(rest) && forall m :: m in rest ==> x.index < m.index
    ensures IndicesIncrease([x] + rest)
  {
    var r := [x] + rest;
    forall a, b | 0 <= a < b < |r| ensures r[a].index < r[b].index {
      assert r[b] == rest[b - 1];
      if a > 0 {
        assert r[a] == rest[a - 1];
      }
    }
  }

  /** The match list holds exactly the matching blocks, each with its own
      index, in strictly increasing index order. */
  lemma FindMatchesSpec(blocks: seq<string>, q: Query)
    ensures var r := FindMatches(blocks, q);
      (forall m :: m in r ==> m.index < |blocks| && m.block == blocks[m.index] && IsMatch(m.block, q)) &&
      (forall j :: 0 <= j < |blocks| && IsMatch(blocks[j], q) ==> Match(j, blocks[j]) in r) &&
      IndicesIncrease(r)
  {
    MatchesFromSound(blocks, q, 0);
    MatchesFromComplete(blocks, q, 0);
    MatchesFromSorted(blocks, q, 0);
  }

  /** A block matches when its normalised text has an occurrence of each
      normalised field. */
  lemma MatchFromOccurrences(block: string, q: Query, i: int, j: int, k: int)
    requires OccursAt(NormalizeBlock(block), q.date, i)
    requires OccursAt(NormalizeBlock(block), q.description, j)
    requires OccursAt(NormalizeBlock(block), q.amount, k)
    ensures IsMatch(block, q)
  {
    var n := NormalizeBlock(block);
    ContainsIff(n, q.date);
    ContainsIff(n, q.description);
    ContainsIff(n, q.amount);
  }

  /** `(i, b)` is in the match list of a row exactly when `b` is block `i`
      and, once lower-cased and stripped of `$`, it contains the trimmed
      date, the trimmed lower-cased description and the trimmed amount
      stripped of `$`. */
  lemma MatchesCharacterisation(blocks: seq<string>, record: Record, i: nat, b: string)
    ensures var n := Remove(ToLower(b), '$');
      Match(i, b) in FindMatches(blocks, NormalizeRecord(record)) <==>
        i < |blocks| && b == blocks[i] &&
        Contains(n, Trim(record[0])) && Contains(n, ToLower(Trim(record[1]))) &&
        Contains(n, Remove(Trim(record[2]), '$'))
  {
    FindMatchesSpec(blocks, NormalizeRecord(record));
  }

  /** `Iterator::find` on the block text: the position, in the match list,
      of the first entry whose text equals `text`. */
  function FirstWithText(matches: seq<Match>, text: string): Option<nat> {
    if matches == [] then None
    else if matches[0].block == text then Some(0)
    else match FirstWithText(matches[1..], text)
      case None => None
      case Some(p) => Some(p + 1)
  }

  /** The search finds a position exactly when some entry has the text, and
      the position found is that of the first such entry. */
  lemma {:induction false} FirstWithTextSpec(matches: seq<Match>, text: string)
    ensures var r := FirstWithText(matches, text);
      (r.Some? ==> r.value < |matches| && matches[r.value].block == text &&
                   forall j :: 0 <= j < r.value ==> matches[j].block != text) &&
      (r.None? ==> forall j :: 0 <= j < |matches| ==> matches[j].block != text)
  {
    if matches != [] && matches[0].block != text {
      FirstWithTextSpec(matches[1..], text);
      var r := FirstWithText(matches, text);
      forall j | 0 <= j < |matches| && (r.None? || j < r.value)
        ensures matches[j].block != text
      {
        if j > 0 {
          assert matches[j] == matches[1..][j - 1];
        }
      }
    }
  }

  /** Selecting by text picks the lowest-numbered block with that text: a
      duplicate block later in the list can never be the one chosen. */
  lemma {:induction false} SelectionPicksFirstEqualBlock(blocks: seq<string>, q: Query, text: string)
    requires FirstWithText(FindMatches(blocks, q), text).Some?
    ensures var ms := FindMatches(blocks, q);
      var p := FirstWithText(ms, text).value;
      p < |ms| && ms[p].block == text && ms[p].index < |blocks| && blocks[ms[p].index] == text &&
      forall i :: 0 <= i < ms[p].index ==> blocks[i] != text
  {
    var ms := FindMatches(blocks, q);
    FindMatchesSpec(blocks, q);
    FirstWithTextSpec(ms, text);
    var p := FirstWithText(ms, text).value;
    assert ms[p] in ms;
    forall i | 0 <= i < |blocks| && blocks[i] == text ensures ms[p].index <= i {
      assert Match(i, blocks[i]) in ms;
      var a :| 0 <= a < |ms| && ms[a] == Match(i, blocks[i]);
      IndexIncreases(ms, p, a);
    }
  }

  // In a list with increasing indices, a later entry has a larger index.
  lemma IndexIncreases(ms: seq<Match>, p: nat, a: nat)
    requires p < |ms| && a < |ms| && IndicesIncrease(ms)
    requires forall j :: 0 <= j < p ==> ms[j].block != ms[a].block
    ensures ms[p].index <= ms[a].index
  {
  }

  /** The date is compared as given while the block is lower-cased, so a
      date holding an upper-case letter matches no block at all. */
  lemma UpperCaseDateNeverMatches(blocks: seq<string>, record: Record, c: char)
    requires 'A' <= c <= 'Z' && c in Trim(record[0])
    ensures FindMatches(blocks, NormalizeRecord(record)) == []
  {
    var q := NormalizeRecord(record);
    var ms := FindMatches(blocks, q);
    FindMatchesSpec(blocks, q);
    if ms != [] {
      assert ms[0] in ms;
      var n := NormalizeBlock(ms[0].block);
      NormalizeBlockSpec(ms[0].block);
      ContainsChar(n, q.date, c);
      assert false;
    }
  }

  /** Neither the date nor the description is stripped of `$` while the
      block is, so a `$` in either of them rules out every match. */
  lemma DollarOutsideAmountNeverMatches(blocks: seq<string>, record: Record)
    requires ('$' in Trim(record[0]) || '$' in Trim(record[1]))
    ensures FindMatches(blocks, NormalizeRecord(record)) == []
  {
    var q := NormalizeRecord(record);
    var ms := FindMatches(blocks, q);
    FindMatchesSpec(blocks, q);
    NormalizeRecordSpec(record);
    if ms != [] {
      assert ms[0] in ms;
      var n := NormalizeBlock(ms[0].block);
      NormalizeBlockSpec(ms[0].block);
      if '$' in Trim(record[0]) {
        ContainsChar(n, q.date, '$');
      } else {
        var k :| 0 <= k < |Trim(record[1])| && Trim(record[1])[k] == '$';
        assert q.description[k] == '$';
        ContainsChar(n, q.description, '$');
      }
      assert false;
    }
  }
}
