/**
 * The result stores of frontend/src/lib/stores/results.js: the sorted
 * multi-array cursor search `findMatchesSorted`, the `boolToIndices` helper,
 * the mapping of dataset and database columns to their scaled values, and
 * the row filter for a search of one term.
 *
 * `localeCompare` belongs to the host's collator, so the search takes the
 * comparison as a parameter; `Array.prototype.sort` without a comparator
 * orders strings by their code units, so the arrays are sorted by
 * `CodeUnitCmp` whatever the search compares with.
 */
module Results {
  import opened Wrappers
  import opened Samples
  import opened Params

  // ---------------------------------------------------------------- orders

  /** A comparison in the manner of `localeCompare`: negative, zero or positive. */
  type Cmp = (string, string) -> int

  /** What ECMA-262 (section 23.1.3.30) calls a consistent comparator: the sign
      flips with the arguments and "not greater" is transitive. */
  ghost predicate Consistent(cmp: Cmp)
  {
    && (forall a, b {:trigger cmp(a, b), cmp(b, a)} :: cmp(a, b) > 0 <==> cmp(b, a) < 0)
    && (forall a, b, c {:trigger cmp(a, b), cmp(b, c), cmp(a, c)} :: cmp(a, b) <= 0 && cmp(b, c) <= 0 ==> cmp(a, c) <= 0)
    && (forall a, b, c {:trigger cmp(a, b), cmp(b, c), cmp(a, c)} :: cmp(a, b) < 0 && cmp(b, c) <= 0 ==> cmp(a, c) < 0)
  }

  /** The default order of `sort()`: lexicographic by character. */
  function CodeUnitCmp(a: string, b: string): int
  {
    if StrLt(a, b) then -1 else if a == b then 0 else 1
  }

  lemma CodeUnitConsistent()
    ensures Consistent(CodeUnitCmp)
  {
    forall a, b ensures CodeUnitCmp(a, b) > 0 <==> CodeUnitCmp(b, a) < 0 {
      StrLtIrreflexive(a);
      if a != b {
        StrLtTotal(a, b);
        if StrLt(a, b) && StrLt(b, a) {
          StrLtTransitive(a, b, a);
        }
      }
    }
    forall a, b, c | CodeUnitCmp(a, b) <= 0 && CodeUnitCmp(b, c) <= 0 ensures CodeUnitCmp(a, c) <= 0 {
      if StrLt(a, b) && StrLt(b, c) {
        StrLtTransitive(a, b, c);
      }
    }
    forall a, b, c | CodeUnitCmp(a, b) < 0 && CodeUnitCmp(b, c) <= 0 ensures CodeUnitCmp(a, c) < 0 {
      if StrLt(b, c) {
        StrLtTransitive(a, b, c);
      }
    }
  }

  /** ASCII lower-casing, character by character. */
  function LowerChar(c: char): char
  {
    if 'A' <= c <= 'Z' then (c as int + 32) as char else c
  }

  function Lower(s: string): (r: string)
    ensures |r| == |s| && forall i :: 0 <= i < |s| ==> r[i] == LowerChar(s[i])
  {
    seq(|s|, i requires 0 <= i < |s| => LowerChar(s[i]))
  }

  /** `localeCompare` with `sensitivity: 'accent'` on ASCII text: letters that
      differ only in case compare equal, and otherwise letters come in
      alphabetical order. */
  function FoldCmp(a: string, b: string): int
  {
    CodeUnitCmp(Lower(a), Lower(b))
  }

  lemma FoldConsistent()
    ensures Consistent(FoldCmp)
  {
    CodeUnitConsistent();
  }

  // ---------------------------------------------------------------- sorting

  predicate SortedBy(s: seq<string>, cmp: Cmp)
  {
    forall i, j :: 0 <= i < j < |s| ==> cmp(s[i], s[j]) <= 0
  }

  /** Puts `x` behind every element that does not compare greater. */
  function InsertBy(sorted: seq<string>, x: string, cmp: Cmp): (r: seq<string>)
    ensures multiset(r) == multiset(sorted) + multiset{x}
    decreases |sorted|
  {
    if sorted == [] then [x]
    else
      var last := sorted[|sorted| - 1];
      var init := sorted[..|sorted| - 1];
      assert sorted == init + [last];
      assert multiset(sorted) == multiset(init) + multiset{last};
      if cmp(last, x) <= 0 then sorted + [x] else InsertBy(init, x, cmp) + [last]
  }

  /** A stable sort by the comparator, as `sort` with a comparator function. */
  function SortBy(s: seq<string>, cmp: Cmp): (r: seq<string>)
    ensures multiset(r) == multiset(s) && |r| == |s|
  {
    if s == [] then []
    else
      var init := s[..|s| - 1];
      assert s == init + [s[|s| - 1]];
      assert multiset(s) == multiset(init) + multiset{s[|s| - 1]};
      InsertBy(SortBy(init, cmp), s[|s| - 1], cmp)
  }

  /** An element no element compares above can be appended. */
  lemma AppendSorted(s: seq<string>, y: string, cmp: Cmp)
    requires SortedBy(s, cmp) && forall i :: 0 <= i < |s| ==> cmp(s[i], y) <= 0
    ensures SortedBy(s + [y], cmp)
  {
    var r := s + [y];
    forall i, j | 0 <= i < j < |r| ensures cmp(r[i], r[j]) <= 0 {
      if j < |s| {
        assert r[i] == s[i] && r[j] == s[j];
      }
    }
  }

  lemma {:induction false} InsertBySorted(sorted: seq<string>, x: string, cmp: Cmp)
    requires Consistent(cmp) && SortedBy(sorted, cmp)
    ensures SortedBy(InsertBy(sorted, x, cmp), cmp)
    decreases |sorted|
  {
    if sorted != [] {
      var last := sorted[|sorted| - 1];
      var init := sorted[..|sorted| - 1];
      if cmp(last, x) <= 0 {
        forall i | 0 <= i < |sorted| ensures cmp(sorted[i], x) <= 0 {
          if i < |sorted| - 1 {
            assert cmp(sorted[i], last) <= 0;
          }
        }
        AppendSorted(sorted, x, cmp);
      } else {
        InsertBySorted(init, x, cmp);
        InsertBelowLast(sorted, x, cmp);
        AppendSorted(InsertBy(init, x, cmp), last, cmp);
      }
    }
  }

  /** No element compares above `y`. */
  predicate AtMost(s: seq<string>, y: string, cmp: Cmp)
  {
    forall i :: 0 <= i < |s| ==> cmp(s[i], y) <= 0
  }

  /** When `x` goes before the last element, everything it is inserted among
      compares at most equal to that last element. */
  lemma InsertBelowLast(sorted: seq<string>, x: string, cmp: Cmp)
    requires Consistent(cmp) && SortedBy(sorted, cmp) && sorted != [] && cmp(sorted[|sorted| - 1], x) > 0
    ensures AtMost(InsertBy(sorted[..|sorted| - 1], x, cmp), sorted[|sorted| - 1], cmp)
  {
    var last := sorted[|sorted| - 1];
    var init := sorted[..|sorted| - 1];
    var r := InsertBy(init, x, cmp);
    forall i | 0 <= i < |r| ensures cmp(r[i], last) <= 0 {
      assert r[i] in multiset(init) + multiset{x};
      if r[i] in init {
        var k :| 0 <= k < |init| && init[k] == r[i];
        assert sorted[k] == r[i];
      }
    }
  }

  lemma {:induction false} SortBySorted(s: seq<string>, cmp: Cmp)
    requires Consistent(cmp)
    ensures SortedBy(SortBy(s, cmp), cmp)
  {
    if s != [] {
      SortBySorted(s[..|s| - 1], cmp);
      InsertBySorted(SortBy(s[..|s| - 1], cmp), s[|s| - 1], cmp);
    }
  }

  /** `a.sort()`: the array holds its old contents in code-unit order. */
  method SortInPlace(a: array<string>)
    modifies a
    ensures a[..] == SortBy(old(a[..]), CodeUnitCmp)
  {
    var sorted := SortBy(a[..], CodeUnitCmp);
    var i := 0;
    while i < a.Length
      invariant 0 <= i <= a.Length && |sorted| == a.Length
      invariant forall j :: 0 <= j < i ==> a[j] == sorted[j]
    {
      a[i] := sorted[i];
      i := i + 1;
    }
  }

  // ---------------------------------------------------------------- the cursor search

  /** Every array has a cursor, and no cursor is past its array's end. */
  predicate ValidCursors(arrays: seq<seq<string>>, cursors: seq<nat>)
  {
    |cursors| == |arrays| && forall i :: 0 <= i < |arrays| ==> cursors[i] <= |arrays[i]|
  }

  /** Where the `while` of lines 11-14 leaves a cursor: on the first element
      from the cursor on that does not compare below the term, or at the end. */
  function Advance(arr: seq<string>, c: nat, term: string, cmp: Cmp): (r: nat)
    requires c <= |arr|
    ensures c <= r <= |arr|
    ensures forall p :: c <= p < r ==> cmp(arr[p], term) < 0
    ensures r < |arr| ==> cmp(arr[r], term) >= 0
    decreases |arr| - c
  {
    if c < |arr| && cmp(arr[c], term) < 0 then Advance(arr, c + 1, term, cmp) else c
  }

  /** The loop stopped on an element that compares equal (`cmp === 0`). */
  predicate HitAt(arr: seq<string>, c: nat, term: string, cmp: Cmp)
  {
    c < |arr| && cmp(arr[c], term) == 0
  }

  /** One term against the arrays from the i-th on (lines 9-19): each cursor in
      turn is advanced, and the first array whose cursor stops on an equal
      element gives the hit, as (array, position). */
  function MatchTerm(arrays: seq<seq<string>>, cursors: seq<nat>, term: string, cmp: Cmp, i: nat): (r: (seq<nat>, Option<(nat, nat)>))
    requires ValidCursors(arrays, cursors) && i <= |arrays|
    ensures ValidCursors(arrays, r.0)
    decreases |arrays| - i
  {
    if i == |arrays| then (cursors, None)
    else
      var c := Advance(arrays[i], cursors[i], term, cmp);
      var moved := cursors[i := c];
      if HitAt(arrays[i], c, term, cmp) then (moved, Some((i, c)))
      else MatchTerm(arrays, moved, term, cmp, i + 1)
  }

  /** Cursors only move forward and only over elements below the term, and
      the arrays before the i-th are not touched. */
  lemma {:induction false} MatchTermMoves(arrays: seq<seq<string>>, cursors: seq<nat>, term: string, cmp: Cmp, i: nat)
    requires ValidCursors(arrays, cursors) && i <= |arrays|
    ensures var r := MatchTerm(arrays, cursors, term, cmp, i);
      && (forall j :: 0 <= j < i ==> r.0[j] == cursors[j])
      && (forall j, p :: 0 <= j < |arrays| && cursors[j] <= p < r.0[j] ==> cmp(arrays[j][p], term) < 0)
    decreases |arrays| - i
  {
    if i < |arrays| {
      var c := Advance(arrays[i], cursors[i], term, cmp);
      var moved := cursors[i := c];
      if !HitAt(arrays[i], c, term, cmp) {
        MatchTermMoves(arrays, moved, term, cmp, i + 1);
      }
    }
  }

  /** The arrays before the hit are all advanced without a hit, the hit is on
      the hit array's advanced cursor, and the arrays after it are not touched. */
  lemma {:induction false} MatchTermFacts(arrays: seq<seq<string>>, cursors: seq<nat>, term: string, cmp: Cmp, i: nat)
    requires ValidCursors(arrays, cursors) && i <= |arrays|
    ensures var r := MatchTerm(arrays, cursors, term, cmp, i);
      && (r.1.None? ==> forall j :: i <= j < |arrays| ==> r.0[j] == Advance(arrays[j], cursors[j], term, cmp) && !HitAt(arrays[j], r.0[j], term, cmp))
      && (r.1.Some? ==>
        && i <= r.1.value.0 < |arrays| && r.1.value.1 == r.0[r.1.value.0] && HitAt(arrays[r.1.value.0], r.1.value.1, term, cmp)
        && r.1.value.1 == Advance(arrays[r.1.value.0], cursors[r.1.value.0], term, cmp)
        && (forall j :: i <= j < r.1.value.0 ==> r.0[j] == Advance(arrays[j], cursors[j], term, cmp) && !HitAt(arrays[j], r.0[j], term, cmp))
        && (forall j :: r.1.value.0 < j < |arrays| ==> r.0[j] == cursors[j]))
    decreases |arrays| - i
  {
    if i < |arrays| {
      var c := Advance(arrays[i], cursors[i], term, cmp);
      var moved := cursors[i := c];
      if !HitAt(arrays[i], c, term, cmp) {
        MatchTermFacts(arrays, moved, term, cmp, i + 1);
        MatchTermMoves(arrays, moved, term, cmp, i + 1);
      }
    }
  }

  /** A pushed index: the term (by its place in the sorted term list), the
      array it matched in, and the position in that array. */
  datatype Hit = Hit(term: nat, list: nat, pos: nat)

  /** The outer loop from the k-th term on. */
  function Hits(arrays: seq<seq<string>>, terms: seq<string>, k: nat, cursors: seq<nat>, cmp: Cmp): (r: seq<Hit>)
    requires ValidCursors(arrays, cursors) && k <= |terms|
    ensures |r| <= |terms| - k
    decreases |terms| - k
  {
    if k == |terms| then []
    else
      var m := MatchTerm(arrays, cursors, terms[k], cmp, 0);
      var rest := Hits(arrays, terms, k + 1, m.0, cmp);
      if m.1.Some? then [Hit(k, m.1.value.0, m.1.value.1)] + rest else rest
  }

  /** Each hit compares equal to its term, and there is at most one per term,
      in term order. */
  predicate SoundHits(arrays: seq<seq<string>>, terms: seq<string>, k: nat, r: seq<Hit>, cmp: Cmp)
  {
    && (forall n :: 0 <= n < |r| ==>
      && k <= r[n].term < |terms| && r[n].list < |arrays| && r[n].pos < |arrays[r[n].list]|
      && cmp(arrays[r[n].list][r[n].pos], terms[r[n].term]) == 0)
    && (forall n, m :: 0 <= n < m < |r| ==> r[n].term < r[m].term)
  }

  lemma {:induction false} HitsSound(arrays: seq<seq<string>>, terms: seq<string>, k: nat, cursors: seq<nat>, cmp: Cmp)
    requires ValidCursors(arrays, cursors) && k <= |terms|
    ensures SoundHits(arrays, terms, k, Hits(arrays, terms, k, cursors, cmp), cmp)
    decreases |terms| - k
  {
    if k < |terms| {
      var m := MatchTerm(arrays, cursors, terms[k], cmp, 0);
      var moved, hit := m.0, m.1;
      MatchTermFacts(arrays, cursors, terms[k], cmp, 0);
      MatchTermMoves(arrays, cursors, terms[k], cmp, 0);
      HitsSound(arrays, terms, k + 1, moved, cmp);
      var rest := Hits(arrays, terms, k + 1, moved, cmp);
      if hit.Some? {
        var h := Hit(k, hit.value.0, hit.value.1);
        assert HitAt(arrays[h.list], h.pos, terms[k], cmp);
        SoundCons(arrays, terms, k, h, rest, cmp);
      } else {
        assert Hits(arrays, terms, k, cursors, cmp) == rest;
      }
    }
  }

  /** A hit on term k in front of the sound hits of the later terms. */
  lemma SoundCons(arrays: seq<seq<string>>, terms: seq<string>, k: nat, h: Hit, rest: seq<Hit>, cmp: Cmp)
    requires SoundHits(arrays, terms, k + 1, rest, cmp)
    requires h.term == k < |terms| && h.list < |arrays| && h.pos < |arrays[h.list]|
    requires cmp(arrays[h.list][h.pos], terms[k]) == 0
    ensures SoundHits(arrays, terms, k, [h] + rest, cmp)
  {
    var r := [h] + rest;
    assert r[0] == h && forall n :: 0 < n < |r| ==> r[n] == rest[n - 1];
  }

  function Positions(hits: seq<Hit>): (r: seq<nat>)
    ensures |r| == |hits| && forall n :: 0 <= n < |hits| ==> r[n] == hits[n].pos
  {
    seq(|hits|, n requires 0 <= n < |hits| => hits[n].pos)
  }

  lemma PositionsCons(h: Hit, hits: seq<Hit>)
    ensures Positions([h] + hits) == [h.pos] + Positions(hits)
  {
    assert forall n :: 0 < n < |hits| + 1 ==> ([h] + hits)[n] == hits[n - 1];
  }

  function Zeros(n: nat): (r: seq<nat>)
    ensures |r| == n && forall i :: 0 <= i < n ==> r[i] == 0
  {
    seq(n, i => 0)
  }

  /** What the caller gets back, given the comparison the arrays and terms
      are sorted by and the one the search compares with. */
  function Search(arrays: seq<seq<string>>, terms: seq<string>, order: Cmp, cmp: Cmp): (r: seq<Hit>)
    ensures |r| <= |terms|
  {
    Hits(SortEach(arrays, order), SortBy(terms, order), 0, Zeros(|arrays|), cmp)
  }

  function SortEach(arrays: seq<seq<string>>, order: Cmp): (r: seq<seq<string>>)
    ensures |r| == |arrays| && forall i :: 0 <= i < |arrays| ==> r[i] == SortBy(arrays[i], order)
  {
    seq(|arrays|, i requires 0 <= i < |arrays| => SortBy(arrays[i], order))
  }

  /** The contents of the arrays. */
  ghost function Contents(arrays: seq<array<string>>): (r: seq<seq<string>>)
    reads set i | 0 <= i < |arrays| :: arrays[i]
    ensures |r| == |arrays| && forall i :: 0 <= i < |arrays| ==> r[i] == arrays[i][..]
  {
    seq(|arrays|, i requires 0 <= i < |arrays| reads arrays => arrays[i][..])
  }

  lemma ContentsKept(arrays: seq<array<string>>, contents: seq<seq<string>>)
    requires |contents| == |arrays| && forall i :: 0 <= i < |arrays| ==> contents[i] == arrays[i][..]
    ensures Contents(arrays) == contents
  {
  }

  /** The `while` of lines 10-14 on the i-th array: the cursor moves to
      where `Advance` stops, and the last comparison is zero exactly on a hit. */
  method AdvanceInPlace(arr: array<string>, indices: array<nat>, i: nat, term: string, cmp: Cmp) returns (c: int)
    requires i < indices.Length && indices[i] <= arr.Length
    modifies indices
    ensures indices[..] == old(indices[..])[i := Advance(arr[..], old(indices[i]), term, cmp)]
    ensures c == 0 <==> HitAt(arr[..], indices[i], term, cmp)
  {
    c := -1;
    while indices[i] < arr.Length && c < 0
      invariant old(indices[i]) <= indices[i] <= arr.Length
      invariant indices[..] == old(indices[..])[i := indices[i]]
      invariant Advance(arr[..], indices[i], term, cmp) == Advance(arr[..], old(indices[i]), term, cmp)
      invariant c >= 0 ==> indices[i] < arr.Length && c == cmp(arr[indices[i]], term)
      decreases arr.Length - indices[i], if c < 0 then 1 else 0
    {
      c := cmp(arr[indices[i]], term);
      if c < 0 {
        indices[i] := indices[i] + 1;
      }
    }
  }

  /** The inner `for` of lines 9-19 for one term: the cursors move as
      `MatchTerm` says, and the position of the hit, if any, is returned. */
  method MatchTermInPlace(arrays: seq<array<string>>, ghost contents: seq<seq<string>>, indices: array<nat>, term: string, cmp: Cmp) returns (hit: Option<nat>)
    requires |contents| == |arrays| && forall i :: 0 <= i < |arrays| ==> arrays[i][..] == contents[i]
    requires ValidCursors(contents, indices[..])
    modifies indices
    ensures var r := MatchTerm(contents, old(indices[..]), term, cmp, 0);
      indices[..] == r.0 && hit == (if r.1.Some? then Some(r.1.value.1) else None)
  {
    ghost var start := indices[..];
    var i: nat := 0;
    while i < |arrays|
      invariant 0 <= i <= |arrays| && ValidCursors(contents, indices[..])
      invariant MatchTerm(contents, indices[..], term, cmp, i) == MatchTerm(contents, start, term, cmp, 0)
    {
      ghost var before := indices[..];
      var c := AdvanceInPlace(arrays[i], indices, i, term, cmp);
      ghost var stop := Advance(contents[i], before[i], term, cmp);
      assert MatchTerm(contents, before, term, cmp, i) ==
        if HitAt(contents[i], stop, term, cmp) then (indices[..], Some((i, stop)))
        else MatchTerm(contents, indices[..], term, cmp, i + 1);
      if c == 0 {
        assert MatchTerm(contents, start, term, cmp, 0) == (indices[..], Some((i, stop)));
        hit := Some(indices[i]);
        return;
      }
      i := i + 1;
    }
    assert MatchTerm(contents, start, term, cmp, 0) == (indices[..], None);
    hit := None;
  }

  /** One turn of the outer loop: the term's hit, if any, comes before the
      positions of the later terms. */
  lemma PositionsStep(arrays: seq<seq<string>>, terms: seq<string>, k: nat, cursors: seq<nat>, cmp: Cmp)
    requires ValidCursors(arrays, cursors) && k < |terms|
    ensures var m := MatchTerm(arrays, cursors, terms[k], cmp, 0);
      Positions(Hits(arrays, terms, k, cursors, cmp))
        == (if m.1.Some? then [m.1.value.1] else []) + Positions(Hits(arrays, terms, k + 1, m.0, cmp))
  {
    var m := MatchTerm(arrays, cursors, terms[k], cmp, 0);
    var rest := Hits(arrays, terms, k + 1, m.0, cmp);
    if m.1.Some? {
      PositionsCons(Hit(k, m.1.value.0, m.1.value.1), rest);
    }
  }

  /** `arrays.forEach(a => a.sort())` (line 5). */
  method SortAll(arrays: seq<array<string>>)
    requires forall i, j :: 0 <= i < j < |arrays| ==> arrays[i] != arrays[j]
    modifies set i | 0 <= i < |arrays| :: arrays[i]
    ensures forall i :: 0 <= i < |arrays| ==> arrays[i][..] == SortBy(old(arrays[i][..]), CodeUnitCmp)
  {
    var n := 0;
    ghost var before := seq(|arrays|, i requires 0 <= i < |arrays| reads arrays => arrays[i][..]);
    while n < |arrays|
      invariant n <= |arrays|
      invariant forall i :: 0 <= i < n ==> arrays[i][..] == SortBy(before[i], CodeUnitCmp)
      invariant forall i :: n <= i < |arrays| ==> arrays[i][..] == before[i]
    {
      ghost var now := seq(|arrays|, i requires 0 <= i < |arrays| reads arrays => arrays[i][..]);
      SortInPlace(arrays[n]);
      forall i | 0 <= i < |arrays| && i != n ensures arrays[i][..] == now[i] {
        assert arrays[i] != arrays[n];
      }
      n := n + 1;
    }
  }

  /** One term of the outer loop: its hit, if any, is the next position. */
  lemma SearchAdvance(contents: seq<seq<string>>, terms: seq<string>, k: nat, cursors: seq<nat>, cmp: Cmp,
                      ret: seq<nat>, whole: seq<nat>)
    requires ValidCursors(contents, cursors) && k < |terms|
    requires ret + Positions(Hits(contents, terms, k, cursors, cmp)) == whole
    ensures var m := MatchTerm(contents, cursors, terms[k], cmp, 0);
      (ret + (if m.1.Some? then [m.1.value.1] else [])) + Positions(Hits(contents, terms, k + 1, m.0, cmp)) == whole
  {
    var m := MatchTerm(contents, cursors, terms[k], cmp, 0);
    PositionsStep(contents, terms, k, cursors, cmp);
    Regroup(ret, if m.1.Some? then [m.1.value.1] else [], Positions(Hits(contents, terms, k + 1, m.0, cmp)), whole);
  }

  lemma Regroup(ret: seq<nat>, first: seq<nat>, later: seq<nat>, whole: seq<nat>)
    requires ret + (first + later) == whole
    ensures (ret + first) + later == whole
  {
  }

  /** Lines 6-21 on arrays already sorted: a cursor per array, and for each
      term at most one position pushed, as `Hits` says. */
  method SearchSorted(arrays: seq<array<string>>, searches: array<string>, cmp: Cmp) returns (ret: seq<nat>)
    ensures ret == Positions(Hits(Contents(arrays), searches[..], 0, Zeros(|arrays|), cmp))
  {
    ghost var contents := Contents(arrays);
    ghost var terms := searches[..];
    var indices := new nat[|arrays|](_ => 0);
    assert indices[..] == Zeros(|arrays|);
    ghost var whole := Hits(contents, terms, 0, Zeros(|arrays|), cmp);
    ret := [];
    var k := 0;
    while k < searches.Length
      modifies indices
      invariant k <= searches.Length && ValidCursors(contents, indices[..])
      invariant ret + Positions(Hits(contents, terms, k, indices[..], cmp)) == Positions(whole)
      invariant forall i :: 0 <= i < |arrays| ==> arrays[i][..] == contents[i]
    {
      SearchAdvance(contents, terms, k, indices[..], cmp, ret, Positions(whole));
      var hit := MatchTermInPlace(arrays, contents, indices, searches[k], cmp);
      if hit.Some? {
        ret := ret + [hit.value];
      }
      k := k + 1;
    }
    ContentsKept(arrays, contents);
  }

  /** `findMatchesSorted(arrays, searches)`, lines 3-22: the term list and every
      array are sorted in place, then searched. */
  method FindMatchesSorted(arrays: seq<array<string>>, searches: array<string>, cmp: Cmp) returns (ret: seq<nat>)
    requires forall i, j :: 0 <= i < j < |arrays| ==> arrays[i] != arrays[j]
    requires forall i :: 0 <= i < |arrays| ==> arrays[i] != searches
    modifies searches, set i | 0 <= i < |arrays| :: arrays[i]
    ensures searches[..] == SortBy(old(searches[..]), CodeUnitCmp)
    ensures forall i :: 0 <= i < |arrays| ==> arrays[i][..] == SortBy(old(arrays[i][..]), CodeUnitCmp)
    ensures ret == Positions(Hits(Contents(arrays), searches[..], 0, Zeros(|arrays|), cmp))
  {
    SortInPlace(searches);
    SortAll(arrays);
    ret := SearchSorted(arrays, searches, cmp);
  }

  /** The finding about the sort order: a term present in an array is missed
      when the default sort puts an element that the search compares above the
      term in front of it. */
  lemma {:induction false} CodeUnitSortMisses()
    ensures Search([["a", "B"]], ["a"], CodeUnitCmp, FoldCmp) == []
    ensures FoldCmp("a", "a") == 0
  {
    CodeUnitSortsUpperFirst();
    FoldExample();
    var arrays := [["B", "a"]];
    assert Advance(["B", "a"], 0, "a", FoldCmp) == 0;
    var m := MatchTerm(arrays, [0], "a", FoldCmp, 0);
    assert m.1.None?;
    assert Hits(arrays, ["a"], 1, m.0, FoldCmp) == [];
  }

  /** Code-unit order puts the capital letter first. */
  lemma CodeUnitSortsUpperFirst()
    ensures SortEach([["a", "B"]], CodeUnitCmp) == [["B", "a"]]
    ensures SortBy(["a"], CodeUnitCmp) == ["a"]
  {
    assert StrLt("B", "a");
    assert SortBy(["a"], CodeUnitCmp) == ["a"] by {
      assert ["a"][..0] == [];
    }
    assert SortBy(["a", "B"], CodeUnitCmp) == ["B", "a"] by {
      assert ["a", "B"][..1] == ["a"];
      assert InsertBy(["a"], "B", CodeUnitCmp) == InsertBy([], "B", CodeUnitCmp) + ["a"];
    }
  }

  /** Case-folded, "B" comes after "a", and "a" equals itself. */
  lemma FoldExample()
    ensures FoldCmp("B", "a") == 1 && FoldCmp("a", "a") == 0
  {
    assert Lower("B") == "b" && Lower("a") == "a";
    assert !StrLt("b", "a");
    StrLtIrreflexive("a");
  }

  /** The evidently intended search: arrays and terms sorted by the comparison
      the search uses. */
  function SearchConsistent(arrays: seq<seq<string>>, terms: seq<string>, cmp: Cmp): (r: seq<Hit>)
    ensures |r| <= |terms|
  {
    Search(arrays, terms, cmp, cmp)
  }

  /** Every element before a cursor compares below the term. */
  ghost predicate Behind(arrays: seq<seq<string>>, cursors: seq<nat>, term: string, cmp: Cmp)
    requires ValidCursors(arrays, cursors)
  {
    forall j, p :: 0 <= j < |arrays| && 0 <= p < cursors[j] ==> cmp(arrays[j][p], term) < 0
  }

  /** Sorted arrays stop a cursor on an equal element whenever there is one. */
  lemma AdvanceFinds(arr: seq<string>, c: nat, term: string, cmp: Cmp, p: nat)
    requires Consistent(cmp) && SortedBy(arr, cmp) && c <= p < |arr| && cmp(arr[p], term) == 0
    ensures HitAt(arr, Advance(arr, c, term, cmp), term, cmp)
  {
    var r := Advance(arr, c, term, cmp);
    if r < p {
      assert cmp(arr[r], arr[p]) <= 0;
    }
  }

  /** The term finds an equal element when there is one at or after the cursors. */
  lemma MatchTermFinds(arrays: seq<seq<string>>, cursors: seq<nat>, term: string, cmp: Cmp, a: nat, p: nat)
    requires Consistent(cmp) && ValidCursors(arrays, cursors)
    requires forall i :: 0 <= i < |arrays| ==> SortedBy(arrays[i], cmp)
    requires Behind(arrays, cursors, term, cmp)
    requires a < |arrays| && p < |arrays[a]| && cmp(arrays[a][p], term) == 0
    ensures MatchTerm(arrays, cursors, term, cmp, 0).1.Some?
  {
    MatchTermFacts(arrays, cursors, term, cmp, 0);
    MatchTermMoves(arrays, cursors, term, cmp, 0);
    assert cursors[a] <= p by {
      assert !(cmp(arrays[a][p], term) < 0);
    }
    AdvanceFinds(arrays[a], cursors[a], term, cmp, p);
  }

  /** The moved cursors are behind every later term. */
  lemma MatchTermBehind(arrays: seq<seq<string>>, cursors: seq<nat>, term: string, next: string, cmp: Cmp)
    requires Consistent(cmp) && ValidCursors(arrays, cursors)
    requires Behind(arrays, cursors, term, cmp) && cmp(term, next) <= 0
    ensures Behind(arrays, MatchTerm(arrays, cursors, term, cmp, 0).0, next, cmp)
  {
    var moved := MatchTerm(arrays, cursors, term, cmp, 0).0;
    MatchTermFacts(arrays, cursors, term, cmp, 0);
    MatchTermMoves(arrays, cursors, term, cmp, 0);
    forall j, q | 0 <= j < |arrays| && 0 <= q < moved[j] ensures cmp(arrays[j][q], next) < 0 {
      assert cmp(arrays[j][q], term) < 0;
    }
  }

  /** With the arrays and terms in the order of the comparison, every term
      that compares equal to some element gets a hit. */
  lemma {:induction false} HitsComplete(arrays: seq<seq<string>>, terms: seq<string>, k: nat, cursors: seq<nat>, cmp: Cmp, t: nat, a: nat, p: nat)
    requires Consistent(cmp) && ValidCursors(arrays, cursors) && k <= t < |terms|
    requires forall i :: 0 <= i < |arrays| ==> SortedBy(arrays[i], cmp)
    requires SortedBy(terms, cmp) && Behind(arrays, cursors, terms[k], cmp)
    requires a < |arrays| && p < |arrays[a]| && cmp(arrays[a][p], terms[t]) == 0
    ensures exists n :: 0 <= n < |Hits(arrays, terms, k, cursors, cmp)| && Hits(arrays, terms, k, cursors, cmp)[n].term == t
    decreases |terms| - k
  {
    var m := MatchTerm(arrays, cursors, terms[k], cmp, 0);
    var rest := Hits(arrays, terms, k + 1, m.0, cmp);
    var all := Hits(arrays, terms, k, cursors, cmp);
    if t == k {
      MatchTermFinds(arrays, cursors, terms[k], cmp, a, p);
      assert all[0].term == t;
    } else {
      MatchTermBehind(arrays, cursors, terms[k], terms[k + 1], cmp);
      HitsComplete(arrays, terms, k + 1, m.0, cmp, t, a, p);
      var n :| 0 <= n < |rest| && rest[n].term == t;
      if m.1.Some? {
        assert all[n + 1] == rest[n];
      } else {
        assert all[n] == rest[n];
      }
    }
  }

  /** The corrected search finds every search term that compares equal to an
      element of some array, exactly once. */
  lemma SearchConsistentComplete(arrays: seq<seq<string>>, terms: seq<string>, cmp: Cmp, t: nat, a: nat, x: string)
    requires Consistent(cmp) && t < |terms| && a < |arrays| && x in arrays[a] && cmp(x, SortBy(terms, cmp)[t]) == 0
    ensures exists n :: 0 <= n < |SearchConsistent(arrays, terms, cmp)| && SearchConsistent(arrays, terms, cmp)[n].term == t
  {
    var sortedArrays := SortEach(arrays, cmp);
    var sortedTerms := SortBy(terms, cmp);
    SortEachSorted(arrays, cmp);
    SortBySorted(terms, cmp);
    var p := SortedPosition(arrays[a], cmp, x);
    HitsComplete(sortedArrays, sortedTerms, 0, Zeros(|arrays|), cmp, t, a, p);
    assert SearchConsistent(arrays, terms, cmp) == Hits(sortedArrays, sortedTerms, 0, Zeros(|arrays|), cmp);
  }

  /** Sorting each array sorts all of them. */
  lemma SortEachSorted(arrays: seq<seq<string>>, cmp: Cmp)
    requires Consistent(cmp)
    ensures forall i :: 0 <= i < |arrays| ==> SortedBy(SortEach(arrays, cmp)[i], cmp)
  {
    forall i | 0 <= i < |arrays| ensures SortedBy(SortEach(arrays, cmp)[i], cmp) {
      SortBySorted(arrays[i], cmp);
    }
  }

  /** An element of an array is still there after sorting. */
  lemma SortedPosition(s: seq<string>, cmp: Cmp, x: string) returns (p: nat)
    requires x in s
    ensures p < |SortBy(s, cmp)| && SortBy(s, cmp)[p] == x
  {
    assert x in multiset(SortBy(s, cmp));
    p :| 0 <= p < |SortBy(s, cmp)| && SortBy(s, cmp)[p] == x;
  }

  /** With the consistent order the example of `CodeUnitSortMisses` is found. */
  lemma {:induction false} ConsistentSortFinds()
    ensures Positions(SearchConsistent([["a", "B"]], ["a"], FoldCmp)) == [0]
  {
    FoldSortKeeps();
    FoldExample();
    var arrays := [["a", "B"]];
    assert Advance(["a", "B"], 0, "a", FoldCmp) == 0;
    assert arrays[0] == ["a", "B"] && HitAt(arrays[0], 0, "a", FoldCmp);
    assert [0][0 := 0] == [0];
    var m := MatchTerm(arrays, [0], "a", FoldCmp, 0);
    assert m == ([0], Some((0, 0)));
    assert Hits(arrays, ["a"], 1, m.0, FoldCmp) == [];
    assert SearchConsistent(arrays, ["a"], FoldCmp) == [Hit(0, 0, 0)];
  }

  /** Case-folded order leaves both inputs as they are. */
  lemma FoldSortKeeps()
    ensures SortEach([["a", "B"]], FoldCmp) == [["a", "B"]]
    ensures SortBy(["a"], FoldCmp) == ["a"]
  {
    assert SortBy(["a"], FoldCmp) == ["a"] by {
      assert ["a"][..0] == [];
    }
    assert SortBy(["a", "B"], FoldCmp) == ["a", "B"] by {
      assert ["a", "B"][..1] == ["a"];
      assert Lower("B") == "b" && Lower("a") == "a";
      assert StrLt("a", "b");
    }
  }

  // ---------------------------------------------------------------- column derivations

  /** `boolToIndices` (line 43): the positions of the truthy entries, in order. */
  function BoolToIndices(flags: seq<JsValue>): (r: seq<nat>)
    ensures forall n :: 0 <= n < |r| ==> r[n] < |flags| && Truthy(flags[r[n]])
    ensures forall n, m :: 0 <= n < m < |r| ==> r[n] < r[m]
    ensures forall i :: 0 <= i < |flags| && Truthy(flags[i]) ==> i in r
  {
    if flags == [] then []
    else
      var init := BoolToIndices(flags[..|flags| - 1]);
      if Truthy(flags[|flags| - 1]) then init + [|flags| - 1] else init
  }

  /** `!isDs[i] && !isDb[i]` for every heading (line 46). */
  function GeneralFlags(isDs: seq<JsValue>, isDb: seq<JsValue>): (r: seq<JsValue>)
    requires |isDs| == |isDb|
    ensures |r| == |isDs| && forall i :: 0 <= i < |isDs| ==> (Truthy(r[i]) <==> !Truthy(isDs[i]) && !Truthy(isDb[i]))
  {
    seq(|isDs|, i requires 0 <= i < |isDs| => Bool(!Truthy(isDs[i]) && !Truthy(isDb[i])))
  }

  /** The general, dataset and database indices cover every heading, and a
      general heading is never also a dataset or a database. */
  lemma IndexClasses(isDs: seq<JsValue>, isDb: seq<JsValue>)
    requires |isDs| == |isDb|
    ensures forall i :: 0 <= i < |isDs| ==> i in BoolToIndices(GeneralFlags(isDs, isDb)) || i in BoolToIndices(isDs) || i in BoolToIndices(isDb)
    ensures forall i :: i in BoolToIndices(GeneralFlags(isDs, isDb)) ==> i !in BoolToIndices(isDs) && i !in BoolToIndices(isDb)
  {
    var general := BoolToIndices(GeneralFlags(isDs, isDb));
    var ds := BoolToIndices(isDs);
    var db := BoolToIndices(isDb);
    forall i | i in general ensures i !in ds && i !in db {
      var n :| 0 <= n < |general| && general[n] == i;
      assert !Truthy(isDs[i]) && !Truthy(isDb[i]);
      assert forall m :: 0 <= m < |ds| ==> ds[m] != i;
      assert forall m :: 0 <= m < |db| ==> db[m] != i;
    }
  }

  /** A cell of a column as the table holds it. */
  datatype Value = Text(s: string) | Code(n: int) | Real(x: real) | NegInfinity | Undefined

  /** `v === -1 ? Number.NEGATIVE_INFINITY : indices[col_i][v]`. */
  function Scale(v: Value, scaled: seq<real>): Value
  {
    if v == Code(-1) then NegInfinity
    else if v.Code? && 0 <= v.n < |scaled| then Real(scaled[v.n])
    else Value.Undefined
  }

  /** A dataset or database column of line 48: -1 becomes minus infinity and
      every other code the scaled value it indexes. */
  function DatasetColumn(raw: seq<Value>, scaled: seq<real>): (r: seq<Value>)
    ensures |r| == |raw|
    ensures forall k :: 0 <= k < |raw| ==> (r[k] == NegInfinity <==> raw[k] == Code(-1))
    ensures forall k :: 0 <= k < |raw| && raw[k].Code? && 0 <= raw[k].n < |scaled| ==> r[k] == Real(scaled[raw[k].n])
    ensures forall k :: 0 <= k < |raw| ==> (r[k] == Value.Undefined <==> raw[k] != Code(-1) && !(raw[k].Code? && 0 <= raw[k].n < |scaled|))
  {
    seq(|raw|, k requires 0 <= k < |raw| => Scale(raw[k], scaled))
  }

  /** The order of numbers, with minus infinity below all of them. */
  predicate NumLe(a: Value, b: Value)
  {
    a == NegInfinity || (a.Real? && b.Real? && a.x <= b.x)
  }

  predicate AscendingReals(s: seq<real>)
  {
    forall i, j :: 0 <= i < j < |s| ==> s[i] <= s[j]
  }

  /** Over an ascending scale the mapped column orders rows as their codes do,
      the missing ones (-1) first. */
  lemma DatasetColumnMonotone(raw: seq<Value>, scaled: seq<real>, k1: nat, k2: nat)
    requires AscendingReals(scaled) && k1 < |raw| && k2 < |raw|
    requires raw[k1].Code? && raw[k2].Code? && -1 <= raw[k1].n <= raw[k2].n < |scaled|
    ensures NumLe(DatasetColumn(raw, scaled)[k1], DatasetColumn(raw, scaled)[k2])
  {
    var r := DatasetColumn(raw, scaled);
    if raw[k1].n != -1 {
      assert r[k1] == Real(scaled[raw[k1].n]);
      assert r[k2] == Real(scaled[raw[k2].n]);
    }
  }

  /** `columns` of line 48: the general columns as they are, then the dataset
      and then the database columns mapped to their scaled values. */
  function Columns(original: seq<seq<Value>>, scaled: seq<seq<real>>, general: seq<nat>, datasets: seq<nat>, databases: seq<nat>): (r: seq<seq<Value>>)
    requires forall n :: 0 <= n < |general| ==> general[n] < |original|
    requires forall n :: 0 <= n < |datasets| ==> datasets[n] < |original| && datasets[n] < |scaled|
    requires forall n :: 0 <= n < |databases| ==> databases[n] < |original| && databases[n] < |scaled|
    ensures |r| == |general| + |datasets| + |databases|
    ensures forall n :: 0 <= n < |general| ==> r[n] == original[general[n]]
    ensures forall n :: 0 <= n < |datasets| ==> r[|general| + n] == DatasetColumn(original[datasets[n]], scaled[datasets[n]])
    ensures forall n :: 0 <= n < |databases| ==> r[|general| + |datasets| + n] == DatasetColumn(original[databases[n]], scaled[databases[n]])
  {
    var mapped := datasets + databases;
    assert forall n :: 0 <= n < |databases| ==> mapped[|datasets| + n] == databases[n];
    assert forall n :: 0 <= n < |mapped| ==> mapped[n] < |original| && mapped[n] < |scaled|;
    seq(|general|, n requires 0 <= n < |general| => original[general[n]])
      + seq(|mapped|, n requires 0 <= n < |mapped| => DatasetColumn(original[mapped[n]], scaled[mapped[n]]))
  }

  // ---------------------------------------------------------------- the row filter

  /** `String.prototype.includes`. */
  predicate Includes(s: string, t: string)
  {
    exists i :: 0 <= i <= |s| && OccursAt(s, t, i)
  }

  /** The search terms of line 62: the pieces between commas, trimmed and
      lower-cased. */
  function SearchTerms(search: string): (r: seq<string>)
    ensures |r| == |Split(search, ",")| && |r| > 0
  {
    var pieces := Split(search, ",");
    seq(|pieces|, i requires 0 <= i < |pieces| => Lower(TrimEnd(TrimStart(pieces[i]))))
  }

  /** A search is a single term exactly when it has no comma. */
  lemma OneTermIffNoComma(search: string)
    ensures |SearchTerms(search)| == 1 <==> ',' !in search
    ensures ',' !in search ==> SearchTerms(search) == [Lower(TrimEnd(TrimStart(search)))]
  {
    NoCommaFound(search);
    var pieces := Split(search, ",");
    assert pieces == SplitOn(search, ",");
    match Find(search, ",")
    case Some(f) =>
      assert |SplitOn(search[f + 1..], ",")| > 0;
      assert |pieces| > 1;
    case None =>
      assert pieces == [search];
  }

  /** `,` is found exactly when the search holds one. */
  lemma NoCommaFound(search: string)
    ensures Find(search, ",").None? <==> ',' !in search
  {
    var f := Find(search, ",");
    if f.Some? {
      assert search[f.value] == search[f.value..f.value + 1][0];
    } else {
      forall j | 0 <= j < |search| ensures search[j] != ',' {
        if search[j] == ',' {
          assert search[j..j + 1] == ",";
          assert OccursAt(search, ",", j);
        }
      }
    }
  }

  /** The column indices searched with one term (line 66): string columns
      whose heading is visible, in column order. */
  function Searchable(columnCount: nat, sizes: seq<JsValue>, headings: seq<string>, visible: seq<string>): (r: seq<nat>)
    ensures forall n, m :: 0 <= n < m < |r| ==> r[n] < r[m]
    ensures forall c: nat :: c in r <==> c < columnCount && c < |sizes| && Truthy(sizes[c]) && c < |headings| && headings[c] in visible
  {
    var flags := seq(columnCount, c requires 0 <= c < columnCount => Bool(c < |sizes| && Truthy(sizes[c]) && c < |headings| && headings[c] in visible));
    var r := BoolToIndices(flags);
    assert forall c :: c in r ==> c < columnCount && Truthy(flags[c]) by {
      forall c | c in r ensures c < columnCount && Truthy(flags[c]) {
        var n :| 0 <= n < |r| && r[n] == c;
      }
    }
    r
  }

  /** The cell a column holds for a row; a missing one reads as `undefined`. */
  function Cell(columns: seq<seq<Value>>, c: nat, row: nat): Value
  {
    if c < |columns| && row < |columns[c]| then columns[c][row] else Value.Undefined
  }

  /** `col_i => columns[col_i][row_i].toLowerCase().includes(term)`: only a
      string has `toLowerCase`. */
  function CellIncludes(v: Value, term: string): Result<bool, string>
  {
    if v.Text? then Ok(Includes(Lower(v.s), term)) else Err("TypeError")
  }

  predicate CellMatches(columns: seq<seq<Value>>, c: nat, row: nat, term: string)
  {
    Cell(columns, c, row).Text? && Includes(Lower(Cell(columns, c, row).s), term)
  }

  /** `searchable.some(...)`: the columns are tried in order and the first
      match ends the search; a cell that is not a string before that throws. */
  function RowMatches(columns: seq<seq<Value>>, searchable: seq<nat>, row: nat, term: string): (r: Result<bool, string>)
    ensures r == Ok(true) ==> exists n :: 0 <= n < |searchable| && CellMatches(columns, searchable[n], row, term)
    ensures r == Ok(false) ==> forall n :: 0 <= n < |searchable| ==> !CellMatches(columns, searchable[n], row, term)
    ensures (forall n :: 0 <= n < |searchable| ==> Cell(columns, searchable[n], row).Text?) ==> r.Ok?
  {
    if searchable == [] then Ok(false)
    else
      match CellIncludes(Cell(columns, searchable[0], row), term)
      case Err(e) => Err(e)
      case Ok(found) =>
        if found then Ok(true)
        else
          var rest := RowMatches(columns, searchable[1..], row, term);
          assert forall n :: 0 < n < |searchable| ==> searchable[n] == searchable[1..][n - 1];
          rest
  }

  /** `filtered.filter(...)` over the rows from `row` on. */
  function FilterRows(columns: seq<seq<Value>>, searchable: seq<nat>, row: nat, count: nat, term: string): (r: Result<seq<nat>, string>)
    requires row <= count
    ensures r.Ok? ==> KeptRows(columns, searchable, row, count, term, r.value)
    decreases count - row
  {
    if row == count then Ok([])
    else
      match RowMatches(columns, searchable, row, term)
      case Err(e) => Err(e)
      case Ok(keep) =>
        match FilterRows(columns, searchable, row + 1, count, term)
        case Err(e) => Err(e)
        case Ok(rest) =>
          if keep then
            KeptCons(columns, searchable, row, count, term, rest);
            Ok([row] + rest)
          else Ok(rest)
  }

  /** The rows kept from `row` on: ascending, and exactly those before `count`
      where some searchable cell includes the term. */
  ghost predicate KeptRows(columns: seq<seq<Value>>, searchable: seq<nat>, row: nat, count: nat, term: string, kept: seq<nat>)
  {
    && (forall n, m :: 0 <= n < m < |kept| ==> kept[n] < kept[m])
    && (forall x :: x in kept <==> row <= x < count && exists n :: 0 <= n < |searchable| && CellMatches(columns, searchable[n], x, term))
  }

  /** A matching row goes in front of the rows kept after it. */
  lemma KeptCons(columns: seq<seq<Value>>, searchable: seq<nat>, row: nat, count: nat, term: string, rest: seq<nat>)
    requires row < count && KeptRows(columns, searchable, row + 1, count, term, rest)
    requires exists n :: 0 <= n < |searchable| && CellMatches(columns, searchable[n], row, term)
    ensures KeptRows(columns, searchable, row, count, term, [row] + rest)
  {
    assert forall n :: 0 < n < |rest| + 1 ==> ([row] + rest)[n] == rest[n - 1] && rest[n - 1] in rest;
  }

  /** `Array.from(Array(n).keys())`. */
  function Range(n: nat): (r: seq<nat>)
    ensures |r| == n && forall i :: 0 <= i < n ==> r[i] == i
  {
    seq(n, i => i)
  }

  /** Lines 59-67: every row when there is no search, the filtered rows for a
      single term, and `None` where several terms go to `findMatchesSorted`. */
  function SearchRows(columns: seq<seq<Value>>, sizes: seq<JsValue>, headings: seq<string>, visible: seq<string>, search: string): (r: Option<Result<seq<nat>, string>>)
    requires |columns| > 0
    ensures search == "" ==> r == Some(Ok(Range(|columns[0]|)))
    ensures search != "" ==> (r.None? <==> ',' in search)
  {
    if search == "" then Some(Ok(Range(|columns[0]|)))
    else
      var terms := SearchTerms(search);
      OneTermIffNoComma(search);
      if |terms| == 1 then
        Some(FilterRows(columns, Searchable(|columns|, sizes, headings, visible), 0, |columns[0]|, terms[0]))
      else None
  }

  /** With one term the rows kept are, in order, exactly those where some
      visible string column contains the trimmed, lower-cased term. */
  lemma SingleTermExact(columns: seq<seq<Value>>, sizes: seq<JsValue>, headings: seq<string>, visible: seq<string>, search: string)
    requires |columns| > 0 && search != "" && ',' !in search
    requires SearchRows(columns, sizes, headings, visible, search).Some?
    requires SearchRows(columns, sizes, headings, visible, search).value.Ok?
    ensures var rows := SearchRows(columns, sizes, headings, visible, search).value.value;
      && (forall n, m :: 0 <= n < m < |rows| ==> rows[n] < rows[m])
      && forall x: nat :: x in rows <==> x < |columns[0]| && exists c: nat ::
        && c < |columns| && c < |sizes| && Truthy(sizes[c]) && c < |headings| && headings[c] in visible
        && CellMatches(columns, c, x, Lower(TrimEnd(TrimStart(search))))
  {
    OneTermIffNoComma(search);
    var term := Lower(TrimEnd(TrimStart(search)));
    var searchable := Searchable(|columns|, sizes, headings, visible);
    var rows := SearchRows(columns, sizes, headings, visible, search).value.value;
    assert rows == FilterRows(columns, searchable, 0, |columns[0]|, term).value;
    forall x: nat | x in rows ensures exists c: nat ::
        && c < |columns| && c < |sizes| && Truthy(sizes[c]) && c < |headings| && headings[c] in visible
        && CellMatches(columns, c, x, term) {
      var n :| 0 <= n < |searchable| && CellMatches(columns, searchable[n], x, term);
      assert searchable[n] in searchable;
    }
    forall x: nat, c: nat | x < |columns[0]| && c < |columns| && c < |sizes| && Truthy(sizes[c]) && c < |headings| && headings[c] in visible
        && CellMatches(columns, c, x, term) ensures x in rows {
      assert c in searchable;
      var n :| 0 <= n < |searchable| && searchable[n] == c;
    }
  }

  /** A blank search is one empty term, which every string contains: all rows
      are kept as soon as one visible string column holds text. */
  lemma BlankSearchKeepsAll(columns: seq<seq<Value>>, sizes: seq<JsValue>, headings: seq<string>, visible: seq<string>, c: nat, x: nat)
    requires |columns| > 0 && x < |columns[0]|
    requires c < |columns| && c < |sizes| && Truthy(sizes[c]) && c < |headings| && headings[c] in visible
    requires Cell(columns, c, x).Text?
    requires SearchRows(columns, sizes, headings, visible, " ").Some?
    requires SearchRows(columns, sizes, headings, visible, " ").value.Ok?
    ensures x in SearchRows(columns, sizes, headings, visible, " ").value.value
  {
    assert TrimStart(" ") == "" by {
      assert IsJsSpace(' ');
    }
    assert Includes(Lower(Cell(columns, c, x).s), "") by {
      assert OccursAt(Lower(Cell(columns, c, x).s), "", 0);
    }
    SingleTermExact(columns, sizes, headings, visible, " ");
  }
}
