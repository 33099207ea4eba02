/**
 * The per-dataset sample set-up of the pipeline's main block
 * (pipeline/main.py:667-694): the sample whitelist shared by all matrices of a
 * dataset, the metadata columns kept for it, and the per-category lists of
 * sample positions used for the filtered summaries.
 */
module Samples {
  import opened Wrappers
  import opened Reorder

  /** Python's `<` on `str`: lexicographic by code point, a proper prefix first. */
  predicate StrLt(a: string, b: string)
    decreases |a|
  {
    b != [] && (a == [] || a[0] < b[0] || (a[0] == b[0] && StrLt(a[1..], b[1..])))
  }

  lemma {:induction false} StrLtIrreflexive(a: string)
    ensures !StrLt(a, a)
    decreases |a|
  {
    if a != [] {
      StrLtIrreflexive(a[1..]);
    }
  }

  lemma {:induction false} StrLtTransitive(a: string, b: string, c: string)
    requires StrLt(a, b) && StrLt(b, c)
    ensures StrLt(a, c)
    decreases |a|
  {
    if a != [] && a[0] == b[0] && b[0] == c[0] {
      StrLtTransitive(a[1..], b[1..], c[1..]);
    }
  }

  lemma {:induction false} StrLtTotal(a: string, b: string)
    requires a != b
    ensures StrLt(a, b) || StrLt(b, a)
    decreases |a|
  {
    if a != [] && b != [] && a[0] == b[0] {
      StrLtTotal(a[1..], b[1..]);
    }
  }

  /** Every finite non-empty set of strings has a least element. */
  lemma {:induction false} LeastExists(s: set<string>)
    requires s != {}
    ensures exists m :: m in s && forall y :: y in s && y != m ==> StrLt(m, y)
    decreases |s|
  {
    var x :| x in s;
    var rest := s - {x};
    if rest == {} {
      assert s == {x};
    } else {
      LeastExists(rest);
      var m :| m in rest && forall y :: y in rest && y != m ==> StrLt(m, y);
      if StrLt(m, x) {
        forall y | y in s && y != m ensures StrLt(m, y) {
          if y == x {
          } else {
            assert y in rest;
          }
        }
      } else {
        assert m != x;
        StrLtTotal(m, x);
        forall y | y in s && y != x ensures StrLt(x, y) {
          if y != m {
            assert y in rest;
            StrLtTransitive(x, m, y);
          }
        }
      }
    }
  }

  /** Strictly ascending in Python's string order. */
  predicate Ascending(s: seq<string>)
  {
    forall i, j :: 0 <= i < j < |s| ==> StrLt(s[i], s[j])
  }

  /** The samples named by some matrix header of the dataset. */
  ghost predicate InSomeHeader(matrixHeaders: seq<seq<string>>, x: string)
  {
    exists h :: 0 <= h < |matrixHeaders| && x in matrixHeaders[h]
  }

  /** `sorted(set(x for row in ss for x in row))` for the union loop of lines 667-669. */
  method UnionOfHeaders(matrixHeaders: seq<seq<string>>) returns (u: set<string>)
    ensures forall x :: x in u <==> InSomeHeader(matrixHeaders, x)
  {
    u := {};
    for h := 0 to |matrixHeaders|
      invariant forall x :: x in u <==> InSomeHeader(matrixHeaders[..h], x)
    {
      u := u + set x | x in matrixHeaders[h];
      forall x ensures x in u <==> InSomeHeader(matrixHeaders[..h + 1], x) {
        if x in u && x !in matrixHeaders[h] {
          var k :| 0 <= k < h && x in matrixHeaders[..h][k];
          assert x in matrixHeaders[..h + 1][k];
        }
        if InSomeHeader(matrixHeaders[..h + 1], x) {
          var k :| 0 <= k < h + 1 && x in matrixHeaders[..h + 1][k];
          if k < h {
            assert x in matrixHeaders[..h][k];
          }
        }
      }
    }
    assert matrixHeaders[..|matrixHeaders|] == matrixHeaders;
  }

  /** `list(sorted(s))` for a set of strings: the members in ascending order. */
  method SortedMembers(s: set<string>) returns (r: seq<string>)
    ensures Ascending(r)
    ensures forall x :: x in r <==> x in s
  {
    r := [];
    var rest := s;
    while rest != {}
      invariant rest <= s
      invariant Ascending(r)
      invariant forall x :: x in s <==> x in r || x in rest
      invariant forall i, y :: 0 <= i < |r| && y in rest ==> StrLt(r[i], y)
      decreases |rest|
    {
      LeastExists(rest);
      var m :| m in rest && forall y :: y in rest && y != m ==> StrLt(m, y);
      forall i | 0 <= i < |r| ensures StrLt(r[i], m) {
      }
      forall i, y | 0 <= i < |r| + 1 && y in rest - {m} ensures StrLt((r + [m])[i], y) {
        if i == |r| {
          assert y != m;
        }
      }
      r := r + [m];
      rest := rest - {m};
    }
  }

  /** The sample whitelist of lines 667-671: the samples present both in some
      matrix header and in the metadata, in ascending order without repeats. */
  method SampleWhitelist(matrixHeaders: seq<seq<string>>, metadataSamples: seq<string>) returns (whitelist: seq<string>)
    ensures Ascending(whitelist)
    ensures forall x :: x in whitelist <==> InSomeHeader(matrixHeaders, x) && x in metadataSamples
  {
    var fromMatrices := UnionOfHeaders(matrixHeaders);
    var whitelistSet := fromMatrices * (set x | x in metadataSamples);
    whitelist := SortedMembers(whitelistSet);
  }

  /** An ascending sequence has no repeats. */
  lemma AscendingDistinct(s: seq<string>, i: nat, j: nat)
    requires Ascending(s) && i < j < |s|
    ensures s[i] != s[j]
  {
    StrLtIrreflexive(s[i]);
  }

  /** `list(filter(lambda x: x is not None, xs))`. */
  function Present(xs: seq<Option<nat>>): (r: seq<nat>)
    ensures |r| <= |xs|
  {
    if xs == [] then []
    else if xs[0].Some? then [xs[0].value] + Present(xs[1..])
    else Present(xs[1..])
  }

  /** The metadata columns kept for a dataset (line 674): the last position in
      the metadata sample column of each whitelisted sample that occurs there. */
  function ColumnIndices(whitelist: seq<string>, sideHeaders: seq<string>): seq<nat>
  {
    Present(ReorderIndices(whitelist, sideHeaders))
  }

  lemma {:induction false} PresentAllSome(xs: seq<Option<nat>>)
    requires forall i :: 0 <= i < |xs| ==> xs[i].Some?
    ensures |Present(xs)| == |xs|
    ensures forall i :: 0 <= i < |xs| ==> Present(xs)[i] == xs[i].value
  {
    if xs != [] {
      PresentAllSome(xs[1..]);
      assert forall i :: 0 < i < |xs| ==> Present(xs)[i] == Present(xs[1..])[i - 1];
    }
  }

  /** Because every whitelisted sample also occurs in the metadata, nothing is
      filtered out: column k is the last metadata row of whitelisted sample k. */
  lemma ColumnIndicesSelect(whitelist: seq<string>, sideHeaders: seq<string>)
    requires forall x :: x in whitelist ==> x in sideHeaders
    ensures |ColumnIndices(whitelist, sideHeaders)| == |whitelist|
    ensures forall k :: 0 <= k < |whitelist| ==>
      ColumnIndices(whitelist, sideHeaders)[k] < |sideHeaders| &&
      sideHeaders[ColumnIndices(whitelist, sideHeaders)[k]] == whitelist[k]
    ensures forall k, j :: 0 <= k < |whitelist| && ColumnIndices(whitelist, sideHeaders)[k] < j < |sideHeaders| ==>
      sideHeaders[j] != whitelist[k]
  {
    var steps := ReorderIndices(whitelist, sideHeaders);
    forall i | 0 <= i < |steps| ensures steps[i].Some? {
      assert whitelist[i] in whitelist;
    }
    PresentAllSome(steps);
  }

  /** The category slot `filter_indices[fv]` addresses: Python also accepts a
      negative index counted from the end. */
  predicate InRange(fv: int, n: nat) { -(n as int) <= fv < n }

  function CategorySlot(fv: int, n: nat): nat
    requires InRange(fv, n)
  {
    if fv < 0 then n + fv else fv
  }

  /** The positions whose factor addresses category `c`, in ascending order. */
  function Positions(factors: seq<Option<int>>, c: nat, n: nat): seq<nat>
  {
    if factors == [] then []
    else
      var last := factors[|factors| - 1];
      Positions(factors[..|factors| - 1], c, n)
        + if last.Some? && InRange(last.value, n) && CategorySlot(last.value, n) == c then [|factors| - 1] else []
  }

  /** A factor outside the category range, which makes `filter_indices[fv]` raise. */
  ghost predicate HasStrayFactor(factors: seq<Option<int>>, n: nat)
  {
    exists i :: 0 <= i < |factors| && factors[i].Some? && !InRange(factors[i].value, n)
  }

  /** The loop of lines 690-692 over the reordered factors: every sample
      position goes to the list of its category. An out-of-range factor raises
      IndexError, read here as None. */
  method FilterIndices(factors: seq<Option<int>>, categories: nat) returns (r: Option<seq<seq<nat>>>)
    ensures r.None? <==> HasStrayFactor(factors, categories)
    ensures r.Some? ==> |r.value| == categories
    ensures r.Some? ==> forall c :: 0 <= c < categories ==> r.value[c] == Positions(factors, c, categories)
  {
    var lists: seq<seq<nat>> := seq(categories, _ => []);
    for i := 0 to |factors|
      invariant |lists| == categories
      invariant !HasStrayFactor(factors[..i], categories)
      invariant forall c :: 0 <= c < categories ==> lists[c] == Positions(factors[..i], c, categories)
    {
      assert factors[..i + 1][..i] == factors[..i];
      var fv := factors[i];
      if fv.Some? {
        if !InRange(fv.value, categories) {
          return None;
        }
        var slot := CategorySlot(fv.value, categories);
        lists := lists[slot := lists[slot] + [i]];
      }
      ghost var done := factors[..i + 1];
      assert !HasStrayFactor(done, categories) by {
        forall j | 0 <= j < i + 1 ensures done[j].Some? ==> InRange(done[j].value, categories) {
          if j < i {
            assert done[j] == factors[..i][j];
          }
        }
      }
    }
    assert factors[..|factors|] == factors;
    return Some(lists);
  }

  /** A position is listed under a category exactly when its factor addresses
      that category, and the lists are strictly ascending. */
  lemma {:induction false} PositionsExact(factors: seq<Option<int>>, c: nat, n: nat)
    ensures forall k :: k in Positions(factors, c, n) <==>
      0 <= k < |factors| && factors[k].Some? && InRange(factors[k].value, n) && CategorySlot(factors[k].value, n) == c
    ensures forall i, j :: 0 <= i < j < |Positions(factors, c, n)| ==> Positions(factors, c, n)[i] < Positions(factors, c, n)[j]
    ensures forall i :: 0 <= i < |Positions(factors, c, n)| ==> Positions(factors, c, n)[i] < |factors|
    decreases |factors|
  {
    if factors != [] {
      var init := factors[..|factors| - 1];
      PositionsExact(init, c, n);
      forall k | 0 <= k < |init| ensures factors[k] == init[k] { }
    }
  }

  /** Every position with an in-range factor is listed under exactly one category. */
  lemma PositionsPartition(factors: seq<Option<int>>, n: nat, k: nat, c1: nat, c2: nat)
    requires k in Positions(factors, c1, n) && k in Positions(factors, c2, n)
    ensures c1 == c2
  {
    PositionsExact(factors, c1, n);
    PositionsExact(factors, c2, n);
  }

  /** The in-file reorder fixture used as a factor column: samples
      `[z, b, c, a]` reordered from `[b, a, c]` with factors `[0, 1, 0]`. An
      absent sample (a None factor) lands in no category. */
  lemma ExampleFilterIndices()
    ensures Positions(Reordered(Nones<int>(4), [0, 1, 0], ReorderIndices(["z", "b", "c", "a"], ["b", "a", "c"])), 0, 2) == [1, 2]
    ensures Positions(Reordered(Nones<int>(4), [0, 1, 0], ReorderIndices(["z", "b", "c", "a"], ["b", "a", "c"])), 1, 2) == [3]
  {
    var steps := ReorderIndices(["z", "b", "c", "a"], ["b", "a", "c"]);
    assert steps == [None, Some(0), Some(2), Some(1)] by {
      assert LastIndexOf(["b", "a", "c"], "z") == None;
      assert LastIndexOf(["b", "a", "c"], "b") == Some(0);
      assert LastIndexOf(["b", "a", "c"], "c") == Some(2);
      assert LastIndexOf(["b", "a", "c"], "a") == Some(1);
    }
    var fs := Reordered(Nones<int>(4), [0, 1, 0], steps);
    assert fs == [None, Some(0), Some(0), Some(1)];
    var f1, f2, f3: seq<Option<int>> := [None], [None, Some(0)], [None, Some(0), Some(0)];
    assert f1[..0] == [] && f2[..1] == f1 && f3[..2] == f2 && fs[..3] == f3;
    assert Positions(f1, 0, 2) == [] && Positions(f1, 1, 2) == [];
    assert Positions(f2, 0, 2) == [1] && Positions(f2, 1, 2) == [];
    assert Positions(f3, 0, 2) == [1, 2] && Positions(f3, 1, 2) == [];
  }
}
