/**
 * Small helpers of pipeline/main.py: `safe_access_nested`, `pad_elipses`,
 * `iterate_unique` and `count_unique`.
 */
module PyHelpers {
  import opened Wrappers

  /** The Python values `safe_access_nested` walks: lists and tuples (`Seq`)
      and strings are `collections.abc.Sequence`s; everything else is not. */
  datatype Py = Seq(items: seq<Py>) | Str(chars: string) | Int(n: int) | NoneValue

  predicate IsSequence(v: Py) { v.Seq? || v.Str? }

  function Len(v: Py): nat
    requires IsSequence(v)
  {
    if v.Seq? then |v.items| else |v.chars|
  }

  /** Python subscription with a possibly negative index; indexing a string
      gives the one-character string. */
  function Item(v: Py, index: int): (r: Py)
    requires IsSequence(v) && -(Len(v) as int) <= index < Len(v)
    ensures v.Str? ==> r.Str? && |r.chars| == 1
  {
    var k := if index < 0 then Len(v) + index else index;
    if v.Seq? then v.items[k] else Str([v.chars[k]])
  }

  /** The value a path of indices reaches, or None once one step would leave a
      sequence: a non-sequence value, or `abs(index) >= len(data)`. */
  function Walk(data: Py, indices: seq<int>): Option<Py>
    decreases |indices|
  {
    if indices == [] then Some(data)
    else if !IsSequence(data) || !(Abs(indices[0]) < Len(data)) then None
    else Walk(Item(data, indices[0]), indices[1..])
  }

  function Abs(x: int): nat { if x < 0 then -x else x }

  /** `safe_access_nested(data, indices, default)`: descends one index at a time
      and gives up with the default as soon as a step is impossible. */
  method SafeAccessNested(data: Py, indices: seq<int>, default: Py) returns (r: Py)
    ensures r == Walk(data, indices).GetOr(default)
  {
    var cur := data;
    for k := 0 to |indices|
      invariant Walk(data, indices) == Walk(cur, indices[k..])
    {
      var index := indices[k];
      if !IsSequence(cur) || !(Abs(index) < Len(cur)) {
        return default;
      }
      cur := Item(cur, index);
    }
    return cur;
  }

  /** Walking a concatenated path is walking the first part and then the second. */
  lemma {:induction false} WalkAppend(data: Py, p: seq<int>, q: seq<int>)
    ensures Walk(data, p + q) == if Walk(data, p).Some? then Walk(Walk(data, p).value, q) else None
    decreases |p|
  {
    if p == [] {
      assert p + q == q;
    } else {
      assert (p + q)[0] == p[0] && (p + q)[1..] == p[1..] + q;
      if IsSequence(data) && Abs(p[0]) < Len(data) {
        WalkAppend(Item(data, p[0]), p[1..], q);
      }
    }
  }

  /** A negative index counts from the end as in Python, but the guard
      `abs(index) < len(data)` also turns away `-len(data)`, which Python itself
      would accept as the first element. */
  lemma WalkNegative(items: seq<Py>, index: int)
    requires -|items| <= index < 0
    ensures Walk(Seq(items), [index]) == if index == -|items| then None else Some(items[|items| + index])
  {
    assert [index][1..] == [];
  }

  /** Once the path leaves a sequence, extending it cannot recover a value. */
  lemma WalkStaysFailed(data: Py, p: seq<int>, q: seq<int>)
    requires Walk(data, p).None?
    ensures Walk(data, p + q).None?
  {
    WalkAppend(data, p, q);
  }

  /** Python's `s[:stop]`: a negative stop counts from the end and is clamped at 0. */
  function SliceTo(s: string, stop: int): (r: string)
    ensures |r| <= |s| && r == s[..|r|]
    ensures 0 <= stop ==> |r| == if stop < |s| then stop else |s|
    ensures stop < 0 ==> |r| == if |s| + stop < 0 then 0 else |s| + stop
  {
    if stop >= 0 then (if stop < |s| then s[..stop] else s)
    else if |s| + stop < 0 then [] else s[..|s| + stop]
  }

  function Spaces(n: nat): (r: string)
    ensures |r| == n && forall i :: 0 <= i < n ==> r[i] == ' '
  {
    seq(n, _ => ' ')
  }

  /** `pad_elipses(string, length)`: a long string is cut to `length - 3`
      characters (a Python slice) followed by "..."; a short one is padded with
      leading spaces up to `length`. For any length of at least 3 (the default
      is 20) the result has exactly that length. */
  function PadEllipses(str: string, length: int): (r: string)
    ensures length >= 3 ==> |r| == length
    ensures |str| <= length ==> |r| >= |str| && r[|r| - |str|..] == str && forall i :: 0 <= i < |r| - |str| ==> r[i] == ' '
    ensures |str| > length ==> 3 <= |r| <= |str| + 3 && r[|r| - 3..] == "..." && r[..|r| - 3] == str[..|r| - 3]
  {
    if |str| > length then SliceTo(str, length - 3) + "..."
    else Spaces(length - |str|) + str
  }

  /** Below 3 the slice bound is negative, so a long string keeps more than
      `length` characters: with length 2 a five-character string comes out as
      seven characters. */
  lemma PadEllipsesShortLength()
    ensures PadEllipses("abcde", 2) == "abcd..."
  {
    assert SliceTo("abcde", -1) == "abcd";
  }

  /** The items `iterate_unique` yields, given the key last yielded (`prev_key`,
      None at the start): an item is kept exactly when its key differs. */
  function Unique<K(==), T>(a: seq<T>, key: T -> Option<K>, prev: Option<K>): seq<T>
  {
    if a == [] then []
    else if key(a[0]) != prev then [a[0]] + Unique(a[1..], key, key(a[0]))
    else Unique(a[1..], key, prev)
  }

  /** `iterate_unique(a, cmp_key)` run to the end. The key function yields a
      Python value; None stands for Python's None, which is also `prev_key`'s
      starting value. */
  method IterateUnique<K(==), T>(a: seq<T>, key: T -> Option<K>) returns (out: seq<T>)
    ensures out == Unique(a, key, None)
  {
    var prevKey: Option<K> := None;
    out := [];
    for i := 0 to |a|
      invariant out + Unique(a[i..], key, prevKey) == Unique(a, key, None)
    {
      var currKey := key(a[i]);
      assert a[i..][1..] == a[i + 1..];
      if currKey != prevKey {
        prevKey := currKey;
        out := out + [a[i]];
      }
    }
  }

  /** `x` is obtained from `y` by deleting items. */
  predicate IsSubsequence<T(==)>(x: seq<T>, y: seq<T>)
  {
    if x == [] then true
    else if y == [] then false
    else if x[0] == y[0] then IsSubsequence(x[1..], y[1..])
    else IsSubsequence(x, y[1..])
  }

  lemma {:induction false} UniqueIsSubsequence<K, T>(a: seq<T>, key: T -> Option<K>, prev: Option<K>)
    ensures IsSubsequence(Unique(a, key, prev), a)
  {
    if a != [] {
      UniqueIsSubsequence(a[1..], key, key(a[0]));
      UniqueIsSubsequence(a[1..], key, prev);
      if key(a[0]) == prev {
        SubsequenceDropHead(Unique(a[1..], key, prev), a);
      }
    }
  }

  /** A subsequence of `y[1..]` is a subsequence of `y`. */
  lemma {:induction false} SubsequenceDropHead<T>(x: seq<T>, y: seq<T>)
    requires y != [] && IsSubsequence(x, y[1..])
    ensures IsSubsequence(x, y)
    decreases |y|, 0
  {
    if x != [] && x[0] == y[0] {
      SubsequenceDropFirst(x, y[1..]);
    }
  }

  /** Dropping the first item of a subsequence keeps it a subsequence. */
  lemma {:induction false} SubsequenceDropFirst<T>(x: seq<T>, z: seq<T>)
    requires x != [] && IsSubsequence(x, z)
    ensures IsSubsequence(x[1..], z)
    decreases |z|, 1
  {
    if x[0] == z[0] {
      if x[1..] != [] { SubsequenceDropHead(x[1..], z); }
    } else {
      SubsequenceDropFirst(x, z[1..]);
      if x[1..] != [] { SubsequenceDropHead(x[1..], z); }
    }
  }

  /** No two consecutive yielded items share a key, and the first yielded key
      differs from `prev_key` (so with prev None, an item whose key is None is
      dropped while nothing has been yielded). */
  lemma {:induction false} UniqueAdjacentDistinct<K, T>(a: seq<T>, key: T -> Option<K>, prev: Option<K>)
    ensures var out := Unique(a, key, prev);
      && (out != [] ==> key(out[0]) != prev)
      && forall j :: 0 < j < |out| ==> key(out[j - 1]) != key(out[j])
  {
    if a != [] {
      UniqueAdjacentDistinct(a[1..], key, key(a[0]));
      UniqueAdjacentDistinct(a[1..], key, prev);
      if key(a[0]) != prev {
        var rest := Unique(a[1..], key, key(a[0]));
        assert forall j :: 1 < j < |rest| + 1 ==> ([a[0]] + rest)[j] == rest[j - 1];
      }
    }
  }

  /** Every key met in the input, other than the starting `prev_key`, is the key
      of some yielded item. */
  lemma {:induction false} UniqueCoversKeys<K, T>(a: seq<T>, key: T -> Option<K>, prev: Option<K>, j: nat)
    requires j < |a| && key(a[j]) != prev
    ensures exists k :: 0 <= k < |Unique(a, key, prev)| && key(Unique(a, key, prev)[k]) == key(a[j])
  {
    var out := Unique(a, key, prev);
    if j == 0 {
      assert out[0] == a[0];
    } else if key(a[0]) != prev {
      var rest := Unique(a[1..], key, key(a[0]));
      if key(a[j]) == key(a[0]) {
        assert out[0] == a[0];
      } else {
        UniqueCoversKeys(a[1..], key, key(a[0]), j - 1);
        var k :| 0 <= k < |rest| && key(rest[k]) == key(a[1..][j - 1]);
        assert out[k + 1] == rest[k];
      }
    } else {
      UniqueCoversKeys(a[1..], key, prev, j - 1);
    }
  }

  /** Filtering an already filtered stream changes nothing. */
  lemma {:induction false} UniqueIdempotent<K, T>(a: seq<T>, key: T -> Option<K>, prev: Option<K>)
    ensures Unique(Unique(a, key, prev), key, prev) == Unique(a, key, prev)
  {
    UniqueAdjacentDistinct(a, key, prev);
    UniqueOfDistinct(Unique(a, key, prev), key, prev);
  }

  lemma {:induction false} UniqueOfDistinct<K, T>(s: seq<T>, key: T -> Option<K>, prev: Option<K>)
    requires s != [] ==> key(s[0]) != prev
    requires forall j :: 0 < j < |s| ==> key(s[j - 1]) != key(s[j])
    ensures Unique(s, key, prev) == s
  {
    if s != [] {
      assert forall j :: 0 < j < |s[1..]| ==> s[1..][j - 1] == s[j] && s[1..][j] == s[j + 1];
      UniqueOfDistinct(s[1..], key, key(s[0]));
      assert s == [s[0]] + s[1..];
    }
  }

  /** The row filter the matrix reader uses, `lambda x: x and x[0]`, on rows
      already sorted by gene: `[a, a, b, a]` keeps the first `a`, the `b` and the
      last `a`. */
  lemma ExampleUnique()
    ensures Unique(["a", "a", "b", "a"], (x: string) => Some(x), None) == ["a", "b", "a"]
  {
  }

  /** The distinct values of a sequence. */
  function Distinct<T(==)>(values: seq<T>): set<T>
  {
    set i | 0 <= i < |values| :: values[i]
  }

  function Min(a: int, b: int): int { if a < b then a else b }
  function Max(a: int, b: int): int { if a < b then b else a }

  /** `count_unique(values, limit)`: collects values into a set and stops as
      soon as it holds `limit` of them. The first value is always added before
      the test, so any non-empty input counts at least 1 even for `limit <= 1`. */
  method CountUnique<T(==)>(values: seq<T>, limit: int) returns (r: nat)
    ensures r == if values == [] then 0 else Min(|Distinct(values)|, Max(limit, 1))
  {
    var s: set<T> := {};
    for i := 0 to |values|
      invariant s == Distinct(values[..i])
      invariant i > 0 ==> |s| < limit
    {
      ghost var before := s;
      assert values[..i + 1] == values[..i] + [values[i]];
      DistinctSnoc(values[..i], values[i]);
      s := s + {values[i]};
      assert |s| <= |before| + 1;
      if |s| >= limit {
        DistinctPrefix(values, i + 1);
        return |s|;
      }
    }
    assert values[..|values|] == values;
    return |s|;
  }

  lemma DistinctSnoc<T>(values: seq<T>, v: T)
    ensures Distinct(values + [v]) == Distinct(values) + {v}
  {
    var w := values + [v];
    assert forall i :: 0 <= i < |values| ==> w[i] == values[i];
    assert w[|values|] == v;
  }

  lemma DistinctPrefix<T>(values: seq<T>, n: nat)
    requires n <= |values|
    ensures |Distinct(values[..n])| <= |Distinct(values)|
  {
    assert Distinct(values[..n]) <= Distinct(values);
    SubsetCard(Distinct(values[..n]), Distinct(values));
  }

  lemma {:induction false} SubsetCard<T>(a: set<T>, b: set<T>)
    requires a <= b
    ensures |a| <= |b|
    decreases |a|
  {
    if a != {} {
      var x :| x in a;
      SubsetCard(a - {x}, b - {x});
    }
  }
}
