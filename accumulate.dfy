/**
 * The run-length grouper `accumulate_iterator` of pipeline/main.py: it turns
 * one sorted stream into `(key, members)` groups of consecutive items with
 * equal keys (all transcript rows of one gene, for instance).
 */
module Accumulate {
  import opened Wrappers

  /** One yielded pair. The key is None only for the trailing group of an empty input. */
  datatype Group<K, T> = Group(key: Option<K>, members: seq<T>)

  /** The members of all groups, in order. */
  function Flatten<K, T>(groups: seq<Group<K, T>>): seq<T>
  {
    if groups == [] then [] else groups[0].members + Flatten(groups[1..])
  }

  lemma {:induction false} FlattenAppend<K, T>(groups: seq<Group<K, T>>, g: Group<K, T>)
    ensures Flatten(groups + [g]) == Flatten(groups) + g.members
  {
    if groups != [] {
      assert (groups + [g])[1..] == groups[1..] + [g];
      FlattenAppend(groups[1..], g);
    }
  }

  /** A group is non-empty and every member's key is the group's key. */
  ghost predicate GroupOk<K, T>(g: Group<K, T>, key: T -> K)
  {
    |g.members| > 0 && forall j :: 0 <= j < |g.members| ==> Some(key(g.members[j])) == g.key
  }

  /** `groups` splits `s` into maximal runs: concatenated they give `s`, each is a
      non-empty run of one key, and neighbouring groups have different keys. */
  ghost predicate IsRunGrouping<K, T>(s: seq<T>, key: T -> K, groups: seq<Group<K, T>>)
  {
    && Flatten(groups) == s
    && (forall g :: 0 <= g < |groups| ==> GroupOk(groups[g], key))
    && (forall g :: 0 < g < |groups| ==> groups[g - 1].key != groups[g].key)
  }

  /** `accumulate_iterator(iterator, acc_key)` run to the end, its groups collected.
      A non-empty input is split into its maximal runs; an empty input still
      yields the one trailing group `(None, [])`. */
  method AccumulateIterator<K(==), T>(s: seq<T>, key: T -> K) returns (groups: seq<Group<K, T>>)
    ensures s == [] ==> groups == [Group(None, [])]
    ensures s != [] ==> IsRunGrouping(s, key, groups)
  {
    var accKey: Option<K> := None;
    var acc: seq<T> := [];
    groups := [];
    for i := 0 to |s|
      invariant i == 0 ==> acc == [] && accKey == None && groups == []
      invariant i > 0 ==> IsRunGrouping(s[..i], key, groups + [Group(accKey, acc)])
    {
      var k := key(s[i]);
      if |acc| > 0 && Some(k) != accKey {
        OpenRun(s, i, key, groups, accKey, acc);
        groups := groups + [Group(accKey, acc)];
        acc := [];
        assert acc + [s[i]] == [s[i]];
      } else if i > 0 {
        ExtendRun(s, i, key, groups, accKey, acc);
      } else {
        StartRun(s, key);
      }
      acc := acc + [s[i]];
      accKey := Some(k);
    }
    groups := groups + [Group(accKey, acc)];
  }

  /** The first item opens the first run. */
  lemma StartRun<K, T>(s: seq<T>, key: T -> K)
    requires |s| > 0
    ensures IsRunGrouping(s[..1], key, [Group(Some(key(s[0])), [s[0]])])
  {
    assert s[..1] == [s[0]];
    assert Flatten([Group(Some(key(s[0])), [s[0]])][1..]) == [];
  }

  /** An item with a new key closes the open run and opens its own. */
  lemma OpenRun<K, T>(s: seq<T>, i: nat, key: T -> K, groups: seq<Group<K, T>>, accKey: Option<K>, acc: seq<T>)
    requires i < |s| && IsRunGrouping(s[..i], key, groups + [Group(accKey, acc)])
    requires Some(key(s[i])) != accKey
    ensures IsRunGrouping(s[..i + 1], key, groups + [Group(accKey, acc)] + [Group(Some(key(s[i])), [s[i]])])
  {
    var before := groups + [Group(accKey, acc)];
    assert s[..i + 1] == s[..i] + [s[i]];
    FlattenAppend(before, Group(Some(key(s[i])), [s[i]]));
  }

  /** An item with the open run's key joins that run. */
  lemma ExtendRun<K, T>(s: seq<T>, i: nat, key: T -> K, groups: seq<Group<K, T>>, accKey: Option<K>, acc: seq<T>)
    requires 0 < i < |s| && IsRunGrouping(s[..i], key, groups + [Group(accKey, acc)])
    requires !(|acc| > 0 && Some(key(s[i])) != accKey)
    ensures IsRunGrouping(s[..i + 1], key, groups + [Group(Some(key(s[i])), acc + [s[i]])])
  {
    var before := groups + [Group(accKey, acc)];
    assert GroupOk(before[|before| - 1], key);
    var after := groups + [Group(Some(key(s[i])), acc + [s[i]])];
    assert s[..i + 1] == s[..i] + [s[i]];
    FlattenAppend(groups, Group(accKey, acc));
    FlattenAppend(groups, Group(accKey, acc + [s[i]]));
    assert forall g :: 0 <= g < |groups| ==> after[g] == before[g];
  }

  lemma {:induction false} FlattenEmpty<K, T>(s: seq<T>, key: T -> K, groups: seq<Group<K, T>>)
    requires IsRunGrouping(s, key, groups)
    ensures s == [] <==> groups == []
  {
    if groups != [] {
      assert GroupOk(groups[0], key);
      assert |Flatten(groups)| >= |groups[0].members|;
    }
  }

  lemma {:induction false} TailGrouping<K, T>(s: seq<T>, key: T -> K, groups: seq<Group<K, T>>)
    requires IsRunGrouping(s, key, groups) && groups != []
    ensures |groups[0].members| <= |s| && s[..|groups[0].members|] == groups[0].members
    ensures IsRunGrouping(s[|groups[0].members|..], key, groups[1..])
  {
    var n := |groups[0].members|;
    assert s == groups[0].members + Flatten(groups[1..]);
    assert s[n..] == Flatten(groups[1..]);
    forall g | 0 <= g < |groups[1..]| ensures GroupOk(groups[1..][g], key) {
      assert groups[1..][g] == groups[g + 1];
    }
    forall g | 0 < g < |groups[1..]| ensures groups[1..][g - 1].key != groups[1..][g].key {
      assert groups[1..][g - 1] == groups[g] && groups[1..][g] == groups[g + 1];
    }
  }

  /** The maximal-run split of a sequence is unique, so the method's contract
      determines its result completely. */
  lemma {:induction false} RunGroupingUnique<K, T>(s: seq<T>, key: T -> K, g1: seq<Group<K, T>>, g2: seq<Group<K, T>>)
    requires IsRunGrouping(s, key, g1) && IsRunGrouping(s, key, g2)
    ensures g1 == g2
    decreases |s|
  {
    FlattenEmpty(s, key, g1);
    FlattenEmpty(s, key, g2);
    if s != [] {
      TailGrouping(s, key, g1);
      TailGrouping(s, key, g2);
      var a, b := g1[0].members, g2[0].members;
      assert GroupOk(g1[0], key) && GroupOk(g2[0], key);
      assert g1[0].key == Some(key(s[0])) == g2[0].key by {
        assert a[0] == s[0] && b[0] == s[0];
      }
      if |a| < |b| {
        FirstOfTail(s, key, g1);
        assert false;
      } else if |b| < |a| {
        FirstOfTail(s, key, g2);
        assert false;
      }
      assert g1[0] == g2[0];
      RunGroupingUnique(s[|a|..], key, g1[1..], g2[1..]);
      assert g1 == [g1[0]] + g1[1..] && g2 == [g2[0]] + g2[1..];
    }
  }

  /** The item right after the first group opens the second group, whose key differs. */
  lemma {:induction false} FirstOfTail<K, T>(s: seq<T>, key: T -> K, groups: seq<Group<K, T>>)
    requires IsRunGrouping(s, key, groups) && groups != [] && |groups[0].members| < |s|
    ensures |groups| > 1 && Some(key(s[|groups[0].members|])) != groups[0].key
  {
    TailGrouping(s, key, groups);
    var n := |groups[0].members|;
    var rest := groups[1..];
    FlattenEmpty(s[n..], key, rest);
    assert GroupOk(rest[0], key) && rest[0] == groups[1];
    assert s[n..] == rest[0].members + Flatten(rest[1..]);
    assert s[n] == rest[0].members[0];
  }

  /** The in-file check: `[1,1,5,5,3,3]` grouped by identity gives exactly three
      groups, the first `(1, [1, 1])`. */
  lemma ExampleAccumulate(groups: seq<Group<int, int>>)
    requires IsRunGrouping([1, 1, 5, 5, 3, 3], (x: int) => x, groups)
    ensures groups == [Group(Some(1), [1, 1]), Group(Some(5), [5, 5]), Group(Some(3), [3, 3])]
  {
    var expected := [Group(Some(1), [1, 1]), Group(Some(5), [5, 5]), Group(Some(3), [3, 3])];
    assert Flatten(expected) == [1, 1, 5, 5, 3, 3] by {
      assert Flatten(expected[2..]) == [3, 3];
      assert Flatten(expected[1..]) == [5, 5] + [3, 3];
    }
    assert GroupOk(expected[0], (x: int) => x);
    RunGroupingUnique([1, 1, 5, 5, 3, 3], (x: int) => x, groups, expected);
  }
}
