/**
 * The N-way merge-join `parallel_iterator` of pipeline/main.py. It keeps one
 * head per input stream, repeatedly yields the smallest head key together with,
 * per stream, that stream's head when its key equals the minimum (None
 * otherwise), and advances exactly the streams that contributed.
 */
module MergeJoin {
  import opened Wrappers

  /** `lt` is a strict total order on keys (what Python's `<` is on the keys used). */
  ghost predicate StrictOrder<K(!new)>(lt: (K, K) -> bool)
  {
    && (forall a :: !lt(a, a))
    && (forall a, b, c :: lt(a, b) && lt(b, c) ==> lt(a, c))
    && (forall a, b :: a != b ==> lt(a, b) || lt(b, a))
  }

  /** The items of a stream that `parallel_iterator` ever sees: a head is only
      created `if v`, so the first falsy item ends the stream for good. */
  function Live<T>(s: seq<T>, truthy: T -> bool): (r: seq<T>)
    ensures |r| <= |s| && r == s[..|r|]
    ensures forall j :: 0 <= j < |r| ==> truthy(r[j])
    ensures |r| < |s| ==> !truthy(s[|r|])
  {
    if s == [] || !truthy(s[0]) then [] else [s[0]] + Live(s[1..], truthy)
  }

  /** Keys strictly ascending along a stream. */
  ghost predicate Ascending<K, T>(s: seq<T>, key: T -> K, lt: (K, K) -> bool)
  {
    forall j, k :: 0 <= j < k < |s| ==> lt(key(s[j]), key(s[k]))
  }

  /** The precondition the pipeline relies on but never checks: every stream is
      strictly ascending by key (the upstream sort plus `iterate_unique`). */
  ghost predicate SortedStreams<K(!new), T>(streams: seq<seq<T>>, key: T -> K, lt: (K, K) -> bool, truthy: T -> bool)
  {
    StrictOrder(lt) && forall i :: 0 <= i < |streams| ==> Ascending(Live(streams[i], truthy), key, lt)
  }

  /** One yielded `(min_group_key, min_vals)` pair. */
  datatype MergeGroup<K, T> = MergeGroup(key: K, slots: seq<Option<T>>)

  /** A yielded group has one slot per stream, at least one filled slot, and
      every filled slot holds an item whose key is the group key. */
  ghost predicate GroupOk<K, T>(g: MergeGroup<K, T>, n: nat, key: T -> K)
  {
    && |g.slots| == n
    && (exists i :: 0 <= i < n && g.slots[i].Some?)
    && (forall i :: 0 <= i < n && g.slots[i].Some? ==> key(g.slots[i].value) == g.key)
  }

  ghost predicate KeysAscending<K, T>(out: seq<MergeGroup<K, T>>, lt: (K, K) -> bool)
  {
    forall g, h :: 0 <= g < h < |out| ==> lt(out[g].key, out[h].key)
  }

  function SlotItems<K, T>(g: MergeGroup<K, T>, i: nat): seq<T>
  {
    if i < |g.slots| && g.slots[i].Some? then [g.slots[i].value] else []
  }

  /** What stream i contributed, group after group. */
  function Column<K, T>(out: seq<MergeGroup<K, T>>, i: nat): seq<T>
  {
    if out == [] then [] else Column(out[..|out| - 1], i) + SlotItems(out[|out| - 1], i)
  }

  /** Python's `min(heads, key=...)`: the first head whose key no later head beats. */
  function MinKey<K, T>(heads: seq<Option<T>>, key: T -> K, lt: (K, K) -> bool): (m: Option<K>)
    ensures m.None? <==> forall i :: 0 <= i < |heads| ==> heads[i].None?
    ensures m.Some? ==> exists i :: 0 <= i < |heads| && heads[i].Some? && key(heads[i].value) == m.value
  {
    if heads == [] then None
    else
      var prev := MinKey(heads[..|heads| - 1], key, lt);
      var last := heads[|heads| - 1];
      assert forall i :: 0 <= i < |heads| - 1 ==> heads[..|heads| - 1][i] == heads[i];
      if last.None? then prev
      else if prev.None? || lt(key(last.value), prev.value) then Some(key(last.value))
      else prev
  }

  lemma {:induction false} MinKeyIsMinimal<K(!new), T>(heads: seq<Option<T>>, key: T -> K, lt: (K, K) -> bool)
    requires StrictOrder(lt)
    ensures MinKey(heads, key, lt).Some? ==>
      forall i :: 0 <= i < |heads| && heads[i].Some? ==> !lt(key(heads[i].value), MinKey(heads, key, lt).value)
  {
    if heads != [] {
      var prefix := heads[..|heads| - 1];
      MinKeyIsMinimal(prefix, key, lt);
      assert forall i :: 0 <= i < |heads| - 1 ==> prefix[i] == heads[i];
    }
  }

  /** The head `next(it, None)` produces at position p, turned into a group only `if v`. */
  function NextHead<T>(s: seq<T>, p: nat, truthy: T -> bool): Option<T>
  {
    if p < |s| && truthy(s[p]) then Some(s[p]) else None
  }

  function HeadAt<T>(l: seq<T>, p: nat): Option<T>
  {
    if p < |l| then Some(l[p]) else None
  }

  lemma NextHeadIsLive<T>(s: seq<T>, p: nat, truthy: T -> bool)
    requires p <= |Live(s, truthy)|
    ensures NextHead(s, p, truthy) == HeadAt(Live(s, truthy), p)
  {
  }

  /** Items not yet consumed, summed over the streams: the loop's variant. */
  function Remaining<T>(streams: seq<seq<T>>, pos: seq<nat>): nat
    requires |pos| == |streams|
  {
    if streams == [] then 0
    else (if pos[0] <= |streams[0]| then |streams[0]| - pos[0] else 0) + Remaining(streams[1..], pos[1..])
  }

  lemma {:induction false} RemainingDecreases<T>(streams: seq<seq<T>>, pos: seq<nat>, pos2: seq<nat>, w: nat)
    requires |pos| == |streams| == |pos2|
    requires forall i :: 0 <= i < |streams| ==> pos[i] <= pos2[i] <= |streams[i]|
    requires w < |streams| && pos[w] < pos2[w]
    ensures Remaining(streams, pos2) < Remaining(streams, pos)
  {
    if w == 0 {
      RemainingMonotone(streams[1..], pos[1..], pos2[1..]);
    } else {
      RemainingDecreases(streams[1..], pos[1..], pos2[1..], w - 1);
    }
  }

  lemma {:induction false} RemainingMonotone<T>(streams: seq<seq<T>>, pos: seq<nat>, pos2: seq<nat>)
    requires |pos| == |streams| == |pos2|
    requires forall i :: 0 <= i < |streams| ==> pos[i] <= pos2[i] <= |streams[i]|
    ensures Remaining(streams, pos2) <= Remaining(streams, pos)
  {
    if streams != [] {
      RemainingMonotone(streams[1..], pos[1..], pos2[1..]);
    }
  }

  /** The loop invariant: heads, groups, columns, and (for sorted input) order. */
  ghost predicate HeadsOk<T>(streams: seq<seq<T>>, truthy: T -> bool, pos: seq<nat>, latest: seq<Option<T>>)
  {
    && |pos| == |streams| && |latest| == |streams|
    && (forall i :: 0 <= i < |streams| ==> pos[i] <= |Live(streams[i], truthy)|)
    && (forall i :: 0 <= i < |streams| ==> latest[i] == HeadAt(Live(streams[i], truthy), pos[i]))
  }

  ghost predicate ColumnsOk<K, T>(streams: seq<seq<T>>, truthy: T -> bool, pos: seq<nat>, out: seq<MergeGroup<K, T>>)
  {
    forall i :: 0 <= i < |streams| && i < |pos| && pos[i] <= |Live(streams[i], truthy)| ==>
      Column(out, i) == Live(streams[i], truthy)[..pos[i]]
  }

  ghost predicate OrderOk<K, T>(key: T -> K, lt: (K, K) -> bool, latest: seq<Option<T>>, out: seq<MergeGroup<K, T>>)
  {
    && KeysAscending(out, lt)
    && forall g, i :: 0 <= g < |out| && 0 <= i < |latest| && latest[i].Some? ==> lt(out[g].key, key(latest[i].value))
  }

  ghost predicate Inv<K(!new), T>(streams: seq<seq<T>>, key: T -> K, lt: (K, K) -> bool, truthy: T -> bool,
                                  pos: seq<nat>, latest: seq<Option<T>>, out: seq<MergeGroup<K, T>>)
  {
    && HeadsOk(streams, truthy, pos, latest)
    && (forall g :: 0 <= g < |out| ==> GroupOk(out[g], |streams|, key))
    && ColumnsOk(streams, truthy, pos, out)
    && (SortedStreams(streams, key, lt, truthy) ==> OrderOk(key, lt, latest, out))
  }

  /** What every run of the merge yields: well-formed groups through which each
      stream's live items pass exactly once, in their original order. */
  ghost predicate IsMergeOf<K, T>(streams: seq<seq<T>>, key: T -> K, truthy: T -> bool, out: seq<MergeGroup<K, T>>)
  {
    && (forall g :: 0 <= g < |out| ==> GroupOk(out[g], |streams|, key))
    && (forall i :: 0 <= i < |streams| ==> Column(out, i) == Live(streams[i], truthy))
  }

  /** `parallel_iterator(iterators, sort_key)` run to the end, its groups collected.
      Whatever the input, each stream's items up to its first falsy one come out
      exactly once and in order, each in a group carrying its own key; when the
      streams are strictly ascending, the group keys are strictly ascending too. */
  method ParallelIterator<K(==,!new), T>(streams: seq<seq<T>>, key: T -> K, lt: (K, K) -> bool, truthy: T -> bool)
    returns (out: seq<MergeGroup<K, T>>)
    ensures IsMergeOf(streams, key, truthy, out)
    ensures SortedStreams(streams, key, lt, truthy) ==> KeysAscending(out, lt)
  {
    var pos: seq<nat> := seq(|streams|, _ => 0);
    var latest: seq<Option<T>> := seq(|streams|, i requires 0 <= i < |streams| => NextHead(streams[i], 0, truthy));
    out := [];
    forall i | 0 <= i < |streams| ensures latest[i] == HeadAt(Live(streams[i], truthy), pos[i]) {
      NextHeadIsLive(streams[i], 0, truthy);
    }
    while exists i :: 0 <= i < |latest| && latest[i].Some?
      invariant Inv(streams, key, lt, truthy, pos, latest, out)
      decreases Remaining(streams, pos)
    {
      var m := MinKey(latest, key, lt).value;
      var slots := seq(|latest|, i requires 0 <= i < |latest| =>
        if latest[i].Some? && key(latest[i].value) == m then latest[i] else None);
      assert SlotsOf(latest, key, m, slots);
      ghost var pos0, latest0, out0 := pos, latest, out;
      out := out + [MergeGroup(m, slots)];
      pos, latest := AdvanceStreams(streams, truthy, slots, pos, latest);
      Step(streams, key, lt, truthy, pos0, latest0, out0, m, slots, pos, latest);
    }
    Exhausted(streams, key, lt, truthy, pos, latest, out);
  }

  /** The `for` over the streams at the end of a round: every stream that
      contributed to the group moves to its next head. */
  method AdvanceStreams<T>(streams: seq<seq<T>>, truthy: T -> bool, slots: seq<Option<T>>, pos: seq<nat>, latest: seq<Option<T>>)
    returns (pos2: seq<nat>, latest2: seq<Option<T>>)
    requires |slots| == |latest| == |pos| == |streams|
    ensures Advanced(streams, truthy, slots, pos, latest, pos2, latest2)
  {
    pos2, latest2 := pos, latest;
    for i := 0 to |slots|
      invariant AdvancedUpTo(streams, truthy, slots, pos, latest, pos2, latest2, i)
    {
      ghost var posI, latestI := pos2, latest2;
      if slots[i].Some? {
        pos2 := pos2[i := pos2[i] + 1];
        latest2 := latest2[i := NextHead(streams[i], pos2[i], truthy)];
      }
      AdvanceOne(streams, truthy, slots, pos, latest, posI, latestI, pos2, latest2, i);
    }
  }

  /** When no head is left every stream's live items have passed through. */
  lemma Exhausted<K(!new), T>(streams: seq<seq<T>>, key: T -> K, lt: (K, K) -> bool, truthy: T -> bool,
                              pos: seq<nat>, latest: seq<Option<T>>, out: seq<MergeGroup<K, T>>)
    requires Inv(streams, key, lt, truthy, pos, latest, out)
    requires forall i :: 0 <= i < |latest| ==> latest[i].None?
    ensures IsMergeOf(streams, key, truthy, out)
    ensures SortedStreams(streams, key, lt, truthy) ==> KeysAscending(out, lt)
  {
    forall i | 0 <= i < |streams| ensures Column(out, i) == Live(streams[i], truthy) {
      assert latest[i].None?;
      assert Live(streams[i], truthy)[..pos[i]] == Live(streams[i], truthy);
    }
  }

  /** One round of the loop keeps the invariant and consumes at least one item. */
  lemma Step<K(!new), T>(streams: seq<seq<T>>, key: T -> K, lt: (K, K) -> bool, truthy: T -> bool,
                         pos: seq<nat>, latest: seq<Option<T>>, out: seq<MergeGroup<K, T>>,
                         m: K, slots: seq<Option<T>>, pos2: seq<nat>, latest2: seq<Option<T>>)
    requires Inv(streams, key, lt, truthy, pos, latest, out)
    requires MinKey(latest, key, lt) == Some(m)
    requires SlotsOf(latest, key, m, slots)
    requires Advanced(streams, truthy, slots, pos, latest, pos2, latest2)
    ensures Inv(streams, key, lt, truthy, pos2, latest2, out + [MergeGroup(m, slots)])
    ensures Remaining(streams, pos2) < Remaining(streams, pos)
  {
    var w :| 0 <= w < |latest| && latest[w].Some? && key(latest[w].value) == m;
    assert slots[w].Some?;
    StepHeads(streams, truthy, slots, pos, latest, pos2, latest2);
    RemainingDecreases(streams, pos, pos2, w);
    StepGroups(streams, key, out, m, slots, w);
    StepColumns(streams, truthy, pos, latest, out, m, slots, pos2);
    if SortedStreams(streams, key, lt, truthy) {
      StepOrder(streams, key, lt, truthy, pos, latest, out, m, slots, pos2, latest2, w);
    }
  }

  /** The slots of the group yielded for minimum key m. */
  ghost predicate SlotsOf<K, T>(latest: seq<Option<T>>, key: T -> K, m: K, slots: seq<Option<T>>)
  {
    |slots| == |latest| && forall i :: 0 <= i < |latest| ==>
      slots[i] == if latest[i].Some? && key(latest[i].value) == m then latest[i] else None
  }

  /** Exactly the contributing streams advance to their next head. */
  ghost predicate Advanced<T>(streams: seq<seq<T>>, truthy: T -> bool, slots: seq<Option<T>>,
                              pos: seq<nat>, latest: seq<Option<T>>, pos2: seq<nat>, latest2: seq<Option<T>>)
  {
    AdvancedUpTo(streams, truthy, slots, pos, latest, pos2, latest2, |slots|)
  }

  /** The first n streams have been advanced, the others not yet. */
  ghost predicate AdvancedUpTo<T>(streams: seq<seq<T>>, truthy: T -> bool, slots: seq<Option<T>>,
                                  pos: seq<nat>, latest: seq<Option<T>>, pos2: seq<nat>, latest2: seq<Option<T>>, n: nat)
  {
    && |slots| == |latest| == |pos| == |streams| == |pos2| == |latest2|
    && (forall i :: 0 <= i < |pos| ==> pos2[i] == if i < n && slots[i].Some? then pos[i] + 1 else pos[i])
    && (forall i :: 0 <= i < |latest| ==>
          latest2[i] == if i < n && slots[i].Some? then NextHead(streams[i], pos[i] + 1, truthy) else latest[i])
  }

  lemma AdvanceOne<T>(streams: seq<seq<T>>, truthy: T -> bool, slots: seq<Option<T>>,
                      pos: seq<nat>, latest: seq<Option<T>>, posI: seq<nat>, latestI: seq<Option<T>>,
                      posJ: seq<nat>, latestJ: seq<Option<T>>, i: nat)
    requires AdvancedUpTo(streams, truthy, slots, pos, latest, posI, latestI, i) && i < |slots|
    requires slots[i].Some? ==> posJ == posI[i := posI[i] + 1] && latestJ == latestI[i := NextHead(streams[i], posI[i] + 1, truthy)]
    requires slots[i].None? ==> posJ == posI && latestJ == latestI
    ensures AdvancedUpTo(streams, truthy, slots, pos, latest, posJ, latestJ, i + 1)
  {
  }

  lemma StepHeads<T>(streams: seq<seq<T>>, truthy: T -> bool, slots: seq<Option<T>>,
                     pos: seq<nat>, latest: seq<Option<T>>, pos2: seq<nat>, latest2: seq<Option<T>>)
    requires HeadsOk(streams, truthy, pos, latest)
    requires Advanced(streams, truthy, slots, pos, latest, pos2, latest2)
    requires forall i :: 0 <= i < |slots| && slots[i].Some? ==> latest[i].Some?
    ensures HeadsOk(streams, truthy, pos2, latest2)
    ensures forall i :: 0 <= i < |streams| ==> pos[i] <= pos2[i] <= |streams[i]|
  {
    forall i | 0 <= i < |streams|
      ensures pos2[i] <= |Live(streams[i], truthy)| && latest2[i] == HeadAt(Live(streams[i], truthy), pos2[i])
    {
      if slots[i].Some? { NextHeadIsLive(streams[i], pos2[i], truthy); }
    }
  }

  lemma StepGroups<K, T>(streams: seq<seq<T>>, key: T -> K, out: seq<MergeGroup<K, T>>, m: K, slots: seq<Option<T>>, w: nat)
    requires forall g :: 0 <= g < |out| ==> GroupOk(out[g], |streams|, key)
    requires |slots| == |streams| && w < |slots| && slots[w].Some?
    requires forall i :: 0 <= i < |slots| && slots[i].Some? ==> key(slots[i].value) == m
    ensures forall g :: 0 <= g < |out| + 1 ==> GroupOk((out + [MergeGroup(m, slots)])[g], |streams|, key)
  {
    var out2 := out + [MergeGroup(m, slots)];
    assert GroupOk(MergeGroup(m, slots), |streams|, key);
    forall g | 0 <= g < |out2| ensures GroupOk(out2[g], |streams|, key) {
      if g < |out| { assert out2[g] == out[g]; }
    }
  }

  lemma StepColumns<K, T>(streams: seq<seq<T>>, truthy: T -> bool, pos: seq<nat>, latest: seq<Option<T>>,
                          out: seq<MergeGroup<K, T>>, m: K, slots: seq<Option<T>>, pos2: seq<nat>)
    requires HeadsOk(streams, truthy, pos, latest) && ColumnsOk(streams, truthy, pos, out)
    requires |slots| == |latest| && forall i :: 0 <= i < |slots| && slots[i].Some? ==> slots[i] == latest[i]
    requires |pos2| == |pos| && forall i :: 0 <= i < |pos| ==> pos2[i] == if slots[i].Some? then pos[i] + 1 else pos[i]
    requires forall i :: 0 <= i < |streams| ==> pos2[i] <= |Live(streams[i], truthy)|
    ensures ColumnsOk(streams, truthy, pos2, out + [MergeGroup(m, slots)])
  {
    var out2 := out + [MergeGroup(m, slots)];
    assert out2[..|out2| - 1] == out;
    forall i | 0 <= i < |streams| ensures Column(out2, i) == Live(streams[i], truthy)[..pos2[i]] {
      var l := Live(streams[i], truthy);
      assert Column(out2, i) == Column(out, i) + SlotItems(MergeGroup(m, slots), i);
      if slots[i].Some? {
        assert l[..pos[i] + 1] == l[..pos[i]] + [l[pos[i]]];
      }
    }
  }

  lemma StepOrder<K(!new), T>(streams: seq<seq<T>>, key: T -> K, lt: (K, K) -> bool, truthy: T -> bool,
                              pos: seq<nat>, latest: seq<Option<T>>, out: seq<MergeGroup<K, T>>,
                              m: K, slots: seq<Option<T>>, pos2: seq<nat>, latest2: seq<Option<T>>, w: nat)
    requires SortedStreams(streams, key, lt, truthy)
    requires HeadsOk(streams, truthy, pos, latest) && OrderOk(key, lt, latest, out)
    requires MinKey(latest, key, lt) == Some(m)
    requires w < |latest| && latest[w].Some? && key(latest[w].value) == m
    requires SlotsOf(latest, key, m, slots)
    requires Advanced(streams, truthy, slots, pos, latest, pos2, latest2)
    requires HeadsOk(streams, truthy, pos2, latest2)
    ensures OrderOk(key, lt, latest2, out + [MergeGroup(m, slots)])
  {
    var out2 := out + [MergeGroup(m, slots)];
    MinKeyIsMinimal(latest, key, lt);
    forall g, h | 0 <= g < h < |out2| ensures lt(out2[g].key, out2[h].key) {
      if h == |out| { assert out2[g] == out[g]; }
      else { assert out2[g] == out[g] && out2[h] == out[h]; }
    }
    forall i | 0 <= i < |latest2| && latest2[i].Some? ensures lt(m, key(latest2[i].value)) {
      var k := key(latest2[i].value);
      var l := Live(streams[i], truthy);
      if slots[i].Some? {
        assert latest[i] == Some(l[pos[i]]) && latest2[i] == Some(l[pos[i] + 1]);
        assert Ascending(l, key, lt);
      } else {
        assert latest2[i] == latest[i];
        assert !lt(k, m) && k != m;
      }
    }
    forall g, i | 0 <= g < |out2| && 0 <= i < |latest2| && latest2[i].Some?
      ensures lt(out2[g].key, key(latest2[i].value))
    {
      if g < |out| {
        assert out2[g] == out[g];
        assert lt(out[g].key, m);
      }
    }
  }

  /** An item is in a stream's column exactly when some group has it in that stream's slot. */
  lemma {:induction false} ColumnMember<K, T>(out: seq<MergeGroup<K, T>>, i: nat, x: T)
    ensures x in Column(out, i) <==> exists g :: 0 <= g < |out| && i < |out[g].slots| && out[g].slots[i] == Some(x)
  {
    if out != [] {
      var prefix := out[..|out| - 1];
      ColumnMember(prefix, i, x);
      assert forall g :: 0 <= g < |prefix| ==> prefix[g] == out[g];
      if x in Column(out, i) && x !in Column(prefix, i) {
        assert out[|out| - 1].slots[i] == Some(x);
      }
    }
  }

  /** For strictly ascending input the merge is the full outer join on the key:
      stream i's slot of the group for key k holds the item of stream i with key k
      when there is one and is None otherwise, and every live item is in the group
      of its key. */
  lemma MergeIsOuterJoin<K(!new), T>(streams: seq<seq<T>>, key: T -> K, lt: (K, K) -> bool, truthy: T -> bool,
                                     out: seq<MergeGroup<K, T>>)
    requires SortedStreams(streams, key, lt, truthy)
    requires IsMergeOf(streams, key, truthy, out) && KeysAscending(out, lt)
    ensures forall g, i :: 0 <= g < |out| && 0 <= i < |streams| && out[g].slots[i].Some? ==>
      out[g].slots[i].value in Live(streams[i], truthy)
    ensures forall g, i, x :: 0 <= g < |out| && 0 <= i < |streams| && x in Live(streams[i], truthy) ==>
      (out[g].slots[i] == Some(x) <==> key(x) == out[g].key)
    ensures forall i, x :: 0 <= i < |streams| && x in Live(streams[i], truthy) ==>
      exists g :: 0 <= g < |out| && out[g].slots[i] == Some(x)
  {
    forall g, i | 0 <= g < |out| && 0 <= i < |streams| && out[g].slots[i].Some?
      ensures out[g].slots[i].value in Live(streams[i], truthy)
    {
      ColumnMember(out, i, out[g].slots[i].value);
    }
    forall g, i, x | 0 <= g < |out| && 0 <= i < |streams| && x in Live(streams[i], truthy) && key(x) == out[g].key
      ensures out[g].slots[i] == Some(x)
    {
      ColumnMember(out, i, x);
      var h :| 0 <= h < |out| && i < |out[h].slots| && out[h].slots[i] == Some(x);
      assert GroupOk(out[h], |streams|, key);
    }
    forall i, x | 0 <= i < |streams| && x in Live(streams[i], truthy)
      ensures exists g :: 0 <= g < |out| && out[g].slots[i] == Some(x)
    {
      ColumnMember(out, i, x);
    }
  }

  /** The keys of the groups, in order. */
  function Keys<K, T>(out: seq<MergeGroup<K, T>>): (ks: seq<K>)
    ensures |ks| == |out| && forall g :: 0 <= g < |out| ==> ks[g] == out[g].key
  {
    seq(|out|, g requires 0 <= g < |out| => out[g].key)
  }

  ghost predicate StrictlyAscending<K>(ks: seq<K>, lt: (K, K) -> bool)
  {
    forall j, k :: 0 <= j < k < |ks| ==> lt(ks[j], ks[k])
  }

  /** Two strictly ascending sequences with the same elements are equal. */
  lemma {:induction false} AscendingUnique<K(!new)>(a: seq<K>, b: seq<K>, lt: (K, K) -> bool)
    requires StrictOrder(lt) && StrictlyAscending(a, lt) && StrictlyAscending(b, lt)
    requires forall k :: k in a <==> k in b
    ensures a == b
  {
    if a != [] { assert a[0] in b; }
    if b != [] { assert b[0] in a; }
    if a != [] && b != [] {
      var j :| 0 <= j < |b| && b[j] == a[0];
      var i :| 0 <= i < |a| && a[i] == b[0];
      if j > 0 && i > 0 {
        assert false;
      }
      assert a[0] == b[0];
      assert a == [a[0]] + a[1..] && b == [b[0]] + b[1..];
      forall k ensures k in a[1..] <==> k in b[1..] {
        if k in a[1..] {
          var p :| 0 <= p < |a[1..]| && a[1..][p] == k;
          assert lt(a[0], a[p + 1]);
          assert k != b[0] && k in b;
        }
        if k in b[1..] {
          var p :| 0 <= p < |b[1..]| && b[1..][p] == k;
          assert lt(b[0], b[p + 1]);
          assert k != a[0] && k in a;
        }
      }
      AscendingUnique(a[1..], b[1..], lt);
      assert a == [a[0]] + a[1..] && b == [b[0]] + b[1..];
    }
  }

  /** For strictly ascending input the contract of `ParallelIterator` fixes the
      result completely: there is only one outer join. */
  lemma OuterJoinUnique<K(!new), T>(streams: seq<seq<T>>, key: T -> K, lt: (K, K) -> bool, truthy: T -> bool,
                                    out1: seq<MergeGroup<K, T>>, out2: seq<MergeGroup<K, T>>)
    requires SortedStreams(streams, key, lt, truthy)
    requires IsMergeOf(streams, key, truthy, out1) && KeysAscending(out1, lt)
    requires IsMergeOf(streams, key, truthy, out2) && KeysAscending(out2, lt)
    ensures out1 == out2
  {
    MergeIsOuterJoin(streams, key, lt, truthy, out1);
    MergeIsOuterJoin(streams, key, lt, truthy, out2);
    var k1, k2 := Keys(out1), Keys(out2);
    forall k ensures k in k1 ==> k in k2 {
      if k in k1 { KeyIsLive(streams, key, lt, truthy, out1, out2, k); }
    }
    forall k ensures k in k2 ==> k in k1 {
      if k in k2 { KeyIsLive(streams, key, lt, truthy, out2, out1, k); }
    }
    AscendingUnique(k1, k2, lt);
    forall g | 0 <= g < |out1| ensures out1[g] == out2[g] {
      assert k1[g] == k2[g];
      assert GroupOk(out1[g], |streams|, key) && GroupOk(out2[g], |streams|, key);
      forall i | 0 <= i < |streams| ensures out1[g].slots[i] == out2[g].slots[i] {
        if out1[g].slots[i].Some? {
          assert out1[g].slots[i].value in Live(streams[i], truthy);
        } else if out2[g].slots[i].Some? {
          assert out2[g].slots[i].value in Live(streams[i], truthy);
        }
      }
    }
  }

  /** A group key of one outer join is the key of a live item, so also a group key of any other. */
  lemma KeyIsLive<K(!new), T>(streams: seq<seq<T>>, key: T -> K, lt: (K, K) -> bool, truthy: T -> bool,
                              out1: seq<MergeGroup<K, T>>, out2: seq<MergeGroup<K, T>>, k: K)
    requires SortedStreams(streams, key, lt, truthy)
    requires IsMergeOf(streams, key, truthy, out1) && KeysAscending(out1, lt)
    requires IsMergeOf(streams, key, truthy, out2) && KeysAscending(out2, lt)
    requires k in Keys(out1)
    ensures k in Keys(out2)
  {
    MergeIsOuterJoin(streams, key, lt, truthy, out1);
    MergeIsOuterJoin(streams, key, lt, truthy, out2);
    var g :| 0 <= g < |out1| && out1[g].key == k;
    assert GroupOk(out1[g], |streams|, key);
    var i :| 0 <= i < |streams| && out1[g].slots[i].Some?;
    var x := out1[g].slots[i].value;
    assert x in Live(streams[i], truthy);
    var h :| 0 <= h < |out2| && out2[h].slots[i] == Some(x);
    assert GroupOk(out2[h], |streams|, key);
    assert Keys(out2)[h] == k;
  }

  function ExampleKey(x: int): int { x }
  predicate ExampleTruthy(x: int) { x != 0 }
  predicate ExampleLess(a: int, b: int) { a < b }

  /** The groups `[1,2,3,4]` and `[1,3,0,5]` merge into. */
  function ExampleOut(): seq<MergeGroup<int, int>>
  {
    [MergeGroup(1, [Some(1), Some(1)]), MergeGroup(2, [Some(2), None]),
     MergeGroup(3, [Some(3), Some(3)]), MergeGroup(4, [Some(4), None])]
  }

  /** Two sorted gene streams, `[1,2,3,4]` and `[1,3,0,5]` (the 0 is falsy and
      ends the second stream), merge into four groups with gaps where a stream
      has no entry for a key. */
  lemma ExampleMerge(out: seq<MergeGroup<int, int>>)
    requires IsMergeOf([[1, 2, 3, 4], [1, 3, 0, 5]], ExampleKey, ExampleTruthy, out)
    requires KeysAscending(out, ExampleLess)
    ensures out == [MergeGroup(1, [Some(1), Some(1)]), MergeGroup(2, [Some(2), None]),
                    MergeGroup(3, [Some(3), Some(3)]), MergeGroup(4, [Some(4), None])]
  {
    ExampleSorted();
    ExampleExpected();
    OuterJoinUnique([[1, 2, 3, 4], [1, 3, 0, 5]], ExampleKey, ExampleLess, ExampleTruthy, out, ExampleOut());
  }

  lemma ExampleLive()
    ensures Live([1, 2, 3, 4], ExampleTruthy) == [1, 2, 3, 4]
    ensures Live([1, 3, 0, 5], ExampleTruthy) == [1, 3]
  {
    assert Live([0, 5], ExampleTruthy) == [];
  }

  lemma ExampleSorted()
    ensures SortedStreams([[1, 2, 3, 4], [1, 3, 0, 5]], ExampleKey, ExampleLess, ExampleTruthy)
  {
    ExampleLive();
    assert StrictOrder(ExampleLess);
    assert Ascending([1, 2, 3, 4], ExampleKey, ExampleLess) && Ascending([1, 3], ExampleKey, ExampleLess);
  }

  lemma ExampleExpected()
    ensures IsMergeOf([[1, 2, 3, 4], [1, 3, 0, 5]], ExampleKey, ExampleTruthy, ExampleOut())
    ensures KeysAscending(ExampleOut(), ExampleLess)
  {
    var e := ExampleOut();
    var streams := [[1, 2, 3, 4], [1, 3, 0, 5]];
    ExampleLive();
    ExampleColumns();
    assert forall i :: 0 <= i < |streams| ==> Column(e, i) == Live(streams[i], ExampleTruthy) by {
      assert streams[0] == [1, 2, 3, 4] && streams[1] == [1, 3, 0, 5];
    }
    ExampleGroups();
    ExampleKeys();
  }

  lemma ExampleKeys()
    ensures KeysAscending(ExampleOut(), ExampleLess)
  {
    var e := ExampleOut();
    assert |e| == 4 && e[0].key == 1 && e[1].key == 2 && e[2].key == 3 && e[3].key == 4;
  }

  lemma ExampleGroups()
    ensures forall g :: 0 <= g < |ExampleOut()| ==> GroupOk(ExampleOut()[g], 2, ExampleKey)
  {
    var e := ExampleOut();
    forall g | 0 <= g < |e| ensures GroupOk(e[g], 2, ExampleKey) {
      assert e[g].slots[0].Some? && e[g].slots[0].value == e[g].key;
    }
  }

  lemma ExampleColumns()
    ensures Column(ExampleOut(), 0) == [1, 2, 3, 4] && Column(ExampleOut(), 1) == [1, 3]
  {
    var g1, g2, g3, g4 := MergeGroup(1, [Some(1), Some(1)]), MergeGroup(2, [Some(2), None]),
                          MergeGroup(3, [Some(3), Some(3)]), MergeGroup(4, [Some(4), None]);
    assert ExampleOut() == [g1, g2, g3, g4];
    assert [g1][..0] == [];
    assert Column([g1], 0) == [1] && Column([g1], 1) == [1];
    assert [g1, g2][..1] == [g1];
    assert Column([g1, g2], 0) == [1, 2] && Column([g1, g2], 1) == [1];
    assert [g1, g2, g3][..2] == [g1, g2];
    assert Column([g1, g2, g3], 0) == [1, 2, 3] && Column([g1, g2, g3], 1) == [1, 3];
    assert [g1, g2, g3, g4][..3] == [g1, g2, g3];
  }
}
