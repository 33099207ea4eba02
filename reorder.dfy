/**
 * The column-reorder engine of pipeline/main.py: `get_reorder_indices`
 * computes, for every position of a canonical target order, where that entry
 * sits in an observed order; `apply_reorder_indices` copies the observed row
 * into a caller-owned buffer through that mapping.
 */
module Reorder {
  import opened Wrappers

  /** The position of the last occurrence of `v` in `given` (the dictionary
      built by one left-to-right scan keeps the last write), or None. */
  function LastIndexOf<K(==)>(given: seq<K>, v: K): (r: Option<nat>)
    ensures r.Some? ==> r.value < |given| && given[r.value] == v
    ensures r.Some? ==> forall k :: r.value < k < |given| ==> given[k] != v
    ensures r.None? <==> v !in given
  {
    if |given| == 0 then None
    else if given[|given| - 1] == v then Some(|given| - 1)
    else
      assert given == given[..|given| - 1] + [given[|given| - 1]];
      LastIndexOf(given[..|given| - 1], v)
  }

  /** The mapping `get_reorder_indices(target, given)` returns. */
  function ReorderIndices<K(==)>(target: seq<K>, given: seq<K>): seq<Option<nat>>
  {
    seq(|target|, i requires 0 <= i < |target| => LastIndexOf(given, target[i]))
  }

  /** A mapping entry copies something only when it is present and inside the input. */
  predicate Fills(j: Option<nat>, inputLength: nat) {
    j.Some? && j.value < inputLength
  }

  /** The buffer after `apply_reorder_indices(input, buffer, steps)`: slot i takes
      `input[steps[i]]` when that entry fills, and otherwise keeps what it held. */
  function Reordered<V>(buffer: seq<Option<V>>, input: seq<V>, steps: seq<Option<nat>>): seq<Option<V>>
  {
    seq(|buffer|, i requires 0 <= i < |buffer| =>
      if i < |steps| && Fills(steps[i], |input|) then Some(input[steps[i].value]) else buffer[i])
  }

  /** A buffer of n absent slots, as `[None] * n` creates it. */
  function Nones<V>(n: nat): (r: seq<Option<V>>)
    ensures |r| == n && forall i :: 0 <= i < n ==> r[i] == None
  {
    seq(n, _ => None)
  }

  /** `get_reorder_indices`: builds the last-occurrence dictionary in one loop and
      then looks every target entry up in it. */
  method GetReorderIndices<K(==)>(target: seq<K>, given: seq<K>) returns (steps: seq<Option<nat>>)
    ensures |steps| == |target|
    ensures forall i :: 0 <= i < |target| ==> steps[i] == LastIndexOf(given, target[i])
  {
    var lookup: map<K, nat> := map[];
    for i := 0 to |given|
      invariant forall v :: LastIndexOf(given[..i], v) == if v in lookup then Some(lookup[v]) else None
    {
      ghost var prefix := given[..i + 1];
      assert prefix[..i] == given[..i];
      lookup := lookup[given[i] := i];
      assert forall v :: LastIndexOf(prefix, v) == if v in lookup then Some(lookup[v]) else None;
    }
    assert given[..|given|] == given;
    steps := [];
    for i := 0 to |target|
      invariant |steps| == i
      invariant forall k :: 0 <= k < i ==> steps[k] == LastIndexOf(given, target[k])
    {
      steps := steps + [if target[i] in lookup then Some(lookup[target[i]]) else None];
    }
  }

  /** `apply_reorder_indices`: writes the caller's buffer in place and returns it.
      Slots whose mapping entry is absent or out of the input's range keep their
      previous contents; the buffer is not cleared first. */
  method ApplyReorderIndices<V>(input: seq<V>, buffer: array<Option<V>>, steps: seq<Option<nat>>)
    returns (r: array<Option<V>>)
    requires forall i :: buffer.Length <= i < |steps| ==> !Fills(steps[i], |input|)
    modifies buffer
    ensures r == buffer
    ensures buffer[..] == Reordered(old(buffer[..]), input, steps)
  {
    for i := 0 to |steps|
      invariant forall k :: 0 <= k < buffer.Length ==>
        buffer[k] == if k < i && Fills(steps[k], |input|) then Some(input[steps[k].value]) else old(buffer[k])
    {
      var j := steps[i];
      if j.Some? && j.value < |input| {
        buffer[i] := Some(input[j.value]);
      }
    }
    r := buffer;
  }

  /** Through a fresh buffer, slot i ends up holding `target[i]` exactly when that
      entry occurs in `given`, and stays absent otherwise. */
  lemma {:induction false} FreshReorderSelects<K>(target: seq<K>, given: seq<K>)
    ensures |Reordered(Nones<K>(|target|), given, ReorderIndices(target, given))| == |target|
    ensures forall i :: 0 <= i < |target| ==>
      Reordered(Nones<K>(|target|), given, ReorderIndices(target, given))[i]
        == if target[i] in given then Some(target[i]) else None
  {
    var steps := ReorderIndices(target, given);
    forall i | 0 <= i < |target|
      ensures Reordered(Nones<K>(|target|), given, steps)[i] == if target[i] in given then Some(target[i]) else None
    {
      assert steps[i] == LastIndexOf(given, target[i]);
    }
  }

  /** When every target entry occurs in the observed order, reordering through a
      fresh buffer reproduces the target exactly (duplicates in `given` do not matter). */
  lemma ReorderCoversTarget<K>(target: seq<K>, given: seq<K>)
    requires forall x :: x in target ==> x in given
    ensures Reordered(Nones<K>(|target|), given, ReorderIndices(target, given))
      == seq(|target|, i requires 0 <= i < |target| => Some(target[i]))
  {
    FreshReorderSelects(target, given);
  }

  /** Applying the same mapping and input twice leaves the buffer as one application does. */
  lemma ReorderIdempotent<V>(buffer: seq<Option<V>>, input: seq<V>, steps: seq<Option<nat>>)
    ensures Reordered(Reordered(buffer, input, steps), input, steps) == Reordered(buffer, input, steps)
  {
  }

  /** Because the buffer is not cleared, a slot filled from a longer row survives
      a later shorter row whose mapped position falls outside it. */
  lemma {:induction false} StaleSlotSurvives<V>(buffer: seq<Option<V>>, first: seq<V>, second: seq<V>,
                                               steps: seq<Option<nat>>, i: nat)
    requires i < |buffer| && i < |steps|
    requires Fills(steps[i], |first|) && !Fills(steps[i], |second|)
    ensures Reordered(Reordered(buffer, first, steps), second, steps)[i] == Some(first[steps[i].value])
  {
  }

  /** Target `[z,b,c,a]` over observed `[b,a,c,z]` gives back the target. */
  lemma ExampleReorder()
    ensures Reordered(Nones<char>(4), ['b', 'a', 'c', 'z'], ReorderIndices(['z', 'b', 'c', 'a'], ['b', 'a', 'c', 'z']))
      == [Some('z'), Some('b'), Some('c'), Some('a')]
  {
    FreshReorderSelects(['z', 'b', 'c', 'a'], ['b', 'a', 'c', 'z']);
  }

  /** Target `[z,b,c,a]` over observed `[b,a,c]` (no z) gives `[None,b,c,a]`. */
  lemma ExampleReorderMissing()
    ensures Reordered(Nones<char>(4), ['b', 'a', 'c'], ReorderIndices(['z', 'b', 'c', 'a'], ['b', 'a', 'c']))
      == [None, Some('b'), Some('c'), Some('a')]
  {
    FreshReorderSelects(['z', 'b', 'c', 'a'], ['b', 'a', 'c']);
  }

  /** Target `[b,a,c]` over observed `[z,b,c,a]` fills only the matched slots. */
  lemma ExampleReorderSubset()
    ensures Reordered(Nones<char>(3), ['z', 'b', 'c', 'a'], ReorderIndices(['b', 'a', 'c'], ['z', 'b', 'c', 'a']))
      == [Some('b'), Some('a'), Some('c')]
  {
    FreshReorderSelects(['b', 'a', 'c'], ['z', 'b', 'c', 'a']);
  }
}
