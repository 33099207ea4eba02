/**
 * The row loader inside `row.subscribe` of frontend/src/lib/stores/core.js.
 * For a selected row it plans one byte range per matrix stream from the
 * sparse index and the start/end offsets, sorts the ranges, fetches them with
 * one `Range` request, and cuts each stream's bytes out of the streamed body
 * as soon as they have arrived. The network is a parameter (a response for a
 * header), and the decoding of a part (`bufferToRow`) is not modelled: a
 * stream receives its part's bytes.
 */
module RangeRequests {
  import opened Wrappers
  import opened RangeCodec
  import Params

  /** One entry of `rowStreams`, with the datasets it reads: the dataset's sparse
      index and the matrix's start and end offsets, as stored in the HDF5 file. */
  datatype StreamInfo = StreamInfo(index: seq<int>, starts: seq<int>, ends: seq<int>, length: nat)

  /** A planned request; `id` is the position of its stream in `rowStreams`. */
  datatype Request = Request(id: nat, length: nat, byteStart: int, byteEnd: int)

  /** What `rowStream.current.set(...)` publishes. */
  datatype StreamState = Loading | Empty | Failed(message: string) | Part(bytes: seq<byte>)

  datatype Event = Event(stream: nat, state: StreamState)

  /** How the handler ends: normally, by the TypeError of `requests[0]` on an
      empty request list, or by a RangeError from the typed array. */
  datatype Outcome = Done | TypeError | RangeError

  /** The server's answer to the combined request. */
  datatype Response = Response(status: int, contentLength: Option<int>, chunks: seq<seq<byte>>)

  const InvalidStatus := "Invalid response, 206 expected"
  const UnexpectedLength := "Unexpected response length"

  // ---------------------------------------------------------------- planning (lines 93-110)

  /** `index[$row] >= 0`: an index entry outside the array is undefined and
      compares false. */
  predicate Wanted(s: StreamInfo, row: int)
  {
    0 <= row < |s.index| && s.index[row] >= 0
  }

  /** The file's own consistency: a present index entry names an existing offset pair. */
  predicate Addressable(s: StreamInfo, row: int)
  {
    Wanted(s, row) ==> s.index[row] < |s.starts| && s.index[row] < |s.ends|
  }

  /** And, as the pipeline writes them, a range starts no later than it ends. */
  predicate RangeOrdered(s: StreamInfo, row: int)
  {
    Wanted(s, row) && Addressable(s, row) ==> s.starts[s.index[row]] <= s.ends[s.index[row]]
  }

  function RequestFor(streams: seq<StreamInfo>, k: nat, row: int): Request
    requires k < |streams| && Wanted(streams[k], row) && Addressable(streams[k], row)
  {
    var s := streams[k];
    Request(k, s.length, s.starts[s.index[row]], s.ends[s.index[row]])
  }

  /** The planning loop: a stream whose index entry is present gets `loading`
      and a request for its offsets; every other stream is marked empty. */
  method PlanRequests(streams: seq<StreamInfo>, row: int) returns (requests: seq<Request>, events: seq<Event>)
    requires forall k :: 0 <= k < |streams| ==> Addressable(streams[k], row)
    ensures |events| == |streams|
    ensures forall k :: 0 <= k < |streams| ==> events[k] == Event(k, if Wanted(streams[k], row) then Loading else Empty)
    ensures forall i :: 0 <= i < |requests| ==>
              requests[i].id < |streams| && Wanted(streams[requests[i].id], row)
              && requests[i] == RequestFor(streams, requests[i].id, row)
    ensures IdsAscending(requests)
    ensures forall k :: 0 <= k < |streams| && Wanted(streams[k], row) ==> exists i :: 0 <= i < |requests| && requests[i].id == k
  {
    requests := [];
    events := [];
    var k := 0;
    while k < |streams|
      invariant 0 <= k <= |streams|
      invariant |events| == k
      invariant forall j :: 0 <= j < k ==> events[j] == Event(j, if Wanted(streams[j], row) then Loading else Empty)
      invariant forall i :: 0 <= i < |requests| ==>
                  requests[i].id < k && Wanted(streams[requests[i].id], row)
                  && requests[i] == RequestFor(streams, requests[i].id, row)
      invariant IdsAscending(requests)
      invariant forall j :: 0 <= j < k && Wanted(streams[j], row) ==> exists i :: 0 <= i < |requests| && requests[i].id == j
    {
      if Wanted(streams[k], row) {
        ghost var prev := requests;
        events := events + [Event(k, Loading)];
        requests := requests + [RequestFor(streams, k, row)];
        forall j | 0 <= j < k + 1 && Wanted(streams[j], row)
          ensures exists i :: 0 <= i < |requests| && requests[i].id == j
        {
          if j == k {
            assert requests[|requests| - 1].id == k;
          } else {
            var i :| 0 <= i < |prev| && prev[i].id == j;
            assert requests[i] == prev[i];
          }
        }
      } else {
        events := events + [Event(k, Empty)];
      }
      k := k + 1;
    }
  }

  predicate IdsAscending(rs: seq<Request>)
  {
    forall i, j :: 0 <= i < j < |rs| ==> rs[i].id < rs[j].id
  }

  // ---------------------------------------------------------------- sorting (line 111)

  predicate SortedByStart(rs: seq<Request>)
  {
    forall i, j :: 0 <= i < j < |rs| ==> rs[i].byteStart <= rs[j].byteStart
  }

  /** Ordered by start, ties by id: what a stable sort of an id-ordered list gives. */
  predicate LexSorted(rs: seq<Request>)
  {
    forall i, j :: 0 <= i < j < |rs| ==>
      rs[i].byteStart < rs[j].byteStart || (rs[i].byteStart == rs[j].byteStart && rs[i].id < rs[j].id)
  }

  /** Inserts behind every element that starts no later. */
  function Insert(sorted: seq<Request>, x: Request): (r: seq<Request>)
    ensures multiset(r) == multiset(sorted) + multiset{x}
    ensures |r| == |sorted| + 1
  {
    if sorted == [] || sorted[|sorted| - 1].byteStart <= x.byteStart then sorted + [x]
    else
      var init := sorted[..|sorted| - 1];
      assert sorted == init + [sorted[|sorted| - 1]];
      Insert(init, x) + [sorted[|sorted| - 1]]
  }

  /** `requests.sort((a, b) => a.byteStart - b.byteStart)`: Array.prototype.sort
      is stable (ECMA-262 section 23.1.3.30), which insertion sort is too. */
  function SortByStart(rs: seq<Request>): seq<Request>
  {
    if rs == [] then [] else Insert(SortByStart(rs[..|rs| - 1]), rs[|rs| - 1])
  }

  /** Every element an insertion moves past starts later than the new one. */
  lemma InsertBelow(sorted: seq<Request>, x: Request, bound: Request, i: nat)
    requires forall j :: 0 <= j < |sorted| ==> sorted[j].byteStart <= bound.byteStart
    requires x.byteStart <= bound.byteStart
    requires i < |Insert(sorted, x)|
    ensures Insert(sorted, x)[i].byteStart <= bound.byteStart
  {
    var r := Insert(sorted, x);
    assert r[i] in multiset(sorted) + multiset{x};
    if r[i] != x {
      assert r[i] in sorted;
    }
  }

  lemma {:induction false} InsertSorted(sorted: seq<Request>, x: Request)
    requires SortedByStart(sorted)
    ensures SortedByStart(Insert(sorted, x))
  {
    if sorted != [] && sorted[|sorted| - 1].byteStart > x.byteStart {
      var init := sorted[..|sorted| - 1];
      var last := sorted[|sorted| - 1];
      InsertSorted(init, x);
      forall i | 0 <= i < |init| + 1 ensures Insert(init, x)[i].byteStart <= last.byteStart {
        InsertBelow(init, x, last, i);
      }
    }
  }

  lemma {:induction false} InsertLex(sorted: seq<Request>, x: Request)
    requires LexSorted(sorted) && forall i :: 0 <= i < |sorted| ==> sorted[i].id < x.id
    ensures LexSorted(Insert(sorted, x))
  {
    if sorted != [] && sorted[|sorted| - 1].byteStart > x.byteStart {
      var init := sorted[..|sorted| - 1];
      var last := sorted[|sorted| - 1];
      InsertLex(init, x);
      var s := Insert(init, x);
      forall i | 0 <= i < |s|
        ensures s[i].byteStart < last.byteStart || (s[i].byteStart == last.byteStart && s[i].id < last.id)
      {
        assert s[i] in multiset(init) + multiset{x};
        if s[i] != x {
          assert s[i] in init;
          var j :| 0 <= j < |init| && init[j] == s[i];
          assert sorted[j] == s[i];
        }
      }
    }
  }

  /** The sort orders by start and is a permutation. */
  lemma {:induction false} SortByStartSorted(rs: seq<Request>)
    ensures SortedByStart(SortByStart(rs))
  {
    if rs != [] {
      SortByStartSorted(rs[..|rs| - 1]);
      InsertSorted(SortByStart(rs[..|rs| - 1]), rs[|rs| - 1]);
    }
  }

  lemma {:induction false} SortByStartPermutes(rs: seq<Request>)
    ensures multiset(SortByStart(rs)) == multiset(rs)
  {
    if rs != [] {
      var init := rs[..|rs| - 1];
      SortByStartPermutes(init);
      assert rs == init + [rs[|rs| - 1]];
    }
  }

  lemma SortedMembers(rs: seq<Request>)
    ensures forall i :: 0 <= i < |SortByStart(rs)| ==> SortByStart(rs)[i] in rs
  {
    SortByStartPermutes(rs);
    forall i | 0 <= i < |SortByStart(rs)| ensures SortByStart(rs)[i] in rs {
      assert SortByStart(rs)[i] in multiset(rs);
    }
  }

  /** On a list in id order (as planned) the sort is stable: equal starts keep
      their id order. */
  lemma {:induction false} SortByStartStable(rs: seq<Request>)
    requires IdsAscending(rs)
    ensures LexSorted(SortByStart(rs))
  {
    if rs != [] {
      var init := rs[..|rs| - 1];
      var x := rs[|rs| - 1];
      assert IdsAscending(init);
      SortByStartStable(init);
      SortByStartPermutes(init);
      var s := SortByStart(init);
      forall i | 0 <= i < |s| ensures s[i].id < x.id {
        assert s[i] in multiset(init);
        var j :| 0 <= j < |init| && init[j] == s[i];
      }
      InsertLex(s, x);
    }
  }

  // ---------------------------------------------------------------- the Range header (line 117)

  /** `'bytes=' + first.byteStart + '-' + (last.byteEnd - 1)`. */
  function RangeHeader(requests: seq<Request>): string
    requires |requests| > 0
  {
    "bytes=" + Params.ToString(Params.Num(requests[0].byteStart)) + "-"
    + Params.ToString(Params.Num(requests[|requests| - 1].byteEnd - 1))
  }

  /** The byte range of section 14.1.2 of RFC 9110 names its first and last byte
      inclusively: the header asks for [first, last] with last = lastEnd - 1, so
      its positions read back with parseInt and it spans lastEnd - first bytes,
      the length line 126 expects. When the ranges are ordered (ends ascending
      too, as written by the pipeline), every request lies inside it. */
  lemma RangeHeaderSpans(requests: seq<Request>)
    requires |requests| > 0 && SortedByStart(requests)
    requires forall i, j :: 0 <= i < j < |requests| ==> requests[i].byteEnd <= requests[j].byteEnd
    ensures var first := requests[0].byteStart;
            var last := requests[|requests| - 1].byteEnd - 1;
            && RangeHeader(requests) == "bytes=" + Params.ToString(Params.Num(first)) + "-" + Params.ToString(Params.Num(last))
            && Params.ParseInt(Params.ToString(Params.Num(first))) == Params.Num(first)
            && Params.ParseInt(Params.ToString(Params.Num(last))) == Params.Num(last)
            && last - first + 1 == requests[|requests| - 1].byteEnd - requests[0].byteStart
            && forall i :: 0 <= i < |requests| ==> first <= requests[i].byteStart && requests[i].byteEnd - 1 <= last
  {
    Params.ParseIntToString(requests[0].byteStart);
    Params.ParseIntToString(requests[|requests| - 1].byteEnd - 1);
  }

  // ---------------------------------------------------------------- the streamed body (lines 121-151)

  /** Every stream's error, in `rowStreams` order. */
  function FailAll(streams: nat, message: string): (r: seq<Event>)
    ensures |r| == streams && forall k :: 0 <= k < streams ==> r[k] == Event(k, Failed(message))
  {
    seq(streams, k requires 0 <= k < streams => Event(k, Failed(message)))
  }

  /** The received bytes, chunk after chunk. */
  function Concat(chunks: seq<seq<byte>>): seq<byte>
  {
    if chunks == [] then [] else Concat(chunks[..|chunks| - 1]) + chunks[|chunks| - 1]
  }

  /** How many chunks `chunksAll.set(value, receivedBytes)` accepts before one
      no longer fits in the buffer of `cap` bytes. */
  function Accepted(chunks: seq<seq<byte>>, cap: int): (p: nat)
    ensures p <= |chunks|
  {
    if chunks == [] || |chunks[0]| > cap then 0 else 1 + Accepted(chunks[1..], cap - |chunks[0]|)
  }

  /** A request's bytes have arrived. */
  predicate Fits(r: Request, o: int, received: int)
  {
    r.byteEnd - o <= received
  }

  /** The length of the longest prefix of requests whose bytes have arrived. */
  function FitCount(rs: seq<Request>, o: int, received: int): (n: nat)
    ensures n <= |rs| && (forall j :: 0 <= j < n ==> Fits(rs[j], o, received))
    ensures n < |rs| ==> !Fits(rs[n], o, received)
  {
    if rs == [] || !Fits(rs[0], o, received) then 0
    else
      var n := FitCount(rs[1..], o, received);
      assert forall j :: 1 <= j < 1 + n ==> rs[j] == rs[1..][j - 1];
      1 + n
  }

  lemma {:induction false} FitCountExact(rs: seq<Request>, o: int, received: int, n: nat)
    requires n <= |rs| && (forall j :: 0 <= j < n ==> Fits(rs[j], o, received))
    requires n < |rs| ==> !Fits(rs[n], o, received)
    ensures FitCount(rs, o, received) == n
  {
  }

  /** `subarray(begin, end)` of a typed array (ECMA-262 section 23.2.3.30):
      negative positions count from the end, both are clamped to the length,
      and an empty range gives an empty view. */
  function Subarray(s: seq<byte>, begin: int, end: int): (r: seq<byte>)
    ensures 0 <= begin <= end <= |s| ==> r == s[begin..end]
  {
    var b := if begin < 0 then (if |s| + begin < 0 then 0 else |s| + begin) else (if begin > |s| then |s| else begin);
    var e := if end < 0 then (if |s| + end < 0 then 0 else |s| + end) else (if end > |s| then |s| else end);
    if b < e then s[b..e] else []
  }

  /** A request's bytes, cut out of the received data. */
  function Slice(data: seq<byte>, r: Request, o: int): seq<byte>
    requires o <= r.byteStart <= r.byteEnd && r.byteEnd - o <= |data|
  {
    data[r.byteStart - o..r.byteEnd - o]
  }

  predicate Cuttable(rs: seq<Request>, o: int, data: seq<byte>)
  {
    forall j :: 0 <= j < |rs| ==> o <= rs[j].byteStart <= rs[j].byteEnd && Fits(rs[j], o, |data|)
  }

  /** The pipeline writes every range with its start before its end. */
  predicate WellFormed(rs: seq<Request>)
  {
    forall j :: 0 <= j < |rs| ==> rs[j].byteStart <= rs[j].byteEnd
  }

  /** The parts delivered for a prefix of the requests, in order. */
  function Parts(rs: seq<Request>, o: int, data: seq<byte>): (r: seq<Event>)
    requires Cuttable(rs, o, data)
    ensures |r| == |rs|
  {
    if rs == [] then []
    else Parts(rs[..|rs| - 1], o, data) + [Event(rs[|rs| - 1].id, Part(Slice(data, rs[|rs| - 1], o)))]
  }

  /** Data that arrives later does not change a part already cut. */
  lemma {:induction false} PartsExtend(rs: seq<Request>, o: int, data: seq<byte>, more: seq<byte>)
    requires Cuttable(rs, o, data)
    ensures Cuttable(rs, o, data + more) && Parts(rs, o, data + more) == Parts(rs, o, data)
  {
    if rs != [] {
      PartsExtend(rs[..|rs| - 1], o, data, more);
      var last := rs[|rs| - 1];
      assert (data + more)[last.byteStart - o..last.byteEnd - o] == data[last.byteStart - o..last.byteEnd - o];
    }
  }

  /** What the body loop promises: an optional length error on every stream,
      then one part per request for the longest prefix of the sorted requests
      whose bytes have arrived (nothing before the first chunk); a chunk that
      overruns the buffer, or a negative length, ends it with a RangeError. */
  function Delivery(requests: seq<Request>, responseLen: Option<int>, chunks: seq<seq<byte>>, streams: nat): (seq<Event>, Outcome)
    requires |requests| > 0 && SortedByStart(requests) && WellFormed(requests)
  {
    var o := requests[0].byteStart;
    var flagged := if responseLen != Some(requests[|requests| - 1].byteEnd - o) then FailAll(streams, UnexpectedLength) else [];
    var cap := if responseLen.Some? then responseLen.value else 0;
    if cap < 0 then (flagged, RangeError)
    else
      var streamed := Streamed(requests, cap, chunks);
      (flagged + streamed.0, if streamed.1 then RangeError else Done)
  }

  /** The parts cut from a body of chunks into a buffer of `cap` bytes, and
      whether a chunk overran it. */
  function Streamed(requests: seq<Request>, cap: nat, chunks: seq<seq<byte>>): (seq<Event>, bool)
    requires |requests| > 0 && SortedByStart(requests) && WellFormed(requests)
  {
    var o := requests[0].byteStart;
    var p := Accepted(chunks, cap);
    var data := Concat(chunks[..p]);
    var n := if p == 0 then 0 else FitCount(requests, o, |data|);
    CuttablePrefix(requests, o, data, n);
    (Parts(requests[..n], o, data), p < |chunks|)
  }

  lemma ConcatSnoc(chunks: seq<seq<byte>>, c: nat)
    requires c < |chunks|
    ensures Concat(chunks[..c + 1]) == Concat(chunks[..c]) + chunks[c]
  {
    assert chunks[..c + 1][..c] == chunks[..c];
  }

  lemma AcceptedStep(chunks: seq<seq<byte>>, c: nat, cap: int)
    requires c < |chunks|
    ensures Accepted(chunks[c..], cap) == if |chunks[c]| > cap then 0 else 1 + Accepted(chunks[c + 1..], cap - |chunks[c]|)
  {
    assert chunks[c..][1..] == chunks[c + 1..];
  }

  /** Sorted, well-formed requests whose ends have arrived can be cut. */
  lemma CuttablePrefix(requests: seq<Request>, o: int, data: seq<byte>, i: nat)
    requires |requests| > 0 && o == requests[0].byteStart && SortedByStart(requests) && WellFormed(requests)
    requires i <= |requests| && forall j :: 0 <= j < i ==> Fits(requests[j], o, |data|)
    ensures Cuttable(requests[..i], o, data)
  {
    forall j | 0 <= j < i ensures o <= requests[j].byteStart {
      if j > 0 {
        assert requests[0].byteStart <= requests[j].byteStart;
      }
    }
  }

  /** The view `subarray` gives on the buffer is the request's slice of the data received. */
  lemma SubarrayIsSlice(buffer: seq<byte>, data: seq<byte>, r: Request, o: int)
    requires |data| <= |buffer| && buffer[..|data|] == data
    requires o <= r.byteStart <= r.byteEnd && Fits(r, o, |data|)
    ensures Subarray(buffer, r.byteStart - o, r.byteEnd - o) == Slice(data, r, o)
  {
  }

  lemma PartsSnoc(requests: seq<Request>, o: int, data: seq<byte>, i: nat)
    requires i < |requests| && Cuttable(requests[..i + 1], o, data)
    ensures Cuttable(requests[..i], o, data)
    ensures Parts(requests[..i + 1], o, data) == Parts(requests[..i], o, data) + [Event(requests[i].id, Part(Slice(data, requests[i], o)))]
  {
    assert requests[..i + 1][..i] == requests[..i];
    assert forall j :: 0 <= j < i ==> requests[..i][j] == requests[..i + 1][j];
  }

  /** The inner loop (lines 139-150): the following requests whose bytes have
      all arrived get their parts, in order, until one has not arrived. */
  method DispatchArrived(requests: seq<Request>, o: int, chunksAll: array<byte>, receivedBytes: nat,
                         ghost data: seq<byte>, i0: nat, events0: seq<Event>)
    returns (i: nat, events: seq<Event>)
    requires |requests| > 0 && o == requests[0].byteStart && SortedByStart(requests) && WellFormed(requests)
    requires receivedBytes <= chunksAll.Length && chunksAll[..receivedBytes] == data
    requires i0 <= |requests| && forall j :: 0 <= j < i0 ==> Fits(requests[j], o, receivedBytes)
    requires Cuttable(requests[..i0], o, data) && events0 == Parts(requests[..i0], o, data)
    ensures i == FitCount(requests, o, receivedBytes)
    ensures Cuttable(requests[..i], o, data) && events == Parts(requests[..i], o, data)
  {
    i, events := i0, events0;
    while i < |requests| && requests[i].byteEnd - o <= receivedBytes
      invariant i <= |requests| && DispatchedSoFar(requests, o, data, i, events)
    {
      var part := Subarray(chunksAll[..], requests[i].byteStart - o, requests[i].byteEnd - o);
      DispatchStep(requests, o, chunksAll[..], data, i, events);
      events := events + [Event(requests[i].id, Part(part))];
      i := i + 1;
    }
    FitCountExact(requests, o, receivedBytes, i);
  }

  /** The inner loop's invariant: the first i requests have arrived and got their parts. */
  predicate DispatchedSoFar(requests: seq<Request>, o: int, data: seq<byte>, i: nat, events: seq<Event>)
    requires i <= |requests|
  {
    && (forall j :: 0 <= j < i ==> Fits(requests[j], o, |data|))
    && Cuttable(requests[..i], o, data)
    && events == Parts(requests[..i], o, data)
  }

  /** One turn of the inner loop: the view on the buffer is the next part. */
  lemma DispatchStep(requests: seq<Request>, o: int, buffer: seq<byte>, data: seq<byte>,
                     i: nat, events: seq<Event>)
    requires |requests| > 0 && o == requests[0].byteStart && SortedByStart(requests) && WellFormed(requests)
    requires |data| <= |buffer| && buffer[..|data|] == data
    requires i < |requests| && DispatchedSoFar(requests, o, data, i, events) && Fits(requests[i], o, |data|)
    ensures DispatchedSoFar(requests, o, data, i + 1,
              events + [Event(requests[i].id, Part(Subarray(buffer, requests[i].byteStart - o, requests[i].byteEnd - o)))])
  {
    CuttablePrefix(requests, o, data, i + 1);
    PartsSnoc(requests, o, data, i);
    assert o <= requests[i].byteStart by {
      assert requests[..i + 1][i] == requests[i];
    }
    SubarrayIsSlice(buffer, data, requests[i], o);
  }

  /** `target.set(value, at)` of a typed array (ECMA-262 section 23.2.3.26)
      for a value that fits: the bytes from `at` on are overwritten. */
  method SetAt(target: array<byte>, value: seq<byte>, at: nat)
    requires at + |value| <= target.Length
    modifies target
    ensures target[..at + |value|] == old(target[..at]) + value
  {
    forall k | 0 <= k < |value| {
      target[at + k] := value[k];
    }
    assert target[..at + |value|] == old(target[..at]) + value;
  }

  /** The body loop over the reader's chunks (lines 134-151), filling
      `chunksAll` and cutting parts as their bytes arrive. */
  method ReadBody(requests: seq<Request>, chunksAll: array<byte>, chunks: seq<seq<byte>>)
    returns (parts: seq<Event>, overflow: bool)
    requires |requests| > 0 && SortedByStart(requests) && WellFormed(requests)
    modifies chunksAll
    ensures (parts, overflow) == Streamed(requests, chunksAll.Length, chunks)
  {
    var o := requests[0].byteStart;
    var cap := chunksAll.Length;
    parts := [];
    var i: nat := 0;
    var receivedBytes: nat := 0;
    var c: nat := 0;
    assert chunks[..0] == [] && chunks[0..] == chunks;
    while c < |chunks|
      invariant 0 <= c <= |chunks| && i <= |requests|
      invariant ReadSoFar(requests, cap, chunks, c, chunksAll[..], receivedBytes, i, parts)
    {
      if receivedBytes + |chunks[c]| > cap {
        ReadOverflow(requests, cap, chunks, c, chunksAll[..], receivedBytes, i, parts);
        return parts, true;
      }
      receivedBytes, i, parts := ReadChunk(requests, chunksAll, chunks, c, receivedBytes, i, parts);
      c := c + 1;
    }
    ReadAll(requests, cap, chunks, chunksAll[..], receivedBytes, i, parts);
    overflow := false;
  }

  /** One turn of the body loop for a chunk that fits: `chunksAll.set(value,
      receivedBytes)`, then the inner loop. */
  method ReadChunk(requests: seq<Request>, chunksAll: array<byte>, chunks: seq<seq<byte>>, c: nat,
                   receivedBytes0: nat, i0: nat, parts0: seq<Event>)
    returns (receivedBytes: nat, i: nat, parts: seq<Event>)
    requires |requests| > 0 && SortedByStart(requests) && WellFormed(requests) && c < |chunks| && i0 <= |requests|
    requires ReadSoFar(requests, chunksAll.Length, chunks, c, chunksAll[..], receivedBytes0, i0, parts0)
    requires receivedBytes0 + |chunks[c]| <= chunksAll.Length
    modifies chunksAll
    ensures i <= |requests| && ReadSoFar(requests, chunksAll.Length, chunks, c + 1, chunksAll[..], receivedBytes, i, parts)
  {
    var o := requests[0].byteStart;
    ghost var data := Concat(chunks[..c + 1]);
    ghost var before := chunksAll[..receivedBytes0];
    assert before == chunksAll[..][..receivedBytes0];
    ReadStepData(chunks, c, chunksAll[..], receivedBytes0);
    ReadStepParts(requests, chunks, c, receivedBytes0, i0, parts0);
    ReadStepAccepted(chunks, c, chunksAll.Length, receivedBytes0);
    SetAt(chunksAll, chunks[c], receivedBytes0);
    receivedBytes := receivedBytes0 + |chunks[c]|;
    assert chunksAll[..receivedBytes] == data;
    i, parts := DispatchArrived(requests, o, chunksAll, receivedBytes, data, i0, parts0);
    assert chunksAll[..][..receivedBytes] == chunksAll[..receivedBytes];
    ReadSoFarIntro(requests, chunksAll.Length, chunks, c + 1, chunksAll[..], receivedBytes, i, parts);
  }

  lemma ReadSoFarIntro(requests: seq<Request>, cap: nat, chunks: seq<seq<byte>>, c: nat,
                       buffer: seq<byte>, receivedBytes: nat, i: nat, parts: seq<Event>)
    requires |requests| > 0 && 0 < c <= |chunks| && i <= |requests|
    requires |buffer| == cap && receivedBytes == |Concat(chunks[..c])| <= cap
    requires buffer[..receivedBytes] == Concat(chunks[..c])
    requires Accepted(chunks, cap) == c + Accepted(chunks[c..], cap - receivedBytes)
    requires i == FitCount(requests, requests[0].byteStart, receivedBytes)
    requires Cuttable(requests[..i], requests[0].byteStart, Concat(chunks[..c]))
    requires parts == Parts(requests[..i], requests[0].byteStart, Concat(chunks[..c]))
    ensures ReadSoFar(requests, cap, chunks, c, buffer, receivedBytes, i, parts)
  {
  }

  /** A chunk that does not fit ends the body with the parts cut so far. */
  lemma ReadOverflow(requests: seq<Request>, cap: nat, chunks: seq<seq<byte>>, c: nat,
                     buffer: seq<byte>, receivedBytes: nat, i: nat, parts: seq<Event>)
    requires |requests| > 0 && SortedByStart(requests) && WellFormed(requests) && c < |chunks| && i <= |requests|
    requires ReadSoFar(requests, cap, chunks, c, buffer, receivedBytes, i, parts) && receivedBytes + |chunks[c]| > cap
    ensures (parts, true) == Streamed(requests, cap, chunks)
  {
    AcceptedStep(chunks, c, cap - receivedBytes);
  }

  /** After the last chunk the parts are those of everything received. */
  lemma ReadAll(requests: seq<Request>, cap: nat, chunks: seq<seq<byte>>,
                buffer: seq<byte>, receivedBytes: nat, i: nat, parts: seq<Event>)
    requires |requests| > 0 && SortedByStart(requests) && WellFormed(requests) && i <= |requests|
    requires ReadSoFar(requests, cap, chunks, |chunks|, buffer, receivedBytes, i, parts)
    ensures (parts, false) == Streamed(requests, cap, chunks)
  {
    assert chunks[|chunks|..] == [] && chunks[..|chunks|] == chunks;
  }

  /** The body loop's invariant after c chunks: the buffer holds their bytes,
      and the parts of the requests that have arrived are cut. */
  predicate ReadSoFar(requests: seq<Request>, cap: nat, chunks: seq<seq<byte>>, c: nat,
                      buffer: seq<byte>, receivedBytes: nat, i: nat, parts: seq<Event>)
    requires |requests| > 0 && c <= |chunks| && i <= |requests|
  {
    var o := requests[0].byteStart;
    && |buffer| == cap
    && receivedBytes == |Concat(chunks[..c])| <= cap
    && buffer[..receivedBytes] == Concat(chunks[..c])
    && Accepted(chunks, cap) == c + Accepted(chunks[c..], cap - receivedBytes)
    && i == (if c == 0 then 0 else FitCount(requests, o, receivedBytes))
    && Cuttable(requests[..i], o, Concat(chunks[..c]))
    && parts == Parts(requests[..i], o, Concat(chunks[..c]))
  }

  /** A chunk that fits is copied in after the earlier ones. */
  lemma ReadStepData(chunks: seq<seq<byte>>, c: nat, buffer: seq<byte>, receivedBytes: nat)
    requires c < |chunks| && receivedBytes <= |buffer| && buffer[..receivedBytes] == Concat(chunks[..c])
    ensures Concat(chunks[..c + 1]) == buffer[..receivedBytes] + chunks[c]
  {
    ConcatSnoc(chunks, c);
  }

  /** The parts already cut stay cut, and the inner loop can start on the
      longer data with them. */
  lemma ReadStepParts(requests: seq<Request>, chunks: seq<seq<byte>>, c: nat, receivedBytes: nat, i: nat, parts: seq<Event>)
    requires |requests| > 0 && c < |chunks| && i <= |requests|
    requires receivedBytes == |Concat(chunks[..c])|
    requires Cuttable(requests[..i], requests[0].byteStart, Concat(chunks[..c]))
    requires parts == Parts(requests[..i], requests[0].byteStart, Concat(chunks[..c]))
    ensures var o := requests[0].byteStart;
      && (forall j :: 0 <= j < i ==> Fits(requests[j], o, receivedBytes + |chunks[c]|))
      && Cuttable(requests[..i], o, Concat(chunks[..c + 1]))
      && parts == Parts(requests[..i], o, Concat(chunks[..c + 1]))
  {
    var o := requests[0].byteStart;
    ConcatSnoc(chunks, c);
    PartsExtend(requests[..i], o, Concat(chunks[..c]), chunks[c]);
    assert forall j :: 0 <= j < i ==> requests[..i][j] == requests[j];
  }

  /** The chunk is accepted. */
  lemma ReadStepAccepted(chunks: seq<seq<byte>>, c: nat, cap: nat, receivedBytes: nat)
    requires c < |chunks| && receivedBytes + |chunks[c]| <= cap
    requires Accepted(chunks, cap) == c + Accepted(chunks[c..], cap - receivedBytes)
    ensures Accepted(chunks, cap) == c + 1 + Accepted(chunks[c + 1..], cap - (receivedBytes + |chunks[c]|))
  {
    AcceptedStep(chunks, c, cap - receivedBytes);
  }

  /** The handling of a 206 response: the length check, the buffer of
      `content-length` bytes (none when the header is missing; a negative
      length is a RangeError), then the body loop. */
  method Deliver(requests: seq<Request>, responseLen: Option<int>, chunks: seq<seq<byte>>, streams: nat)
    returns (events: seq<Event>, outcome: Outcome)
    requires |requests| > 0 && SortedByStart(requests) && WellFormed(requests)
    ensures (events, outcome) == Delivery(requests, responseLen, chunks, streams)
  {
    var o := requests[0].byteStart;
    events := [];
    if responseLen != Some(requests[|requests| - 1].byteEnd - o) {
      events := FailAll(streams, UnexpectedLength);
    }
    var cap := if responseLen.Some? then responseLen.value else 0;
    if cap < 0 {
      return events, RangeError;
    }
    var chunksAll := new byte[cap](_ => 0);
    var parts, overflow := ReadBody(requests, chunksAll, chunks);
    events := events + parts;
    outcome := if overflow then RangeError else Done;
  }

  // ---------------------------------------------------------------- what the delivery promises

  /** The j-th part is the j-th request's slice. */
  lemma {:induction false} PartsIndex(rs: seq<Request>, o: int, data: seq<byte>, j: nat)
    requires Cuttable(rs, o, data) && j < |rs|
    ensures Parts(rs, o, data)[j] == Event(rs[j].id, Part(Slice(data, rs[j], o)))
  {
    if j < |rs| - 1 {
      var init := rs[..|rs| - 1];
      PartsIndex(init, o, data, j);
    }
  }

  lemma {:induction false} ConcatLength(chunks: seq<seq<byte>>)
    ensures chunks != [] ==> |Concat(chunks)| == |chunks[0]| + |Concat(chunks[1..])|
  {
    if |chunks| > 1 {
      var init := chunks[..|chunks| - 1];
      ConcatLength(init);
      assert init[1..] == chunks[1..][..|chunks[1..]| - 1];
    } else if |chunks| == 1 {
      assert Concat(chunks[..0]) == [];
    }
  }

  /** A buffer large enough for the whole body accepts every chunk. */
  lemma {:induction false} AcceptedAll(chunks: seq<seq<byte>>, cap: int)
    requires |Concat(chunks)| <= cap
    ensures Accepted(chunks, cap) == |chunks|
  {
    if chunks != [] {
      ConcatLength(chunks);
      AcceptedAll(chunks[1..], cap - |chunks[0]|);
    }
  }

  /** When the server answers with exactly the requested bytes of the file
      (section 14.1.2 of RFC 9110) and the ranges are ordered, as the pipeline
      writes them: no error, and every stream receives, in sorted order, the
      bytes its range names in the file. */
  lemma ServedRange(requests: seq<Request>, file: seq<byte>, chunks: seq<seq<byte>>, streams: nat)
    requires |requests| > 0 && SortedByStart(requests) && WellFormed(requests)
    requires forall i, j :: 0 <= i < j < |requests| ==> requests[i].byteEnd <= requests[j].byteEnd
    requires 0 <= requests[0].byteStart && requests[|requests| - 1].byteEnd <= |file|
    requires |chunks| > 0 && Concat(chunks) == file[requests[0].byteStart..requests[|requests| - 1].byteEnd]
    ensures Delivery(requests, Some(requests[|requests| - 1].byteEnd - requests[0].byteStart), chunks, streams).1 == Done
    ensures var events := Delivery(requests, Some(requests[|requests| - 1].byteEnd - requests[0].byteStart), chunks, streams).0;
            && |events| == |requests|
            && forall j :: 0 <= j < |requests| ==>
                 0 <= requests[j].byteStart <= requests[j].byteEnd <= |file|
                 && events[j] == Event(requests[j].id, Part(file[requests[j].byteStart..requests[j].byteEnd]))
  {
    var o := requests[0].byteStart;
    var last := requests[|requests| - 1].byteEnd;
    var data := Concat(chunks);
    StreamedAll(requests, chunks);
    var parts := Parts(requests, o, data);
    assert Delivery(requests, Some(last - o), chunks, streams) == ([] + parts, Done);
    assert [] + parts == parts;
    forall j | 0 <= j < |requests|
      ensures 0 <= requests[j].byteStart <= requests[j].byteEnd <= |file|
      ensures parts[j] == Event(requests[j].id, Part(file[requests[j].byteStart..requests[j].byteEnd]))
    {
      PartsIndex(requests, o, data, j);
      SliceOfRange(file, o, last, requests[j]);
    }
  }

  lemma SliceOfRange(file: seq<byte>, o: int, last: int, r: Request)
    requires 0 <= o <= r.byteStart <= r.byteEnd <= last <= |file|
    ensures Slice(file[o..last], r, o) == file[r.byteStart..r.byteEnd]
  {
  }

  /** A body exactly as long as the requested span delivers every request. */
  lemma StreamedAll(requests: seq<Request>, chunks: seq<seq<byte>>)
    requires |requests| > 0 && SortedByStart(requests) && WellFormed(requests)
    requires forall i, j :: 0 <= i < j < |requests| ==> requests[i].byteEnd <= requests[j].byteEnd
    requires |chunks| > 0 && |Concat(chunks)| == requests[|requests| - 1].byteEnd - requests[0].byteStart
    ensures Cuttable(requests, requests[0].byteStart, Concat(chunks))
    ensures Streamed(requests, |Concat(chunks)|, chunks) == (Parts(requests, requests[0].byteStart, Concat(chunks)), false)
  {
    var o := requests[0].byteStart;
    var last := requests[|requests| - 1].byteEnd;
    var data := Concat(chunks);
    AcceptedAll(chunks, |data|);
    assert chunks[..|chunks|] == chunks;
    forall j | 0 <= j < |requests| ensures Fits(requests[j], o, |data|) && o <= requests[j].byteStart {
      if j > 0 {
        assert requests[0].byteStart <= requests[j].byteStart;
      }
      if j < |requests| - 1 {
        assert requests[j].byteEnd <= last;
      }
    }
    FitCountExact(requests, o, |data|, |requests|);
    assert requests[..|requests|] == requests;
  }

  /** What has been cut after the first k chunks stays a prefix of what is cut
      after all of them: a part, once delivered, is neither withdrawn nor
      delivered again, and parts come in sorted order. */
  lemma StreamedGrows(requests: seq<Request>, cap: nat, chunks: seq<seq<byte>>, k: nat)
    requires |requests| > 0 && SortedByStart(requests) && WellFormed(requests)
    requires k <= |chunks|
    ensures var early := Streamed(requests, cap, chunks[..k]).0;
            var late := Streamed(requests, cap, chunks).0;
            |early| <= |late| && early == late[..|early|]
  {
    var o := requests[0].byteStart;
    var p := Accepted(chunks, cap);
    var q := Accepted(chunks[..k], cap);
    AcceptedPrefix(chunks, cap, k);
    assert chunks[..k][..q] == chunks[..q];
    ConcatPrefix(chunks, q, p);
    var late := Concat(chunks[..p]);
    PartsGrow(requests, o, late, |Concat(chunks[..q])|, q == 0, p == 0);
  }

  /** With more data, the parts cut before are the first parts cut now. */
  lemma PartsGrow(requests: seq<Request>, o: int, late: seq<byte>, e: nat, noEarly: bool, noLate: bool)
    requires |requests| > 0 && o == requests[0].byteStart && SortedByStart(requests) && WellFormed(requests)
    requires e <= |late| && (noLate ==> noEarly)
    ensures var n := if noEarly then 0 else FitCount(requests, o, e);
            var m := if noLate then 0 else FitCount(requests, o, |late|);
            && n <= m && Cuttable(requests[..n], o, late[..e]) && Cuttable(requests[..m], o, late)
            && Parts(requests[..n], o, late[..e]) == Parts(requests[..m], o, late)[..n]
  {
    var early := late[..e];
    var n := if noEarly then 0 else FitCount(requests, o, e);
    var m := if noLate then 0 else FitCount(requests, o, |late|);
    FitCountMonotone(requests, o, e, |late|);
    CuttablePrefix(requests, o, early, n);
    CuttablePrefix(requests, o, late, m);
    var more := late[e..];
    PartsExtend(requests[..n], o, early, more);
    assert early + more == late;
    PartsPrefix(requests[..m], o, late, n);
    assert requests[..m][..n] == requests[..n];
  }

  lemma {:induction false} AcceptedPrefix(chunks: seq<seq<byte>>, cap: int, k: nat)
    requires k <= |chunks|
    ensures Accepted(chunks[..k], cap) == if Accepted(chunks, cap) < k then Accepted(chunks, cap) else k
  {
    if k > 0 && |chunks[0]| <= cap {
      AcceptedPrefix(chunks[1..], cap - |chunks[0]|, k - 1);
      assert chunks[..k][1..] == chunks[1..][..k - 1];
    }
  }

  lemma {:induction false} ConcatPrefix(chunks: seq<seq<byte>>, q: nat, p: nat)
    requires q <= p <= |chunks|
    ensures |Concat(chunks[..q])| <= |Concat(chunks[..p])|
    ensures Concat(chunks[..q]) == Concat(chunks[..p])[..|Concat(chunks[..q])|]
    decreases p - q
  {
    if q < p {
      ConcatPrefix(chunks, q, p - 1);
      ConcatSnoc(chunks, p - 1);
    }
  }

  lemma {:induction false} FitCountMonotone(rs: seq<Request>, o: int, r1: int, r2: int)
    requires r1 <= r2
    ensures FitCount(rs, o, r1) <= FitCount(rs, o, r2)
  {
    var n := FitCount(rs, o, r1);
    assert forall j :: 0 <= j < n ==> Fits(rs[j], o, r2);
  }

  lemma {:induction false} PartsPrefix(rs: seq<Request>, o: int, data: seq<byte>, n: nat)
    requires Cuttable(rs, o, data) && n <= |rs|
    ensures Cuttable(rs[..n], o, data) && Parts(rs[..n], o, data) == Parts(rs, o, data)[..n]
    decreases |rs| - n
  {
    if n < |rs| {
      var init := rs[..|rs| - 1];
      PartsPrefix(init, o, data, n);
      assert init[..n] == rs[..n];
    } else {
      assert rs[..n] == rs;
    }
  }

  // ---------------------------------------------------------------- the handler

  /** The sorted requests of the planned streams: one for each wanted stream
      and none for any other. */
  predicate Fetched(streams: seq<StreamInfo>, row: int, requests: seq<Request>)
  {
    && |requests| > 0 && LexSorted(requests) && SortedByStart(requests) && WellFormed(requests)
    && (forall i :: 0 <= i < |requests| ==>
         && requests[i].id < |streams| && Wanted(streams[requests[i].id], row) && Addressable(streams[requests[i].id], row)
         && requests[i] == RequestFor(streams, requests[i].id, row))
    && (forall k :: 0 <= k < |streams| && Wanted(streams[k], row) ==> exists i :: 0 <= i < |requests| && requests[i].id == k)
  }

  /** After the fetch: every stream's error for a status other than 206, else the delivery. */
  predicate Answered(requests: seq<Request>, fetch: string -> Response, streams: nat, events: seq<Event>, outcome: Outcome)
    requires |requests| > 0 && SortedByStart(requests) && WellFormed(requests)
  {
    var response := fetch(RangeHeader(requests));
    if response.status != 206 then events == FailAll(streams, InvalidStatus) && outcome == Done
    else (events, outcome) == Delivery(requests, response.contentLength, response.chunks, streams)
  }

  /** Sorting keeps the planned requests: none exactly when no stream is
      wanted, else the same requests in stable start order. */
  lemma SortedPlan(streams: seq<StreamInfo>, row: int, planned: seq<Request>)
    requires forall k :: 0 <= k < |streams| ==> Addressable(streams[k], row) && RangeOrdered(streams[k], row)
    requires forall i :: 0 <= i < |planned| ==>
               planned[i].id < |streams| && Wanted(streams[planned[i].id], row)
               && planned[i] == RequestFor(streams, planned[i].id, row)
    requires IdsAscending(planned)
    requires forall k :: 0 <= k < |streams| && Wanted(streams[k], row) ==> exists i :: 0 <= i < |planned| && planned[i].id == k
    ensures SortByStart(planned) == [] <==> forall k :: 0 <= k < |streams| ==> !Wanted(streams[k], row)
    ensures SortByStart(planned) != [] ==> Fetched(streams, row, SortByStart(planned))
  {
    var requests := SortByStart(planned);
    SortByStartSorted(planned);
    SortByStartPermutes(planned);
    SortByStartStable(planned);
    SortedMembers(planned);
    if requests == [] {
      assert |multiset(planned)| == 0;
    }
  }

  /** The handler for one selected row: plan, sort, fetch with the one header,
      then either an error on every stream or the streamed delivery. */
  method LoadRow(streams: seq<StreamInfo>, row: int, fetch: string -> Response) returns (events: seq<Event>, outcome: Outcome)
    requires forall k :: 0 <= k < |streams| ==> Addressable(streams[k], row) && RangeOrdered(streams[k], row)
    ensures |events| >= |streams|
    ensures forall k :: 0 <= k < |streams| ==> events[k] == Event(k, if Wanted(streams[k], row) then Loading else Empty)
    ensures outcome == TypeError <==> forall k :: 0 <= k < |streams| ==> !Wanted(streams[k], row)
    ensures outcome == TypeError ==> |events| == |streams|
    ensures outcome != TypeError ==>
              exists requests: seq<Request> :: Fetched(streams, row, requests) && Answered(requests, fetch, |streams|, events[|streams|..], outcome)
  {
    var planned, planEvents := PlanRequests(streams, row);
    var requests := SortByStart(planned);
    SortedPlan(streams, row, planned);
    if requests == [] {
      return planEvents, TypeError;
    }
    assert Fetched(streams, row, requests);
    var response := fetch(RangeHeader(requests));
    if response.status != 206 {
      events := planEvents + FailAll(|streams|, InvalidStatus);
      outcome := Done;
      assert events[|streams|..] == FailAll(|streams|, InvalidStatus);
    } else {
      var delivered;
      delivered, outcome := Deliver(requests, response.contentLength, response.chunks, |streams|);
      events := planEvents + delivered;
      assert events[|streams|..] == delivered;
    }
  }
}
