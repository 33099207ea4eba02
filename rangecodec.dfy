/**
 * The append-only range codec of pipeline/main.py: `write_compressed_ranges`
 * appends one independently compressed frame per row to a binary log and hands
 * back its `(start, end)` byte range; `read_compressed_ranges` seeks to such a
 * range and decodes the row again. zlib and `struct` packing are abstract
 * here: a `Codec` bundles them, and only its round trips are assumed.
 */
module RangeCodec {
  import opened Wrappers

  newtype byte = x: int | 0 <= x < 256

  /** zlib's compress/decompress (decompress fails on corrupt input) and the
      dense `struct` layout for the row values. */
  datatype Codec<!V> = Codec(compress: seq<byte> -> seq<byte>,
                            decompress: seq<byte> -> Option<seq<byte>>,
                            pack: seq<V> -> seq<byte>,
                            unpack: seq<byte> -> seq<V>)

  /** What the pipeline relies on: decompression undoes compression, and the
      float layout reads back what it packed. */
  ghost predicate RoundTrips<V(!new)>(c: Codec<V>)
  {
    && (forall b :: c.decompress(c.compress(b)) == Some(b))
    && (forall vs :: c.unpack(c.pack(vs)) == vs)
  }

  /** The `use_sparse` flag byte; the sparse layout is switched off, so every
      frame starts with 0. */
  const DenseFlag: byte := 0

  /** The bytes `write_row(values)` appends: the compressed flag byte plus the
      packed values. */
  function Frame<V>(c: Codec<V>, values: seq<V>): seq<byte>
  {
    c.compress([DenseFlag] + c.pack(values))
  }

  /** A `(start, end)` pair as `write_row` returns it. */
  datatype Handle = Handle(start: nat, end: nat)

  datatype ReadError = DecompressError | EmptyPayload | SparseLayout

  /** `f.seek(start); f.read(end - start)`: reading stops at the end of the
      file, and a negative count reads everything up to the end. */
  function ReadBytes(log: seq<byte>, start: nat, end: nat): (r: seq<byte>)
    ensures start <= end <= |log| ==> r == log[start..end]
  {
    if start >= |log| then []
    else if end < start || end > |log| then log[start..]
    else log[start..end]
  }

  /** `read_row(start, end, row_length)`. In the dense layout `row_length` is
      not consulted; the sparse branch (a non-zero flag) is not part of this
      model and reads as `SparseLayout`. */
  function ReadRow<V>(c: Codec<V>, log: seq<byte>, start: nat, end: nat, rowLength: nat): (r: Result<seq<V>, ReadError>)
    ensures r.Ok? ==> exists payload :: c.decompress(ReadBytes(log, start, end)) == Some(payload)
                                     && |payload| > 0 && payload[0] == DenseFlag
                                     && r.value == c.unpack(payload[1..])
  {
    match c.decompress(ReadBytes(log, start, end))
    case None => Err(DecompressError)
    case Some(payload) =>
      if |payload| == 0 then Err(EmptyPayload)
      else if payload[0] != DenseFlag then Err(SparseLayout)
      else Ok(c.unpack(payload[1..]))
  }

  /** The log after writing `rows`, one frame after another. */
  function Log<V>(c: Codec<V>, rows: seq<seq<V>>): (log: seq<byte>)
  {
    if rows == [] then [] else Log(c, rows[..|rows| - 1]) + Frame(c, rows[|rows| - 1])
  }

  /** The handles returned for `rows`, written to a log that already held `base` bytes. */
  function Handles<V>(c: Codec<V>, base: nat, rows: seq<seq<V>>): (hs: seq<Handle>)
    ensures |hs| == |rows|
  {
    if rows == [] then []
    else
      var before := Handles(c, base, rows[..|rows| - 1]);
      var start := base + |Log(c, rows[..|rows| - 1])|;
      before + [Handle(start, start + |Frame(c, rows[|rows| - 1])|)]
  }

  /** The write side: the open output file, as `write_compressed_ranges`
      yields it (`write_row` and `f.tell`). */
  class RangeWriter<V> {
    const codec: Codec<V>
    var log: seq<byte>
    /** The rows written so far and the handles returned for them. */
    ghost var rows: seq<seq<V>>
    ghost var handles: seq<Handle>

    ghost predicate Valid()
      reads this
    {
      && log == Log(codec, rows)
      && handles == Handles(codec, 0, rows)
    }

    /** `open(path, 'wb')`: the file starts empty. */
    constructor (c: Codec<V>)
      ensures codec == c && log == [] && rows == [] && handles == []
      ensures Valid()
    {
      codec := c;
      log := [];
      rows := [];
      handles := [];
    }

    /** `f.tell()`: the current end of the log. */
    function Tell(): (p: nat)
      reads this
      requires Valid()
      ensures p == |Log(codec, rows)|
    {
      |log|
    }

    /** `write_row(values)`: appends one frame and returns the range it occupies,
        which starts where the previous one ended. */
    method WriteRow(values: seq<V>) returns (h: Handle)
      requires Valid()
      modifies this
      ensures Valid()
      ensures rows == old(rows) + [values] && handles == old(handles) + [h]
      ensures log == old(log) + Frame(codec, values)
      ensures h.start == |old(log)| && h.end == |log|
    {
      WriteOneMore(codec, rows, values);
      var start := |log|;
      log := log + Frame(codec, values);
      rows := rows + [values];
      h := Handle(start, |log|);
      handles := handles + [h];
    }
  }

  /** One more write appends its frame to the log and its range to the handles. */
  lemma WriteOneMore<V>(c: Codec<V>, rows: seq<seq<V>>, values: seq<V>)
    ensures Log(c, rows + [values]) == Log(c, rows) + Frame(c, values)
    ensures Handles(c, 0, rows + [values]) == Handles(c, 0, rows) + [Handle(|Log(c, rows)|, |Log(c, rows)| + |Frame(c, values)|)]
  {
    var more := rows + [values];
    assert more[..|more| - 1] == rows && more[|more| - 1] == values;
  }

  /** Writing `a` and then `b` writes the log of `a` followed by the log of `b`. */
  lemma {:induction false} LogAppend<V>(c: Codec<V>, a: seq<seq<V>>, b: seq<seq<V>>)
    ensures Log(c, a + b) == Log(c, a) + Log(c, b)
    decreases |b|
  {
    if b == [] {
      assert a + b == a;
    } else {
      var init := b[..|b| - 1];
      LogAppend(c, a, init);
      assert (a + b)[..|a + b| - 1] == a + init;
      assert (a + b)[|a + b| - 1] == b[|b| - 1];
    }
  }

  /** A prefix of the rows wrote a prefix of the log. */
  lemma LogPrefix<V>(c: Codec<V>, rows: seq<seq<V>>, n: nat)
    requires n <= |rows|
    ensures Log(c, rows) == Log(c, rows[..n]) + Log(c, rows[n..])
    ensures Log(c, rows[n..]) == if n == |rows| then [] else Frame(c, rows[n]) + Log(c, rows[n + 1..])
  {
    assert rows == rows[..n] + rows[n..];
    LogAppend(c, rows[..n], rows[n..]);
    if n < |rows| {
      var single := [rows[n]];
      assert rows[n..] == single + rows[n + 1..];
      LogAppend(c, single, rows[n + 1..]);
      assert single[..0] == [];
      assert Log(c, single) == Frame(c, rows[n]);
    }
  }

  /** Handle k of a sequence of writes covers exactly frame k of the log: it
      starts after the frames before it and spans its own frame. */
  lemma {:induction false} HandleCoversFrame<V>(c: Codec<V>, base: nat, rows: seq<seq<V>>, k: nat)
    requires k < |rows|
    ensures Handles(c, base, rows)[k] == Handle(base + |Log(c, rows[..k])|, base + |Log(c, rows[..k])| + |Frame(c, rows[k])|)
    decreases |rows|
  {
    var init := rows[..|rows| - 1];
    if k < |rows| - 1 {
      HandleCoversFrame(c, base, init, k);
      assert init[..k] == rows[..k] && init[k] == rows[k];
    } else {
      assert init == rows[..k];
    }
  }

  /** Successive handles are contiguous and never overlap: each ends where the
      next begins, and each starts no later than it ends. */
  lemma HandlesContiguous<V>(c: Codec<V>, base: nat, rows: seq<seq<V>>)
    ensures |rows| > 0 ==> Handles(c, base, rows)[0].start == base
    ensures forall k :: 0 <= k < |rows| ==> Handles(c, base, rows)[k].start <= Handles(c, base, rows)[k].end
    ensures forall k :: 0 < k < |rows| ==> Handles(c, base, rows)[k - 1].end == Handles(c, base, rows)[k].start
    ensures |rows| > 0 ==> Handles(c, base, rows)[|rows| - 1].end == base + |Log(c, rows)|
  {
    forall k | 0 <= k < |rows| ensures Handles(c, base, rows)[k].start <= Handles(c, base, rows)[k].end {
      HandleCoversFrame(c, base, rows, k);
    }
    forall k | 0 < k < |rows| ensures Handles(c, base, rows)[k - 1].end == Handles(c, base, rows)[k].start {
      HandlesAdjacent(c, base, rows, k);
    }
    if |rows| > 0 {
      HandleCoversFrame(c, base, rows, 0);
      assert rows[..0] == [];
      HandleCoversFrame(c, base, rows, |rows| - 1);
    }
  }

  lemma HandlesAdjacent<V>(c: Codec<V>, base: nat, rows: seq<seq<V>>, k: nat)
    requires 0 < k < |rows|
    ensures Handles(c, base, rows)[k - 1].end == Handles(c, base, rows)[k].start
  {
    HandleCoversFrame(c, base, rows, k - 1);
    HandleCoversFrame(c, base, rows, k);
    var pre := rows[..k - 1];
    assert rows[..k] == pre + [rows[k - 1]];
    WriteOneMore(c, pre, rows[k - 1]);
  }

  /** Reading any returned handle of a log written from scratch gives back the
      row written there, whatever `row_length` the caller passes and in
      whatever order the handles are read. */
  lemma ReadBack<V(!new)>(c: Codec<V>, rows: seq<seq<V>>, k: nat, rowLength: nat)
    requires RoundTrips(c) && k < |rows|
    ensures ReadRow(c, Log(c, rows), Handles(c, 0, rows)[k].start, Handles(c, 0, rows)[k].end, rowLength) == Ok(rows[k])
  {
    var h := Handles(c, 0, rows)[k];
    FrameAt(c, rows, k);
    ReadFrame(c, Log(c, rows), h.start, h.end, rowLength, rows[k]);
  }

  /** Handle k reads back frame k of the log. */
  lemma FrameAt<V>(c: Codec<V>, rows: seq<seq<V>>, k: nat)
    requires k < |rows|
    ensures ReadBytes(Log(c, rows), Handles(c, 0, rows)[k].start, Handles(c, 0, rows)[k].end) == Frame(c, rows[k])
  {
    var log := Log(c, rows);
    var h := Handles(c, 0, rows)[k];
    HandleCoversFrame(c, 0, rows, k);
    LogPrefix(c, rows, k);
    var frame := Frame(c, rows[k]);
    var pre := Log(c, rows[..k]);
    assert log == pre + frame + Log(c, rows[k + 1..]);
    assert h.start == |pre| && h.end == |pre| + |frame|;
    assert log[h.start..h.end] == frame;
  }

  /** A range holding one frame decodes to the row it was written from. */
  lemma ReadFrame<V(!new)>(c: Codec<V>, log: seq<byte>, start: nat, end: nat, rowLength: nat, values: seq<V>)
    requires RoundTrips(c) && ReadBytes(log, start, end) == Frame(c, values)
    ensures ReadRow(c, log, start, end, rowLength) == Ok(values)
  {
    var payload := [DenseFlag] + c.pack(values);
    assert c.decompress(Frame(c, values)) == Some(payload);
    assert payload[1..] == c.pack(values);
  }

  lemma WriterReadBack<V(!new)>(w: RangeWriter<V>, k: nat, rowLength: nat)
    requires w.Valid() && RoundTrips(w.codec) && k < |w.rows|
    ensures ReadRow(w.codec, w.log, w.handles[k].start, w.handles[k].end, rowLength) == Ok(w.rows[k])
  {
    ReadBack(w.codec, w.rows, k, rowLength);
  }
}
