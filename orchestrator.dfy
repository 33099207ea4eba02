/**
 * The per-gene bookkeeping of the pipeline's main loop (pipeline/main.py:708-784):
 * which merged genes are written, and for every dataset the sparse lookup
 * index into its matrix rows, the variance-partition rows, and the transcript
 * tables (an index into a cumulative-length list over a flat row list).
 *
 * Matrix rows stand for what is written to the range log; the column
 * reorder and the log itself are modelled in Reorder and RangeCodec.
 */
module Orchestrator {
  import opened Wrappers

  /** `MIN_HITS`: a gene must have a matrix group in at least this many datasets. */
  const MinHits: nat := 2

  /** One dataset's part of a merged gene, as read with `safe_access_nested`:
      the variance-partition row (gene cell first), the matrix group with one
      slot per matrix, and the transcript group with one slot per transcript
      matrix (the transcript rows of the gene, or None). A dataset lacking the
      gene reads as None throughout. */
  datatype Hit<V, R, T> = Hit(varpart: Option<seq<V>>, matrices: Option<seq<Option<R>>>, transcripts: Option<seq<Option<seq<T>>>>)

  /** `if matrices`: a group is present and is a non-empty tuple. */
  predicate Present<R>(m: Option<seq<Option<R>>>)
  {
    m.Some? && |m.value| > 0
  }

  /** `matrices and all(matrices)`: every matrix of the dataset has the gene. */
  predicate Complete<R>(m: Option<seq<Option<R>>>)
  {
    Present(m) && forall i :: 0 <= i < |m.value| ==> m.value[i].Some?
  }

  /** The row values written for a complete group, one per matrix. */
  function Values<R>(m: Option<seq<Option<R>>>): (r: seq<R>)
    requires Complete(m)
    ensures |r| == |m.value| && forall i :: 0 <= i < |r| ==> m.value[i] == Some(r[i])
  {
    seq(|m.value|, i requires 0 <= i < |m.value| => m.value[i].value)
  }

  /** `len(m_groups) - m_groups.count(None)`: the datasets with a matrix group. */
  function HitCount<V, R, T>(groups: seq<Hit<V, R, T>>): (r: nat)
    ensures r <= |groups|
  {
    if groups == [] then 0
    else HitCount(groups[..|groups| - 1]) + if groups[|groups| - 1].matrices.Some? then 1 else 0
  }

  /** The acceptance rule of lines 715-716: enough hits, and an annotation. */
  predicate Accepted<V, R, T, A>(annotations: map<string, A>, gene: string, groups: seq<Hit<V, R, T>>)
  {
    HitCount(groups) >= MinHits && gene in annotations
  }

  // ---------------------------------------------------------------- transcripts

  /** One transcript matrix's `_internal` lists: the per-row index into
      `lengths`, the running end offsets, the two counters, and the flat rows. */
  datatype TranscriptTable<T> = TranscriptTable(indices: seq<int>, lengths: seq<nat>, counter: nat, length: nat, data: seq<T>)

  function EmptyTable<T>(): TranscriptTable<T>
  {
    TranscriptTable([], [], 0, 0, [])
  }

  /** Lines 767-784 for one transcript matrix: an absent group adds index -1;
      a present one adds the next index, one end offset, and its rows. */
  function TableStep<T>(t: TranscriptTable<T>, slot: Option<seq<T>>): TranscriptTable<T>
  {
    match slot
    case None => t.(indices := t.indices + [-1])
    case Some(rows) =>
      TranscriptTable(t.indices + [t.counter as int], t.lengths + [t.length + |rows|],
                      t.counter + 1, t.length + |rows|, t.data + rows)
  }

  /** A fresh table after one slot per written row. */
  function TableRun<T>(slots: seq<Option<seq<T>>>): TranscriptTable<T>
  {
    if slots == [] then EmptyTable() else TableStep(TableRun(slots[..|slots| - 1]), slots[|slots| - 1])
  }

  /** Where entry j's rows start: the end offset of entry j - 1. */
  function Start(lengths: seq<nat>, j: nat): nat
    requires j <= |lengths|
  {
    if j == 0 then 0 else lengths[j - 1]
  }

  /** The shape a table keeps: the counters match the lists, and entry j's rows are
      `data[Start(j)..lengths[j]]`. */
  ghost predicate TableOk<T>(t: TranscriptTable<T>)
  {
    && t.counter == |t.lengths|
    && t.length == |t.data|
    && t.length == Start(t.lengths, |t.lengths|)
    && (forall j :: 0 <= j < |t.lengths| ==> Start(t.lengths, j) <= t.lengths[j] <= t.length)
    && (forall k :: 0 <= k < |t.indices| ==> -1 <= t.indices[k] < t.counter)
  }

  /** What the table says about the slots it was fed: index -1 exactly for an
      absent slot, otherwise an entry whose row range gives back the slot's rows;
      present slots get strictly increasing entries. */
  ghost predicate TableRecords<T>(t: TranscriptTable<T>, slots: seq<Option<seq<T>>>)
    requires TableOk(t)
  {
    && |t.indices| == |slots|
    && (forall k :: 0 <= k < |slots| ==> (slots[k].None? <==> t.indices[k] == -1))
    && (forall k :: 0 <= k < |slots| && slots[k].Some? ==>
          t.data[Start(t.lengths, t.indices[k])..t.lengths[t.indices[k]]] == slots[k].value)
    && (forall k1, k2 :: 0 <= k1 < k2 < |slots| && t.indices[k1] >= 0 && t.indices[k2] >= 0 ==> t.indices[k1] < t.indices[k2])
  }

  lemma TableStepOk<T>(t: TranscriptTable<T>, slot: Option<seq<T>>)
    requires TableOk(t)
    ensures TableOk(TableStep(t, slot))
  {
    if slot.Some? {
      var t2 := TableStep(t, slot);
      forall j | 0 <= j < |t2.lengths| ensures Start(t2.lengths, j) <= t2.lengths[j] <= t2.length {
        if j < |t.lengths| {
          assert Start(t2.lengths, j) == Start(t.lengths, j) && t2.lengths[j] == t.lengths[j];
        }
      }
    }
  }

  /** One step keeps what the table records. Offsets only grow and the row list
      is only extended, so the entries already recorded still read back their rows. */
  lemma TableStepKeeps<T>(t: TranscriptTable<T>, slots: seq<Option<seq<T>>>, slot: Option<seq<T>>)
    requires TableOk(t) && TableRecords(t, slots)
    ensures TableOk(TableStep(t, slot)) && TableRecords(TableStep(t, slot), slots + [slot])
  {
    TableStepOk(t, slot);
    var t2 := TableStep(t, slot);
    var s2 := slots + [slot];
    forall k | 0 <= k < |s2| ensures (s2[k].None? <==> t2.indices[k] == -1) {
      if k < |slots| {
        assert s2[k] == slots[k] && t2.indices[k] == t.indices[k];
      }
    }
    forall k1, k2 | 0 <= k1 < k2 < |s2| && t2.indices[k1] >= 0 && t2.indices[k2] >= 0
      ensures t2.indices[k1] < t2.indices[k2]
    {
      assert t2.indices[k1] == t.indices[k1];
    }
    TableStepReadsBack(t, slots, slot);
  }

  lemma TableStepReadsBack<T>(t: TranscriptTable<T>, slots: seq<Option<seq<T>>>, slot: Option<seq<T>>)
    requires TableOk(t) && TableRecords(t, slots)
    ensures TableOk(TableStep(t, slot))
    ensures var t2, s2 := TableStep(t, slot), slots + [slot];
      |t2.indices| == |s2| &&
      forall k :: 0 <= k < |s2| && s2[k].Some? ==>
        0 <= t2.indices[k] < |t2.lengths| &&
        t2.data[Start(t2.lengths, t2.indices[k])..t2.lengths[t2.indices[k]]] == s2[k].value
  {
    TableStepOk(t, slot);
    var t2, s2 := TableStep(t, slot), slots + [slot];
    forall k | 0 <= k < |s2| && s2[k].Some?
      ensures 0 <= t2.indices[k] < |t2.lengths|
      ensures t2.data[Start(t2.lengths, t2.indices[k])..t2.lengths[t2.indices[k]]] == s2[k].value
    {
      if k < |slots| {
        var j := t.indices[k];
        assert s2[k] == slots[k] && t2.indices[k] == j;
        assert Start(t2.lengths, j) == Start(t.lengths, j) && t2.lengths[j] == t.lengths[j];
        assert t2.data[Start(t.lengths, j)..t.lengths[j]] == t.data[Start(t.lengths, j)..t.lengths[j]];
      } else {
        assert Start(t2.lengths, t.counter) == |t.data|;
        assert t2.data[|t.data|..|t2.data|] == slot.value;
      }
    }
  }

  /** A table fed from scratch keeps its shape and records every slot. */
  lemma {:induction false} TableRunRecords<T>(slots: seq<Option<seq<T>>>)
    ensures TableOk(TableRun(slots)) && TableRecords(TableRun(slots), slots)
    decreases |slots|
  {
    if slots != [] {
      var init := slots[..|slots| - 1];
      TableRunRecords(init);
      TableStepKeeps(TableRun(init), init, slots[|slots| - 1]);
      assert init + [slots[|slots| - 1]] == slots;
    }
  }

  // ---------------------------------------------------------------- datasets

  /** One dataset's `_internal` lists: the sparse index (one entry per written
      gene), the row counter `curent_index[0]`, the variance-partition header
      width and rows, the matrix rows written, and its transcript tables. */
  datatype DatasetTable<V, R, T> = DatasetTable(indices: seq<int>, counter: nat, varpartWidth: nat,
                                                varpartRows: seq<seq<V>>, rows: seq<seq<R>>,
                                                transcripts: seq<TranscriptTable<T>>)

  /** `([], [0], [], variance_headers)` plus one fresh table per transcript matrix. */
  function EmptyDataset<V, R, T>(varpartWidth: nat, tables: nat): DatasetTable<V, R, T>
  {
    DatasetTable([], 0, varpartWidth, [], [], seq(tables, _ => EmptyTable()))
  }

  /** The sparse-index entry for a group: the current row counter when a row is
      written for it, else -1. */
  function Entry<R>(m: Option<seq<Option<R>>>, counter: nat): int
  {
    if Complete(m) then counter else -1
  }

  /** The entry line 723 appends: the counter for any present group, including
      a partial one that line 726 then skips. */
  function EntryAsWritten<R>(m: Option<seq<Option<R>>>, counter: nat): int
  {
    if Present(m) then counter else -1
  }

  /** Line 731: the variance-partition values without the gene cell, or zeros. */
  function VarpartRow<V>(varpart: Option<seq<V>>, width: nat, zero: V): seq<V>
  {
    if varpart.Some? && |varpart.value| > 0 then varpart.value[1..] else seq(width, _ => zero)
  }

  /** `transcripts or dataset['_null_transcripts']`. */
  function TranscriptSlots<T>(tables: nat, ts: Option<seq<Option<seq<T>>>>): seq<Option<seq<T>>>
  {
    if ts.Some? && |ts.value| > 0 then ts.value else seq(tables, _ => None)
  }

  /** The `zip` over the transcript matrices: tables beyond the slots are untouched. */
  function TablesStep<T>(tables: seq<TranscriptTable<T>>, slots: seq<Option<seq<T>>>): (r: seq<TranscriptTable<T>>)
    ensures |r| == |tables|
  {
    seq(|tables|, i requires 0 <= i < |tables| => if i < |slots| then TableStep(tables[i], slots[i]) else tables[i])
  }

  /** Lines 720-784 for one dataset and one written gene: only a complete group
      advances the counter and writes rows, transcript entries included. */
  function DatasetStep<V, R, T>(ds: DatasetTable<V, R, T>, hit: Hit<V, R, T>, zero: V): DatasetTable<V, R, T>
  {
    var ds1 := ds.(indices := ds.indices + [Entry(hit.matrices, ds.counter)]);
    if !Complete(hit.matrices) then ds1
    else ds1.(counter := ds.counter + 1,
              varpartRows := if ds.varpartWidth > 0 then ds.varpartRows + [VarpartRow(hit.varpart, ds.varpartWidth, zero)] else ds.varpartRows,
              rows := ds.rows + [Values(hit.matrices)],
              transcripts := TablesStep(ds.transcripts, TranscriptSlots(|ds.transcripts|, hit.transcripts)))
  }

  /** The step as line 723 writes it: the same, except for the index entry. */
  function DatasetStepAsWritten<V, R, T>(ds: DatasetTable<V, R, T>, hit: Hit<V, R, T>, zero: V): DatasetTable<V, R, T>
  {
    DatasetStep(ds, hit, zero).(indices := ds.indices + [EntryAsWritten(hit.matrices, ds.counter)])
  }

  /** A dataset after the groups of all written genes, in order. */
  function DatasetRun<V, R, T>(ds: DatasetTable<V, R, T>, hits: seq<Hit<V, R, T>>, zero: V): DatasetTable<V, R, T>
  {
    if hits == [] then ds else DatasetStep(DatasetRun(ds, hits[..|hits| - 1], zero), hits[|hits| - 1], zero)
  }

  /** The same run with line 723's entry rule: what the program computes. */
  function DatasetRunAsWritten<V, R, T>(ds: DatasetTable<V, R, T>, hits: seq<Hit<V, R, T>>, zero: V): DatasetTable<V, R, T>
  {
    if hits == [] then ds else DatasetStepAsWritten(DatasetRunAsWritten(ds, hits[..|hits| - 1], zero), hits[|hits| - 1], zero)
  }

  /** The written genes with a present matrix group, complete or partial. */
  function PresentCount<V, R, T>(hits: seq<Hit<V, R, T>>): nat
  {
    if hits == [] then 0
    else PresentCount(hits[..|hits| - 1]) + if Present(hits[|hits| - 1].matrices) then 1 else 0
  }

  /** Line 896: the written-gene positions that have a row, in order. */
  function ReverseIndices(indices: seq<int>): (r: seq<nat>)
  {
    if indices == [] then []
    else ReverseIndices(indices[..|indices| - 1]) + if indices[|indices| - 1] != -1 then [|indices| - 1] else []
  }

  /** The matrix groups that get a row. */
  function CompleteHits<V, R, T>(hits: seq<Hit<V, R, T>>): seq<Hit<V, R, T>>
  {
    if hits == [] then []
    else CompleteHits(hits[..|hits| - 1]) + if Complete(hits[|hits| - 1].matrices) then [hits[|hits| - 1]] else []
  }

  /** Transcript matrix i's slot for each row written. */
  function TableSlots<V, R, T>(hits: seq<Hit<V, R, T>>, i: nat, tables: nat): (r: seq<Option<seq<T>>>)
    ensures |r| == |hits|
  {
    if hits == [] then []
    else
      var slots := TranscriptSlots(tables, hits[|hits| - 1].transcripts);
      TableSlots(hits[..|hits| - 1], i, tables) + [if i < |slots| then slots[i] else None]
  }

  /** A transcript group, when present, has one slot per transcript matrix, as
      the merge over those matrices yields it. */
  predicate TranscriptsShaped<V, R, T>(hit: Hit<V, R, T>, tables: nat)
  {
    hit.transcripts.None? || |hit.transcripts.value| == 0 || |hit.transcripts.value| == tables
  }

  /** The sparse index against the rows: an entry is -1 exactly when no row was
      written for that gene, and every other entry names the row holding that
      gene's values. */
  ghost predicate IndexRecords<V, R, T>(ds: DatasetTable<V, R, T>, hits: seq<Hit<V, R, T>>)
  {
    && |ds.indices| == |hits|
    && ds.counter == |ds.rows|
    && (forall g :: 0 <= g < |hits| ==> (ds.indices[g] == -1 <==> !Complete(hits[g].matrices)))
    && (forall g :: 0 <= g < |hits| && ds.indices[g] != -1 ==>
          0 <= ds.indices[g] < |ds.rows| && ds.rows[ds.indices[g]] == Values(hits[g].matrices))
  }

  /** The sparse index as line 723 writes it: -1 exactly for a gene without a
      matrix group; every other gene, partial or complete, gets the number of
      rows written before it, so a complete gene's entry names its own row and a
      partial gene's entry names the next row written, if any. */
  ghost predicate AsWrittenIndex<V, R, T>(ds: DatasetTable<V, R, T>, hits: seq<Hit<V, R, T>>)
  {
    && |ds.indices| == |hits|
    && ds.counter == |ds.rows| == |CompleteHits(hits)|
    && (forall g :: 0 <= g < |hits| ==> (ds.indices[g] == -1 <==> !Present(hits[g].matrices)))
    && (forall g :: 0 <= g < |hits| && Present(hits[g].matrices) ==> ds.indices[g] == |CompleteHits(hits[..g])|)
    && (forall g :: 0 <= g < |hits| && Complete(hits[g].matrices) ==>
          ds.indices[g] < |ds.rows| && ds.rows[ds.indices[g]] == Values(hits[g].matrices))
  }

  /** The reverse index lists, row by row, the gene each row belongs to. */
  ghost predicate ReverseRecords(indices: seq<int>, counter: nat)
  {
    && |ReverseIndices(indices)| == counter
    && (forall k :: 0 <= k < counter ==>
          ReverseIndices(indices)[k] < |indices| && indices[ReverseIndices(indices)[k]] == k)
  }

  /** What a dataset run keeps, for the hits it was fed. */
  ghost predicate DatasetRecords<V, R, T>(ds: DatasetTable<V, R, T>, hits: seq<Hit<V, R, T>>, width: nat, tables: nat)
  {
    && IndexRecords(ds, hits)
    && ds.varpartWidth == width
    && |ds.varpartRows| == (if width > 0 then ds.counter else 0)
    && ReverseRecords(ds.indices, ds.counter)
    // the transcript tables advance in lockstep with the rows
    && |ds.transcripts| == tables
    && (forall i :: 0 <= i < tables ==> ds.transcripts[i] == TableRun(TableSlots(CompleteHits(hits), i, tables)))
  }

  lemma ReverseSnoc(indices: seq<int>, e: int)
    ensures ReverseIndices(indices + [e]) == ReverseIndices(indices) + if e != -1 then [|indices|] else []
  {
    assert (indices + [e])[..|indices|] == indices;
  }

  lemma TablesAdvance<V, R, T>(ds: DatasetTable<V, R, T>, hits: seq<Hit<V, R, T>>, tables: nat, hit: Hit<V, R, T>, zero: V)
    requires |ds.transcripts| == tables && TranscriptsShaped(hit, tables)
    requires forall i :: 0 <= i < tables ==> ds.transcripts[i] == TableRun(TableSlots(CompleteHits(hits), i, tables))
    ensures var ds2 := DatasetStep(ds, hit, zero);
      forall i :: 0 <= i < tables ==> ds2.transcripts[i] == TableRun(TableSlots(CompleteHits(hits + [hit]), i, tables))
  {
    var hs := hits + [hit];
    assert hs[..|hs| - 1] == hits;
    if Complete(hit.matrices) {
      var c := CompleteHits(hits) + [hit];
      assert CompleteHits(hs) == c;
      assert c[..|c| - 1] == CompleteHits(hits);
      forall i | 0 <= i < tables
        ensures TableSlots(c, i, tables) == TableSlots(CompleteHits(hits), i, tables) + [TranscriptSlots(tables, hit.transcripts)[i]]
      {
      }
    } else {
      assert CompleteHits(hs) == CompleteHits(hits);
    }
  }

  lemma IndexAdvance<V, R, T>(ds: DatasetTable<V, R, T>, hits: seq<Hit<V, R, T>>, hit: Hit<V, R, T>, zero: V)
    requires IndexRecords(ds, hits)
    ensures IndexRecords(DatasetStep(ds, hit, zero), hits + [hit])
  {
    var ds2 := DatasetStep(ds, hit, zero);
    var hs := hits + [hit];
    assert ds2.indices == ds.indices + [Entry(hit.matrices, ds.counter)];
    forall g | 0 <= g < |hs| ensures ds2.indices[g] == -1 <==> !Complete(hs[g].matrices) {
      if g < |hits| {
        assert hs[g] == hits[g] && ds2.indices[g] == ds.indices[g];
      }
    }
    forall g | 0 <= g < |hs| && ds2.indices[g] != -1
      ensures 0 <= ds2.indices[g] < |ds2.rows| && ds2.rows[ds2.indices[g]] == Values(hs[g].matrices)
    {
      if g < |hits| {
        assert hs[g] == hits[g] && ds2.indices[g] == ds.indices[g];
        assert ds2.rows[ds.indices[g]] == ds.rows[ds.indices[g]];
      }
    }
  }

  lemma ReverseAdvance(indices: seq<int>, counter: nat, e: int)
    requires ReverseRecords(indices, counter) && (e == -1 || e == counter)
    ensures ReverseRecords(indices + [e], if e == -1 then counter else counter + 1)
  {
    ReverseSnoc(indices, e);
    var i2 := indices + [e];
    var rev2 := ReverseIndices(i2);
    forall k | 0 <= k < (if e == -1 then counter else counter + 1) ensures rev2[k] < |i2| && i2[rev2[k]] == k {
      if k < counter {
        assert rev2[k] == ReverseIndices(indices)[k];
      }
    }
  }

  /** One written gene keeps every dataset fact. */
  lemma DatasetStepKeeps<V, R, T>(ds: DatasetTable<V, R, T>, hits: seq<Hit<V, R, T>>, width: nat, tables: nat, hit: Hit<V, R, T>, zero: V)
    requires DatasetRecords(ds, hits, width, tables) && TranscriptsShaped(hit, tables)
    ensures DatasetRecords(DatasetStep(ds, hit, zero), hits + [hit], width, tables)
  {
    var ds2 := DatasetStep(ds, hit, zero);
    var e := Entry(hit.matrices, ds.counter);
    assert ds2.indices == ds.indices + [e];
    IndexAdvance(ds, hits, hit, zero);
    ReverseAdvance(ds.indices, ds.counter, e);
    TablesAdvance(ds, hits, tables, hit, zero);
  }

  /** A dataset fed from scratch records every written gene: the sparse index
      addresses exactly the rows written, the reverse index inverts it, and the
      transcript tables hold one index entry per row. */
  lemma {:induction false} DatasetRunRecords<V, R, T>(width: nat, tables: nat, hits: seq<Hit<V, R, T>>, zero: V)
    requires forall g :: 0 <= g < |hits| ==> TranscriptsShaped(hits[g], tables)
    ensures DatasetRecords(DatasetRun(EmptyDataset(width, tables), hits, zero), hits, width, tables)
    decreases |hits|
  {
    if hits == [] {
      var ds := EmptyDataset<V, R, T>(width, tables);
      forall i | 0 <= i < tables ensures ds.transcripts[i] == TableRun(TableSlots(CompleteHits(hits), i, tables)) {
      }
    } else {
      var init := hits[..|hits| - 1];
      DatasetRunRecords(width, tables, init, zero);
      DatasetStepKeeps(DatasetRun(EmptyDataset(width, tables), init, zero), init, width, tables, hits[|hits| - 1], zero);
      assert init + [hits[|hits| - 1]] == hits;
    }
  }

  lemma {:induction false} CompleteHitsCount<V, R, T>(hits: seq<Hit<V, R, T>>, ds: DatasetTable<V, R, T>, width: nat, tables: nat)
    requires DatasetRecords(ds, hits, width, tables)
    ensures |CompleteHits(hits)| == ds.counter
  {
    CompleteHitsLength(hits);
    assert |ReverseIndices(ds.indices)| == ds.counter;
    ReverseCountsComplete(hits, ds.indices);
  }

  lemma {:induction false} CompleteHitsLength<V, R, T>(hits: seq<Hit<V, R, T>>)
    ensures |CompleteHits(hits)| <= |hits|
    decreases |hits|
  {
    if hits != [] {
      CompleteHitsLength(hits[..|hits| - 1]);
    }
  }

  /** Under the corrected entry rule (-1 exactly for a gene that gets no row),
      the reverse index has one entry per row; ReverseMatchesRowsIff gives the
      rule as written. */
  lemma {:induction false} ReverseCountsComplete<V, R, T>(hits: seq<Hit<V, R, T>>, indices: seq<int>)
    requires |indices| == |hits|
    requires forall g :: 0 <= g < |hits| ==> (indices[g] == -1 <==> !Complete(hits[g].matrices))
    ensures |ReverseIndices(indices)| == |CompleteHits(hits)|
    decreases |hits|
  {
    if hits != [] {
      var n := |hits| - 1;
      ReverseCountsComplete(hits[..n], indices[..n]);
    }
  }

  /** Line 896 for any index: the reverse index lists, in ascending order,
      exactly the positions whose entry is not -1. */
  lemma {:induction false} ReverseIndicesExact(indices: seq<int>)
    ensures var r := ReverseIndices(indices);
      && (forall k :: 0 <= k < |r| ==> r[k] < |indices| && indices[r[k]] != -1)
      && (forall k1, k2 :: 0 <= k1 < k2 < |r| ==> r[k1] < r[k2])
      && (forall p :: 0 <= p < |indices| && indices[p] != -1 ==> p in r)
    decreases |indices|
  {
    if indices != [] {
      var n := |indices| - 1;
      var init := indices[..n];
      ReverseIndicesExact(init);
      ReverseSnoc(init, indices[n]);
      assert init + [indices[n]] == indices;
      var r0, r := ReverseIndices(init), ReverseIndices(indices);
      forall k | 0 <= k < |r| ensures r[k] < |indices| && indices[r[k]] != -1 {
        if k < |r0| {
          assert r[k] == r0[k] && indices[r0[k]] == init[r0[k]];
        }
      }
      forall p | 0 <= p < |indices| && indices[p] != -1 ensures p in r {
        if p < n {
          assert init[p] == indices[p];
        } else {
          assert r[|r| - 1] == n;
        }
      }
    }
  }

  /** What line 723 keeps for one dataset, for the genes it was fed: the index
      as AsWrittenIndex states it, one reverse-index entry per present group,
      and variance-partition rows and transcript tables advancing with the rows. */
  ghost predicate AsWrittenRecords<V, R, T>(ds: DatasetTable<V, R, T>, hits: seq<Hit<V, R, T>>, width: nat, tables: nat)
  {
    && AsWrittenIndex(ds, hits)
    && |ReverseIndices(ds.indices)| == PresentCount(hits)
    && ds.varpartWidth == width
    && |ds.varpartRows| == (if width > 0 then ds.counter else 0)
    && |ds.transcripts| == tables
    && (forall i :: 0 <= i < tables ==> ds.transcripts[i] == TableRun(TableSlots(CompleteHits(hits), i, tables)))
  }

  lemma AsWrittenIndexAdvance<V, R, T>(ds: DatasetTable<V, R, T>, hits: seq<Hit<V, R, T>>, hit: Hit<V, R, T>, zero: V)
    requires AsWrittenIndex(ds, hits) && |ReverseIndices(ds.indices)| == PresentCount(hits)
    ensures var ds2 := DatasetStepAsWritten(ds, hit, zero);
      AsWrittenIndex(ds2, hits + [hit]) && |ReverseIndices(ds2.indices)| == PresentCount(hits + [hit])
  {
    var ds2 := DatasetStepAsWritten(ds, hit, zero);
    var hs := hits + [hit];
    assert hs[..|hits|] == hits;
    assert CompleteHits(hs) == CompleteHits(hits) + if Complete(hit.matrices) then [hit] else [];
    ReverseSnoc(ds.indices, EntryAsWritten(hit.matrices, ds.counter));
    forall g | 0 <= g < |hs|
      ensures (ds2.indices[g] == -1 <==> !Present(hs[g].matrices))
      ensures Present(hs[g].matrices) ==> ds2.indices[g] == |CompleteHits(hs[..g])|
    {
      if g < |hits| {
        assert hs[g] == hits[g] && ds2.indices[g] == ds.indices[g] && hs[..g] == hits[..g];
      }
    }
    forall g | 0 <= g < |hs| && Complete(hs[g].matrices)
      ensures ds2.indices[g] < |ds2.rows| && ds2.rows[ds2.indices[g]] == Values(hs[g].matrices)
    {
      if g < |hits| {
        assert hs[g] == hits[g] && ds2.indices[g] == ds.indices[g];
        assert ds2.rows[ds.indices[g]] == ds.rows[ds.indices[g]];
      }
    }
  }

  /** The as-written run and the corrected run differ in the sparse index only. */
  lemma {:induction false} AsWrittenShadow<V, R, T>(ds: DatasetTable<V, R, T>, hits: seq<Hit<V, R, T>>, zero: V)
    ensures DatasetRunAsWritten(ds, hits, zero).(indices := DatasetRun(ds, hits, zero).indices) == DatasetRun(ds, hits, zero)
    decreases |hits|
  {
    if hits != [] {
      AsWrittenShadow(ds, hits[..|hits| - 1], zero);
    }
  }

  /** A dataset fed from scratch as line 723 is written: the index and the
      reverse index as AsWrittenRecords states them, and the transcript tables
      in lockstep with the rows. */
  lemma {:induction false} DatasetRunAsWrittenRecords<V, R, T>(width: nat, tables: nat, hits: seq<Hit<V, R, T>>, zero: V)
    requires forall g :: 0 <= g < |hits| ==> TranscriptsShaped(hits[g], tables)
    ensures AsWrittenRecords(DatasetRunAsWritten(EmptyDataset(width, tables), hits, zero), hits, width, tables)
  {
    var ds0 := EmptyDataset<V, R, T>(width, tables);
    AsWrittenIndexRun(ds0, hits, zero);
    DatasetRunRecords(width, tables, hits, zero);
    AsWrittenShadow(ds0, hits, zero);
  }

  lemma {:induction false} AsWrittenIndexRun<V, R, T>(ds0: DatasetTable<V, R, T>, hits: seq<Hit<V, R, T>>, zero: V)
    requires ds0.indices == [] && ds0.counter == 0 && ds0.rows == []
    ensures var ds := DatasetRunAsWritten(ds0, hits, zero);
      AsWrittenIndex(ds, hits) && |ReverseIndices(ds.indices)| == PresentCount(hits)
    decreases |hits|
  {
    if hits == [] {
      assert DatasetRunAsWritten(ds0, hits, zero) == ds0;
    } else {
      var init, last := hits[..|hits| - 1], hits[|hits| - 1];
      assert init + [last] == hits;
      AsWrittenIndexRun(ds0, init, zero);
      assert DatasetRunAsWritten(ds0, hits, zero) == DatasetStepAsWritten(DatasetRunAsWritten(ds0, init, zero), last, zero);
      AsWrittenIndexAdvance(DatasetRunAsWritten(ds0, init, zero), init, last, zero);
    }
  }

  /** Partial groups are the only source of extra present groups. */
  lemma {:induction false} PartialCountsExtra<V, R, T>(hits: seq<Hit<V, R, T>>)
    ensures |CompleteHits(hits)| <= PresentCount(hits)
    ensures |CompleteHits(hits)| == PresentCount(hits) <==>
      forall g :: 0 <= g < |hits| && Present(hits[g].matrices) ==> Complete(hits[g].matrices)
    decreases |hits|
  {
    if hits != [] {
      var n := |hits| - 1;
      PartialCountsExtra(hits[..n]);
      assert forall g :: 0 <= g < n ==> hits[..n][g] == hits[g];
    }
  }

  /** As written, the reverse index has one entry per row exactly when no
      written gene had a partial group; each partial group adds an entry that
      names no row of its own. */
  lemma ReverseMatchesRowsIff<V, R, T>(width: nat, tables: nat, hits: seq<Hit<V, R, T>>, zero: V)
    ensures var ds := DatasetRunAsWritten(EmptyDataset(width, tables), hits, zero);
      && |ReverseIndices(ds.indices)| >= ds.counter
      && (|ReverseIndices(ds.indices)| == ds.counter <==>
            forall g :: 0 <= g < |hits| && Present(hits[g].matrices) ==> Complete(hits[g].matrices))
  {
    AsWrittenIndexRun(EmptyDataset<V, R, T>(width, tables), hits, zero);
    PartialCountsExtra(hits);
  }

  /** Every transcript table of a dataset has exactly one index entry per
      matrix row written, so both share the row numbering; this holds for the
      index rule as written. */
  lemma TranscriptLockstep<V, R, T>(width: nat, tables: nat, hits: seq<Hit<V, R, T>>, zero: V, i: nat)
    requires forall g :: 0 <= g < |hits| ==> TranscriptsShaped(hits[g], tables)
    requires i < tables
    ensures var ds := DatasetRunAsWritten(EmptyDataset(width, tables), hits, zero);
      |ds.transcripts| == tables && |ds.transcripts[i].indices| == ds.counter == |ds.rows|
  {
    DatasetRunAsWrittenRecords(width, tables, hits, zero);
    TableRunRecords(TableSlots(CompleteHits(hits), i, tables));
  }

  // ---------------------------------------------------------------- finding

  function Row1(): Option<seq<Option<int>>> { Some([Some(1), Some(1)]) }
  function Partial(): Option<seq<Option<int>>> { Some([Some(2), None]) }
  function TwoGenes(): seq<Hit<int, int, int>> { [Hit(None, Partial(), None), Hit(None, Row1(), None)] }

  /** As line 723 is written, a gene found in only some of a dataset's matrices
      gets the current counter as its entry although no row is written for it,
      so it aliases the row of the next complete gene, and the reverse index
      lists more genes than there are rows. */
  lemma PartialGroupAliases()
    ensures var ds := DatasetStepAsWritten(DatasetStepAsWritten(EmptyDataset<int, int, int>(0, 0), Hit(None, Partial(), None), 0),
                                           Hit(None, Row1(), None), 0);
      && ds.indices == [0, 0]
      && ds.rows == [[1, 1]]
      && !Complete(Partial())
      && |ReverseIndices(ds.indices)| == 2 != ds.counter
  {
    var ds0 := EmptyDataset<int, int, int>(0, 0);
    assert !Complete(Partial()) by {
      assert Partial().value[1].None?;
    }
    var ds1 := DatasetStepAsWritten(ds0, Hit(None, Partial(), None), 0);
    assert ds1.indices == [0] && ds1.counter == 0 && ds1.rows == [];
    var ds2 := DatasetStepAsWritten(ds1, Hit(None, Row1(), None), 0);
    assert Complete(Row1());
    assert Values(Row1()) == [1, 1];
    assert ds2.indices == [0, 0] && ds2.rows == [[1, 1]];
    ReverseSnoc([], 0);
    ReverseSnoc([0], 0);
  }

  /** With the entry rule the comment of line 725 calls for (-1 for a dropped
      gene), the same two genes give a consistent index. */
  lemma PartialGroupDropped()
    ensures var ds := DatasetRun(EmptyDataset<int, int, int>(0, 0), TwoGenes(), 0);
      ds.indices == [-1, 0] && ds.rows == [[1, 1]] && ReverseIndices(ds.indices) == [1]
  {
    var hits := TwoGenes();
    assert !Complete(Partial()) by {
      assert Partial().value[1].None?;
    }
    assert Complete(Row1());
    assert Values(Row1()) == [1, 1];
    assert hits[..1] == [Hit(None, Partial(), None)] && hits[..1][..0] == [];
    ReverseSnoc([], -1);
    ReverseSnoc([-1], 0);
  }

  // ---------------------------------------------------------------- the loop

  function Column<V, R, T>(emitted: seq<seq<Hit<V, R, T>>>, d: nat): (r: seq<Hit<V, R, T>>)
    requires forall g :: 0 <= g < |emitted| ==> d < |emitted[g]|
    ensures |r| == |emitted|
  {
    seq(|emitted|, g requires 0 <= g < |emitted| => emitted[g][d])
  }

  /** Lines 720-784, dataset by dataset: each dataset takes this gene's group. */
  method StepDatasets<V, R, T>(datasets: seq<DatasetTable<V, R, T>>, groups: seq<Hit<V, R, T>>, zero: V) returns (next: seq<DatasetTable<V, R, T>>)
    requires |groups| == |datasets|
    ensures |next| == |datasets|
    ensures forall d :: 0 <= d < |datasets| ==> next[d] == DatasetStepAsWritten(datasets[d], groups[d], zero)
  {
    next := [];
    for d := 0 to |datasets|
      invariant |next| == d
      invariant forall e :: 0 <= e < d ==> next[e] == DatasetStepAsWritten(datasets[e], groups[e], zero)
    {
      next := next + [DatasetStepAsWritten(datasets[d], groups[d], zero)];
    }
  }

  /** One more written gene extends every dataset's run by that gene's group. */
  lemma RunExtends<V, R, T>(initial: seq<DatasetTable<V, R, T>>, before: seq<seq<Hit<V, R, T>>>, groups: seq<Hit<V, R, T>>,
                            datasets: seq<DatasetTable<V, R, T>>, next: seq<DatasetTable<V, R, T>>, zero: V)
    requires |groups| == |datasets| == |initial| == |next|
    requires forall g :: 0 <= g < |before| ==> |before[g]| == |datasets|
    requires forall d :: 0 <= d < |datasets| ==> datasets[d] == DatasetRunAsWritten(initial[d], Column(before, d), zero)
    requires forall d :: 0 <= d < |datasets| ==> next[d] == DatasetStepAsWritten(datasets[d], groups[d], zero)
    ensures forall g :: 0 <= g < |before + [groups]| ==> |(before + [groups])[g]| == |datasets|
    ensures forall d :: 0 <= d < |next| ==> next[d] == DatasetRunAsWritten(initial[d], Column(before + [groups], d), zero)
  {
    var after := before + [groups];
    assert forall g :: 0 <= g < |before| ==> after[g] == before[g];
    forall d | 0 <= d < |next| ensures next[d] == DatasetRunAsWritten(initial[d], Column(after, d), zero) {
      assert Column(after, d)[..|before|] == Column(before, d);
    }
  }

  /** The state of the gene loop: the annotations written, `total_written`, and
      every dataset's lists. */
  class GeneLoop<V, R, T, A> {
    const annotations: map<string, A>
    const zero: V
    var annotsWritten: seq<A>
    var totalWritten: nat
    var datasets: seq<DatasetTable<V, R, T>>
    /** Each dataset as set up before the loop, and the groups of every gene written. */
    ghost const initial: seq<DatasetTable<V, R, T>>
    ghost var emitted: seq<seq<Hit<V, R, T>>>

    ghost predicate Valid()
      reads this
    {
      && |annotsWritten| == totalWritten == |emitted|
      && |datasets| == |initial|
      && (forall d :: 0 <= d < |initial| ==> initial[d] == EmptyDataset(initial[d].varpartWidth, |initial[d].transcripts|))
      && (forall g :: 0 <= g < |emitted| ==> |emitted[g]| == |datasets|)
      && (forall d :: 0 <= d < |datasets| ==> datasets[d] == DatasetRunAsWritten(initial[d], Column(emitted, d), zero))
    }

    /** Lines 648 and 704: every dataset starts with empty lists and one fresh
        table per transcript matrix. */
    constructor (annotations: map<string, A>, zero: V, widths: seq<nat>, tables: seq<nat>)
      requires |widths| == |tables|
      ensures Valid() && this.annotations == annotations && this.zero == zero
      ensures annotsWritten == [] && totalWritten == 0 && emitted == []
      ensures datasets == initial
      ensures |datasets| == |widths| && forall d :: 0 <= d < |widths| ==> datasets[d] == EmptyDataset(widths[d], tables[d])
    {
      this.annotations := annotations;
      this.zero := zero;
      annotsWritten := [];
      totalWritten := 0;
      datasets := seq(|widths|, d requires 0 <= d < |widths| => EmptyDataset(widths[d], tables[d]));
      initial := datasets;
      emitted := [];
    }

    /** The body of the gene loop, lines 710-784, given the merged groups of
        one gene (one per dataset, as the merge yields them). */
    method ProcessGene(gene: string, groups: seq<Hit<V, R, T>>) returns (written: bool)
      requires Valid() && |groups| == |datasets|
      modifies this
      ensures Valid()
      ensures written == Accepted(annotations, gene, groups)
      ensures written ==> && annotsWritten == old(annotsWritten) + [annotations[gene]]
                          && totalWritten == old(totalWritten) + 1
                          && emitted == old(emitted) + [groups]
                          && |datasets| == |old(datasets)|
                          && forall d :: 0 <= d < |datasets| ==> datasets[d] == DatasetStepAsWritten(old(datasets)[d], groups[d], zero)
      ensures !written ==> annotsWritten == old(annotsWritten) && totalWritten == old(totalWritten)
                           && emitted == old(emitted) && datasets == old(datasets)
    {
      if MinHits > HitCount(groups) {
        return false;
      }
      if gene !in annotations {
        return false;
      }
      annotsWritten := annotsWritten + [annotations[gene]];
      totalWritten := totalWritten + 1;
      var next := StepDatasets(datasets, groups, zero);
      RunExtends(initial, emitted, groups, datasets, next, zero);
      emitted := emitted + [groups];
      datasets := next;
      return true;
    }

    /** `for gene, combined in iterator`: the genes in merge order. */
    method ProcessGenes(genes: seq<(string, seq<Hit<V, R, T>>)>) returns (count: nat)
      requires Valid() && forall g :: 0 <= g < |genes| ==> |genes[g].1| == |datasets|
      modifies this
      ensures Valid()
      ensures |datasets| == |old(datasets)| && count == |emitted| - |old(emitted)|
      ensures emitted == old(emitted) + AcceptedGroups(annotations, genes)
      ensures annotsWritten == old(annotsWritten) + AcceptedAnnotations(annotations, genes)
    {
      count := 0;
      for g := 0 to |genes|
        invariant Valid() && |datasets| == |old(datasets)|
        invariant emitted == old(emitted) + AcceptedGroups(annotations, genes[..g])
        invariant annotsWritten == old(annotsWritten) + AcceptedAnnotations(annotations, genes[..g])
        invariant count == |emitted| - |old(emitted)|
      {
        AcceptedStep(annotations, genes, g);
        var written := ProcessGene(genes[g].0, genes[g].1);
        if written {
          count := count + 1;
        }
      }
      assert genes[..|genes|] == genes;
    }
  }

  /** What the loop keeps for every dataset: the sparse index has one entry per
      gene written (`total_written`), everything AsWrittenRecords states holds
      of it for the groups that gene had in that dataset, and the reverse index
      has one entry per row exactly when no written gene had a partial group. */
  lemma GeneLoopRecords<V, R, T, A>(loop: GeneLoop<V, R, T, A>, d: nat)
    requires loop.Valid() && d < |loop.datasets|
    requires forall g :: 0 <= g < |loop.emitted| ==> TranscriptsShaped(loop.emitted[g][d], |loop.initial[d].transcripts|)
    ensures |loop.datasets[d].indices| == loop.totalWritten
    ensures AsWrittenRecords(loop.datasets[d], Column(loop.emitted, d), loop.initial[d].varpartWidth, |loop.initial[d].transcripts|)
    ensures |ReverseIndices(loop.datasets[d].indices)| == loop.datasets[d].counter <==>
      forall g :: 0 <= g < |loop.emitted| && Present(loop.emitted[g][d].matrices) ==> Complete(loop.emitted[g][d].matrices)
  {
    var hits := Column(loop.emitted, d);
    DatasetRunAsWrittenRecords(loop.initial[d].varpartWidth, |loop.initial[d].transcripts|, hits, loop.zero);
    ReverseMatchesRowsIff(loop.initial[d].varpartWidth, |loop.initial[d].transcripts|, hits, loop.zero);
    assert forall g :: 0 <= g < |loop.emitted| ==> hits[g] == loop.emitted[g][d];
  }

  /** The groups of the genes the loop writes, in order. */
  function AcceptedGroups<V, R, T, A>(annotations: map<string, A>, genes: seq<(string, seq<Hit<V, R, T>>)>): seq<seq<Hit<V, R, T>>>
  {
    if genes == [] then []
    else
      var last := genes[|genes| - 1];
      AcceptedGroups(annotations, genes[..|genes| - 1]) + if Accepted(annotations, last.0, last.1) then [last.1] else []
  }

  /** The annotations appended to `annots_written`, in order. */
  function AcceptedAnnotations<V, R, T, A>(annotations: map<string, A>, genes: seq<(string, seq<Hit<V, R, T>>)>): seq<A>
  {
    if genes == [] then []
    else
      var last := genes[|genes| - 1];
      AcceptedAnnotations(annotations, genes[..|genes| - 1]) + if Accepted(annotations, last.0, last.1) then [annotations[last.0]] else []
  }

  /** One more gene adds its groups and annotation exactly when it is accepted. */
  lemma AcceptedStep<V, R, T, A>(annotations: map<string, A>, genes: seq<(string, seq<Hit<V, R, T>>)>, g: nat)
    requires g < |genes|
    ensures AcceptedGroups(annotations, genes[..g + 1])
         == AcceptedGroups(annotations, genes[..g]) + if Accepted(annotations, genes[g].0, genes[g].1) then [genes[g].1] else []
    ensures AcceptedAnnotations(annotations, genes[..g + 1])
         == AcceptedAnnotations(annotations, genes[..g]) + if Accepted(annotations, genes[g].0, genes[g].1) then [annotations[genes[g].0]] else []
  {
    assert genes[..g + 1][..g] == genes[..g];
  }

  /** Every written gene had matrix groups in at least MIN_HITS datasets and
      an annotation; every gene meeting both was written. */
  lemma {:induction false} AcceptedGroupsExact<V, R, T, A>(annotations: map<string, A>, genes: seq<(string, seq<Hit<V, R, T>>)>)
    ensures |AcceptedGroups(annotations, genes)| == |AcceptedAnnotations(annotations, genes)| <= |genes|
    ensures forall k :: 0 <= k < |AcceptedGroups(annotations, genes)| ==> HitCount(AcceptedGroups(annotations, genes)[k]) >= MinHits
    ensures forall g :: 0 <= g < |genes| && Accepted(annotations, genes[g].0, genes[g].1) ==> genes[g].1 in AcceptedGroups(annotations, genes)
    decreases |genes|
  {
    if genes != [] {
      var init := genes[..|genes| - 1];
      AcceptedGroupsExact(annotations, init);
      forall g | 0 <= g < |init| ensures genes[g] == init[g] { }
    }
  }
}
