/**
 * Row handling of pipeline/main.py's CSV readers: the header and leading-column
 * rule of `iterate_csv`, and the reject-or-rewrite pass of
 * `iterate_csv_sorted` with its two mutators. A CSV file is its parsed rows
 * (`csv.reader`'s output); parsing, writing and the external sort are not
 * modelled.
 */
module SortedCsv {
  import opened Wrappers

  type Row = seq<string>

  /** Indexing an empty row (`second[0]`, `row[0]`) raises this. */
  datatype CsvError = IndexError

  /** What `iterate_csv` yields: the header row and the data rows. */
  datatype Table = Table(headers: Row, rows: seq<Row>)

  predicate StartsWith(s: string, prefix: string)
  {
    |prefix| <= |s| && s[..|prefix|] == prefix
  }

  /** `str.isdigit()` for ASCII: non-empty and all decimal digits. */
  predicate IsDigits(s: string)
  {
    |s| > 0 && forall i :: 0 <= i < |s| ==> '0' <= s[i] <= '9'
  }

  /** Python's `s[n:]` for n >= 0. */
  function Drop<T>(s: seq<T>, n: nat): (r: seq<T>)
    ensures |r| == if n < |s| then |s| - n else 0
  {
    if n < |s| then s[n..] else []
  }

  /** The `comment` filter: rows whose first cell starts with the comment marker
      go, empty rows stay. An empty marker is falsy and filters nothing. */
  function DropComments(rows: seq<Row>, comment: string): (r: seq<Row>)
    ensures |r| <= |rows|
  {
    if comment == "" || rows == [] then rows
    else if rows[0] != [] && StartsWith(rows[0][0], comment) then DropComments(rows[1..], comment)
    else [rows[0]] + DropComments(rows[1..], comment)
  }

  /** `itertools.islice(rows, skip, None)`. */
  function SkipRows(rows: seq<Row>, skip: nat): seq<Row>
  {
    Drop(rows, skip)
  }

  /** `offset - 1`: the leading columns dropped from the header and every data
      row, one when `strip_numeric` is set and the second row starts with a
      number. */
  function NumericCut(second: Row, stripNumeric: bool): nat
    requires second != []
  {
    if IsDigits(second[0]) && stripNumeric then 1 else 0
  }

  /** `iterate_csv(path, strip_numeric, comment, skip)` on the parsed rows.
      No row: nothing. One row: it is the header, unsliced. Otherwise a header as
      long as the second row loses its first cell (it labels the row-name
      column), and with `strip_numeric` a numeric first cell in the second row
      drops one more leading column from the header and from every data row. */
  function IterateCsv(raw: seq<Row>, stripNumeric: bool, comment: string, skip: nat): (r: Result<Table, CsvError>)
    ensures var rs := SkipRows(DropComments(raw, comment), skip);
      && (r.Err? <==> |rs| >= 2 && rs[1] == [])
      && (r.Ok? ==> |r.value.rows| == if |rs| == 0 then 0 else |rs| - 1)
      && (r.Ok? && |rs| == 0 ==> r.value.headers == [])
      && (r.Ok? && |rs| == 1 ==> r.value.headers == rs[0])
  {
    var rs := SkipRows(DropComments(raw, comment), skip);
    if |rs| == 0 then Ok(Table([], []))
    else if |rs| == 1 then Ok(Table(rs[0], []))
    else if rs[1] == [] then Err(IndexError)
    else
      var headers := if |rs[0]| == |rs[1]| then rs[0][1..] else rs[0];
      var cut := NumericCut(rs[1], stripNumeric);
      Ok(Table(Drop(headers, cut), seq(|rs| - 1, i requires 0 <= i < |rs| - 1 => Drop(rs[i + 1], cut))))
  }

  /** The header and leading-column rule for every input of two rows or more:
      every data row loses the same leading cells, the header is the last cells
      of the first row (one fewer when that row is as wide as the second), and
      when the first row is that wide or one cell short the header names every
      data column but the row-name one. */
  lemma IterateCsvColumns(raw: seq<Row>, stripNumeric: bool, comment: string, skip: nat)
    requires var rs := SkipRows(DropComments(raw, comment), skip); |rs| >= 2 && rs[1] != []
    ensures var rs, r := SkipRows(DropComments(raw, comment), skip), IterateCsv(raw, stripNumeric, comment, skip);
      && r.Ok? && |r.value.rows| == |rs| - 1
      && var cut, h := NumericCut(rs[1], stripNumeric), r.value.headers;
        && (forall i :: 0 <= i < |rs| - 1 ==> r.value.rows[i] == Drop(rs[i + 1], cut))
        && |h| <= |rs[0]| && h == rs[0][|rs[0]| - |h|..]
        && |h| == |Drop(rs[0], if |rs[0]| == |rs[1]| then cut + 1 else cut)|
        && (|rs[1]| > cut && (|rs[0]| == |rs[1]| || |rs[0]| + 1 == |rs[1]|) ==> |h| + 1 == |r.value.rows[0]|)
  {
  }

  /** The comment filter keeps exactly the rows that are empty or do not begin
      with the marker, in their original order. */
  lemma {:induction false} DropCommentsKeeps(rows: seq<Row>, comment: string, row: Row)
    requires comment != ""
    ensures row in DropComments(rows, comment) <==> row in rows && (row == [] || !StartsWith(row[0], comment))
  {
    if rows != [] {
      DropCommentsKeeps(rows[1..], comment, row);
      assert rows == [rows[0]] + rows[1..];
    }
  }

  /** Re-reading a file whose first line is `[''] + headers` and whose data rows
      all have one cell more than `headers` (what the mutation pass writes)
      gives back `headers` and the rows unchanged. This is how
      `iterate_csv_sorted` reads its sorted file. */
  lemma ReadBackWritten(headers: Row, rows: seq<Row>)
    requires forall i :: 0 <= i < |rows| ==> |rows[i]| == |headers| + 1
    ensures IterateCsv([[""] + headers] + rows, false, "", 0) == Ok(Table(if rows == [] then [""] + headers else headers, rows))
  {
    var raw := [[""] + headers] + rows;
    assert SkipRows(DropComments(raw, ""), 0) == raw;
    if rows != [] {
      assert raw[1] == rows[0] && |raw[1]| > 0;
      assert ([""] + headers)[1..] == headers;
      var rs := raw;
      assert seq(|rs| - 1, i requires 0 <= i < |rs| - 1 => Drop(rs[i + 1], 0)) == rows;
    }
  }

  /** With `strip_numeric` and a numeric first cell in the second row, every
      data row loses exactly its first cell. */
  lemma StripNumericDropsFirstCell(raw: seq<Row>, comment: string, skip: nat)
    requires var rs := SkipRows(DropComments(raw, comment), skip);
      |rs| >= 2 && rs[1] != [] && IsDigits(rs[1][0])
    ensures var rs := SkipRows(DropComments(raw, comment), skip);
      IterateCsv(raw, true, comment, skip).Ok? &&
      forall i :: 0 <= i < |rs| - 1 ==> IterateCsv(raw, true, comment, skip).value.rows[i] == Drop(rs[i + 1], 1)
  {
  }

  /** The annotation a mutator consults: gene or transcript id to an annotation
      record whose first field is the canonical gene id. */
  type Annotation = map<string, seq<string>>

  /** `iterate_csv_sorted`'s `mutator` argument. */
  datatype Mutator = NoMutator | GeneRowMutator(geneToGene: Annotation) | TranscriptRowMutator(transcriptToGene: Annotation)

  /** One mutator call: whether the row is kept, and the row after the mutator
      changed it in place. Both mutators read `row[0]`, so an empty row raises.
      A record is truthy only when non-empty: an empty record keeps the row
      (`annot is not None`) but does not rewrite it. With no mutator a row is
      kept when it is non-empty. */
  function Mutate(m: Mutator, row: Row): (r: Result<(bool, Row), CsvError>)
    ensures r.Err? <==> m != NoMutator && row == []
    ensures r.Ok? && m.NoMutator? ==> r.value == (row != [], row)
    ensures r.Ok? && m.GeneRowMutator? ==> r.value.0 == (row[0] in m.geneToGene)
    ensures r.Ok? && m.TranscriptRowMutator? ==> r.value.0 == (row[0] in m.transcriptToGene)
  {
    match m
    case NoMutator => Ok((row != [], row))
    case GeneRowMutator(g) =>
      if row == [] then Err(IndexError)
      else if row[0] in g && g[row[0]] != [] then Ok((true, row[0 := g[row[0]][0]]))
      else Ok((row[0] in g, row))
    case TranscriptRowMutator(t) =>
      if row == [] then Err(IndexError)
      else if row[0] in t && t[row[0]] != [] then Ok((true, [t[row[0]][0]] + row))
      else Ok((row[0] in t, row))
  }

  /** The rows written to the annotated file and the ids written to `errors.tsv`. */
  datatype PassOutput = PassOutput(kept: seq<Row>, failed: seq<string>)

  /** The loop of the mutation pass over the data rows: a kept row is written as
      the mutator left it; a rejected row has its first cell logged, and an
      empty rejected row raises there. */
  function Pass(rows: seq<Row>, m: Mutator): Result<PassOutput, CsvError>
  {
    if rows == [] then Ok(PassOutput([], []))
    else
      match Mutate(m, rows[0])
      case Err(e) => Err(e)
      case Ok((keep, row)) =>
        if !keep && row == [] then Err(IndexError)
        else if keep then Prepend([row], [], Pass(rows[1..], m))
        else Prepend([], [row[0]], Pass(rows[1..], m))
  }

  /** The mutation pass of `iterate_csv_sorted` as the loop it is: the header
      line and then every row the mutator keeps go to the annotated file, the
      others to the error log. */
  method MutationPass(headers: Row, rows: seq<Row>, m: Mutator) returns (r: Result<(seq<Row>, seq<string>), CsvError>)
    ensures Pass(rows, m).Err? ==> r.Err?
    ensures Pass(rows, m).Ok? ==> r == Ok(([[""] + headers] + Pass(rows, m).value.kept, Pass(rows, m).value.failed))
  {
    var written: seq<Row> := [[""] + headers];
    var failed: seq<string> := [];
    assert rows[0..] == rows && written[1..] == [];
    PrependNothing(Pass(rows, m));
    for i := 0 to |rows|
      invariant |written| >= 1 && written[0] == [""] + headers
      invariant Pass(rows, m) == Prepend(written[1..], failed, Pass(rows[i..], m))
    {
      ghost var tail := rows[i..];
      assert tail[0] == rows[i] && tail[1..] == rows[i + 1..];
      ghost var before, failedBefore := written, failed;
      var res := Mutate(m, rows[i]);
      if res.Err? {
        return Err(res.error);
      }
      var (keep, row) := res.value;
      if !keep {
        if row == [] {
          return Err(IndexError);
        }
        assert Pass(tail, m) == Prepend([], [row[0]], Pass(rows[i + 1..], m));
        failed := failed + [row[0]];
        PrependAssoc(before[1..], failedBefore, [], [row[0]], Pass(rows[i + 1..], m));
        assert before[1..] + [] == written[1..];
      } else {
        assert Pass(tail, m) == Prepend([row], [], Pass(rows[i + 1..], m));
        written := written + [row];
        assert written[1..] == before[1..] + [row];
        PrependAssoc(before[1..], failedBefore, [row], [], Pass(rows[i + 1..], m));
        assert failedBefore + [] == failed;
      }
    }
    assert rows[|rows|..] == [];
    assert written == [written[0]] + written[1..];
    assert written[1..] + [] == written[1..] && failed + [] == failed;
    return Ok((written, failed));
  }

  /** The outcome of the rows still to come, after `kept` and `failed` so far. */
  function Prepend(kept: seq<Row>, failed: seq<string>, rest: Result<PassOutput, CsvError>): Result<PassOutput, CsvError>
  {
    match rest
    case Err(e) => Err(e)
    case Ok(out) => Ok(PassOutput(kept + out.kept, failed + out.failed))
  }

  lemma PrependNothing(rest: Result<PassOutput, CsvError>)
    ensures Prepend([], [], rest) == rest
  {
    if rest.Ok? {
      assert [] + rest.value.kept == rest.value.kept && [] + rest.value.failed == rest.value.failed;
    }
  }

  lemma PrependAssoc(k1: seq<Row>, f1: seq<string>, k2: seq<Row>, f2: seq<string>, rest: Result<PassOutput, CsvError>)
    ensures Prepend(k1, f1, Prepend(k2, f2, rest)) == Prepend(k1 + k2, f1 + f2, rest)
  {
    if rest.Ok? {
      assert k1 + (k2 + rest.value.kept) == (k1 + k2) + rest.value.kept;
      assert f1 + (f2 + rest.value.failed) == (f1 + f2) + rest.value.failed;
    }
  }

  /** The pass fails exactly when some row is empty (with no mutator because an
      empty row is falsy and `row[0]` is then logged, with a mutator because the
      mutator reads `row[0]`). */
  lemma {:induction false} PassOkIff(rows: seq<Row>, m: Mutator)
    ensures Pass(rows, m).Ok? <==> forall i :: 0 <= i < |rows| ==> rows[i] != []
  {
    if rows != [] {
      PassOkIff(rows[1..], m);
      assert forall i :: 1 <= i < |rows| ==> rows[i] == rows[1..][i - 1];
    }
  }

  /** Every row ends up in exactly one of the two outputs. */
  lemma {:induction false} PassPartitions(rows: seq<Row>, m: Mutator)
    requires Pass(rows, m).Ok?
    ensures |Pass(rows, m).value.kept| + |Pass(rows, m).value.failed| == |rows|
  {
    if rows != [] {
      PassPartitions(rows[1..], m);
    }
  }

  /** Kept row `k` is what the mutator made of input row j. */
  predicate KeptFrom(m: Mutator, rows: seq<Row>, j: int, k: Row)
  {
    0 <= j < |rows| && Mutate(m, rows[j]) == Ok((true, k))
  }

  /** One step of the pass: the first row's outcome in front of the rest's. */
  lemma PassUnfold(rows: seq<Row>, m: Mutator)
    requires rows != [] && Pass(rows, m).Ok?
    ensures Mutate(m, rows[0]).Ok? && Pass(rows[1..], m).Ok?
    ensures var keep := Mutate(m, rows[0]).value.0;
      var out, rest := Pass(rows, m).value, Pass(rows[1..], m).value;
      && (keep ==> out.kept == [Mutate(m, rows[0]).value.1] + rest.kept && out.failed == rest.failed)
      && (!keep ==> rows[0] != [] && Mutate(m, rows[0]) == Ok((false, rows[0]))
                    && out.kept == rest.kept && out.failed == [rows[0][0]] + rest.failed)
  {
    assert [] + Pass(rows[1..], m).value.kept == Pass(rows[1..], m).value.kept;
    assert [] + Pass(rows[1..], m).value.failed == Pass(rows[1..], m).value.failed;
  }

  /** Every kept row is the mutator's output for a row it accepted. */
  lemma {:induction false} PassKeptSound(rows: seq<Row>, m: Mutator, k: nat)
    requires Pass(rows, m).Ok? && k < |Pass(rows, m).value.kept|
    ensures exists j :: KeptFrom(m, rows, j, Pass(rows, m).value.kept[k])
  {
    var out := Pass(rows, m).value;
    var tail := rows[1..];
    PassUnfold(rows, m);
    var rest := Pass(tail, m).value;
    var shift := if Mutate(m, rows[0]).value.0 then 1 else 0;
    if k < shift {
      assert KeptFrom(m, rows, 0, out.kept[k]);
    } else {
      assert out.kept[k] == rest.kept[k - shift];
      PassKeptSound(tail, m, k - shift);
      var j :| KeptFrom(m, tail, j, rest.kept[k - shift]);
      assert rows[j + 1] == tail[j];
      assert KeptFrom(m, rows, j + 1, out.kept[k]);
    }
  }

  /** Every row the mutator accepts is written. */
  lemma {:induction false} PassKeptComplete(rows: seq<Row>, m: Mutator)
    requires Pass(rows, m).Ok?
    ensures forall j :: 0 <= j < |rows| && Mutate(m, rows[j]).Ok? && Mutate(m, rows[j]).value.0 ==>
      exists k :: 0 <= k < |Pass(rows, m).value.kept| && KeptFrom(m, rows, j, Pass(rows, m).value.kept[k])
  {
    if rows != [] {
      var out := Pass(rows, m).value;
      var tail := rows[1..];
      PassUnfold(rows, m);
      var rest := Pass(tail, m).value;
      PassKeptComplete(tail, m);
      var shift := if Mutate(m, rows[0]).value.0 then 1 else 0;
      forall j | 0 <= j < |rows| && Mutate(m, rows[j]).Ok? && Mutate(m, rows[j]).value.0
        ensures exists k :: 0 <= k < |out.kept| && KeptFrom(m, rows, j, out.kept[k])
      {
        if j == 0 {
          assert KeptFrom(m, rows, 0, out.kept[0]);
        } else {
          assert rows[j] == tail[j - 1];
          var k :| 0 <= k < |rest.kept| && KeptFrom(m, tail, j - 1, rest.kept[k]);
          assert out.kept[k + shift] == rest.kept[k];
          assert KeptFrom(m, rows, j, out.kept[k + shift]);
        }
      }
    }
  }

  /** The logged ids are the first cells of exactly the rows the mutator rejects. */
  lemma {:induction false} PassFailed(rows: seq<Row>, m: Mutator)
    requires Pass(rows, m).Ok?
    ensures forall f :: f in Pass(rows, m).value.failed <==>
      exists j :: 0 <= j < |rows| && rows[j] != [] && rows[j][0] == f && Mutate(m, rows[j]) == Ok((false, rows[j]))
  {
    if rows != [] {
      var out := Pass(rows, m).value;
      var tail := rows[1..];
      PassUnfold(rows, m);
      var rest := Pass(tail, m).value;
      PassFailed(tail, m);
      forall f ensures f in out.failed <==>
        exists j :: 0 <= j < |rows| && rows[j] != [] && rows[j][0] == f && Mutate(m, rows[j]) == Ok((false, rows[j]))
      {
        if f in rest.failed {
          var j :| 0 <= j < |tail| && tail[j] != [] && tail[j][0] == f && Mutate(m, tail[j]) == Ok((false, tail[j]));
          assert rows[j + 1] == tail[j];
        }
        if exists j :: 0 <= j < |rows| && rows[j] != [] && rows[j][0] == f && Mutate(m, rows[j]) == Ok((false, rows[j])) {
          var j :| 0 <= j < |rows| && rows[j] != [] && rows[j][0] == f && Mutate(m, rows[j]) == Ok((false, rows[j]));
          if j > 0 { assert rows[j] == tail[j - 1]; }
        }
      }
    }
  }

  /** The gene mutator accepts exactly the rows whose first cell is annotated and
      rewrites only that cell, to the canonical gene id when the record has one. */
  lemma GeneRowMutatorRewrites(g: Annotation, row: Row)
    requires row != []
    ensures Mutate(GeneRowMutator(g), row).value.0 <==> row[0] in g
    ensures row[0] in g ==> var k := Mutate(GeneRowMutator(g), row).value.1;
      |k| == |row| && k[1..] == row[1..] && k[0] == (if g[row[0]] != [] then g[row[0]][0] else row[0])
    ensures row[0] !in g ==> Mutate(GeneRowMutator(g), row).value.1 == row
  {
  }

  /** The transcript mutator accepts exactly the rows whose transcript is
      annotated and puts the canonical gene id in front of the row, so that the
      sort groups transcripts by gene. */
  lemma TranscriptRowMutatorPrepends(t: Annotation, row: Row)
    requires row != [] && row[0] in t && t[row[0]] != []
    ensures Mutate(TranscriptRowMutator(t), row) == Ok((true, [t[row[0]][0]] + row))
  {
  }
}
