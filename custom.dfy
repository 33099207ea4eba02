/**
 * The custom-matrix loader of frontend/src/lib/stores/custom.js. The CSV
 * parser is external: its outcome (an error type, or the parsed rows with
 * the `truncated` and `aborted` flags) is the input. The loader squares the
 * matrix: it requires a header and one data row, accepts a header one cell
 * short (the empty top-left corner), and drops every row whose width differs
 * from the first data row.
 */
module Custom {
  import opened Wrappers
  import opened PyHelpers

  type Row = seq<string>

  /** What the parser reports. */
  datatype ParseEvent = ParseError(kind: string) | Complete(data: seq<Row>, truncated: bool, aborted: bool)

  /** What the store publishes. */
  datatype CsvState = Loading | Failed(message: string) | Loaded(matrix: seq<Row>)

  const TooFewRows := "At least two rows (including header) required"
  const MissingHeading := "Each column must have a heading"

  /** `matrix.filter(row => row.length == numCols)`. */
  function Keep(rows: seq<Row>, numCols: nat): (r: seq<Row>)
    ensures |r| <= |rows|
  {
    if rows == [] then []
    else if |rows[0]| == numCols then [rows[0]] + Keep(rows[1..], numCols)
    else Keep(rows[1..], numCols)
  }

  /** The filter keeps exactly the rows of the given width, in their order:
      each as often as it occurs, and no other row. */
  lemma {:induction false} KeepExact(rows: seq<Row>, numCols: nat)
    ensures forall k :: 0 <= k < |Keep(rows, numCols)| ==> |Keep(rows, numCols)[k]| == numCols
    ensures forall i :: 0 <= i < |rows| && |rows[i]| == numCols ==> rows[i] in Keep(rows, numCols)
    ensures forall x :: multiset(Keep(rows, numCols))[x] == if |x| == numCols then multiset(rows)[x] else 0
    ensures IsSubsequence(Keep(rows, numCols), rows)
  {
    KeepCounts(rows, numCols);
    if rows != [] {
      KeepExact(rows[1..], numCols);
      assert forall i :: 0 < i < |rows| ==> rows[i] == rows[1..][i - 1];
      if |rows[0]| != numCols {
        SubsequenceDropHead(Keep(rows[1..], numCols), rows);
      } else {
        var r := Keep(rows, numCols);
        assert r[1..] == Keep(rows[1..], numCols);
        assert r[0] == rows[0];
      }
    }
  }

  lemma {:induction false} KeepCounts(rows: seq<Row>, numCols: nat)
    ensures forall x :: multiset(Keep(rows, numCols))[x] == if |x| == numCols then multiset(rows)[x] else 0
  {
    if rows != [] {
      KeepCounts(rows[1..], numCols);
      assert rows == [rows[0]] + rows[1..];
      assert multiset(rows) == multiset{rows[0]} + multiset(rows[1..]);
      if |rows[0]| == numCols {
        assert multiset(Keep(rows, numCols)) == multiset{rows[0]} + multiset(Keep(rows[1..], numCols));
      } else {
        assert Keep(rows, numCols) == Keep(rows[1..], numCols);
      }
    }
  }

  /** The `complete` callback (lines 11-35): nothing is published for a
      truncated or aborted parse; otherwise an error or the squared matrix. */
  function OnComplete(data: seq<Row>, truncated: bool, aborted: bool): (r: Option<CsvState>)
    ensures (truncated || aborted) <==> r.None?
    ensures r.Some? ==> !r.value.Loading?
    ensures r.Some? && |data| < 2 ==> r.value == Failed(TooFewRows)
    ensures r.Some? && |data| >= 2 && |data[0]| != |data[1]| && |data[0]| + 1 != |data[1]| ==> r.value == Failed(MissingHeading)
    ensures (r.Some? && r.value.Loaded?) <==>
      !truncated && !aborted && |data| >= 2 && (|data[0]| == |data[1]| || |data[0]| + 1 == |data[1]|)
  {
    if truncated || aborted then None
    else if |data| < 2 then Some(Failed(TooFewRows))
    else
      var numCols := |data[1]|;
      if |data[0]| == numCols - 1 then Some(Loaded(Keep([[""] + data[0]] + data[1..], numCols)))
      else if |data[0]| != numCols then Some(Failed(MissingHeading))
      else Some(Loaded(Keep(data, numCols)))
  }

  /** The states the store goes through for one file: none without a file,
      else `loading` and then whatever the parser's callback publishes. */
  function AsCsv(hasFile: bool, event: ParseEvent): (r: seq<CsvState>)
    ensures !hasFile ==> r == []
    ensures hasFile ==> 1 <= |r| <= 2 && r[0] == Loading
    ensures hasFile && event.ParseError? ==> r == [Loading, Failed("Could not parse file: " + event.kind)]
    ensures hasFile && event.Complete? ==>
      var outcome := OnComplete(event.data, event.truncated, event.aborted);
      r[1..] == if outcome.Some? then [outcome.value] else []
  {
    if !hasFile then []
    else
      match event
      case ParseError(kind) => [Loading, Failed("Could not parse file: " + kind)]
      case Complete(data, truncated, aborted) =>
        var outcome := OnComplete(data, truncated, aborted);
        if outcome.None? then [Loading] else [Loading, outcome.value]
  }

  /** A loaded matrix is square and complete: it keeps the header (with the
      empty corner put back when it was missing) and the first data row, every
      row has the first data row's width, and the other rows of that width all
      survive in their order, each as often as it occurs. */
  lemma {:induction false} LoadedIsSquare(data: seq<Row>, truncated: bool, aborted: bool)
    requires OnComplete(data, truncated, aborted).Some? && OnComplete(data, truncated, aborted).value.Loaded?
    ensures var m := OnComplete(data, truncated, aborted).value.matrix;
      && |data| >= 2
      && |m| >= 2
      && (m[0] == data[0] || m[0] == [""] + data[0])
      && m[1] == data[1]
      && (forall k :: 0 <= k < |m| ==> |m[k]| == |data[1]|)
      && (forall i :: 1 <= i < |data| && |data[i]| == |data[1]| ==> data[i] in m)
      && (forall x :: multiset(m[1..])[x] == if |x| == |data[1]| then multiset(data[1..])[x] else 0)
      && IsSubsequence(m[1..], data[1..])
  {
    var numCols := |data[1]|;
    var rows := if |data[0]| == numCols - 1 then [[""] + data[0]] + data[1..] else data;
    var m := Keep(rows, numCols);
    assert m == OnComplete(data, truncated, aborted).value.matrix;
    assert rows[1..] == data[1..];
    assert |rows[0]| == numCols;
    assert m == [rows[0]] + Keep(data[1..], numCols);
    assert Keep(data[1..], numCols) == [data[1]] + Keep(data[2..], numCols) by {
      assert data[1..][0] == data[1];
      assert data[1..][1..] == data[2..];
    }
    KeepExact(data[1..], numCols);
    KeepExact(rows, numCols);
    assert m[1..] == Keep(data[1..], numCols);
    forall i | 1 <= i < |data| && |data[i]| == numCols ensures data[i] in m {
      assert data[i] == data[1..][i - 1];
      assert data[i] in Keep(data[1..], numCols);
    }
  }

  /** A header one cell short gets the empty corner, but a header two short
      or one too long is an error. */
  lemma ExampleCorner()
    ensures OnComplete([["a"], ["r", "1"]], false, false) == Some(Loaded([["", "a"], ["r", "1"]]))
    ensures OnComplete([["a"], ["r", "1", "2"]], false, false) == Some(Failed(MissingHeading))
    ensures OnComplete([["a", "b"], ["r", "1"], ["x"]], false, false) == Some(Loaded([["a", "b"], ["r", "1"]]))
  {
    var d1: seq<Row> := [["a"], ["r", "1"]];
    var rows1: seq<Row> := [[""] + d1[0]] + d1[1..];
    assert [""] + d1[0] == ["", "a"] && d1[1..] == [["r", "1"]];
    assert rows1 == [["", "a"], ["r", "1"]];
    assert Keep(rows1[1..], 2) == [["r", "1"]] by {
      assert rows1[1..][1..] == [];
    }
    var d3: seq<Row> := [["a", "b"], ["r", "1"], ["x"]];
    assert |d3[0]| == 2 && d3[0] == ["a", "b"];
    assert Keep(d3[1..], 2) == [["r", "1"]] by {
      assert d3[1..][0] == ["r", "1"];
      assert d3[1..][1..] == [["x"]];
      assert Keep([["x"]], 2) == [] by {
        assert [["x"]][1..] == [];
      }
    }
    assert Keep(d3, 2) == [d3[0]] + Keep(d3[1..], 2);
    assert OnComplete(d3, false, false) == Some(Loaded(Keep(d3, 2)));
    assert Keep(d3, 2) == [["a", "b"], ["r", "1"]];
  }
}
