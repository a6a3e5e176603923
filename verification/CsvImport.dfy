/** Importing rows into a file: the CSV converter's use of the writer, from lines to the closed file. */
module CsvImport {
  import opened FileFormat
  import opened FileReader
  import opened FileWriter
  import opened Values
  import opened WholeFile
  import Csv
  import Encodings
  import Rle
  import RoundTrip

  /** A split line padded with empty fields or cut to the header's width. */
  function Resized(fields: Row, n: nat): (row: Row)
    ensures |row| == n
  {
    if |fields| >= n then fields[..n] else fields + seq(n - |fields|, _ => [])
  }

  /** The rows of the data lines; empty lines are skipped. */
  function RowsOfLines(lines: seq<Text>, n: nat): (rows: seq<Row>)
    ensures |rows| <= |lines| && AllWidth(rows, n)
  {
    if lines == [] then []
    else
      var before, line := RowsOfLines(lines[..|lines| - 1], n), lines[|lines| - 1];
      if line == [] then before else before + [Resized(Csv.Scan(line, false, [], []), n)]
  }

  /** A split line keeps the fields the header has room for and is filled up with empty ones. */
  lemma ResizedIs(fields: Row, n: nat, c: nat)
    requires c < n
    ensures Resized(fields, n)[c] == if c < |fields| then fields[c] else []
  {
  }

  /** Every line that is not empty gives one row, in order. */
  lemma {:induction false} RowPerLine(lines: seq<Text>, n: nat, i: nat)
    requires (forall k :: 0 <= k < |lines| ==> lines[k] != []) && i < |lines|
    ensures |RowsOfLines(lines, n)| == |lines|
    ensures RowsOfLines(lines, n)[i] == Resized(Csv.Scan(lines[i], false, [], []), n)
    decreases |lines|
  {
    hide Csv.Scan, Resized;
    var m := |lines| - 1;
    if m > 0 {
      RowPerLine(lines[..m], n, if i < m then i else 0);
    } else {
      assert lines[..m] == [];
    }
  }

  lemma {:induction false} EmptyLines(a: seq<Text>, b: seq<Text>, n: nat)
    ensures RowsOfLines(a + [[]] + b, n) == RowsOfLines(a + b, n)
    decreases |b|
  {
    hide Csv.Scan;
    if b == [] {
      assert (a + [[]] + b)[..|a|] == a && a + b == a;
    } else {
      var m := |b| - 1;
      assert (a + [[]] + b)[..|a| + 1 + m] == a + [[]] + b[..m] && (a + b)[..|a| + m] == a + b[..m];
      EmptyLines(a, b[..m], n);
    }
  }

  method SplitLines(lines: seq<Text>, n: nat) returns (rows: seq<Row>)
    ensures rows == RowsOfLines(lines, n)
  {
    hide Csv.Scan;
    rows := [];
    var i := 0;
    while i < |lines|
      invariant 0 <= i <= |lines| && rows == RowsOfLines(lines[..i], n)
    {
      assert lines[..i + 1][..i] == lines[..i];
      if lines[i] != [] {
        var fields := Csv.SplitLine(lines[i]);
        rows := rows + [Resized(fields, n)];
      }
      i := i + 1;
    }
    assert lines[..i] == lines;
  }

  /** Row groups as the writer cuts them: full ones, and a last one that may be smaller. */
  predicate FullGroups(flushed: seq<seq<Row>>, size: nat) {
    forall g :: 0 <= g < |flushed| ==> if g < |flushed| - 1 then |flushed[g]| == size else 0 < |flushed[g]| <= size
  }

  /** Writes rows one by one and closes the file. The file then holds exactly these rows, in groups of
      the configured size. */
  method WriteRows(f: Layout, rows: seq<Row>)
    returns (r: Result<seq<bv8>>, ghost hist: seq<seq<Encodings.Written>>, ghost flushed: seq<seq<Row>>)
    requires ParseLaw(f.k) && f.schema != [] && AllWidth(rows, |f.schema|) && |rows| < Rle.VALUES_MAX
    ensures r.Ok? ==>
              && Columns(f, hist) && Sound(f, hist) && r.value == Whole(f, hist)
              && Conserved(f, hist, flushed, [], rows, TotalRows(hist))
              && FullGroups(flushed, if f.cfg.rowGroupSize < 1 then 1 else f.cfg.rowGroupSize)
  {
    hide Sound, Columns, Conserved, ParquetWriter.Valid, ParquetWriter.Gathered, Flushed, TotalRows, FullGroups, Whole;
    var w := new ParquetWriter(f);
    var i := 0;
    while i < |rows|
      invariant 0 <= i <= |rows| && w.Valid() && w.open && w.f == f && w.rowsOnly && w.rows == rows[..i]
      invariant fresh(w) && fresh(w.Objects())
      invariant forall g :: 0 <= g < |w.flushed| ==> |w.flushed[g]| == AtLeastOne(f.cfg.rowGroupSize)
    {
      NothingWaits(w);
      var e := w.WriteRow(rows[i]);
      if e.Err? {
        return Err(e.error), [], [];
      }
      assert rows[..i + 1] == rows[..i] + [rows[i]];
      i := i + 1;
    }
    assert rows[..i] == rows;
    NothingWaits(w);
    FewWait(w);
    CutEvenly(w.flushed, w.pending, AtLeastOne(f.cfg.rowGroupSize));
    var stats := w.Close();
    if stats.Err? {
      return Err(stats.error), [], [];
    }
    return Ok(w.file), w.hist, w.flushed;
  }

  lemma FewWait(w: ParquetWriter)
    requires w.Valid()
    ensures |w.pending| < AtLeastOne(w.f.cfg.rowGroupSize)
  {
    hide ParquetWriter.Consistent;
  }

  lemma CutEvenly(flushed: seq<seq<Row>>, pending: seq<Row>, size: nat)
    requires size > 0 && |pending| < size && forall g :: 0 <= g < |flushed| ==> |flushed[g]| == size
    ensures FullGroups(if pending == [] then flushed else flushed + [pending], size)
  {
  }

  /** While only rows were written, the columns are empty between calls. */
  lemma NothingWaits(w: ParquetWriter)
    requires w.Valid() && w.rowsOnly && w.f.schema != [] && |w.rows| < Rle.VALUES_MAX
    ensures w.Countable(1) && w.Countable(0)
  {
    hide ParquetWriter.WritersOk, ParquetWriter.FileOk, HoldsRows, Concat;
  }

  /** Importing lines into a file and reading all rows back returns the split lines with every cell
      respelled, for every layout whose stored chunks come back. */
  lemma ImportReturns(f: Layout, lines: seq<Text>, hist: seq<seq<Encodings.Written>>, flushed: seq<seq<Row>>)
    requires Columns(f, hist) && Sound(f, hist) && HeaderLaw(f.k) && AllPrintable(f.schema) && Kept(f, hist)
    requires RoundTrip.FooterLaw(f.k, MetaData(f, hist)) && |Whole(f, hist)| <= MAX_FILE_SIZE
    requires var rows := RowsOfLines(lines, |f.schema|);
             Conserved(f, hist, flushed, [], rows, TotalRows(hist)) && |rows| <= MAX_ROWS
    ensures Open(f.k, Whole(f, hist)).Ok?
    ensures var rows := RowsOfLines(lines, |f.schema|);
            && AllRows(Open(f.k, Whole(f, hist)).value) == Ok(RespelledRows(f, rows))
            && (SpelledPlainly(f, rows) ==> AllRows(Open(f.k, Whole(f, hist)).value) == Ok(rows))
  {
    hide Columns, Sound, HeaderLaw, AllPrintable, Kept, Whole, Conserved, AllRows, Open, RoundTrip.Opened, RowsOfLines;
    RoundTrip.Opens(f, hist);
    RowsReturn(f, hist, flushed, RowsOfLines(lines, |f.schema|));
  }
}
