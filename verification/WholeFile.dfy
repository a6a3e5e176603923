/** What a writer's run leaves behind is what a reader gets: columns, rows and sizes of closed files. */
module WholeFile {
  import opened Encodings
  import opened FileFormat
  import opened FileReader
  import opened FileWriter
  import opened HexText
  import opened PlainCodec
  import opened RoundTrip
  import opened Values
  import opened Words
  import Delta
  import Dictionary
  import PageIndex
  import Rle
  import Statistics
  import TicksQuery

  /** A chunk within the reader's limits and stored without loss. */
  ghost predicate ChunkKept(w: Written, t: PhysicalType) { WithinLimits(w) && Lossless(w, t) }

  /** Closing a file within the reader's size limit, then opening it and reading a column, returns
      exactly the values written if and only if the column is within the reader's page limits and the
      encoding the writer chose loses nothing. */
  lemma ClosedFileReads(f: Layout, hist: seq<seq<Written>>, g: nat, c: nat)
    requires Columns(f, hist) && Sound(f, hist) && HeaderLaw(f.k) && FooterLaw(f.k, MetaData(f, hist))
    requires |Whole(f, hist)| <= MAX_FILE_SIZE && g < |hist| && c < |f.schema|
    requires Readable(f.schema[c].ptype)
    ensures Open(f.k, Whole(f, hist)).Ok?
    ensures ColumnOf(Open(f.k, Whole(f, hist)).value, g, c, f.schema[c].ptype) == Ok(hist[g][c].values) <==>
            ChunkKept(hist[g][c], f.schema[c].ptype)
  {
    hide Columns, Sound, Whole, MetaData, Open, Opened, ColumnOf, Lossless, WithinLimits;
    SoundIsFaithful(f, hist);
    Opens(f, hist);
    ColumnReturns(f, hist, g, c);
  }

  /** When the chosen encoding loses nothing, in terms of the column alone: differences of neighbours
      below two to the 63, floats for stream splitting, a decoded size the reader admits, boolean runs
      the decoder admits. Dictionaries lose nothing of other types than floats up to their capacity. */
  lemma LosslessWhen(f: Layout, w: Written, c: nat, numRows: nat)
    requires c < |f.schema| && ChunkSound(f, w, c, numRows) && Readable(f.schema[c].ptype)
    ensures var t := f.schema[c].ptype;
            if IsDictionary(w.enc) then !IsFloat(t) && numRows <= 1024 * 1024 ==> Lossless(w, t)
            else if w.enc == DELTA_BINARY_PACKED then
              Lossless(w, t) <==> t == INT32 || (t == INT64 && AllOfType(w.values, t) && SmallSteps(w.values))
            else if w.enc == BYTE_STREAM_SPLIT then Lossless(w, t) <==> IsFloat(t)
            else if w.enc == RLE && t == BOOLEAN then
              && (Lossless(w, t) <==> AllOfType(w.values, t) && Rle.Reads(BoolNats(w.values), 1))
              && (numRows <= 32 * 1024 * 1024 ==> Lossless(w, t))
            else Lossless(w, t) <==> numRows * ElementSize(t, 0) <= 256 * 1024 * 1024
  {
    var t := f.schema[c].ptype;
    hide EncodingOf, Plain, AllStorable, Ints, BoolNats, Rle.Encodes, Rle.Reads, Prefixed, SmallSteps,
      Delta.StepsFrom, Delta.Encode;
    StorableTyped(w.values, t, f.schema[c].typeLength);
    if IsDictionary(w.enc) {
      if !IsFloat(t) && numRows <= Dictionary.MAX_ENTRIES {
        SmallDictionary(w, t);
      }
      return;
    }
    if w.enc == DELTA_BINARY_PACKED && IsInteger(t) {
      IntsRoundTrip(w.values, t);
      if t == INT64 {
        StepsAre(w.values);
      }
    }
    if w.enc == RLE && t == BOOLEAN && numRows <= Rle.MAX_BP_VALUES {
      Rle.ShortAccepted(w.payload, BoolNats(w.values), 1);
    }
  }

  lemma SmallDictionary(w: Written, t: PhysicalType)
    requires Dictionary.Pages(w.dict, w.page, w.values, t) && AllOfType(w.values, t) && IsDictionary(w.enc)
    requires !IsFloat(t) && |w.values| <= Dictionary.MAX_ENTRIES
    ensures Lossless(w, t)
  {
    hide Dictionary.Entries, Dictionary.Indices, Dictionary.Fits, Plain, AllStorable, Rle.Encodes, Rle.Reads,
      Dictionary.Held;
    Dictionary.SmallFits(w.values);
    Dictionary.HeldAll(w.values);
    Dictionary.IndicesFit(w.values);
    Rle.ShortAccepted(w.page[1..], Dictionary.Indices(w.values), Dictionary.IndexWidth(|Dictionary.Entries(w.values)|));
  }

  /** Neighbours whose difference fits 64 signed bits. */
  predicate SmallSteps(vs: seq<Value>)
    requires AllOfType(vs, INT64)
  {
    forall i :: 0 <= i < |vs| - 1 ==> -TWO63 <= S64(vs[i + 1].d) - S64(vs[i].d) < TWO63
  }

  lemma StepsAre(vs: seq<Value>)
    requires AllOfType(vs, INT64)
    ensures Delta.StepsFrom(Ints(vs, INT64), 0) <==> SmallSteps(vs)
  {
    hide S64;
    forall i | 0 <= i < |vs| - 1
      ensures Ints(vs, INT64)[i + 1] - Ints(vs, INT64)[i] == S64(vs[i + 1].d) - S64(vs[i].d)
    {
    }
  }

  // ----- the encoding chosen for a column -----

  /** A column the settings name has exactly the encoding named; another has the default, unless the
      encoding is automatic. Automatic columns never get a dictionary, since the writer's tracker counts
      no distinct values. */
  lemma EncodingChosen(f: Layout, w: Written, c: nat, numRows: nat)
    requires c < |f.schema| && ChunkSound(f, w, c, numRows)
    ensures var name := f.schema[c].name;
            if name in f.cfg.columnEncodings then w.enc == f.cfg.columnEncodings[name]
            else if !f.cfg.autoEncoding then w.enc == f.cfg.defaultEncoding
            else !IsDictionary(w.enc)
  {
    hide Encoded, SmallPages, Statistics.Feed;
    Statistics.FeedCountsNoDistinct(Statistics.Fresh(INT32), Items(w.values));
  }

  predicate Automatic(f: Layout, c: nat)
    requires c < |f.schema|
  {
    f.cfg.autoEncoding && f.schema[c].name !in f.cfg.columnEncodings
  }

  /** The automatic encoding is one of its type's own, or PLAIN for strings. */
  lemma AutomaticSuits(f: Layout, w: Written, c: nat, numRows: nat)
    requires c < |f.schema| && ChunkSound(f, w, c, numRows) && Automatic(f, c)
    ensures var t := f.schema[c].ptype;
            && !IsDictionary(w.enc)
            && (IsInteger(t) ==> w.enc == DELTA_BINARY_PACKED) && (IsFloat(t) ==> w.enc == BYTE_STREAM_SPLIT)
            && (t == BOOLEAN ==> w.enc == RLE) && (t == BYTE_ARRAY ==> w.enc == PLAIN)
  {
    hide Encoded, SmallPages, Statistics.Feed;
    Statistics.FeedCountsNoDistinct(Statistics.Fresh(INT32), Items(w.values));
  }

  /** What an automatic column must satisfy to lose nothing: INT64 neighbours at most 64 bits apart, flags
      whose runs the decoder admits, and nothing for the other types. */
  predicate AutomaticKeeps(vs: seq<Value>, t: PhysicalType)
    requires AllOfType(vs, t)
  {
    match t
    case INT64 => SmallSteps(vs)
    case BOOLEAN => Rle.Reads(BoolNats(vs), 1)
    case _ => true
  }

  lemma EncodedTyped(w: Written, t: PhysicalType, width: int)
    requires Encoded(w, t, width)
    ensures AllOfType(w.values, t)
  {
    hide Plain, AllStorable;
    StorableTyped(w.values, t, width);
  }

  lemma StringsUnsized(n: nat)
    ensures n * ElementSize(BYTE_ARRAY, 0) == 0
  {
  }

  /** The automatic encoding loses nothing exactly then, for every readable type and any number of rows
      within the reader's limit; up to 32 * 1024 * 1024 rows only INT64 columns can lose anything. */
  lemma AutomaticLossless(f: Layout, w: Written, c: nat, numRows: nat)
    requires c < |f.schema| && ChunkSound(f, w, c, numRows) && Automatic(f, c) && Readable(f.schema[c].ptype)
    requires numRows <= 100_000_000
    ensures AllOfType(w.values, f.schema[c].ptype)
    ensures ChunkKept(w, f.schema[c].ptype) <==> AutomaticKeeps(w.values, f.schema[c].ptype)
    ensures numRows <= 32 * 1024 * 1024 && f.schema[c].ptype != INT64 ==> ChunkKept(w, f.schema[c].ptype)
  {
    var t := f.schema[c].ptype;
    hide Encoded, SmallPages, Lossless, SmallSteps, Rle.Reads, BoolNats, EncodingOf, Automatic, ElementSize;
    EncodedTyped(w, t, f.schema[c].typeLength);
    AutomaticSuits(f, w, c, numRows);
    LosslessWhen(f, w, c, numRows);
    if t == BYTE_ARRAY {
      StringsUnsized(numRows);
    }
  }

  /** A column written with automatic encoding comes back from the closed file exactly when it is within
      the reader's value limit and its values have nothing to lose. */
  lemma AutomaticReads(f: Layout, hist: seq<seq<Written>>, g: nat, c: nat)
    requires Columns(f, hist) && Sound(f, hist) && HeaderLaw(f.k) && FooterLaw(f.k, MetaData(f, hist))
    requires |Whole(f, hist)| <= MAX_FILE_SIZE && g < |hist| && c < |f.schema|
    requires Readable(f.schema[c].ptype) && Automatic(f, c)
    ensures AllOfType(hist[g][c].values, f.schema[c].ptype) && Open(f.k, Whole(f, hist)).Ok?
    ensures ColumnOf(Open(f.k, Whole(f, hist)).value, g, c, f.schema[c].ptype) == Ok(hist[g][c].values) <==>
            |hist[g][c].values| <= 100_000_000 && AutomaticKeeps(hist[g][c].values, f.schema[c].ptype)
  {
    hide Whole, MetaData, Open, ColumnOf, Lossless, SmallPages, AutomaticKeeps, Automatic, Encoded, EncodingOf;
    var w, t := hist[g][c], f.schema[c].ptype;
    assert GroupSound(f, hist[g]);
    assert ChunkSound(f, w, c, GroupRows(hist[g]));
    EncodedTyped(w, t, f.schema[c].typeLength);
    ClosedFileReads(f, hist, g, c);
    if |w.values| <= MAX_VALUES_PER_PAGE {
      AutomaticLossless(f, w, c, GroupRows(hist[g]));
    }
  }

  // ----- rows -----

  /** A column the reader prints: every readable type, and fixed-length byte arrays of a declared length. */
  predicate Printable(d: ColumnDesc) {
    Readable(d.ptype) || (d.ptype == FIXED_LEN_BYTE_ARRAY && d.typeLength > 0)
  }

  predicate AllPrintable(schema: seq<ColumnDesc>) {
    schema != [] && forall c :: 0 <= c < |schema| ==> Printable(schema[c])
  }

  /** A chunk that comes back as text. Fixed-length byte arrays are read in PLAIN form whatever the encoding. */
  ghost predicate TextKept(w: Written, d: ColumnDesc) {
    if Readable(d.ptype) then ChunkKept(w, d.ptype)
    else WithinLimits(w) && |w.values| * d.typeLength <= MAX_DECODED
  }

  /** Every chunk comes back. */
  ghost predicate Kept(f: Layout, hist: seq<seq<Written>>)
    requires Columns(f, hist)
  {
    forall g, c :: 0 <= g < |hist| && 0 <= c < |f.schema| ==> TextKept(hist[g][c], f.schema[c])
  }

  /** How a cell comes back: strings unchanged, the four spellings of true as true and all else as false,
      fixed-length byte arrays in hexadecimal, numbers printed anew. */
  function Respelled(k: Codec, t: PhysicalType, cell: Text): Text {
    match t
    case BOOLEAN =>
      if cell == [0x74, 0x72, 0x75, 0x65] || cell == [0x54, 0x72, 0x75, 0x65] || cell == [0x54, 0x52, 0x55, 0x45] ||
         cell == [0x31]
      then [0x74, 0x72, 0x75, 0x65] else [0x66, 0x61, 0x6C, 0x73, 0x65]
    case BYTE_ARRAY | INT96 => cell
    case FIXED_LEN_BYTE_ARRAY => Hex(cell)
    case INT32 | INT64 | FLOAT | DOUBLE => k.show(k.parse(t, cell))
  }

  /** Some rows as they come back. */
  function RespelledRows(f: Layout, rows: seq<Row>): (back: seq<Row>)
    requires AllWidth(rows, |f.schema|)
    ensures |back| == |rows| && AllWidth(back, |f.schema|)
  {
    seq(|rows|, r requires 0 <= r < |rows| => RespelledRow(f, rows[r]))
  }

  function RespelledRow(f: Layout, row: Row): (back: Row)
    requires |row| == |f.schema|
    ensures |back| == |f.schema|
  {
    seq(|row|, c requires 0 <= c < |row| => Respelled(f.k, f.schema[c].ptype, row[c]))
  }

  /** Cells that come back as they are: strings, and booleans spelled true or false. */
  predicate SpelledPlainly(f: Layout, rows: seq<Row>)
    requires AllWidth(rows, |f.schema|)
  {
    forall r, c :: 0 <= r < |rows| && 0 <= c < |f.schema| ==>
      f.schema[c].ptype == BYTE_ARRAY ||
      (f.schema[c].ptype == BOOLEAN &&
       (rows[r][c] == [0x74, 0x72, 0x75, 0x65] || rows[r][c] == [0x66, 0x61, 0x6C, 0x73, 0x65]))
  }

  lemma PlainStays(f: Layout, rows: seq<Row>)
    requires AllWidth(rows, |f.schema|) && SpelledPlainly(f, rows)
    ensures RespelledRows(f, rows) == rows
  {
    forall r | 0 <= r < |rows| ensures RespelledRow(f, rows[r]) == rows[r] {
      forall c | 0 <= c < |f.schema| ensures RespelledRow(f, rows[r])[c] == rows[r][c] {
      }
    }
  }

  /** What a cell is stored as. A boolean cell is true exactly when it is one of four spellings. */
  lemma BooleanCells(f: Layout, rows: seq<Row>, c: nat, r: nat)
    requires c < |f.schema| && f.schema[c].ptype == BOOLEAN && AllWidth(rows, |f.schema|) && r < |rows|
    ensures var cell := rows[r][c];
            var yes := cell == [0x74, 0x72, 0x75, 0x65] || cell == [0x54, 0x72, 0x75, 0x65] ||
                       cell == [0x54, 0x52, 0x55, 0x45] || cell == [0x31];
            ParsedColumn(f, rows, c)[r] == Bool(yes)
  {
  }

  /** Printing what a cell was stored as respells it. */
  lemma CellShown(k: Codec, t: PhysicalType, cell: Text)
    requires HasType(ParseValue(k, t, cell), t) && Readable(t)
    ensures Show(k, ParseValue(k, t, cell)) == Respelled(k, t, cell)
  {
  }

  /** Column c of some rows. */
  function Cells(rows: seq<Row>, c: nat): (col: seq<Text>)
    requires forall r :: 0 <= r < |rows| ==> c < |rows[r]|
    ensures |col| == |rows|
  {
    seq(|rows|, r requires 0 <= r < |rows| => rows[r][c])
  }

  /** The first n columns of some rows. */
  function Transposed(rows: seq<Row>, n: nat): (cols: seq<seq<Text>>)
    requires forall r :: 0 <= r < |rows| ==> n <= |rows[r]|
    ensures |cols| == n
  {
    seq(n, c requires 0 <= c < n => Cells(rows, c))
  }

  lemma OpenedShape(f: Layout, hist: seq<seq<Written>>)
    requires Columns(f, hist)
    ensures var s := Opened(f, hist);
            && s.k == f.k && |s.meta.rowGroups| == |hist| && |s.schema| == |f.schema|
            && forall c :: 0 <= c < |s.schema| ==>
                 s.schema[c].ptype == f.schema[c].ptype && s.schema[c].name == f.schema[c].name
  {
    hide Whole, SchemaOf, Elements, MetaData;
    GroupCount(f, hist);
    SchemaReturns(f.schema);
  }

  lemma GroupCount(f: Layout, hist: seq<seq<Written>>)
    requires Columns(f, hist)
    ensures |MetaData(f, hist).rowGroups| == |hist| && MetaData(f, hist).numRows == TotalRows(hist)
  {
    hide Groups, TotalRows;
  }

  /** The cells of a column, stored and printed. */
  lemma TextsShown(f: Layout, rows: seq<Row>, c: nat)
    requires c < |f.schema| && AllWidth(rows, |f.schema|) && AllOfType(ParsedColumn(f, rows, c), f.schema[c].ptype)
    ensures Readable(f.schema[c].ptype) ==> ShowAll(f.k, ParsedColumn(f, rows, c)) == Cells(RespelledRows(f, rows), c)
    ensures f.schema[c].ptype == FIXED_LEN_BYTE_ARRAY ==>
              HexAll(ParsedColumn(f, rows, c)) == Cells(RespelledRows(f, rows), c)
  {
    hide Show, Respelled, ParseValue, Hex;
    var t, vs := f.schema[c].ptype, ParsedColumn(f, rows, c);
    forall r | 0 <= r < |rows|
      ensures Readable(t) ==> ShowAll(f.k, vs)[r] == Cells(RespelledRows(f, rows), c)[r]
      ensures t == FIXED_LEN_BYTE_ARRAY ==> HexAll(vs)[r] == Cells(RespelledRows(f, rows), c)[r]
    {
      assert HasType(vs[r], t);
      if Readable(t) {
        CellShown(f.k, t, rows[r][c]);
      } else if t == FIXED_LEN_BYTE_ARRAY {
        FixedCell(f.k, rows[r][c]);
      }
    }
  }

  lemma FixedCell(k: Codec, cell: Text)
    ensures ParseValue(k, FIXED_LEN_BYTE_ARRAY, cell) == Bytes(cell)
    ensures Respelled(k, FIXED_LEN_BYTE_ARRAY, cell) == Hex(cell)
  {
    hide Hex;
  }

  lemma TextsHeld(f: Layout, hist: seq<seq<Written>>, flushed: seq<seq<Row>>, g: nat, c: nat)
    requires Columns(f, hist) && HoldsRows(f, hist, flushed) && g < |hist| && c < |f.schema|
    requires Encoded(hist[g][c], f.schema[c].ptype, f.schema[c].typeLength)
    ensures g < |flushed| && AllWidth(flushed[g], |f.schema|)
    ensures Readable(f.schema[c].ptype) ==>
              ShowAll(f.k, hist[g][c].values) == Cells(RespelledRows(f, flushed[g]), c)
    ensures f.schema[c].ptype == FIXED_LEN_BYTE_ARRAY ==>
              HexAll(hist[g][c].values) == Cells(RespelledRows(f, flushed[g]), c)
  {
    hide ParsedColumn, ShowAll, Cells, RespelledRows, HexAll, Encoded;
    EncodedTyped(hist[g][c], f.schema[c].ptype, f.schema[c].typeLength);
    TextsShown(f, flushed[g], c);
  }

  /** A column of a closed file, read as text, gives the cells of the rows flushed into the group, respelled. */
  lemma TextColumnReads(f: Layout, hist: seq<seq<Written>>, flushed: seq<seq<Row>>, g: nat, c: nat)
    requires Columns(f, hist) && Sound(f, hist) && HeaderLaw(f.k) && AllPrintable(f.schema) && Kept(f, hist)
    requires |Whole(f, hist)| <= MAX_FILE_SIZE
    requires HoldsRows(f, hist, flushed) && g < |hist| && c < |f.schema|
    ensures TextsOf(Opened(f, hist), g, c) == Ok(Cells(RespelledRows(f, flushed[g]), c))
  {
    hide Sound, Whole, ColumnOf, HexColumn, Lossless, WithinLimits, HeaderLaw, ParsedColumn, Cells, ShowAll, HexAll,
      RespelledRows, Opened, HoldsRows, Encoded;
    SoundIsFaithful(f, hist);
    FaithfulAt(f, hist, g, c);
    assert TextKept(hist[g][c], f.schema[c]);
    OpenedShape(f, hist);
    TextsHeld(f, hist, flushed, g, c);
    if Readable(f.schema[c].ptype) {
      ColumnReturns(f, hist, g, c);
    } else {
      HexReturns(f, hist, g, c);
    }
  }

  lemma {:induction false} GroupReads(f: Layout, hist: seq<seq<Written>>, flushed: seq<seq<Row>>, g: nat, n: nat)
    requires Columns(f, hist) && Sound(f, hist) && HeaderLaw(f.k) && AllPrintable(f.schema) && Kept(f, hist)
    requires |Whole(f, hist)| <= MAX_FILE_SIZE
    requires HoldsRows(f, hist, flushed) && g < |hist| && n <= |f.schema|
    ensures GroupTexts(Opened(f, hist), g, n) == Ok(Transposed(RespelledRows(f, flushed[g]), n))
  {
    hide Sound, TextsOf, Opened, Kept, HeaderLaw, Whole, RespelledRows;
    var rows := RespelledRows(f, flushed[g]);
    if n > 0 {
      GroupReads(f, hist, flushed, g, n - 1);
      TextColumnReads(f, hist, flushed, g, n - 1);
      assert Transposed(rows, n) == Transposed(rows, n - 1) + [Cells(rows, n - 1)];
    } else {
      assert Transposed(rows, 0) == [];
    }
  }

  lemma RowsReassemble(rows: seq<Row>, n: nat)
    requires n > 0 && forall r :: 0 <= r < |rows| ==> |rows[r]| == n
    ensures RowsOf(Transposed(rows, n)) == rows
  {
    var cols := Transposed(rows, n);
    forall r | 0 <= r < |rows| ensures RowsOf(cols)[r] == rows[r] {
      assert RowOf(cols, r) == rows[r];
    }
  }

  lemma RespelledConcat(f: Layout, a: seq<Row>, b: seq<Row>)
    requires AllWidth(a, |f.schema|) && AllWidth(b, |f.schema|)
    ensures AllWidth(a + b, |f.schema|) && RespelledRows(f, a + b) == RespelledRows(f, a) + RespelledRows(f, b)
  {
    hide RespelledRow;
  }

  /** Reading the first row groups gives their rows, respelled. */
  lemma {:induction false} RowsRead(f: Layout, hist: seq<seq<Written>>, flushed: seq<seq<Row>>, n: nat)
    requires Columns(f, hist) && Sound(f, hist) && HeaderLaw(f.k) && AllPrintable(f.schema) && Kept(f, hist)
    requires |Whole(f, hist)| <= MAX_FILE_SIZE
    requires HoldsRows(f, hist, flushed) && n <= |hist|
    ensures AllWidth(Concat(flushed[..n]), |f.schema|)
    ensures RowsUpTo(Opened(f, hist), n) == Ok(RespelledRows(f, Concat(flushed[..n])))
  {
    hide Sound, TextsOf, Kept, HeaderLaw, Opened, Whole, GroupTexts, RespelledRows, Transposed, RowsOf;
    if n > 0 {
      var last := flushed[n - 1];
      RowsRead(f, hist, flushed, n - 1);
      GroupReads(f, hist, flushed, n - 1, |f.schema|);
      OpenedShape(f, hist);
      RowsReassemble(RespelledRows(f, last), |f.schema|);
      assert flushed[..n][..n - 1] == flushed[..n - 1];
      RespelledConcat(f, Concat(flushed[..n - 1]), last);
    } else {
      NoRows(f);
    }
  }

  lemma NoRows(f: Layout)
    ensures RespelledRows(f, []) == []
  {
  }

  /** Row conservation through the file: reading all rows returns what the row interface accepted, in
      order, every cell respelled. */
  lemma RowsReturn(f: Layout, hist: seq<seq<Written>>, flushed: seq<seq<Row>>, rows: seq<Row>)
    requires Columns(f, hist) && Sound(f, hist) && HeaderLaw(f.k) && AllPrintable(f.schema) && Kept(f, hist)
    requires |Whole(f, hist)| <= MAX_FILE_SIZE
    requires Conserved(f, hist, flushed, [], rows, TotalRows(hist)) && |rows| <= MAX_ROWS
    ensures AllWidth(rows, |f.schema|) && AllRows(Opened(f, hist)) == Ok(RespelledRows(f, rows))
    ensures SpelledPlainly(f, rows) ==> AllRows(Opened(f, hist)) == Ok(rows)
  {
    hide Sound, Kept, HeaderLaw, HoldsRows, Concat, RowsUpTo, TotalRows, MetaData, Whole, RespelledRows, SpelledPlainly;
    GroupCount(f, hist);
    assert Concat(flushed) + [] == Concat(flushed);
    assert |flushed| == |hist| by { AsMany(f, hist, flushed); }
    RowsRead(f, hist, flushed, |hist|);
    assert flushed[..|hist|] == flushed;
    if SpelledPlainly(f, rows) {
      PlainStays(f, rows);
    }
  }

  lemma AsMany(f: Layout, hist: seq<seq<Written>>, flushed: seq<seq<Row>>)
    requires Columns(f, hist) && HoldsRows(f, hist, flushed)
    ensures |flushed| == |hist|
  {
  }

  // ----- columns are the transpose of rows -----

  /** The columns of a row group are all read and equally long. */
  ghost predicate Rectangular(s: Source, g: nat) {
    GroupTexts(s, g, |s.schema|).Ok? &&
    var cols := GroupTexts(s, g, |s.schema|).value;
    forall c :: 0 <= c < |s.schema| ==> |cols[c]| == |cols[0]|
  }

  lemma {:induction false} GroupColumn(s: Source, g: nat, n: nat, c: nat)
    requires c < n && GroupTexts(s, g, n).Ok?
    ensures TextsOf(s, g, c) == Ok(GroupTexts(s, g, n).value[c])
    decreases n
  {
    hide TextsOf;
    if c < n - 1 {
      GroupColumn(s, g, n - 1, c);
    }
  }

  lemma {:induction false} PickedAre(s: Source, g: nat, indices: seq<nat>, n: nat)
    requires n <= |indices| && GroupTexts(s, g, |s.schema|).Ok? && forall p :: 0 <= p < |indices| ==>
               indices[p] < |s.schema|
    ensures Picked(s, g, indices, n).Ok?
    ensures forall p :: 0 <= p < n ==>
              Picked(s, g, indices, n).value[p] == GroupTexts(s, g, |s.schema|).value[indices[p]]
    decreases n
  {
    hide TextsOf, GroupTexts;
    if n > 0 {
      PickedAre(s, g, indices, n - 1);
      GroupColumn(s, g, |s.schema|, indices[n - 1]);
    }
  }

  lemma {:induction false} RowWidths(s: Source, n: nat)
    requires RowsUpTo(s, n).Ok?
    ensures forall r :: 0 <= r < |RowsUpTo(s, n).value| ==> |RowsUpTo(s, n).value[r]| == |s.schema|
    decreases n
  {
    hide GroupTexts;
    if n > 0 {
      RowWidths(s, n - 1);
    }
  }

  /** Reading some columns gives the transpose of the same columns of all rows. */
  lemma {:induction false} ColumnsTranspose(s: Source, indices: seq<nat>, n: nat)
    requires forall g :: 0 <= g < n ==> Rectangular(s, g)
    requires forall p :: 0 <= p < |indices| ==> indices[p] < |s.schema|
    ensures RowsUpTo(s, n).Ok? && ColumnsUpTo(s, indices, n).Ok?
    ensures forall r :: 0 <= r < |RowsUpTo(s, n).value| ==> |RowsUpTo(s, n).value[r]| == |s.schema|
    ensures forall p :: 0 <= p < |indices| ==>
              ColumnsUpTo(s, indices, n).value[p] == Cells(RowsUpTo(s, n).value, indices[p])
    decreases n
  {
    hide GroupTexts, Picked;
    if n > 0 {
      ColumnsTranspose(s, indices, n - 1);
      assert Rectangular(s, n - 1);
      RowWidths(s, n);
      PickedAre(s, n - 1, indices, |indices|);
      var cols := GroupTexts(s, n - 1, |s.schema|).value;
      forall p | 0 <= p < |indices|
        ensures ColumnsUpTo(s, indices, n).value[p] == Cells(RowsUpTo(s, n).value, indices[p])
      {
        CellsAppend(RowsUpTo(s, n - 1).value, cols, indices[p]);
      }
    }
  }

  /** Columns read by name: entry p is, over all rows, the first column of the p-th name. A name without a
      column is an error. */
  lemma NamedTranspose(s: Source, names: seq<seq<bv8>>)
    requires forall g :: 0 <= g < |s.meta.rowGroups| ==> Rectangular(s, g)
    ensures !AllNamed(s.schema, names) ==> NamedColumns(s, names) == Err(SCHEMA_MISMATCH)
    ensures RowsUpTo(s, |s.meta.rowGroups|).Ok?
    ensures forall r :: 0 <= r < |RowsUpTo(s, |s.meta.rowGroups|).value| ==>
              |RowsUpTo(s, |s.meta.rowGroups|).value[r]| == |s.schema|
    ensures AllNamed(s.schema, names) ==>
              && NamedColumns(s, names).Ok? && |NamedColumns(s, names).value| == |names|
              && forall p, i :: 0 <= p < |names| && FirstNamed(s.schema, i, names[p]) ==>
                   NamedColumns(s, names).value[p] == Cells(RowsUpTo(s, |s.meta.rowGroups|).value, i)
  {
    hide Rectangular, Indices, RowsUpTo, ColumnsUpTo, Named, AllNamed, Cells;
    IndicesAre(s.schema, names);
    ColumnsTranspose(s, [], |s.meta.rowGroups|);
    if AllNamed(s.schema, names) {
      var ix := Indices(s.schema, names).value;
      ColumnsTranspose(s, ix, |s.meta.rowGroups|);
      forall p, i | 0 <= p < |names| && FirstNamed(s.schema, i, names[p])
        ensures NamedColumns(s, names).value[p] == Cells(RowsUpTo(s, |s.meta.rowGroups|).value, i)
      {
        OneFirst(s.schema, i, ix[p], names[p]);
      }
    }
  }

  lemma OneFirst(schema: seq<ColumnDesc>, i: nat, j: nat, name: seq<bv8>)
    requires FirstNamed(schema, i, name) && FirstNamed(schema, j, name)
    ensures i == j
  {
  }

  /** Columns of a closed file read by name are the cells of the accepted rows under the first column of
      that name, respelled. */
  lemma NamedReturn(f: Layout, hist: seq<seq<Written>>, flushed: seq<seq<Row>>, rows: seq<Row>, names: seq<seq<bv8>>)
    requires Columns(f, hist) && Sound(f, hist) && HeaderLaw(f.k) && AllPrintable(f.schema) && Kept(f, hist)
    requires |Whole(f, hist)| <= MAX_FILE_SIZE
    requires Conserved(f, hist, flushed, [], rows, TotalRows(hist)) && |rows| <= MAX_ROWS
    ensures !AllNamed(f.schema, names) ==> NamedColumns(Opened(f, hist), names) == Err(SCHEMA_MISMATCH)
    ensures AllWidth(rows, |f.schema|)
    ensures AllNamed(f.schema, names) ==>
              && NamedColumns(Opened(f, hist), names).Ok? && |NamedColumns(Opened(f, hist), names).value| == |names|
              && forall p, i :: 0 <= p < |names| && FirstNamed(f.schema, i, names[p]) ==>
                   NamedColumns(Opened(f, hist), names).value[p] == Cells(RespelledRows(f, rows), i)
  {
    hide Sound, Kept, HeaderLaw, HoldsRows, Concat, RowsUpTo, TotalRows, Whole, RespelledRows, SpelledPlainly, Opened,
      NamedColumns, Rectangular, Named, AllPrintable, Cells, FirstNamed, AllNamed;
    var s := Opened(f, hist);
    RowsReturn(f, hist, flushed, rows);
    OpenedShape(f, hist);
    SameNames(s.schema, f.schema, names);
    forall g | 0 <= g < |s.meta.rowGroups| ensures Rectangular(s, g) {
      GroupsRectangular(f, hist, flushed, g);
    }
    NamedTranspose(s, names);
  }

  lemma SameNames(a: seq<ColumnDesc>, b: seq<ColumnDesc>, names: seq<seq<bv8>>)
    requires |a| == |b| && forall c :: 0 <= c < |a| ==> a[c].name == b[c].name
    ensures AllNamed(a, names) <==> AllNamed(b, names)
    ensures forall i, name :: FirstNamed(a, i, name) <==> FirstNamed(b, i, name)
  {
    forall p | 0 <= p < |names| ensures Named(a, names[p]) <==> Named(b, names[p]) {
    }
  }

  lemma GroupsRectangular(f: Layout, hist: seq<seq<Written>>, flushed: seq<seq<Row>>, g: nat)
    requires Columns(f, hist) && Sound(f, hist) && HeaderLaw(f.k) && AllPrintable(f.schema) && Kept(f, hist)
    requires |Whole(f, hist)| <= MAX_FILE_SIZE && HoldsRows(f, hist, flushed) && g < |hist|
    ensures Rectangular(Opened(f, hist), g)
  {
    hide Sound, Kept, HeaderLaw, Whole, RespelledRows, Opened, GroupTexts;
    OpenedShape(f, hist);
    GroupReads(f, hist, flushed, g, |f.schema|);
  }

  lemma CellsAppend(rows: seq<Row>, cols: seq<seq<Text>>, c: nat)
    requires c < |cols| && |cols[c]| == |cols[0]| && forall r :: 0 <= r < |rows| ==> c < |rows[r]|
    ensures Cells(rows + RowsOf(cols), c) == Cells(rows, c) + cols[c]
  {
  }

  // ----- counts and places in the metadata -----

  /** Every chunk of a row group records as many values as its group has rows, and the groups' rows add
      up to the rows of the file. */
  lemma CountsAgree(f: Layout, hist: seq<seq<Written>>, g: nat, c: nat)
    requires Columns(f, hist) && Sound(f, hist) && g < |hist| && c < |f.schema|
    ensures var group := MetaData(f, hist).rowGroups[g];
            && c < |group.columns| && group.columns[c].meta.Some?
            && group.numRows == group.columns[c].meta.value.numValues == |hist[g][c].values| > 0
    ensures MetaData(f, hist).numRows == SumRows(MetaData(f, hist).rowGroups)
  {
    hide Body, ChunkBytes, ChunkAt, Holds, EncodingOf, Encoded, SmallPages, TotalRows, Groups, SumRows;
    assert GroupSound(f, hist[g]);
    assert ChunkSound(f, hist[g][c], c, GroupRows(hist[g]));
    BodyHolds(f, hist, g, c);
    RowsSum(f, hist);
    GroupRecorded(f, hist, g);
  }

  function SumRows(gs: seq<RowGroup>): int { if gs == [] then 0 else SumRows(gs[..|gs| - 1]) + gs[|gs| - 1].numRows }

  lemma {:induction false} RowsSum(f: Layout, hist: seq<seq<Written>>)
    requires Columns(f, hist)
    ensures TotalRows(hist) == SumRows(Groups(f, hist))
    decreases |hist|
  {
    hide Body, GroupSize, GroupChunks;
    if hist != [] {
      RowsSum(f, hist[..|hist| - 1]);
      assert Groups(f, hist)[..|hist| - 1] == Groups(f, hist[..|hist| - 1]);
    }
  }

  lemma {:induction false} GroupRecorded(f: Layout, hist: seq<seq<Written>>, g: nat)
    requires Columns(f, hist) && g < |hist|
    ensures Groups(f, hist)[g].numRows == GroupRows(hist[g])
    decreases |hist|
  {
    hide Body, GroupSize, GroupChunks;
    var n := |hist| - 1;
    if g < n {
      GroupRecorded(f, hist[..n], g);
    }
  }

  /** The place the offset index records for a chunk's page is the offset of its data page in the
      metadata, and at that place the file holds the page. The size recorded there is the page's own,
      but for dictionary chunks it counts the dictionary page too. */
  lemma LocationHolds(f: Layout, hist: seq<seq<Written>>, g: nat, c: nat)
    requires Columns(f, hist) && g < |hist| && c < |f.schema|
    ensures var at, w := ChunkAt(f, hist, g, c), hist[g][c];
            var places := PageIndex.LocationsOf([IndexEntry(f, w, at)]);
            && |places| == 1 && places[0].firstRow == 0
            && places[0].offset == MetaOf(f, f.schema[c], w, at).dataPageOffset
            && Holds(Whole(f, hist), places[0].offset, DataPart(f, w))
            && places[0].size == (if IsDictionary(w.enc) then |DictPart(f, w)| else 0) + |DataPart(f, w)|
  {
    hide Whole, ChunkBytes, ChunkAt, Holds, DataPart, ChunkStats, CountedPages;
    WholeHolds(f, hist, g, c);
    PagesHold(f, f.schema[c], hist[g][c], Whole(f, hist), ChunkAt(f, hist, g, c));
  }

  // ----- data skipping on written files -----

  /** The bounds a query sees in a chunk's metadata. */
  function FooterStats(m: ColumnMeta): Option<TicksQuery.ChunkStats> {
    match m.stats
    case None => None
    case Some(st) => Some(TicksQuery.ChunkStats(Some(st.minB), Some(st.maxB)))
  }

  /** The bounds in the footer of a written file are those tracked for the chunk's own values, which is
      all that skipping row groups relies on. */
  lemma FooterStatsRecorded(f: Layout, c: ColumnDesc, w: Written, at: nat)
    ensures TicksQuery.Recorded(FooterStats(MetaOf(f, c, w, at)), Items(w.values))
  {
    hide Statistics.Feed, CountedPages, DictPart;
    var st := ChunkStats(w);
    assert st.has ==> Statistics.Feed(Statistics.Fresh(INT32), Items(w.values)).has;
  }

  /** The page index of a written chunk keeps its page for every query interval that holds one of the
      chunk's values. */
  lemma WrittenPageMatches(f: Layout, c: ColumnDesc, w: Written, at: nat, lo: Value, hi: Value, k: nat)
    requires AllOfType(w.values, c.ptype) && HasType(lo, c.ptype) && HasType(hi, c.ptype)
    requires !IsNaN(lo) && !IsNaN(hi) && k < |w.values| && !IsNaN(w.values[k])
    requires Leq(lo, w.values[k]) && Leq(w.values[k], hi)
    ensures PageIndex.PageMatches(PageIndex.IndexOf([IndexEntry(f, w, at)], c.ptype), 0,
                                  Statistics.ToLe(lo), Statistics.ToLe(hi), c.ptype)
  {
    hide Less, Leq, IsNaN, HasType, Statistics.ToLe, Statistics.Feed, PageIndex.PageMatches, PageIndex.IndexOf,
      PageIndex.PageOf, DictPart, Pages;
    var items := Items(w.values);
    PageIndex.FedByOne(items, INT32, at + |DictPart(f, w)|, |Pages(f, w)|);
    PageIndex.NoMatchDropped([IndexEntry(f, w, at)], [items], INT32, c.ptype, lo, hi, 0, k);
  }
}
