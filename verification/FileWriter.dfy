/** The writer's state machine: rows and columns are collected, row groups are flushed to the file,
    and closing appends the footer that says where everything is. */
module FileWriter {
  import opened Bits
  import opened Encodings
  import opened FileFormat
  import opened FileReader
  import opened PlainCodec
  import opened RoundTrip
  import opened Values
  import opened Words
  import Crc32
  import Dictionary
  import PageIndex
  import Rle
  import Statistics

  type Row = seq<Text>

  const TRUE_TEXTS: set<Text> := {TRUE_TEXT, [0x54, 0x52, 0x55, 0x45], [0x54, 0x72, 0x75, 0x65], [0x31]}

  /** A cell of a text row as a value of its column. */
  function ParseValue(k: Codec, t: PhysicalType, text: Text): Value {
    match t
    case BOOLEAN => Bool(text in TRUE_TEXTS)
    case BYTE_ARRAY | FIXED_LEN_BYTE_ARRAY | INT96 => Bytes(text)
    case _ => k.parse(t, text)
  }

  /** Number parsing gives numbers of the asked type. */
  ghost predicate ParseLaw(k: Codec) {
    forall t: PhysicalType, s: Text :: (IsInteger(t) || IsFloat(t)) ==> HasType(k.parse(t, s), t)
  }

  lemma ParseTyped(k: Codec, t: PhysicalType, text: Text)
    requires ParseLaw(k)
    ensures HasType(ParseValue(k, t, text), t)
  {
    if IsInteger(t) || IsFloat(t) {
      assert HasType(k.parse(t, text), t);
    }
  }

  /** Column c of some rows. */
  function ParsedColumn(f: Layout, rows: seq<Row>, c: nat): (vs: seq<Value>)
    requires c < |f.schema| && forall r :: 0 <= r < |rows| ==> |rows[r]| == |f.schema|
    ensures |vs| == |rows|
  {
    seq(|rows|, r requires 0 <= r < |rows| => ParseValue(f.k, f.schema[c].ptype, rows[r][c]))
  }

  /** The encoding of a column: an override by name, else one suited to the type, else the default. */
  function ChooseEncoding(cfg: Settings, c: ColumnDesc, stats: Statistics.Stats, count: nat): Encoding {
    if c.name in cfg.columnEncodings then cfg.columnEncodings[c.name]
    else if cfg.autoEncoding then
      match c.ptype
      case INT32 | INT64 => DELTA_BINARY_PACKED
      case FLOAT | DOUBLE => BYTE_STREAM_SPLIT
      case BYTE_ARRAY =>
        if stats.distinct.Some? && count > 0 && 10 * stats.distinct.value < 4 * count then RLE_DICTIONARY else PLAIN
      case BOOLEAN => RLE
      case _ => PLAIN
    else cfg.defaultEncoding
  }

  /** Encodings that collect groups of eight values under one header. */
  predicate PacksRuns(e: Encoding, t: PhysicalType) { IsDictionary(e) || (e == RLE && t == BOOLEAN) }

  /** A column that may get such an encoding. */
  predicate MayPack(cfg: Settings, c: ColumnDesc) {
    if c.name in cfg.columnEncodings then PacksRuns(cfg.columnEncodings[c.name], c.ptype)
    else if cfg.autoEncoding then c.ptype == BYTE_ARRAY || c.ptype == BOOLEAN
    else PacksRuns(cfg.defaultEncoding, c.ptype)
  }

  /** The most values a chunk of the column can hold before a counter of the source overflows. */
  function Limit(f: Layout, c: nat): nat {
    if c < |f.schema| && MayPack(f.cfg, f.schema[c]) then Rle.VALUES_MAX else Rle.RUN_MAX
  }

  lemma LimitFits(f: Layout, c: nat, stats: Statistics.Stats, count: nat)
    requires c < |f.schema|
    ensures PacksRuns(ChooseEncoding(f.cfg, f.schema[c], stats, count), f.schema[c].ptype) ==>
              Limit(f, c) == Rle.VALUES_MAX
    ensures Rle.VALUES_MAX <= Limit(f, c) <= Rle.RUN_MAX
  {
  }

  /** The encoding a chunk of these values gets. */
  function EncodingOf(f: Layout, c: nat, values: seq<Value>): Encoding
    requires c < |f.schema|
  {
    ChooseEncoding(f.cfg, f.schema[c], Statistics.Feed(Statistics.Fresh(INT32), Items(values)), |values|)
  }

  datatype WriteStats = WriteStats(fileSize: nat, totalRows: nat, totalRowGroups: nat)

  predicate AllWidth(rows: seq<Row>, n: nat) { forall r :: 0 <= r < |rows| ==> |rows[r]| == n }

  function Concat(groups: seq<seq<Row>>): seq<Row> {
    if groups == [] then [] else Concat(groups[..|groups| - 1]) + groups[|groups| - 1]
  }

  function AtLeastOne(n: int): nat { if n < 1 then 1 else n }

  /** Flushed row groups hold the parsed columns of these rows. */
  ghost predicate HoldsRows(f: Layout, hist: seq<seq<Written>>, flushed: seq<seq<Row>>)
    requires Columns(f, hist)
  {
    |flushed| == |hist| &&
    forall g :: 0 <= g < |hist| ==>
      flushed[g] != [] && AllWidth(flushed[g], |f.schema|) &&
      forall c :: 0 <= c < |f.schema| ==> hist[g][c].values == ParsedColumn(f, flushed[g], c)
  }

  /** Flushed groups in order, then the pending rows, are exactly the accepted rows. */
  ghost predicate Conserved(f: Layout, hist: seq<seq<Written>>, flushed: seq<seq<Row>>, pending: seq<Row>,
          rows: seq<Row>, totalRows: nat) {
    && Columns(f, hist) && HoldsRows(f, hist, flushed)
    && Concat(flushed) + pending == rows && totalRows + |pending| == |rows|
  }

  /** A chunk as the writer leaves it: encoded under the chosen encoding, with the group's positive
      number of values, and, if it has a single page, below two gigabytes. */
  ghost predicate ChunkSound(f: Layout, w: Written, c: nat, numRows: nat)
    requires c < |f.schema|
  {
    && Encoded(w, f.schema[c].ptype, f.schema[c].typeLength)
    && |w.values| == numRows > 0 && w.enc == EncodingOf(f, c, w.values) && (!IsDictionary(w.enc) ==> SmallPages(w))
  }

  ghost predicate GroupSound(f: Layout, ws: seq<Written>) {
    |ws| == |f.schema| && forall c :: 0 <= c < |ws| ==> ChunkSound(f, ws[c], c, GroupRows(ws))
  }

  ghost predicate Sound(f: Layout, hist: seq<seq<Written>>) {
    forall g :: 0 <= g < |hist| ==> GroupSound(f, hist[g])
  }

  lemma SoundIsFaithful(f: Layout, hist: seq<seq<Written>>)
    requires Sound(f, hist)
    ensures Faithful(f, hist)
  {
    hide Encoded, EncodingOf, SmallPages;
    forall g, c | 0 <= g < |hist| && 0 <= c < |f.schema|
      ensures EncodesColumn(hist[g][c], f.schema[c])
    {
      assert GroupSound(f, hist[g]);
      assert ChunkSound(f, hist[g][c], c, GroupRows(hist[g]));
    }
  }

  class ParquetWriter {
    const f: Layout
    var file: seq<bv8>
    var fileOffset: nat
    var writers: seq<ColumnWriter>
    var pending: seq<Row>
    var rowGroups: seq<RowGroup>
    var totalRows: nat
    var open: bool
    ghost var hist: seq<seq<Written>>
    ghost var rows: seq<Row>
    ghost var flushed: seq<seq<Row>>
    ghost var rowsOnly: bool

    ghost function Objects(): set<object>
      reads this`writers
    {
      (set i | 0 <= i < |writers| :: writers[i] as object) + (set i | 0 <= i < |writers| :: writers[i].stats as object)
    }

    /** One column writer per column, no two sharing state. */
    ghost predicate WritersOk()
      reads this`writers, Objects()
    {
      && |writers| == |f.schema|
      && (forall i, j :: 0 <= i < j < |writers| ==> writers[i] != writers[j] && writers[i].stats != writers[j].stats)
      && (forall i :: 0 <= i < |writers| ==> writers[i].Valid() && writers[i].ptype == f.schema[i].ptype &&
                                             writers[i].typeLength == f.schema[i].typeLength)
    }

    /** The file and the recorded metadata are those of the row groups flushed so far. */
    ghost predicate FileOk()
      reads this`file, this`fileOffset, this`rowGroups, this`totalRows, this`hist
    {
      && ParseLaw(f.k) && Columns(f, hist) && Sound(f, hist)
      && file == Body(f, hist) && fileOffset == |file|
      && rowGroups == Groups(f, hist) && totalRows == TotalRows(hist)
    }

    /** While only rows were written: flushed groups, then pending rows, are the accepted rows. */
    ghost predicate RowsOk()
      reads this, Objects()
    {
      && AllWidth(pending, |f.schema|)
      && (rowsOnly && f.schema != [] ==>
            && (forall i :: 0 <= i < |writers| ==> writers[i].written == [])
            && Conserved(f, hist, flushed, pending, rows, totalRows))
    }

    ghost predicate Consistent()
      reads this, Objects()
    {
      WritersOk() && FileOk() && RowsOk()
    }

    /** Between calls fewer rows are pending than a row group takes. */
    ghost predicate Valid()
      reads this, Objects()
    {
      Consistent() && |pending| < AtLeastOne(f.cfg.rowGroupSize)
    }

    /** The column values waiting for the next flush. */
    ghost function Buffered(): (cols: seq<seq<Value>>)
      reads this, Objects()
      ensures |cols| == |writers|
    {
      seq(|writers|, i requires 0 <= i < |writers| reads this, Objects() => writers[i].written)
    }

    constructor (f: Layout)
      requires ParseLaw(f.k)
      ensures Valid() && open && this.f == f && hist == [] && pending == [] && rows == [] && flushed == [] && rowsOnly
      ensures forall i :: 0 <= i < |Buffered()| ==> Buffered()[i] == []
      ensures fresh(Objects())
    {
      hide ColumnWriter.Valid;
      this.f := f;
      file, fileOffset, pending, rowGroups, totalRows, open := MAGIC, 4, [], [], 0, true;
      hist, rows, flushed, rowsOnly := [], [], [], true;
      new;
      hide WritersOk, FileOk, RowsOk;
      EmptyFileOk();
      writers := MakeWriters(f.schema);
      FreshWritersOk();
    }

    lemma EmptyFileOk()
      requires ParseLaw(f.k) && file == MAGIC && fileOffset == 4 && rowGroups == [] && totalRows == 0 && hist == []
      ensures FileOk()
    {
      hide Sound, Body, Groups, TotalRows;
      EmptyFile(f);
    }

    lemma FreshWritersOk()
      requires |writers| == |f.schema| && pending == [] && hist == [] && flushed == [] && rows == [] && totalRows == 0
      requires forall i, j :: 0 <= i < j < |writers| ==>
                 writers[i] != writers[j] && writers[i].stats != writers[j].stats
      requires forall i :: 0 <= i < |writers| ==> writers[i].Valid() && writers[i].written == []
      requires forall i :: 0 <= i < |writers| ==>
                 writers[i].ptype == f.schema[i].ptype && writers[i].typeLength == f.schema[i].typeLength
      ensures WritersOk() && RowsOk()
    {
      hide ColumnWriter.Valid, HoldsRows, Concat;
      EmptyFile(f);
    }

    /** Writes a batch to one column. The error is the first of: closed, no such column, wrong type,
        and a byte string of the wrong length, which leaves the values before it written. */
    method WriteColumn(c: nat, t: PhysicalType, values: seq<Value>) returns (r: Result<()>)
      requires (open ==> Valid()) && Readable(t) && AllOfType(values, t)
      modifies this`rowsOnly, Objects()
      ensures (open ==> Valid()) && Objects() == old(Objects())
      ensures r == if !open then Err(IO_ERROR)
                   else if c >= |f.schema| then Err(OUT_OF_RANGE)
                   else if !Accepts(f.schema[c].ptype, t) then Err(INVALID_ARGUMENT)
                   else if !AllStorable(values, f.schema[c].ptype, f.schema[c].typeLength) then Err(LENGTH_ERROR)
                   else Ok(())
      ensures r.Ok? ==> c < |old(Buffered())| && Buffered() == old(Buffered())[c := old(Buffered())[c] + values]
      ensures r == Err(LENGTH_ERROR) ==>
                var n := StorableCount(values, f.schema[c].ptype, f.schema[c].typeLength);
                c < |old(Buffered())| && Buffered() == old(Buffered())[c := old(Buffered())[c] + values[..n]]
      ensures r.Err? && r.error != LENGTH_ERROR ==> Buffered() == old(Buffered()) && rowsOnly == old(rowsOnly)
    {
      hide WritersOk, FileOk, Conserved, AllStorable, AllOfType, StorableCount;
      if !open {
        return Err(IO_ERROR);
      }
      if c >= |f.schema| {
        return Err(OUT_OF_RANGE);
      }
      if !Accepts(f.schema[c].ptype, t) {
        return Err(INVALID_ARGUMENT);
      }
      SameValues(values, t, f.schema[c].ptype);
      CountsHold();
      Apart();
      rowsOnly := false;
      var ok := PutColumn(c, values);
      if !ok {
        return Err(LENGTH_ERROR);
      }
      assert values[..|values|] == values;
      return Ok(());
    }

    method PutColumn(c: nat, values: seq<Value>) returns (ok: bool)
      requires WritersOk() && c < |f.schema| == |writers| && AllOfType(values, f.schema[c].ptype)
      modifies Objects()
      ensures WritersOk() && ok == AllStorable(values, f.schema[c].ptype, f.schema[c].typeLength)
      ensures ok ==> StorableCount(values, f.schema[c].ptype, f.schema[c].typeLength) == |values|
      ensures var n := StorableCount(values, f.schema[c].ptype, f.schema[c].typeLength);
              Buffered() == old(Buffered())[c := old(Buffered())[c] + values[..n]]
    {
      hide ColumnWriter.Valid, AllStorable, AllOfType, StorableCount;
      ok := writers[c].WriteBatch(values);
    }

    /** Parses column c of the pending rows into its writer. */
    method EncodePendingColumn(c: nat) returns (r: Result<()>)
      requires WritersOk() && ParseLaw(f.k) && AllWidth(pending, |f.schema|) && c < |f.schema|
      modifies writers[c], writers[c].stats
      ensures WritersOk() && (r.Ok? ==> writers[c].written == old(writers[c].written) + ParsedColumn(f, pending, c))
      ensures forall i :: 0 <= i < |writers| && i != c ==> writers[i].written == old(writers[i].written)
    {
      hide ColumnWriter.Valid, ParseValue, Storable;
      var i := 0;
      while i < |pending|
        invariant 0 <= i <= |pending| && WritersOk()
        invariant writers[c].written == old(writers[c].written) + ParsedColumn(f, pending, c)[..i]
        invariant forall j :: 0 <= j < |writers| && j != c ==> writers[j].written == old(writers[j].written)
      {
        ParseTyped(f.k, f.schema[c].ptype, pending[i][c]);
        var ok := writers[c].Write(ParseValue(f.k, f.schema[c].ptype, pending[i][c]));
        if !ok {
          return Err(if f.schema[c].ptype == FIXED_LEN_BYTE_ARRAY then SCHEMA_MISMATCH else LENGTH_ERROR);
        }
        assert ParsedColumn(f, pending, c)[..i + 1] ==
               ParsedColumn(f, pending, c)[..i] + [ParsedColumn(f, pending, c)[i]];
        i := i + 1;
      }
      assert ParsedColumn(f, pending, c)[..i] == ParsedColumn(f, pending, c);
      return Ok(());
    }

    method EncodePendingRows() returns (r: Result<()>)
      requires WritersOk() && ParseLaw(f.k) && AllWidth(pending, |f.schema|)
      modifies this`pending, Objects()
      ensures WritersOk() && Objects() == old(Objects())
      ensures r.Ok? ==> pending == [] && forall c :: 0 <= c < |writers| ==>
                writers[c].written == old(writers[c].written) + ParsedColumn(f, old(pending), c)
    {
      hide ColumnWriter.Valid, ParsedColumn;
      var c := 0;
      while c < |f.schema|
        invariant 0 <= c <= |f.schema| && WritersOk() && pending == old(pending) && Objects() == old(Objects())
        invariant forall i :: 0 <= i < c ==> writers[i].written == old(writers[i].written) + ParsedColumn(f, pending, i)
        invariant forall i :: c <= i < |writers| ==> writers[i].written == old(writers[i].written)
        modifies Objects()
      {
        var e := EncodePendingColumn(c);
        if e.Err? {
          return e;
        }
        c := c + 1;
      }
      pending := [];
      return Ok(());
    }

    method WriteRaw(bytes: seq<bv8>)
      modifies this`file, this`fileOffset
      ensures file == old(file) + bytes && fileOffset == old(fileOffset) + |bytes|
    {
      file := file + bytes;
      fileOffset := fileOffset + |bytes|;
    }

    /** Writes one page and counts its bytes the way the metadata does. */
    method WritePage(h: PageHeader, page: seq<bv8>) returns (counted: int)
      modifies this`file, this`fileOffset
      ensures file == old(file) + PageBytes(f.k, h, page) && fileOffset == old(fileOffset) + |PageBytes(f.k, h, page)|
      ensures counted == |f.k.header(h)| + Int32(|page|)
    {
      var header := f.k.header(h);
      WriteRaw(header);
      WriteRaw(page);
      assert old(file) + header + page == old(file) + (header + page);
      counted := |header| + Int32(|page|);
    }

    /** Dictionary and index pages of a column, or the error for types without dictionaries. */
    method WriteDictionaryColumn(c: nat, enc: Encoding) returns (r: Result<(int, nat)>, ghost w: Written)
      requires WritersOk() && c < |f.schema| && IsDictionary(enc) && writers[c].numValues <= Rle.VALUES_MAX
      modifies this`file, this`fileOffset
      ensures r.Ok? <==> Dictionary.Indexable(f.schema[c].ptype)
      ensures r.Err? ==> file == old(file) && fileOffset == old(fileOffset)
      ensures r.Ok? ==>
                && Encoded(w, f.schema[c].ptype, f.schema[c].typeLength)
                && w.values == writers[c].written && w.plain == writers[c].buf && w.enc == enc
                && file == old(file) + Pages(f, w) && fileOffset == old(fileOffset) + |Pages(f, w)|
                && r.value == (CountedPages(f, w), old(fileOffset) + |DictPart(f, w)|)
    {
      hide Plain, AllStorable, Dictionary.Pages, Dictionary.Entries, Crc32.Crc, Int32, PageBytes;
      var cw := writers[c];
      w := Written(cw.written, cw.buf, enc, [], 0, [], []);
      if !Dictionary.Indexable(cw.ptype) {
        return Err(UNSUPPORTED_ENCODING), w;
      }
      var values := Extract(cw.buf, cw.numValues, cw.ptype, cw.typeLength, cw.written);
      var dict, index, count := Dictionary.Encode(values, cw.ptype, cw.typeLength);
      w := Written(cw.written, cw.buf, enc, dict, count, index, []);
      var crc := Crc32.PageCrc32(dict);
      var dictBytes := WritePage(PageHeader(DICTIONARY_PAGE, Int32(|dict|), Int32(|dict|), Some(crc), None,
                                            Some(DataHeader(Int32(count), PLAIN_DICTIONARY)), None), dict);
      var dataPageOffset := fileOffset;
      crc := Crc32.PageCrc32(index);
      var dataBytes := WritePage(PageHeader(DATA_PAGE, Int32(|index|), Int32(|index|), Some(crc),
                                            Some(DataHeader(Int32(cw.numValues), RLE_DICTIONARY)), None, None), index);
      assert old(file) + DictPart(f, w) + DataPart(f, w) == old(file) + (DictPart(f, w) + DataPart(f, w));
      return Ok((dictBytes + dataBytes, dataPageOffset)), w;
    }

    /** The single data page of any other encoding; two gigabytes are too much. */
    method WriteDataColumn(c: nat, enc: Encoding) returns (r: Result<int>, ghost w: Written)
      requires WritersOk() && c < |f.schema| && !IsDictionary(enc) && writers[c].numValues <= Rle.RUN_MAX
      requires PacksRuns(enc, f.schema[c].ptype) ==> writers[c].numValues <= Rle.VALUES_MAX
      modifies this`file, this`fileOffset
      ensures Encoded(w, f.schema[c].ptype, f.schema[c].typeLength)
      ensures w.values == writers[c].written && w.plain == writers[c].buf && w.enc == enc
      ensures r.Ok? <==> |w.page| < TWO31
      ensures r.Err? ==> file == old(file) && fileOffset == old(fileOffset)
      ensures r.Ok? ==>
                && SmallPages(w)
                && file == old(file) + Pages(f, w) && fileOffset == old(fileOffset) + |Pages(f, w)|
                && r.value == CountedPages(f, w)
    {
      hide Plain, AllStorable, Crc32.Crc, Int32, PageBytes, Encoded, ColumnWriter.Valid, Pages, CountedPages;
      var cw := writers[c];
      WriterHolds(cw);
      var page, payload;
      page, payload, w := EncodeColumn(cw.buf, cw.numValues, enc, cw.ptype, cw.typeLength, cw.written);
      if |page| >= TWO31 {
        return Err(INTERNAL_ERROR), w;
      }
      var crc := Crc32.PageCrc32(page);
      var bytes := WritePage(PageHeader(DATA_PAGE, Int32(|page|), Int32(|page|), Some(crc),
                                        Some(DataHeader(Int32(cw.numValues), enc)), None, None), page);
      DataOnly(f, w);
      return Ok(bytes), w;
    }

    /** The pages of a column under the encoding chosen for it. */
    method WritePages(c: nat) returns (r: Result<(int, nat)>, ghost w: Written)
      requires WritersOk() && c < |f.schema| && writers[c].numValues <= Limit(f, c) && fileOffset == |file|
      modifies this`file, this`fileOffset
      ensures fileOffset == |file|
      ensures r.Ok? ==>
                && Encoded(w, f.schema[c].ptype, f.schema[c].typeLength)
                && w.values == writers[c].written && w.plain == writers[c].buf && w.enc == EncodingOf(f, c, w.values)
                && (!IsDictionary(w.enc) ==> SmallPages(w))
                && file == old(file) + Pages(f, w)
                && r.value == (CountedPages(f, w), |old(file)| + |DictPart(f, w)|)
    {
      hide Plain, AllStorable, Encoded, ColumnWriter.Valid, Pages, CountedPages, DictPart, SmallPages, EncodingOf,
        ChooseEncoding, Statistics.Feed,
        Limit;
      var cw := writers[c];
      WriterHolds(cw);
      EncodingIs(f, c, cw.written);
      LimitFits(f, c, cw.stats.State(), cw.numValues);
      var enc := ChooseEncoding(f.cfg, f.schema[c], cw.stats.State(), cw.numValues);
      if IsDictionary(enc) {
        r, w := WriteDictionaryColumn(c, enc);
        return;
      }
      var at := fileOffset;
      var d;
      d, w := WriteDataColumn(c, enc);
      if d.Err? {
        return Err(d.error), w;
      }
      NoDictPart(f, w);
      return Ok((d.value, at)), w;
    }

    /** One column chunk: pages, bloom filter, page index, and the metadata recorded for them. */
    method FlushColumn(c: nat) returns (r: Result<(ColumnChunk, int)>, ghost w: Written)
      requires WritersOk() && c < |f.schema| && writers[c].numValues <= Limit(f, c) && fileOffset == |file|
      modifies this`file, this`fileOffset
      ensures fileOffset == |file|
      ensures r.Ok? ==>
                && Encoded(w, f.schema[c].ptype, f.schema[c].typeLength)
                && w.values == writers[c].written && w.enc == EncodingOf(f, c, w.values)
                && (!IsDictionary(w.enc) ==> SmallPages(w))
                && file == old(file) + ChunkBytes(f, f.schema[c], w, |old(file)|)
                && r.value == (ChunkOf(f, f.schema[c], w, |old(file)|), ChunkSize(f, f.schema[c], w, |old(file)|))
    {
      hide Plain, AllStorable, Encoded, ColumnWriter.Valid, Pages, CountedPages, DictPart, SmallPages, BloomPart,
        ColumnIndexPart, OffsetIndexPart, EncodingOf, ChooseEncoding, Statistics.Feed;
      var cw, desc := writers[c], f.schema[c];
      WriterHolds(cw);
      var at := fileOffset;
      var pages;
      pages, w := WritePages(c);
      if pages.Err? {
        return Err(pages.error), w;
      }
      var (counted, dataPageOffset) := pages.value;
      var stats, enc := cw.stats.State(), ChooseEncoding(f.cfg, desc, cw.stats.State(), cw.numValues);
      var pagesSize := fileOffset - at;
      assert enc == w.enc by { EncodingIs(f, c, w.values); }
      var meta := ColumnMeta(desc.ptype, desc.name, cw.numValues, counted, counted, dataPageOffset,
                             if IsDictionary(enc) then Some(at) else None, RecordedEncodings(enc),
                             if stats.has then Some(stats) else None);
      var bloom, bloomSize := WriteBloom(desc, cw.buf, w);
      var columnIndex, offsetIndex, indexSize :=
        WriteIndexes(desc, w, at, stats, cw.numValues, dataPageOffset, pagesSize);
      ChunkParts(f, desc, w, at, old(file), file);
      return Ok((ColumnChunk(at, Some(meta), bloom, columnIndex, offsetIndex), bloomSize + indexSize + counted)), w;
    }

    method WriteBloom(desc: ColumnDesc, plain: seq<bv8>, ghost w: Written) returns (bloom: Option<Extent>, size: nat)
      requires plain == w.plain && fileOffset == |file|
      modifies this`file, this`fileOffset
      ensures file == old(file) + BloomPart(f, desc, w) && fileOffset == |file| && size == |BloomPart(f, desc, w)|
      ensures bloom == if f.k.bloom(desc, w.plain).Some? then Some(Extent(|old(file)|, size)) else None
    {
      hide LeBytes;
      var filter := f.k.bloom(desc, plain);
      if filter.None? {
        return None, 0;
      }
      var at := fileOffset;
      WriteRaw(LeBytes(|filter.value| % TWO32));
      WriteRaw(filter.value);
      assert old(file) + LeBytes(|filter.value| % TWO32) + filter.value == old(file) + BloomPart(f, desc, w);
      return Some(Extent(at, 4 + |filter.value|)), 4 + |filter.value|;
    }

    /** The page index of a chunk: one entry, its bounds from the statistics. */
    method WriteIndexes(desc: ColumnDesc, ghost w: Written, at: nat, stats: Statistics.Stats, count: nat,
            dataPageOffset: nat, pagesSize: nat)
      returns (columnIndex: Option<Extent>, offsetIndex: Option<Extent>, size: nat)
      requires stats == ChunkStats(w) && count == |w.values| && fileOffset == |file|
      requires dataPageOffset == at + |DictPart(f, w)| && pagesSize == |Pages(f, w)|
      modifies this`file, this`fileOffset
      ensures fileOffset == |file|
      ensures file == old(file) + (ColumnIndexPart(f, desc, w, at) + OffsetIndexPart(f, w, at))
      ensures size == |ColumnIndexPart(f, desc, w, at)| + |OffsetIndexPart(f, w, at)|
      ensures var n := |ColumnIndexPart(f, desc, w, at)|;
              && columnIndex == (if f.cfg.pageIndex then Some(Extent(|old(file)|, n)) else None)
              && offsetIndex == (if f.cfg.pageIndex then Some(Extent(|old(file)| + n, |OffsetIndexPart(f, w, at)|))
                                 else None)
    {
      hide ChunkStats, Pages, DictPart, PageIndex.IndexOf, PageIndex.LocationsOf, PageIndex.PageOf;
      if !f.cfg.pageIndex {
        return None, None, 0;
      }
      var builder := new PageIndex.ColumnIndexBuilder();
      builder.RecordPage(stats, count, dataPageOffset, pagesSize);
      assert builder.pages == [IndexEntry(f, w, at)];
      var index := builder.BuildColumnIndex(desc.ptype);
      var start := fileOffset;
      WriteRaw(f.k.columnIndex(index));
      columnIndex := Some(Extent(start, fileOffset - start));
      var locations := builder.BuildOffsetIndex();
      var next := fileOffset;
      WriteRaw(f.k.offsetIndex(locations));
      offsetIndex := Some(Extent(next, fileOffset - next));
      size := fileOffset - start;
    }

    /** The counters of the waiting values stay within their width. */
    ghost predicate Countable(more: nat)
      reads this`writers, this`pending, Objects()
    {
      forall c :: 0 <= c < |writers| ==> |writers[c].written| + |pending| + more <= Limit(f, c)
    }

    /** What the flush writes for a chunk is right for its column. */
    ghost predicate ChunkOk(w: Written, c: nat)
      requires c < |f.schema|
      reads this`writers, Objects()
    {
      && c < |writers|
      && Encoded(w, f.schema[c].ptype, f.schema[c].typeLength)
      && w.values == writers[c].written && w.enc == EncodingOf(f, c, w.values)
      && (!IsDictionary(w.enc) ==> SmallPages(w))
    }

    /** Writes all column chunks of a row group and gathers their metadata. */
    method WriteGroup(numRows: nat, ghost cols: seq<seq<Value>>) returns (r: Result<RowGroup>, ghost ws: seq<Written>)
      requires WritersOk() && fileOffset == |file| && cols == Buffered()
      requires forall c :: 0 <= c < |writers| ==> writers[c].numValues <= Limit(f, c)
      modifies this`file, this`fileOffset
      ensures r.Ok? ==>
                && fileOffset == |file| && |ws| == |f.schema|
                && GroupRight(f, ws, cols)
                && file == old(file) + GroupBytes(f, ws, |old(file)|)
                && r.value == RowGroup(numRows, GroupSize(f, ws, |old(file)|), GroupChunks(f, ws, |old(file)|))
    {
      hide ColumnWriter.Valid, ChunkBytes, ChunkOf, ChunkSize, EncodingOf, Encoded, SmallPages, GroupBytes, GroupSize,
        GroupChunks;
      SchemaLength();
      var chunks: seq<ColumnChunk>, size: int := [], 0;
      ghost var at := |file|;
      ws := [];
      GroupEmpty(f, at);
      while |chunks| < |f.schema|
        invariant |ws| == |chunks| <= |f.schema| && WritersOk() && fileOffset == |file|
        invariant forall c :: 0 <= c < |ws| ==> ChunkOk(ws[c], c)
        invariant file == old(file) + GroupBytes(f, ws, at)
        invariant size == GroupSize(f, ws, at) && chunks == GroupChunks(f, ws, at)
      {
        ghost var before := ws;
        var chunk;
        ghost var w;
        chunk, w := FlushColumn(|chunks|);
        if chunk.Err? {
          return Err(chunk.error), ws;
        }
        ws := ws + [w];
        GroupGrows(f, before, w, at);
        chunks := chunks + [chunk.value.0];
        size := size + chunk.value.1;
      }
      ChunksRight(ws, cols);
      return Ok(RowGroup(numRows, size, chunks)), ws;
    }

    lemma SchemaLength()
      requires WritersOk()
      ensures |writers| == |f.schema|
    {
    }

    method ResetWriters()
      requires WritersOk()
      modifies Objects()
      ensures WritersOk() && forall i :: 0 <= i < |writers| ==> writers[i].written == []
    {
      hide ColumnWriter.Valid;
      var c := 0;
      while c < |writers|
        invariant 0 <= c <= |writers| && WritersOk() && forall i :: 0 <= i < c ==> writers[i].written == []
      {
        writers[c].Reset();
        c := c + 1;
      }
    }

    /** What the columns hold once the pending rows are parsed into them. */
    ghost function Gathered(): (cols: seq<seq<Value>>)
      requires AllWidth(pending, |f.schema|) && |writers| == |f.schema|
      reads this, Objects()
      ensures |cols| == |writers|
    {
      seq(|writers|, c requires 0 <= c < |writers| && AllWidth(pending, |f.schema|) && |writers| == |f.schema|
                       reads this, Objects() =>
        writers[c].written + ParsedColumn(f, pending, c))
    }

    /** Writes the column values as one row group and starts the columns afresh; without values nothing
        happens. */
    method FlushColumns() returns (r: Result<bool>)
      requires WritersOk() && FileOk()
      requires forall c :: 0 <= c < |writers| ==> |writers[c].written| <= Limit(f, c)
      modifies this`file, this`fileOffset, this`rowGroups, this`totalRows, this`hist, Objects()
      ensures r.Ok? ==> WritersOk() && FileOk() && forall c :: 0 <= c < |writers| ==> writers[c].written == []
      ensures r == Ok(false) ==> hist == old(hist) && file == old(file) && totalRows == old(totalRows) &&
                                 forall c :: 0 <= c < |writers| ==> old(writers[c].written) == []
      ensures r == Ok(true) ==>
                && |hist| == |old(hist)| + 1 && hist[..|old(hist)|] == old(hist) && f.schema != []
                && GroupRight(f, hist[|old(hist)|], old(Buffered()))
                && totalRows == old(totalRows) + |old(writers[0].written)| && old(writers[0].written) != []
    {
      hide WritersOk, FileOk, GroupRight;
      CountsHold();
      var hasData := HasData();
      if !hasData {
        return Ok(false);
      }
      var same := SameCounts();
      if !same {
        return Err(SCHEMA_MISMATCH);
      }
      var written := FlushEqual(writers[0].numValues);
      if written.Err? {
        return Err(written.error);
      }
      ResetWriters();
      return Ok(true);
    }

    /** Writes and records columns that hold the same positive number of values. */
    method FlushEqual(numRows: nat) returns (r: Result<()>)
      requires WritersOk() && FileOk() && writers != [] && 0 < numRows
      requires forall c :: 0 <= c < |writers| ==> writers[c].numValues == numRows <= Limit(f, c)
      modifies this`file, this`fileOffset, this`rowGroups, this`totalRows, this`hist
      ensures r.Ok? ==>
                && FileOk() && |hist| == |old(hist)| + 1 && hist[..|old(hist)|] == old(hist)
                && GroupRight(f, hist[|old(hist)|], old(Buffered())) && totalRows == old(totalRows) + numRows
    {
      hide WritersOk, FileOk, GroupRight, Sound, Body, Groups, TotalRows, GroupBytes, GroupSize, GroupChunks;
      ghost var cols := Buffered();
      CountsHold();
      FileFacts();
      var group;
      ghost var ws;
      ghost var before := file;
      group, ws := WriteGroup(numRows, cols);
      if group.Err? {
        return Err(group.error);
      }
      Record(group.value, numRows, ws, cols, before);
      return Ok(());
    }

    lemma FileFacts()
      requires FileOk()
      ensures ParseLaw(f.k) && Columns(f, hist) && Sound(f, hist) && file == Body(f, hist) && fileOffset == |file|
      ensures rowGroups == Groups(f, hist) && totalRows == TotalRows(hist)
    {
    }

    lemma ChunksRight(ws: seq<Written>, cols: seq<seq<Value>>)
      requires |ws| == |cols| == |f.schema| == |writers| && forall c :: 0 <= c < |ws| ==> ChunkOk(ws[c], c)
      requires cols == Buffered()
      ensures GroupRight(f, ws, cols)
    {
      hide Encoded, EncodingOf, SmallPages;
      forall c | 0 <= c < |ws|
        ensures Encoded(ws[c], f.schema[c].ptype, f.schema[c].typeLength) && ws[c].values == cols[c] &&
                ws[c].enc == EncodingOf(f, c, ws[c].values) && (!IsDictionary(ws[c].enc) ==> SmallPages(ws[c]))
      {
        assert ChunkOk(ws[c], c);
      }
    }

    /** Records a row group just written. */
    method Record(group: RowGroup, numRows: nat, ghost ws: seq<Written>, ghost cols: seq<seq<Value>>,
            ghost before: seq<bv8>)
      requires ParseLaw(f.k) && Columns(f, hist) && Sound(f, hist) && before == Body(f, hist)
      requires rowGroups == Groups(f, hist) && totalRows == TotalRows(hist) && fileOffset == |file|
      requires GroupRight(f, ws, cols) && f.schema != [] && 0 < numRows && forall c :: 0 <= c < |cols| ==>
                 |cols[c]| == numRows
      requires |ws| <= |f.schema| && file == before + GroupBytes(f, ws, |before|)
      requires group == RowGroup(numRows, GroupSize(f, ws, |before|), GroupChunks(f, ws, |before|))
      modifies this`rowGroups, this`totalRows, this`hist
      ensures FileOk() && hist == old(hist) + [ws] && totalRows == old(totalRows) + numRows
    {
      hide Sound, Body, Groups, TotalRows, GroupRight, GroupBytes, GroupSize, GroupChunks;
      HistoryGrows(f, hist, ws, cols, numRows);
      rowGroups := rowGroups + [group];
      totalRows := totalRows + numRows;
      hist := hist + [ws];
    }

    /** Flushes what is waiting as one row group; nothing waiting is no row group. A failed flush may
        leave bytes behind, so it promises nothing further. */
    method FlushRowGroup() returns (r: Result<()>)
      requires open ==> Consistent() && Countable(0)
      modifies this, Objects()
      ensures Objects() == old(Objects())
      ensures !old(open) ==> r == Err(IO_ERROR) && !open && file == old(file)
      ensures r.Ok? ==>
                && Valid() && open && pending == [] && rows == old(rows) && rowsOnly == old(rowsOnly)
                && (forall c :: 0 <= c < |writers| ==> writers[c].written == [])
      ensures r.Ok? ==>
                && AllWidth(old(pending), |f.schema|) && |old(writers)| == |f.schema|
                && Flushed(old(hist), hist, old(Gathered()))
      ensures r.Ok? && old(rowsOnly) && f.schema != [] ==>
                flushed == if old(pending) == [] then old(flushed) else old(flushed) + [old(pending)]
    {
      hide WritersOk, FileOk, Conserved, ParsedColumn, GroupRight, Columns, Flushed, Countable;
      if !open {
        return Err(IO_ERROR);
      }
      CountsHold();
      ghost var waiting, cols, before := pending, Gathered(), hist;
      NothingParsed(f, waiting);
      var wrote := GatherAndFlush();
      if wrote.Err? {
        return Err(wrote.error);
      }
      CountsHold();
      Apart();
      FlushedIs(f, before, hist, cols, wrote.value);
      SettleRows(before, cols, waiting, wrote.value, old(totalRows));
      return Ok(());
    }

    /** Accepts one row of text and, when a row group's worth is pending, flushes it. */
    method WriteRow(row: Row) returns (r: Result<()>)
      requires open ==> Valid() && Countable(1)
      modifies this, Objects()
      ensures Objects() == old(Objects())
      ensures !old(open) ==> r == Err(IO_ERROR) && !open && file == old(file)
      ensures old(open) && |row| != |f.schema| ==>
                r == Err(SCHEMA_MISMATCH) && Valid() && open && rows == old(rows) && pending == old(pending) &&
                                                   hist == old(hist) && rowsOnly == old(rowsOnly)
      ensures r.Ok? ==> Valid() && open && |row| == |f.schema| && rows == old(rows) + [row] && rowsOnly == old(rowsOnly)
      ensures r.Ok? && |old(pending)| + 1 < AtLeastOne(f.cfg.rowGroupSize) ==>
                pending == old(pending) + [row] && hist == old(hist) && flushed == old(flushed)
      ensures r.Ok? && |old(pending)| + 1 >= AtLeastOne(f.cfg.rowGroupSize) ==>
                && pending == [] && |old(pending)| + 1 == AtLeastOne(f.cfg.rowGroupSize)
                && (rowsOnly && f.schema != [] ==> flushed == old(flushed) + [old(pending) + [row]])
    {
      hide WritersOk, FileOk, Conserved, Flushed;
      if !open {
        return Err(IO_ERROR);
      }
      if |row| != |f.schema| {
        return Err(SCHEMA_MISMATCH);
      }
      CountsHold();
      Apart();
      ConservedRow(f, hist, flushed, pending, rows, totalRows, row);
      pending := pending + [row];
      rows := rows + [row];
      if |pending| >= f.cfg.rowGroupSize {
        r := FlushRowGroup();
        return;
      }
      return Ok(());
    }

    /** Flushed rows and pending rows together. */
    method RowsWritten() returns (n: nat)
      requires Valid()
      ensures rowsOnly && f.schema != [] ==> n == |rows|
    {
      hide WritersOk, FileOk, HoldsRows, Concat;
      return totalRows + |pending|;
    }

    /** Flushes what is left and appends the footer; the file is then complete. */
    method Close() returns (r: Result<WriteStats>)
      requires open ==> Valid() && Countable(0)
      modifies this, Objects()
      ensures Objects() == old(Objects()) && !open
      ensures !old(open) ==> r == Ok(WriteStats(0, 0, 0)) && file == old(file)
      ensures old(open) && f.schema == [] ==> r == Err(INTERNAL_ERROR)
      ensures old(open) && r.Ok? ==>
                && Sound(f, hist) && Columns(f, hist) && file == Whole(f, hist)
                && r.value == WriteStats(|file|, TotalRows(hist), |hist|)
                && AllWidth(old(pending), |f.schema|) && |old(writers)| == |f.schema|
                && Flushed(old(hist), hist, old(Gathered()))
                && rows == old(rows)
                && (old(rowsOnly) ==>
                      && Conserved(f, hist, flushed, [], rows, TotalRows(hist))
                      && flushed == if old(pending) == [] then old(flushed) else old(flushed) + [old(pending)])
    {
      hide WritersOk, FileOk, Conserved, Flushed, Sound, Columns, Body, Groups, TotalRows;
      if !open {
        return Ok(WriteStats(0, 0, 0));
      }
      if f.schema == [] {
        open := false;
        return Err(INTERNAL_ERROR);
      }
      var flush := FlushRowGroup();
      if flush.Err? {
        open := false;
        return Err(flush.error);
      }
      FileFacts();
      var elements := Elements(f.schema);
      var footer := f.k.footer(FileMeta(totalRows, elements, rowGroups));
      WriteRaw(footer);
      WriteRaw(LeBytes(|footer| % TWO32));
      WriteRaw(MAGIC);
      open := false;
      return Ok(WriteStats(fileOffset, totalRows, |rowGroups|));
    }

    /** Parses the pending rows and writes the columns. */
    method GatherAndFlush() returns (r: Result<bool>)
      requires WritersOk() && FileOk() && AllWidth(pending, |f.schema|) && |writers| == |f.schema| && Countable(0)
      modifies this`pending, this`file, this`fileOffset, this`rowGroups, this`totalRows, this`hist, Objects()
      ensures Objects() == old(Objects())
      ensures r.Ok? ==>
                WritersOk() && FileOk() && pending == [] && forall c :: 0 <= c < |writers| ==> writers[c].written == []
      ensures r == Ok(false) ==> hist == old(hist) && file == old(file) && totalRows == old(totalRows) &&
                                 forall c :: 0 <= c < |f.schema| ==> old(Gathered())[c] == []
      ensures r == Ok(true) ==>
                && |hist| == |old(hist)| + 1 && hist[..|old(hist)|] == old(hist) && f.schema != []
                && GroupRight(f, hist[|old(hist)|], old(Gathered()))
                && totalRows == old(totalRows) + |old(Gathered())[0]| && old(Gathered())[0] != []
    {
      hide WritersOk, FileOk, ParsedColumn, GroupRight, Columns, Countable;
      ParseAndColumns();
      ghost var cols := Gathered();
      Bounded();
      var e := GatherPending();
      if e.Err? {
        return Err(e.error);
      }
      CountsHold();
      Apart();
      assert forall c :: 0 <= c < |writers| ==> writers[c].written == Buffered()[c];
      r := FlushColumns();
    }

    /** Rows that were pending and got written become a flushed group. */
    ghost method SettleRows(before: seq<seq<Written>>, cols: seq<seq<Value>>, waiting: seq<Row>, wrote: bool,
            total: nat)
      requires |writers| == |f.schema| == |cols| && pending == [] && AllWidth(waiting, |f.schema|)
      requires forall i :: 0 <= i < |writers| ==> writers[i].written == []
      requires if wrote then |hist| == |before| + 1 && hist[..|before|] == before &&
                             GroupRight(f, hist[|before|], cols) &&
                             cols != [] && cols[0] != [] && totalRows == total + |cols[0]|
               else hist == before && totalRows == total && forall c :: 0 <= c < |cols| ==> cols[c] == []
      requires rowsOnly && f.schema != [] ==>
                 Conserved(f, before, flushed, waiting, rows, total) &&
                 forall c :: 0 <= c < |cols| ==> |cols[c]| == |waiting| && cols[c] == ParsedColumn(f, waiting, c)
      modifies this`flushed
      ensures RowsOk()
      ensures rowsOnly && f.schema != [] ==> flushed == if waiting == [] then old(flushed) else old(flushed) + [waiting]
    {
      hide Conserved, ParsedColumn, GroupRight;
      Apart();
      if rowsOnly && f.schema != [] {
        if wrote {
          assert hist == before + [hist[|before|]];
          ConservedFlush(f, before, flushed, hist[|before|], cols, waiting, rows, total);
          flushed := flushed + [waiting];
        } else {
          assert |cols[0]| == |waiting|;
        }
      }
    }

    lemma Apart()
      ensures this as object !in Objects()
    {
    }

    lemma Bounded()
      requires Countable(0) && AllWidth(pending, |f.schema|) && |writers| == |f.schema|
      ensures forall c :: 0 <= c < |writers| ==> |Gathered()[c]| <= Limit(f, c)
    {
      hide ParsedColumn;
      NothingParsed(f, pending);
    }

    /** Parses the pending rows, if any, into the columns. */
    method GatherPending() returns (r: Result<()>)
      requires WritersOk() && ParseLaw(f.k) && AllWidth(pending, |f.schema|) && |writers| == |f.schema|
      modifies this`pending, Objects()
      ensures WritersOk() && Objects() == old(Objects())
      ensures r.Ok? ==> pending == [] && Buffered() == old(Gathered())
    {
      hide WritersOk, ParsedColumn;
      NothingParsed(f, pending);
      if pending == [] {
        forall c | 0 <= c < |writers| ensures Buffered()[c] == Gathered()[c] {
          assert ParsedColumn(f, pending, c) == [];
        }
        return Ok(());
      }
      r := EncodePendingRows();
    }

    lemma ParseAndColumns()
      requires FileOk()
      ensures ParseLaw(f.k) && Columns(f, hist)
    {
    }

    method SameCounts() returns (same: bool)
      requires WritersOk() && writers != []
      ensures same <==> forall c :: 0 <= c < |writers| ==> writers[c].numValues == writers[0].numValues
    {
      hide WritersOk, ColumnWriter.Valid;
      var c := 1;
      while c < |writers|
        invariant 1 <= c <= |writers| && forall i :: 0 <= i < c ==> writers[i].numValues == writers[0].numValues
      {
        if writers[c].numValues != writers[0].numValues {
          return false;
        }
        c := c + 1;
      }
      return true;
    }

    method HasData() returns (has: bool)
      requires WritersOk()
      ensures has <==> exists c :: 0 <= c < |writers| && writers[c].numValues > 0
    {
      hide WritersOk, ColumnWriter.Valid;
      var c := 0;
      while c < |writers|
        invariant 0 <= c <= |writers| && forall i :: 0 <= i < c ==> writers[i].numValues == 0
      {
        if writers[c].numValues > 0 {
          return true;
        }
        c := c + 1;
      }
      return false;
    }

    lemma CountsHold()
      requires WritersOk()
      ensures |writers| == |f.schema|
      ensures forall c :: 0 <= c < |writers| ==> writers[c].numValues == |writers[c].written|
    {
    }
  }

  /** A row group whose chunks are right for the columns they came from. */
  ghost predicate GroupRight(f: Layout, ws: seq<Written>, cols: seq<seq<Value>>) {
    && |ws| == |cols| == |f.schema|
    && forall c :: 0 <= c < |ws| ==>
         && Encoded(ws[c], f.schema[c].ptype, f.schema[c].typeLength)
         && ws[c].values == cols[c] && ws[c].enc == EncodingOf(f, c, ws[c].values)
         && (!IsDictionary(ws[c].enc) ==> SmallPages(ws[c]))
  }

  lemma ConservedRow(f: Layout, hist: seq<seq<Written>>, flushed: seq<seq<Row>>, pending: seq<Row>, rows: seq<Row>,
          totalRows: nat, row: Row)
    ensures Conserved(f, hist, flushed, pending, rows, totalRows) ==>
              Conserved(f, hist, flushed, pending + [row], rows + [row], totalRows)
  {
    hide HoldsRows, Concat;
    assert Concat(flushed) + (pending + [row]) == Concat(flushed) + pending + [row];
  }

  lemma ConservedFlush(f: Layout, hist: seq<seq<Written>>, flushed: seq<seq<Row>>, ws: seq<Written>,
          cols: seq<seq<Value>>,
                       waiting: seq<Row>, rows: seq<Row>, totalRows: nat)
    requires Conserved(f, hist, flushed, waiting, rows, totalRows) && GroupRight(f, ws, cols) && f.schema != []
    requires AllWidth(waiting, |f.schema|) && forall c :: 0 <= c < |f.schema| ==> cols[c] == ParsedColumn(f, waiting, c)
    requires waiting != []
    ensures Conserved(f, hist + [ws], flushed + [waiting], [], rows, totalRows + |waiting|)
  {
    hide HoldsRows, Concat, GroupRight, ParsedColumn;
    RowsGrow(f, hist, flushed, ws, cols, waiting);
  }

  lemma NothingParsed(f: Layout, rows: seq<Row>)
    requires AllWidth(rows, |f.schema|)
    ensures rows == [] ==> forall c :: 0 <= c < |f.schema| ==> ParsedColumn(f, rows, c) == []
    ensures forall c :: 0 <= c < |f.schema| ==> |ParsedColumn(f, rows, c)| == |rows|
  {
  }

  lemma RowsGrow(f: Layout, hist: seq<seq<Written>>, flushed: seq<seq<Row>>, ws: seq<Written>,
          cols: seq<seq<Value>>, more: seq<Row>)
    requires Columns(f, hist) && HoldsRows(f, hist, flushed) && GroupRight(f, ws, cols) && f.schema != []
    requires more != [] && AllWidth(more, |f.schema|) && forall c :: 0 <= c < |f.schema| ==>
               cols[c] == ParsedColumn(f, more, c)
    ensures Columns(f, hist + [ws]) && HoldsRows(f, hist + [ws], flushed + [more])
    ensures Concat(flushed + [more]) == Concat(flushed) + more
  {
    hide ParsedColumn, Encoded, EncodingOf, SmallPages;
    assert (flushed + [more])[..|flushed|] == flushed;
  }

  /** A flush of these columns adds one row group with their values, or nothing when all are empty. */
  ghost predicate Flushed(before: seq<seq<Written>>, after: seq<seq<Written>>, cols: seq<seq<Value>>) {
    if forall c :: 0 <= c < |cols| ==> cols[c] == [] then after == before
    else |after| == |before| + 1 && after[..|before|] == before && |after[|before|]| == |cols| &&
         forall c :: 0 <= c < |cols| ==> after[|before|][c].values == cols[c]
  }

  lemma FlushedIs(f: Layout, before: seq<seq<Written>>, after: seq<seq<Written>>, cols: seq<seq<Value>>, wrote: bool)
    requires if wrote then |after| == |before| + 1 && after[..|before|] == before &&
                           GroupRight(f, after[|before|], cols) &&
                           cols != [] && cols[0] != []
             else after == before && forall c :: 0 <= c < |cols| ==> cols[c] == []
    ensures Flushed(before, after, cols)
  {
    hide GroupRight;
    if wrote {
      RightValues(f, after[|before|], cols);
    }
  }

  lemma RightValues(f: Layout, ws: seq<Written>, cols: seq<seq<Value>>)
    requires GroupRight(f, ws, cols)
    ensures |ws| == |cols| == |f.schema| && forall c :: 0 <= c < |ws| ==> ws[c].values == cols[c]
  {
    hide Encoded, EncodingOf, SmallPages;
  }

  lemma HistoryGrows(f: Layout, hist: seq<seq<Written>>, ws: seq<Written>, cols: seq<seq<Value>>, n: nat)
    requires Columns(f, hist) && Sound(f, hist) && GroupRight(f, ws, cols)
    requires 0 < n && f.schema != [] && forall c :: 0 <= c < |cols| ==> |cols[c]| == n
    ensures Columns(f, hist + [ws]) && Sound(f, hist + [ws])
    ensures Body(f, hist + [ws]) == Body(f, hist) + GroupBytes(f, ws, |Body(f, hist)|)
    ensures var at := |Body(f, hist)|;
            Groups(f, hist + [ws]) == Groups(f, hist) + [RowGroup(n, GroupSize(f, ws, at), GroupChunks(f, ws, at))]
    ensures TotalRows(hist + [ws]) == TotalRows(hist) + n
  {
    hide GroupSound, GroupRight, GroupBytes, GroupSize, GroupChunks;
    assert (hist + [ws])[..|hist|] == hist;
    RightIsSound(f, ws, cols, n);
  }

  lemma RightIsSound(f: Layout, ws: seq<Written>, cols: seq<seq<Value>>, n: nat)
    requires GroupRight(f, ws, cols) && 0 < n && f.schema != [] && forall c :: 0 <= c < |cols| ==> |cols[c]| == n
    ensures GroupSound(f, ws) && GroupRows(ws) == n && |ws| == |f.schema|
  {
    hide Encoded, SmallPages, EncodingOf;
  }

  lemma GroupGrows(f: Layout, ws: seq<Written>, w: Written, at: nat)
    requires |ws| < |f.schema|
    ensures var c := f.schema[|ws|]; var start := at + |GroupBytes(f, ws, at)|;
            && GroupBytes(f, ws + [w], at) == GroupBytes(f, ws, at) + ChunkBytes(f, c, w, start)
            && GroupSize(f, ws + [w], at) == GroupSize(f, ws, at) + ChunkSize(f, c, w, start)
            && GroupChunks(f, ws + [w], at) == GroupChunks(f, ws, at) + [ChunkOf(f, c, w, start)]
  {
    hide GroupBytes, GroupSize, GroupChunks, ChunkBytes, ChunkOf, ChunkSize;
    assert (ws + [w])[..|ws|] == ws && (ws + [w])[|ws|] == w;
    GroupUnfold(f, ws + [w], at);
  }

  lemma GroupUnfold(f: Layout, ws: seq<Written>, at: nat)
    requires 0 < |ws| <= |f.schema|
    ensures var n := |ws| - 1; var start := at + |GroupBytes(f, ws[..n], at)|;
            && GroupBytes(f, ws, at) == GroupBytes(f, ws[..n], at) + ChunkBytes(f, f.schema[n], ws[n], start)
            && GroupSize(f, ws, at) == GroupSize(f, ws[..n], at) + ChunkSize(f, f.schema[n], ws[n], start)
            && GroupChunks(f, ws, at) == GroupChunks(f, ws[..n], at) + [ChunkOf(f, f.schema[n], ws[n], start)]
  {
    hide ChunkBytes, ChunkOf, ChunkSize;
  }

  lemma EncodingIs(f: Layout, c: nat, values: seq<Value>)
    requires c < |f.schema|
    ensures EncodingOf(f, c, values) ==
            ChooseEncoding(f.cfg, f.schema[c], Statistics.Feed(Statistics.Fresh(INT32), Items(values)), |values|)
  {
    hide ChooseEncoding;
  }

  lemma ChunkParts(f: Layout, c: ColumnDesc, w: Written, at: nat, before: seq<bv8>, after: seq<bv8>)
    requires after == before + Pages(f, w) + BloomPart(f, c, w) +
                      (ColumnIndexPart(f, c, w, at) + OffsetIndexPart(f, w, at))
    ensures after == before + ChunkBytes(f, c, w, at)
  {
    hide Pages, BloomPart, ColumnIndexPart, OffsetIndexPart;
  }

  lemma NoDictPart(f: Layout, w: Written)
    requires !IsDictionary(w.enc)
    ensures DictPart(f, w) == []
  {
  }

  lemma DataOnly(f: Layout, w: Written)
    requires !IsDictionary(w.enc)
    ensures var h := DataPageHeader(w.page, |w.values|, w.enc);
            Pages(f, w) == PageBytes(f.k, h, w.page) && CountedPages(f, w) == |f.k.header(h)| + Int32(|w.page|)
  {
    hide Crc32.Crc, Int32, PageBytes;
    assert Pages(f, w) == DataPart(f, w);
  }

  lemma WriterHolds(cw: ColumnWriter)
    requires cw.Valid()
    ensures AllStorable(cw.written, cw.ptype, cw.typeLength) && cw.buf == Plain(cw.written, cw.ptype, cw.typeLength)
    ensures cw.numValues == |cw.written|
    ensures cw.stats.State() == Statistics.Feed(Statistics.Fresh(INT32), Items(cw.written))
  {
  }

  /** Byte strings may go to variable- and fixed-length columns, other types only to their own. */
  predicate Accepts(column: PhysicalType, t: PhysicalType) {
    column == t || (t == BYTE_ARRAY && column == FIXED_LEN_BYTE_ARRAY)
  }

  lemma SameValues(vs: seq<Value>, t: PhysicalType, column: PhysicalType)
    requires AllOfType(vs, t) && Accepts(column, t)
    ensures AllOfType(vs, column)
  {
  }

  lemma EmptyFile(f: Layout)
    ensures Columns(f, []) && Sound(f, []) && HoldsRows(f, [], [])
    ensures Body(f, []) == MAGIC && Groups(f, []) == [] && TotalRows([]) == 0 && Concat([]) == []
  {
  }

  /** One fresh writer per column. */
  method MakeWriters(schema: seq<ColumnDesc>) returns (ws: seq<ColumnWriter>)
    ensures |ws| == |schema|
    ensures forall i :: 0 <= i < |ws| ==> fresh(ws[i]) && fresh(ws[i].stats)
    ensures forall i, j :: 0 <= i < j < |ws| ==> ws[i] != ws[j] && ws[i].stats != ws[j].stats
    ensures forall i :: 0 <= i < |ws| ==> ws[i].Valid() && ws[i].written == []
    ensures forall i :: 0 <= i < |ws| ==> ws[i].ptype == schema[i].ptype && ws[i].typeLength == schema[i].typeLength
  {
    hide ColumnWriter.Valid;
    ws := [];
    while |ws| < |schema|
      invariant |ws| <= |schema|
      invariant forall i :: 0 <= i < |ws| ==> fresh(ws[i]) && fresh(ws[i].stats)
      invariant forall i, j :: 0 <= i < j < |ws| ==> ws[i] != ws[j] && ws[i].stats != ws[j].stats
      invariant forall i :: 0 <= i < |ws| ==> ws[i].Valid() && ws[i].written == []
      invariant forall i :: 0 <= i < |ws| ==> ws[i].ptype == schema[i].ptype && ws[i].typeLength == schema[i].typeLength
    {
      var w := new ColumnWriter(schema[|ws|].ptype, schema[|ws|].typeLength);
      ws := ws + [w];
    }
  }
}
