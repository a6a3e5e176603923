/** Reading a file back from nothing but its bytes: the footer, the pages at the recorded offsets,
    the columns, and rows assembled from columns. */
module FileReader {
  import opened Bits
  import opened Crc32
  import opened Encodings
  import opened FileFormat
  import opened HexText
  import opened PlainCodec
  import opened Values
  import opened Words
  import ByteStreamSplit
  import Delta
  import Dictionary
  import Rle

  // ----- pages -----

  /** A page: its header, its bytes and the offset behind it. */
  datatype Page = Page(header: PageHeader, data: seq<bv8>, end: nat)

  /** The page at an offset: a header that parses, a size inside the file, a checksum that holds. */
  function PageAt(k: Codec, file: seq<bv8>, offset: int): (r: Result<Page>) {
    if offset < 0 || offset >= |file| then Err(CORRUPT_PAGE)
    else match k.parseHeader(file[offset..])
      case None => Err(THRIFT_DECODE_ERROR)
      case Some((h, size)) =>
        if h.compressed < 0 || size + h.compressed > |file| - offset then Err(CORRUPT_PAGE)
        else
          var data := file[offset + size..offset + size + h.compressed];
          if h.crc.Some? && Crc(data) != h.crc.value then Err(CORRUPT_PAGE)
          else Ok(Page(h, data, offset + size + h.compressed))
  }

  /** The value count of a data page, or the chunk's when the header has none. */
  function PageValues(h: PageHeader, meta: ColumnMeta): int {
    if h.kind == DATA_PAGE && h.data.Some? then h.data.value.numValues
    else if h.kind == DATA_PAGE_V2 && h.v2Values.Some? then h.v2Values.value
    else meta.numValues
  }

  function CheckedCount(n: int): Result<nat> {
    if n < 0 || n > MAX_VALUES_PER_PAGE then Err(CORRUPT_PAGE) else Ok(n)
  }

  // ----- columns -----

  const MAX_DICTIONARY: int := 10_000_000

  function DictColumn(k: Codec, file: seq<bv8>, meta: ColumnMeta, want: PhysicalType): Result<seq<Value>>
    requires Readable(want)
  {
    if want == BOOLEAN then Err(UNSUPPORTED_ENCODING)
    else
      var at := if meta.dictPageOffset.Some? then meta.dictPageOffset.value else meta.dataPageOffset;
      var dict :- PageAt(k, file, at);
      if dict.header.kind != DICTIONARY_PAGE || dict.header.dict.None? then Err(CORRUPT_PAGE)
      else
        var count := dict.header.dict.value.numValues;
        if count < 0 || count > MAX_DICTIONARY then Err(CORRUPT_PAGE)
        else
          var data :- PageAt(k, file, if meta.dataPageOffset == at then dict.end else meta.dataPageOffset);
          var n :- CheckedCount(PageValues(data.header, meta));
          Dictionary.DecodePages(want, dict.data, count, data.data, n)
  }

  /** A column chunk read as values of the wanted type. */
  function ChunkColumn(k: Codec, file: seq<bv8>, meta: ColumnMeta, width: int, want: PhysicalType): Result<seq<Value>>
    requires Readable(want)
  {
    var (dict, data) := Strategy(meta.encodings, meta.ptype);
    if dict then DictColumn(k, file, meta, want)
    else if data == DELTA_BINARY_PACKED && !IsInteger(want) then Err(UNSUPPORTED_ENCODING)
    else if data == BYTE_STREAM_SPLIT && !IsFloat(want) then Err(UNSUPPORTED_ENCODING)
    else if data == RLE && meta.ptype == BOOLEAN && want != BOOLEAN then Err(UNSUPPORTED_ENCODING)
    else
      var page :- PageAt(k, file, meta.dataPageOffset);
      var n :- CheckedCount(PageValues(page.header, meta));
      DecodePage(data, meta.ptype, width, page.data, n, want)
  }

  /** The metadata of a chunk, with the reader's bounds checks. */
  function MetaAt(meta: FileMeta, schema: seq<ColumnDesc>, g: nat, c: nat): Result<ColumnMeta> {
    if g >= |meta.rowGroups| || c >= |schema| || c >= |meta.rowGroups[g].columns| then Err(OUT_OF_RANGE)
    else if meta.rowGroups[g].columns[c].meta.None? then Err(CORRUPT_PAGE)
    else Ok(meta.rowGroups[g].columns[c].meta.value)
  }

  /** An open file: its bytes, its metadata and the schema rebuilt from it. */
  datatype Source = Source(k: Codec, file: seq<bv8>, meta: FileMeta, schema: seq<ColumnDesc>)

  function ColumnOf(s: Source, g: nat, c: nat, want: PhysicalType): Result<seq<Value>>
    requires Readable(want)
  {
    var m :- MetaAt(s.meta, s.schema, g, c);
    ChunkColumn(s.k, s.file, m, s.schema[c].typeLength, want)
  }

  // ----- opening -----

  function DescOf(e: SchemaElement): ColumnDesc {
    ColumnDesc(e.name, if e.ptype.Some? then e.ptype.value else BYTE_ARRAY,
               if e.typeLength.Some? then e.typeLength.value else -1)
  }

  /** Leaves only; groups are skipped. */
  function Leaves(es: seq<SchemaElement>): seq<ColumnDesc> {
    if es == [] then []
    else Leaves(es[..|es| - 1]) + (if es[|es| - 1].numChildren.Some? then [] else [DescOf(es[|es| - 1])])
  }

  function SchemaOf(es: seq<SchemaElement>): seq<ColumnDesc> { if es == [] then [] else Leaves(es[1..]) }

  const MAX_FILE_SIZE: nat := 4 * 1024 * 1024 * 1024

  function Open(k: Codec, file: seq<bv8>): Result<Source> {
    if |file| > MAX_FILE_SIZE then Err(INVALID_ARGUMENT)
    else if |file| < 12 then Err(INVALID_FILE)
    else if file[..4] != MAGIC then Err(INVALID_FILE)
    else
      var end := file[|file| - 4..];
      var len := LeValue(file[|file| - 8..|file| - 4]);
      if end != MAGIC && end != MAGIC_ENCRYPTED then Err(INVALID_FILE)
      else if len == 0 || len > |file| - 12 then Err(CORRUPT_FOOTER)
      else if end == MAGIC_ENCRYPTED then Err(LICENSE_ERROR)
      else
        var meta :- k.parseFooter(file[|file| - 8 - len..|file| - 8]);
        Ok(Source(k, file, meta, SchemaOf(meta.schema)))
  }

  /** A file opens exactly when it is small enough, starts and ends with the four letters PAR1, has a
      positive footer length that leaves room for the other parts, and its footer parses. */
  lemma OpensWhen(k: Codec, file: seq<bv8>)
    ensures Open(k, file).Ok? <==>
              && 12 <= |file| <= 0x1_0000_0000
              && file[..4] == [0x50, 0x41, 0x52, 0x31] && file[|file| - 4..] == [0x50, 0x41, 0x52, 0x31]
              && var len := LeValue(file[|file| - 8..|file| - 4]);
                 0 < len <= |file| - 12 && k.parseFooter(file[|file| - 8 - len..|file| - 8]).Ok?
    ensures Open(k, file).Ok? ==>
              var len := LeValue(file[|file| - 8..|file| - 4]);
              var meta := k.parseFooter(file[|file| - 8 - len..|file| - 8]).value;
              Open(k, file).value == Source(k, file, meta, SchemaOf(meta.schema))
  {
    hide LeValue, SchemaOf;
  }

  /** A page is read exactly when its offset is inside the file, its header parses, its size is not
      negative and inside the file, and its checksum, if it has one, is that of its bytes. */
  lemma PageReadWhen(k: Codec, file: seq<bv8>, offset: int)
    ensures PageAt(k, file, offset).Ok? <==>
              && 0 <= offset < |file| && k.parseHeader(file[offset..]).Some?
              && var (h, size) := k.parseHeader(file[offset..]).value;
                 && 0 <= h.compressed && offset + size + h.compressed <= |file|
                 && h.crc in {None, Some(Crc(file[offset + size..offset + size + h.compressed]))}
  {
    hide Crc;
  }

  // ----- what was written is found -----

  lemma HeaderFound(k: Codec, file: seq<bv8>, at: nat, h: PageHeader, page: seq<bv8>)
    requires HeaderLaw(k) && Holds(file, at, PageBytes(k, h, page)) && at < |file|
    ensures k.parseHeader(file[at..]) == Some((h, |k.header(h)|))
    ensures at + |k.header(h)| + |page| <= |file|
    ensures file[at + |k.header(h)|..at + |k.header(h)| + |page|] == page
  {
    var bytes := PageBytes(k, h, page);
    var rest := page + file[at + |bytes|..];
    assert file[at..] == file[at..at + |bytes|] + file[at + |bytes|..] == k.header(h) + rest;
    assert k.parseHeader(k.header(h) + rest) == Some((h, |k.header(h)|));
    assert Holds(file, at, k.header(h) + page + []) by { assert k.header(h) + page + [] == bytes; }
    HoldsInside(file, at, k.header(h), page, []);
  }

  /** A page whose header carries its size and checksum is read back. */
  lemma PageFound(k: Codec, file: seq<bv8>, at: nat, h: PageHeader, page: seq<bv8>)
    requires HeaderLaw(k) && Holds(file, at, PageBytes(k, h, page)) && at < |file|
    requires h.compressed == |page| && h.crc == Some(Crc(page))
    ensures PageAt(k, file, at) == Ok(Page(h, page, at + |PageBytes(k, h, page)|))
  {
    hide Crc;
    HeaderFound(k, file, at, h, page);
  }

  /** Different bytes of the same length that agree outside a window of at most 32 bits. */
  ghost predicate Damage(a: seq<bv8>, b: seq<bv8>, start: nat, width: nat) {
    && a != b && |a| == |b| && width <= 32 && start + width <= 8 * |a|
    && forall i :: 0 <= i < start || start + width <= i < 8 * |a| ==> BitsOf(a)[i] == BitsOf(b)[i]
  }

  /** A size of two gigabytes or more is negative in the header of any file the reader opens. */
  lemma Int32Negative(n: nat)
    requires TWO31 <= n < TWO32
    ensures Int32(n) < 0
  {
  }

  /** A stored page is found exactly when the header's size field can hold its size. */
  lemma PageFits(k: Codec, file: seq<bv8>, at: nat, h: PageHeader, page: seq<bv8>)
    requires HeaderLaw(k) && Holds(file, at, PageBytes(k, h, page)) && at < |file| <= MAX_FILE_SIZE
    requires h.compressed == Int32(|page|) && h.crc == Some(Crc(page)) && |page| < |file|
    ensures PageAt(k, file, at) == if |page| < TWO31 then Ok(Page(h, page, at + |PageBytes(k, h, page)|))
                                   else Err(CORRUPT_PAGE)
  {
    hide Crc, HeaderLaw, Int32;
    Int32Small(|page|);
    if |page| < TWO31 {
      PageFound(k, file, at, h, page);
    } else {
      HeaderFound(k, file, at, h, page);
      Int32Negative(|page|);
    }
  }

  /** A page damaged inside 32 consecutive bits, its header intact, is rejected. */
  lemma PageRejected(k: Codec, file: seq<bv8>, at: nat, h: PageHeader, page: seq<bv8>, damaged: seq<bv8>,
          start: nat, width: nat)
    requires HeaderLaw(k) && Holds(file, at, PageBytes(k, h, damaged)) && at < |file| <= MAX_FILE_SIZE
    requires h.compressed == Int32(|page|) && h.crc == Some(Crc(page)) && |page| < |file|
    requires Damage(page, damaged, start, width)
    ensures PageAt(k, file, at) == Err(CORRUPT_PAGE)
  {
    hide Crc, BitsOf, Int32;
    HeaderFound(k, file, at, h, damaged);
    DamageDetected(page, damaged, start, width);
    Int32Small(|page|);
    if |page| >= TWO31 {
      Int32Negative(|page|);
    }
  }

  /** A chunk the header's size fields can describe and the reader's value limit admits. */
  predicate WithinLimits(w: Written) { SmallPages(w) && |w.values| <= MAX_VALUES_PER_PAGE }

  /** Where the pages of a stored chunk are. */
  lemma PagesHold(f: Layout, c: ColumnDesc, w: Written, file: seq<bv8>, at: nat)
    requires Holds(file, at, ChunkBytes(f, c, w, at))
    ensures Holds(file, at, DictPart(f, w))
    ensures Holds(file, at + |DictPart(f, w)|, DataPart(f, w))
  {
    hide DictPart, DataPart, BloomPart, ColumnIndexPart, OffsetIndexPart;
    var rest := BloomPart(f, c, w) + ColumnIndexPart(f, c, w, at) + OffsetIndexPart(f, w, at);
    assert ChunkBytes(f, c, w, at) == [] + DictPart(f, w) + (DataPart(f, w) + rest);
    HoldsInside(file, at, [], DictPart(f, w), DataPart(f, w) + rest);
    assert ChunkBytes(f, c, w, at) == DictPart(f, w) + DataPart(f, w) + rest;
    HoldsInside(file, at, DictPart(f, w), DataPart(f, w), rest);
  }

  /** Lossless chunks within the reader's limits, and only those, come back. */
  lemma ChunkReads(f: Layout, c: ColumnDesc, w: Written, file: seq<bv8>, at: nat, width: int)
    requires HeaderLaw(f.k) && Encoded(w, c.ptype, c.typeLength) && Readable(c.ptype) && w.values != []
    requires Holds(file, at, ChunkBytes(f, c, w, at)) && at + |Pages(f, w)| < |file| <= MAX_FILE_SIZE
    ensures ChunkColumn(f.k, file, MetaOf(f, c, w, at), width, c.ptype) == Ok(w.values) <==>
            WithinLimits(w) && Lossless(w, c.ptype)
  {
    hide Lossless, Encoded, HeaderLaw, ChunkBytes, ChunkColumn, WithinLimits, MetaOf, Pages;
    if WithinLimits(w) {
      ChunkDecodes(f, c, w, file, at, width);
    } else {
      ChunkTooBig(f, c, w, file, at, width);
    }
  }

  lemma ChunkDecodes(f: Layout, c: ColumnDesc, w: Written, file: seq<bv8>, at: nat, width: int)
    requires HeaderLaw(f.k) && Encoded(w, c.ptype, c.typeLength) && Readable(c.ptype) && w.values != []
    requires Holds(file, at, ChunkBytes(f, c, w, at)) && at + |Pages(f, w)| < |file| && WithinLimits(w)
    ensures ChunkColumn(f.k, file, MetaOf(f, c, w, at), width, c.ptype) == Ok(w.values) <==> Lossless(w, c.ptype)
  {
    hide Lossless, Encoded, HeaderLaw, ChunkBytes, Crc, Strategy, ChunkStats, CountedPages, DecodePage,
      Dictionary.DecodePages;
    PagesHold(f, c, w, file, at);
    Int32Small(|w.page|);
    Int32Small(|w.values|);
    PageFound(f.k, file, at + |DictPart(f, w)|, DataHeaderOf(w), w.page);
    StrategyOf(w.enc, c.ptype);
    if IsDictionary(w.enc) {
      Int32Small(|w.dict|);
      PageFound(f.k, file, at, DictHeaderOf(w), w.dict);
      DictReads(w, c.ptype, c.typeLength);
    } else {
      EncodedAnyWidth(w, c.ptype, c.typeLength, width);
      PageReads(w, c.ptype, width);
      NotDecoded(Strategy([w.enc], c.ptype).1, c.ptype, width, w.page, |w.values|);
    }
  }

  /** The reader returns no more values than the header declares. */
  lemma DecodesAtMost(data: Encoding, t: PhysicalType, width: int, page: seq<bv8>, n: nat)
    requires Readable(t) && DecodePage(data, t, width, page, n, t).Ok?
    ensures |DecodePage(data, t, width, page, n, t).value| <= n
  {
    hide ReadMany, Rle.Decode, Delta.Decode, ByteStreamSplit.Unsplit, FixedWidth;
    if data == RLE && t == BOOLEAN && |page| >= 4 {
      var len := LeValue(page[..4]);
      Rle.DecodeAtMost(page[4..if len < |page| - 4 then 4 + len else |page|], 1, n);
    }
    if ReadMany(Start(t, page, n, width), t, n).Ok? {
      ManyCount(Start(t, page, n, width), t, n);
    }
  }

  /** A chunk beyond the limits never comes back. */
  lemma ChunkTooBig(f: Layout, c: ColumnDesc, w: Written, file: seq<bv8>, at: nat, width: int)
    requires HeaderLaw(f.k) && Encoded(w, c.ptype, c.typeLength) && Readable(c.ptype) && w.values != []
    requires Holds(file, at, ChunkBytes(f, c, w, at)) && at + |Pages(f, w)| < |file| <= MAX_FILE_SIZE
    requires !WithinLimits(w)
    ensures ChunkColumn(f.k, file, MetaOf(f, c, w, at), width, c.ptype) != Ok(w.values)
  {
    hide Encoded, HeaderLaw, ChunkBytes, Crc, Strategy, ChunkStats, CountedPages, DecodePage, PageAt, Int32,
      Dictionary.DecodePages, Rle.Decode;
    PagesHold(f, c, w, file, at);
    PageFits(f.k, file, at + |DictPart(f, w)|, DataHeaderOf(w), w.page);
    StrategyOf(w.enc, c.ptype);
    var n := Int32(|w.values|);
    Int32Small(|w.values|);
    if IsDictionary(w.enc) {
      PageFits(f.k, file, at, DictHeaderOf(w), w.dict);
      DictReads(w, c.ptype, c.typeLength);
      if n >= 0 && Int32(w.dictCount) >= 0 &&
         Dictionary.DecodePages(c.ptype, w.dict, Int32(w.dictCount), w.page, n).Ok? {
        Dictionary.PagesAtMost(c.ptype, w.dict, Int32(w.dictCount), w.page, n);
      }
    } else if n >= 0 && DecodePage(Strategy([w.enc], c.ptype).1, c.ptype, width, w.page, n, c.ptype).Ok? {
      DecodesAtMost(Strategy([w.enc], c.ptype).1, c.ptype, width, w.page, n);
    }
  }

  lemma NotDecoded(data: Encoding, t: PhysicalType, width: int, page: seq<bv8>, n: nat)
    requires Readable(t)
    ensures (data == DELTA_BINARY_PACKED && !IsInteger(t)) || (data == BYTE_STREAM_SPLIT && !IsFloat(t)) ==>
              DecodePage(data, t, width, page, n, t).Err?
  {
  }

  lemma StrategyOf(e: Encoding, t: PhysicalType)
    ensures IsDictionary(e) ==> Strategy(RecordedEncodings(e), t).0
    ensures !IsDictionary(e) ==> RecordedEncodings(e) == [e]
  {
    if IsDictionary(e) {
      assert [PLAIN, RLE_DICTIONARY][..1] == [PLAIN];
    }
  }

  lemma DictReads(w: Written, t: PhysicalType, width: int)
    requires Encoded(w, t, width) && IsDictionary(w.enc) && w.values != []
    ensures Dictionary.Indexable(t) && 0 <= Int32(w.dictCount) == w.dictCount <= MAX_DICTIONARY
    ensures Dictionary.DecodePages(t, w.dict, w.dictCount, w.page, |w.values|) == Ok(w.values) <==> Lossless(w, t)
  {
    hide Dictionary.Pages, Dictionary.Entries, Dictionary.DecodePages, Lossless;
    Int32Small(w.dictCount);
    DictionaryReads(w, t, width);
  }

  /** The declared length matters to fixed-length byte arrays only. */
  lemma EncodedAnyWidth(w: Written, t: PhysicalType, width: int, other: int)
    requires Encoded(w, t, width) && Readable(t) && !IsDictionary(w.enc)
    ensures Encoded(w, t, other)
  {
    hide Plain, AllStorable, Rle.Encodes, Delta.Encode, ByteStreamSplit.Split, Prefixed;
    PlainAnyWidth(w.values, t, width, other);
  }

  lemma {:induction false} PlainAnyWidth(vs: seq<Value>, t: PhysicalType, width: int, other: int)
    requires AllStorable(vs, t, width) && Readable(t)
    ensures AllStorable(vs, t, other) && Plain(vs, t, width) == Plain(vs, t, other)
    decreases |vs|
  {
    hide PlainOne;
    forall i | 0 <= i < |vs| ensures Storable(vs[i], t, other) {
      assert Storable(vs[i], t, width);
    }
    if t != BOOLEAN && vs != [] {
      PlainAnyWidth(vs[..|vs| - 1], t, width, other);
    }
  }

  // ----- columns as text, rows from columns -----

  type Text = seq<bv8>

  const TRUE_TEXT: Text := [0x74, 0x72, 0x75, 0x65]
  const FALSE_TEXT: Text := [0x66, 0x61, 0x6C, 0x73, 0x65]

  function Show(k: Codec, v: Value): Text {
    match v
    case Bool(b) => if b then TRUE_TEXT else FALSE_TEXT
    case Bytes(s) => s
    case _ => k.show(v)
  }

  function ShowAll(k: Codec, vs: seq<Value>): (ts: seq<Text>)
    ensures |ts| == |vs|
  {
    seq(|vs|, i requires 0 <= i < |vs| => Show(k, vs[i]))
  }

  function HexAll(vs: seq<Value>): (ts: seq<Text>)
    ensures |ts| == |vs|
  {
    seq(|vs|, i requires 0 <= i < |vs| => if vs[i].Bytes? then Hex(vs[i].s) else [])
  }

  /** Fixed-length byte arrays, read raw and spelled in hexadecimal. */
  function HexColumn(s: Source, g: nat, c: nat): Result<seq<Text>> {
    var m :- MetaAt(s.meta, s.schema, g, c);
    var page :- PageAt(s.k, s.file, m.dataPageOffset);
    var n :- CheckedCount(PageValues(page.header, m));
    var width := s.schema[c].typeLength;
    if n * ElementSize(m.ptype, width) > MAX_DECODED then Err(CORRUPT_DATA)
    else if n > 0 && m.ptype != BYTE_ARRAY && m.ptype != FIXED_LEN_BYTE_ARRAY then Err(UNSUPPORTED_TYPE)
    else
      var (vs, _) :- ReadMany(Start(m.ptype, page.data, n, width), m.ptype, n);
      Ok(HexAll(vs))
  }

  function TextsOf(s: Source, g: nat, c: nat): Result<seq<Text>> {
    if g >= |s.meta.rowGroups| || c >= |s.schema| then Err(OUT_OF_RANGE)
    else if Readable(s.schema[c].ptype) then
      var vs :- ColumnOf(s, g, c, s.schema[c].ptype);
      Ok(ShowAll(s.k, vs))
    else if s.schema[c].ptype == FIXED_LEN_BYTE_ARRAY then HexColumn(s, g, c)
    else Err(UNSUPPORTED_TYPE)
  }

  /** The first n columns of a row group as text. */
  function GroupTexts(s: Source, g: nat, n: nat): (r: Result<seq<seq<Text>>>)
    ensures r.Ok? ==> |r.value| == n
  {
    if n == 0 then Ok([])
    else
      var before :- GroupTexts(s, g, n - 1);
      var col :- TextsOf(s, g, n - 1);
      Ok(before + [col])
  }

  /** Row r of some columns; a column that is too short leaves an empty cell. */
  function RowOf(cols: seq<seq<Text>>, r: nat): (row: seq<Text>)
    ensures |row| == |cols|
  {
    seq(|cols|, c requires 0 <= c < |cols| => if r < |cols[c]| then cols[c][r] else [])
  }

  /** As many rows as the first column is long. */
  function RowsOf(cols: seq<seq<Text>>): (rows: seq<seq<Text>>)
    ensures |rows| == if cols == [] then 0 else |cols[0]|
  {
    if cols == [] then [] else seq(|cols[0]|, r requires 0 <= r < |cols[0]| => RowOf(cols, r))
  }

  /** The rows of the first n row groups, in order. */
  function RowsUpTo(s: Source, n: nat): Result<seq<seq<Text>>> {
    if n == 0 then Ok([])
    else
      var before :- RowsUpTo(s, n - 1);
      var cols :- GroupTexts(s, n - 1, |s.schema|);
      Ok(before + RowsOf(cols))
  }

  const MAX_ROWS: int := 1024 * 1024 * 1024

  function AllRows(s: Source): Result<seq<seq<Text>>> {
    if s.meta.numRows > MAX_ROWS then Err(INVALID_ARGUMENT) else RowsUpTo(s, |s.meta.rowGroups|)
  }

  /** The columns of one row group at some indices. */
  function Picked(s: Source, g: nat, indices: seq<nat>, n: nat): (r: Result<seq<seq<Text>>>)
    requires n <= |indices|
    ensures r.Ok? ==> |r.value| == n
  {
    if n == 0 then Ok([])
    else
      var before :- Picked(s, g, indices, n - 1);
      var col :- TextsOf(s, g, indices[n - 1]);
      Ok(before + [col])
  }

  function Extended(a: seq<seq<Text>>, b: seq<seq<Text>>): (r: seq<seq<Text>>)
    requires |a| == |b|
    ensures |r| == |a|
  {
    seq(|a|, i requires 0 <= i < |a| => a[i] + b[i])
  }

  /** Some columns over the first n row groups. */
  function ColumnsUpTo(s: Source, indices: seq<nat>, n: nat): (r: Result<seq<seq<Text>>>)
    ensures r.Ok? ==> |r.value| == |indices|
  {
    if n == 0 then Ok(seq(|indices|, _ => []))
    else
      var before :- ColumnsUpTo(s, indices, n - 1);
      var cols :- Picked(s, n - 1, indices, |indices|);
      Ok(Extended(before, cols))
  }

  /** The first column with a name. */
  function FindColumn(schema: seq<ColumnDesc>, name: seq<bv8>): (i: nat)
    ensures i <= |schema| && (i < |schema| ==> schema[i].name == name)
    ensures forall j :: 0 <= j < i ==> schema[j].name != name
  {
    if schema == [] then 0 else if schema[0].name == name then 0 else 1 + FindColumn(schema[1..], name)
  }

  function Indices(schema: seq<ColumnDesc>, names: seq<seq<bv8>>): Result<seq<nat>> {
    if names == [] then Ok([])
    else
      var before :- Indices(schema, names[..|names| - 1]);
      var i := FindColumn(schema, names[|names| - 1]);
      if i == |schema| then Err(SCHEMA_MISMATCH) else Ok(before + [i])
  }

  /** The first column with a name is at an index. */
  ghost predicate FirstNamed(schema: seq<ColumnDesc>, i: nat, name: seq<bv8>) {
    i < |schema| && schema[i].name == name && forall j :: 0 <= j < i ==> schema[j].name != name
  }

  ghost predicate Named(schema: seq<ColumnDesc>, name: seq<bv8>) {
    exists i :: 0 <= i < |schema| && schema[i].name == name
  }

  ghost predicate AllNamed(schema: seq<ColumnDesc>, names: seq<seq<bv8>>) {
    forall p :: 0 <= p < |names| ==> Named(schema, names[p])
  }

  /** Looking names up gives, for each of them in turn, the first column of that name, and fails exactly
      when one of them is missing. */
  lemma {:induction false} IndicesAre(schema: seq<ColumnDesc>, names: seq<seq<bv8>>)
    ensures Indices(schema, names).Ok? <==> AllNamed(schema, names)
    ensures Indices(schema, names).Err? ==> Indices(schema, names).error == SCHEMA_MISMATCH
    ensures Indices(schema, names).Ok? ==>
              var ix := Indices(schema, names).value;
              |ix| == |names| && forall p :: 0 <= p < |names| ==> FirstNamed(schema, ix[p], names[p])
    decreases |names|
  {
    hide FindColumn;
    if names != [] {
      var n := |names| - 1;
      IndicesAre(schema, names[..n]);
      var i := FindColumn(schema, names[n]);
      assert Named(schema, names[n]) <==> i < |schema|;
      assert AllNamed(schema, names) <==> AllNamed(schema, names[..n]) && Named(schema, names[n]);
    }
  }

  function NamedColumns(s: Source, names: seq<seq<bv8>>): Result<seq<seq<Text>>> {
    var indices :- Indices(s.schema, names);
    ColumnsUpTo(s, indices, |s.meta.rowGroups|)
  }

  // ----- the reader -----

  class ParquetReader {
    const k: Codec
    const file: seq<bv8>
    const meta: FileMeta
    const schema: seq<ColumnDesc>

    ghost function State(): Source { Source(k, file, meta, schema) }

    constructor (s: Source)
      ensures State() == s
    {
      k, file, meta, schema := s.k, s.file, s.meta, s.schema;
    }

    /** Checks bounds and checksum and gives the page. */
    method ReadPageAt(offset: int) returns (r: Result<Page>)
      ensures r == PageAt(k, file, offset)
    {
      hide Crc;
      if offset < 0 || offset >= |file| {
        return Err(CORRUPT_PAGE);
      }
      var parsed := k.parseHeader(file[offset..]);
      if parsed.None? {
        return Err(THRIFT_DECODE_ERROR);
      }
      var (h, size) := parsed.value;
      if h.compressed < 0 || size + h.compressed > |file| - offset {
        return Err(CORRUPT_PAGE);
      }
      var data := file[offset + size..offset + size + h.compressed];
      if h.crc.Some? {
        var crc := PageCrc32(data);
        if crc != h.crc.value {
          return Err(CORRUPT_PAGE);
        }
      }
      return Ok(Page(h, data, offset + size + h.compressed));
    }

    method ReadDictColumn(m: ColumnMeta, want: PhysicalType) returns (r: Result<seq<Value>>)
      requires Readable(want)
      ensures r == DictColumn(k, file, m, want)
    {
      hide PageAt, Dictionary.DecodePages;
      if want == BOOLEAN {
        return Err(UNSUPPORTED_ENCODING);
      }
      var at := if m.dictPageOffset.Some? then m.dictPageOffset.value else m.dataPageOffset;
      var dict :- ReadPageAt(at);
      if dict.header.kind != DICTIONARY_PAGE || dict.header.dict.None? {
        return Err(CORRUPT_PAGE);
      }
      var count := dict.header.dict.value.numValues;
      if count < 0 || count > MAX_DICTIONARY {
        return Err(CORRUPT_PAGE);
      }
      var data :- ReadPageAt(if m.dataPageOffset == at then dict.end else m.dataPageOffset);
      var n :- CheckedCount(PageValues(data.header, m));
      return Dictionary.DecodePages(want, dict.data, count, data.data, n);
    }

    /** PLAIN pages go through the column reader: booleans one by one, the rest in one batch. */
    method ReadPlain(t: PhysicalType, width: int, data: seq<bv8>, n: nat, want: PhysicalType)
      returns (r: Result<seq<Value>>)
      requires Readable(want) && |data| < PAGE_MAX && n <= MAX_VALUES_PER_PAGE
      ensures r == DecodePlain(t, width, data, n, want)
    {
      hide ReadOne, ReadMany;
      if n * ElementSize(t, width) > MAX_DECODED {
        return Err(CORRUPT_DATA);
      }
      var column := new ColumnReader(t, data, n, width);
      ghost var start := column.State();
      ManyStart(start, want);
      if want != BOOLEAN {
        r := column.ReadBatch(want, n);
        return;
      }
      var values: seq<Value> := [];
      while |values| < n
        invariant |values| <= n && column.Valid() && fresh(column)
        invariant t == want || values == []
        invariant ReadMany(start, want, |values|) == Ok((values, column.State()))
      {
        ManyCount(start, want, |values|);
        ManyStep(start, want, |values|);
        BooleanErrors(column.State());
        var v := column.Read(want);
        if v.Err? {
          if t == want && ReadMany(start, want, n).Ok? {
            ManyPrefix(start, want, n, |values| + 1);
          }
          return Err(v.error);
        }
        values := values + [v.value];
      }
      return Ok(values);
    }

    method ReadColumn(g: nat, c: nat, want: PhysicalType) returns (r: Result<seq<Value>>)
      requires Readable(want) && |file| <= MAX_FILE_SIZE
      ensures r == ColumnOf(State(), g, c, want)
    {
      hide PageAt, DictColumn, DecodeDelta, DecodeSplit, DecodeRleBools, DecodePlain, Strategy;
      var m :- MetaAt(meta, schema, g, c);
      var (dict, encoding) := Strategy(m.encodings, m.ptype);
      if dict {
        r := ReadDictColumn(m, want);
        return;
      }
      if (encoding == DELTA_BINARY_PACKED && !IsInteger(want)) || (encoding == BYTE_STREAM_SPLIT && !IsFloat(want)) ||
         (encoding == RLE && m.ptype == BOOLEAN && want != BOOLEAN) {
        return Err(UNSUPPORTED_ENCODING);
      }
      var page :- ReadPageAt(m.dataPageOffset);
      var n :- CheckedCount(PageValues(page.header, m));
      if encoding == DELTA_BINARY_PACKED {
        return DecodeDelta(page.data, n, want);
      } else if encoding == BYTE_STREAM_SPLIT {
        FloatWidth(want);
        r := ReadSplit(page.data, n, want);
      } else if encoding == RLE && m.ptype == BOOLEAN {
        var values := ReadRleBools(page.data, n);
        return Ok(values);
      } else {
        PageSmall(k, file, m.dataPageOffset);
        r := ReadPlain(m.ptype, schema[c].typeLength, page.data, n, want);
      }
    }

    method ReadSplit(data: seq<bv8>, n: nat, want: PhysicalType) returns (r: Result<seq<Value>>)
      requires FixedWidth(want) > 0
      ensures r == DecodeSplit(data, n, want)
    {
      hide ByteStreamSplit.Unsplit, Slices;
      var bytes := ByteStreamSplit.Decode(data, n, FixedWidth(want));
      if n * FixedWidth(want) > |data| {
        return Err(CORRUPT_PAGE);
      }
      return Ok(Slices(bytes, 0, want, n));
    }

    method ReadRleBools(data: seq<bv8>, n: nat) returns (values: seq<Value>)
      ensures values == DecodeRleBools(data, n)
    {
      hide Rle.Decode, LeValue;
      if |data| < 4 {
        return [];
      }
      var len := LeValue(data[..4]);
      var end := if len < |data| - 4 then 4 + len else |data|;
      var bits := Rle.DecodeValues(data[4..end], 1, n);
      return Bools(bits);
    }

    method ReadHexColumn(g: nat, c: nat) returns (r: Result<seq<Text>>)
      ensures r == HexColumn(State(), g, c)
    {
      hide PageAt, ReadOne, ReadMany, Hex;
      var m :- MetaAt(meta, schema, g, c);
      var page :- ReadPageAt(m.dataPageOffset);
      var n :- CheckedCount(PageValues(page.header, m));
      var width := schema[c].typeLength;
      if n * ElementSize(m.ptype, width) > MAX_DECODED {
        return Err(CORRUPT_DATA);
      }
      if n > 0 && m.ptype != BYTE_ARRAY && m.ptype != FIXED_LEN_BYTE_ARRAY {
        return Err(UNSUPPORTED_TYPE);
      }
      var column := new ColumnReader(m.ptype, page.data, n, width);
      ghost var start := column.State();
      ManyStart(start, m.ptype);
      ghost var values: seq<Value> := [];
      var texts: seq<Text> := [];
      while |texts| < n
        invariant |values| == |texts| <= n && column.Valid() && fresh(column)
        invariant ReadMany(start, m.ptype, |values|) == Ok((values, column.State())) && texts == HexAll(values)
      {
        ManyCount(start, m.ptype, |values|);
        ManyStep(start, m.ptype, |values|);
        var v := column.Read(m.ptype);
        if v.Err? {
          FirstError(start, m.ptype, n, |values|);
          return Err(v.error);
        }
        values := values + [v.value];
        texts := texts + [if v.value.Bytes? then Hex(v.value.s) else []];
      }
      return Ok(texts);
    }

    method ReadColumnAsStrings(g: nat, c: nat) returns (r: Result<seq<Text>>)
      requires |file| <= MAX_FILE_SIZE
      ensures r == TextsOf(State(), g, c)
    {
      hide ColumnOf, HexColumn, Show;
      if g >= |meta.rowGroups| || c >= |schema| {
        return Err(OUT_OF_RANGE);
      }
      if Readable(schema[c].ptype) {
        var values :- ReadColumn(g, c, schema[c].ptype);
        return Ok(ShowAll(k, values));
      }
      if schema[c].ptype == FIXED_LEN_BYTE_ARRAY {
        r := ReadHexColumn(g, c);
        return;
      }
      return Err(UNSUPPORTED_TYPE);
    }

    method ReadRowGroup(g: nat) returns (r: Result<seq<seq<Text>>>)
      requires |file| <= MAX_FILE_SIZE
      ensures r == GroupTexts(State(), g, |schema|)
    {
      hide TextsOf;
      var columns: seq<seq<Text>> := [];
      while |columns| < |schema|
        invariant |columns| <= |schema| && GroupTexts(State(), g, |columns|) == Ok(columns)
      {
        var col := ReadColumnAsStrings(g, |columns|);
        if col.Err? {
          GroupStops(State(), g, |schema|, |columns|);
          return Err(col.error);
        }
        columns := columns + [col.value];
      }
      return Ok(columns);
    }

    /** All rows of the file: each row group's columns are transposed and appended. */
    method ReadAll() returns (r: Result<seq<seq<Text>>>)
      requires |file| <= MAX_FILE_SIZE
      ensures r == AllRows(State())
    {
      hide GroupTexts;
      if meta.numRows > MAX_ROWS {
        return Err(INVALID_ARGUMENT);
      }
      var rows: seq<seq<Text>> := [];
      var g := 0;
      while g < |meta.rowGroups|
        invariant 0 <= g <= |meta.rowGroups| && RowsUpTo(State(), g) == Ok(rows)
      {
        var cols := ReadRowGroup(g);
        if cols.Err? {
          RowsStop(State(), |meta.rowGroups|, g);
          return Err(cols.error);
        }
        ghost var before := rows;
        if cols.value != [] {
          var i := 0;
          while i < |cols.value[0]|
            invariant 0 <= i <= |cols.value[0]| && rows == before + RowsOf(cols.value)[..i]
          {
            rows := rows + [RowOf(cols.value, i)];
            i := i + 1;
          }
          assert RowsOf(cols.value)[..i] == RowsOf(cols.value);
        }
        assert rows == before + RowsOf(cols.value);
        g := g + 1;
      }
      return Ok(rows);
    }

    method FindAll(names: seq<seq<bv8>>) returns (r: Result<seq<nat>>)
      ensures r == Indices(schema, names)
      ensures r.Ok? <==> AllNamed(schema, names)
      ensures r.Err? ==> r.error == SCHEMA_MISMATCH
      ensures r.Ok? ==>
                |r.value| == |names| && forall p :: 0 <= p < |names| ==> FirstNamed(schema, r.value[p], names[p])
    {
      hide FindColumn, FirstNamed, AllNamed;
      IndicesAre(schema, names);
      var indices: seq<nat> := [];
      while |indices| < |names|
        invariant |indices| <= |names| && Indices(schema, names[..|indices|]) == Ok(indices)
      {
        var i := FindColumn(schema, names[|indices|]);
        assert names[..|indices| + 1][..|indices|] == names[..|indices|];
        if i == |schema| {
          NamesStop(schema, names, |indices|);
          return Err(SCHEMA_MISMATCH);
        }
        indices := indices + [i];
      }
      assert names[..|names|] == names;
      return Ok(indices);
    }

    /** Some columns by name, each over all row groups. */
    method ReadColumns(names: seq<seq<bv8>>) returns (r: Result<seq<seq<Text>>>)
      requires |file| <= MAX_FILE_SIZE
      ensures r == NamedColumns(State(), names)
    {
      hide TextsOf, Indices;
      var indices :- FindAll(names);
      var result := seq(|indices|, _ => []);
      var g := 0;
      while g < |meta.rowGroups|
        invariant 0 <= g <= |meta.rowGroups| && ColumnsUpTo(State(), indices, g) == Ok(result)
      {
        var cols := ReadPicked(g, indices);
        if cols.Err? {
          ColumnsStop(State(), indices, |meta.rowGroups|, g);
          return Err(cols.error);
        }
        result := Extended(result, cols.value);
        g := g + 1;
      }
      return Ok(result);
    }

    method ReadPicked(g: nat, indices: seq<nat>) returns (r: Result<seq<seq<Text>>>)
      requires |file| <= MAX_FILE_SIZE
      ensures r == Picked(State(), g, indices, |indices|)
    {
      hide TextsOf;
      var cols: seq<seq<Text>> := [];
      while |cols| < |indices|
        invariant |cols| <= |indices| && Picked(State(), g, indices, |cols|) == Ok(cols)
      {
        var col := ReadColumnAsStrings(g, indices[|cols|]);
        if col.Err? {
          PickStops(State(), g, indices, |indices|, |cols|);
          return Err(col.error);
        }
        cols := cols + [col.value];
      }
      return Ok(cols);
    }
  }

  // ----- the first error ends a loop -----

  lemma {:induction false} FirstError(c: Cursor, want: PhysicalType, n: nat, m: nat)
    requires m < n && ReadMany(c, want, m + 1).Err?
    ensures ReadMany(c, want, n) == Err(ReadMany(c, want, m + 1).error)
    decreases n
  {
    hide ReadOne;
    if m + 1 < n {
      FirstError(c, want, n - 1, m);
    }
  }

  lemma {:induction false} GroupStops(s: Source, g: nat, n: nat, m: nat)
    requires m < n && GroupTexts(s, g, m + 1).Err?
    ensures GroupTexts(s, g, n) == Err(GroupTexts(s, g, m + 1).error)
    decreases n
  {
    hide TextsOf;
    if m + 1 < n {
      GroupStops(s, g, n - 1, m);
    }
  }

  lemma {:induction false} RowsStop(s: Source, n: nat, m: nat)
    requires m < n && RowsUpTo(s, m + 1).Err?
    ensures RowsUpTo(s, n) == Err(RowsUpTo(s, m + 1).error)
    decreases n
  {
    hide GroupTexts;
    if m + 1 < n {
      RowsStop(s, n - 1, m);
    }
  }

  lemma {:induction false} ColumnsStop(s: Source, indices: seq<nat>, n: nat, m: nat)
    requires m < n && ColumnsUpTo(s, indices, m + 1).Err?
    ensures ColumnsUpTo(s, indices, n) == Err(ColumnsUpTo(s, indices, m + 1).error)
    decreases n
  {
    hide Picked;
    if m + 1 < n {
      ColumnsStop(s, indices, n - 1, m);
    }
  }

  lemma {:induction false} PickStops(s: Source, g: nat, indices: seq<nat>, n: nat, m: nat)
    requires m < n <= |indices| && Picked(s, g, indices, m + 1).Err?
    ensures Picked(s, g, indices, n) == Err(Picked(s, g, indices, m + 1).error)
    decreases n
  {
    hide TextsOf;
    if m + 1 < n {
      PickStops(s, g, indices, n - 1, m);
    }
  }

  lemma {:induction false} NamesStop(schema: seq<ColumnDesc>, names: seq<seq<bv8>>, m: nat)
    requires m < |names| && Indices(schema, names[..m + 1]).Err?
    ensures Indices(schema, names) == Err(Indices(schema, names[..m + 1]).error)
    decreases |names|
  {
    hide FindColumn;
    if m + 1 < |names| {
      var init := names[..|names| - 1];
      assert init[..m + 1] == names[..m + 1];
      NamesStop(schema, init, m);
    } else {
      assert names[..m + 1] == names;
    }
  }

  lemma BooleanErrors(c: Cursor)
    ensures c.done < c.num && ReadOne(c, BOOLEAN).Err? ==>
              ReadOne(c, BOOLEAN).error == if c.t != BOOLEAN then UNSUPPORTED_TYPE else CORRUPT_PAGE
    ensures ReadOne(c, BOOLEAN).Ok? ==> c.t == BOOLEAN
  {
  }

  lemma PageSmall(k: Codec, file: seq<bv8>, offset: int)
    ensures PageAt(k, file, offset).Ok? ==> |PageAt(k, file, offset).value.data| <= |file|
  {
    hide Crc;
  }
}
