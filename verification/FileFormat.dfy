/** The layout of a file: pages with checksummed headers, column chunks with their bloom filter and
    page index, row groups, and the metadata that records where everything is. */
module FileFormat {
  import opened Bits
  import opened Crc32
  import opened Encodings
  import opened PlainCodec
  import opened Values
  import opened Words
  import Dictionary
  import PageIndex
  import Statistics

  const MAGIC: seq<bv8> := [0x50, 0x41, 0x52, 0x31]
  const MAGIC_ENCRYPTED: seq<bv8> := [0x50, 0x41, 0x52, 0x45]

  // ----- metadata -----

  datatype ColumnDesc = ColumnDesc(name: seq<bv8>, ptype: PhysicalType, typeLength: int)

  datatype PageKind = DATA_PAGE | INDEX_PAGE | DICTIONARY_PAGE | DATA_PAGE_V2

  datatype DataHeader = DataHeader(numValues: int, enc: Encoding)

  datatype PageHeader = PageHeader(kind: PageKind, uncompressed: int, compressed: int, crc: Option<bv32>,
                                   data: Option<DataHeader>, dict: Option<DataHeader>, v2Values: Option<int>)

  datatype ColumnMeta = ColumnMeta(ptype: PhysicalType, name: seq<bv8>, numValues: int, totalUncompressed: int,
                                   totalCompressed: int, dataPageOffset: int, dictPageOffset: Option<int>,
                                   encodings: seq<Encoding>, stats: Option<Statistics.Stats>)

  /** A stretch of the file. */
  datatype Extent = Extent(offset: int, size: int)

  datatype ColumnChunk = ColumnChunk(fileOffset: int, meta: Option<ColumnMeta>, bloom: Option<Extent>,
                                     columnIndex: Option<Extent>, offsetIndex: Option<Extent>)

  datatype RowGroup = RowGroup(numRows: int, totalByteSize: int, columns: seq<ColumnChunk>)

  /** A schema element: a group has children, a leaf a type. */
  datatype SchemaElement = SchemaElement(name: seq<bv8>, ptype: Option<PhysicalType>, typeLength: Option<int>,
                                         numChildren: Option<int>)

  datatype FileMeta = FileMeta(numRows: int, schema: seq<SchemaElement>, rowGroups: seq<RowGroup>)

  /** Writer options, for uncompressed and unencrypted files. */
  datatype Settings = Settings(rowGroupSize: int, defaultEncoding: Encoding, autoEncoding: bool,
                               columnEncodings: map<seq<bv8>, Encoding>, pageIndex: bool)

  /** The serialisers the file engine calls: Thrift structures, bloom filters, and the conversions
      between text and numbers. */
  datatype Codec = Codec(
    header: PageHeader -> seq<bv8>,
    parseHeader: seq<bv8> -> Option<(PageHeader, nat)>,
    footer: FileMeta -> seq<bv8>,
    parseFooter: seq<bv8> -> Result<FileMeta>,
    columnIndex: PageIndex.ColumnIndex -> seq<bv8>,
    offsetIndex: seq<PageIndex.PageLocation> -> seq<bv8>,
    bloom: (ColumnDesc, seq<bv8>) -> Option<seq<bv8>>,
    parse: (PhysicalType, seq<bv8>) -> Value,
    show: Value -> seq<bv8>)

  /** A page header decodes to itself and its length, whatever bytes follow. */
  ghost predicate HeaderLaw(k: Codec) {
    forall h: PageHeader, rest: seq<bv8> :: k.parseHeader(k.header(h) + rest) == Some((h, |k.header(h)|))
  }

  /** What a file is written with. */
  datatype Layout = Layout(k: Codec, cfg: Settings, schema: seq<ColumnDesc>)

  // ----- pages -----

  /** A size or count cut to a signed 32-bit header field. */
  function Int32(n: int): (i: int)
    ensures -TWO31 <= i < TWO31
  {
    (n + TWO31) % TWO32 - TWO31
  }

  lemma Int32Small(n: nat)
    ensures Int32(n) <= n && (Int32(n) == n <==> n < TWO31)
  {
  }

  function DataPageHeader(page: seq<bv8>, count: nat, enc: Encoding): PageHeader {
    PageHeader(DATA_PAGE, Int32(|page|), Int32(|page|), Some(Crc(page)),
               Some(DataHeader(Int32(count), enc)), None, None)
  }

  function DictPageHeader(page: seq<bv8>, count: nat): PageHeader {
    PageHeader(DICTIONARY_PAGE, Int32(|page|), Int32(|page|), Some(Crc(page)), None,
               Some(DataHeader(Int32(count), PLAIN_DICTIONARY)), None)
  }

  /** A page in the file: its header, then its bytes. */
  function PageBytes(k: Codec, h: PageHeader, page: seq<bv8>): seq<bv8> { k.header(h) + page }

  /** The encoding the data page header records. */
  function RecordedEncoding(enc: Encoding): Encoding { if IsDictionary(enc) then RLE_DICTIONARY else enc }

  function RecordedEncodings(enc: Encoding): seq<Encoding> {
    if IsDictionary(enc) then [PLAIN, RLE_DICTIONARY] else [enc]
  }

  // ----- a column chunk -----

  function DictHeaderOf(w: Written): PageHeader { DictPageHeader(w.dict, w.dictCount) }

  function DataHeaderOf(w: Written): PageHeader { DataPageHeader(w.page, |w.values|, RecordedEncoding(w.enc)) }

  function DictPart(f: Layout, w: Written): seq<bv8> {
    if IsDictionary(w.enc) then PageBytes(f.k, DictHeaderOf(w), w.dict) else []
  }

  function DataPart(f: Layout, w: Written): seq<bv8> { PageBytes(f.k, DataHeaderOf(w), w.page) }

  function Pages(f: Layout, w: Written): seq<bv8> { DictPart(f, w) + DataPart(f, w) }

  function BloomPart(f: Layout, c: ColumnDesc, w: Written): seq<bv8> {
    match f.k.bloom(c, w.plain)
    case None => []
    case Some(b) => LeBytes(|b| % TWO32) + b
  }

  /** The statistics the column writer tracked for the chunk. */
  function ChunkStats(w: Written): Statistics.Stats { Statistics.Feed(Statistics.Fresh(INT32), Items(w.values)) }

  /** The page index's single entry for the chunk; at is where the chunk starts. */
  function IndexEntry(f: Layout, w: Written, at: nat): PageIndex.PageInfo {
    PageIndex.PageOf(ChunkStats(w), |w.values|, at + |DictPart(f, w)|, |Pages(f, w)|)
  }

  function ColumnIndexPart(f: Layout, c: ColumnDesc, w: Written, at: nat): seq<bv8> {
    if f.cfg.pageIndex then f.k.columnIndex(PageIndex.IndexOf([IndexEntry(f, w, at)], c.ptype)) else []
  }

  function OffsetIndexPart(f: Layout, w: Written, at: nat): seq<bv8> {
    if f.cfg.pageIndex then f.k.offsetIndex(PageIndex.LocationsOf([IndexEntry(f, w, at)])) else []
  }

  /** Everything the writer emits for one column of one row group. */
  function ChunkBytes(f: Layout, c: ColumnDesc, w: Written, at: nat): seq<bv8> {
    Pages(f, w) + BloomPart(f, c, w) + ColumnIndexPart(f, c, w, at) + OffsetIndexPart(f, w, at)
  }

  /** The bytes the metadata counts for the pages: headers plus the header's own size fields. */
  function CountedPages(f: Layout, w: Written): int {
    (if IsDictionary(w.enc) then |f.k.header(DictHeaderOf(w))| + Int32(|w.dict|) else 0) +
    |f.k.header(DataHeaderOf(w))| + Int32(|w.page|)
  }

  function MetaOf(f: Layout, c: ColumnDesc, w: Written, at: nat): ColumnMeta {
    ColumnMeta(c.ptype, c.name, |w.values|, CountedPages(f, w), CountedPages(f, w), at + |DictPart(f, w)|,
               if IsDictionary(w.enc) then Some(at) else None, RecordedEncodings(w.enc),
               if ChunkStats(w).has then Some(ChunkStats(w)) else None)
  }

  /** The metadata recorded for a chunk that starts at the given offset. */
  function ChunkOf(f: Layout, c: ColumnDesc, w: Written, at: nat): ColumnChunk {
    var afterPages := at + |Pages(f, w)|;
    var afterBloom := afterPages + |BloomPart(f, c, w)|;
    var afterIndex := afterBloom + |ColumnIndexPart(f, c, w, at)|;
    ColumnChunk(at, Some(MetaOf(f, c, w, at)),
                if f.k.bloom(c, w.plain).Some? then Some(Extent(afterPages, |BloomPart(f, c, w)|)) else None,
                if f.cfg.pageIndex then Some(Extent(afterBloom, |ColumnIndexPart(f, c, w, at)|)) else None,
                if f.cfg.pageIndex then Some(Extent(afterIndex, |OffsetIndexPart(f, w, at)|)) else None)
  }

  /** What a chunk adds to its row group's total_byte_size. */
  function ChunkSize(f: Layout, c: ColumnDesc, w: Written, at: nat): int {
    |BloomPart(f, c, w)| + |ColumnIndexPart(f, c, w, at)| + |OffsetIndexPart(f, w, at)| + CountedPages(f, w)
  }

  // ----- row groups and the whole body -----

  function GroupBytes(f: Layout, ws: seq<Written>, at: nat): seq<bv8>
    requires |ws| <= |f.schema|
  {
    if ws == [] then []
    else
      var before := GroupBytes(f, ws[..|ws| - 1], at);
      before + ChunkBytes(f, f.schema[|ws| - 1], ws[|ws| - 1], at + |before|)
  }

  /** Where column c of a row group starting at the given offset begins. */
  function ChunkStart(f: Layout, ws: seq<Written>, at: nat, c: nat): nat
    requires c <= |ws| <= |f.schema|
  {
    at + |GroupBytes(f, ws[..c], at)|
  }

  function GroupChunks(f: Layout, ws: seq<Written>, at: nat): (cs: seq<ColumnChunk>)
    requires |ws| <= |f.schema|
    ensures |cs| == |ws|
  {
    if ws == [] then []
    else GroupChunks(f, ws[..|ws| - 1], at) +
         [ChunkOf(f, f.schema[|ws| - 1], ws[|ws| - 1], ChunkStart(f, ws, at, |ws| - 1))]
  }

  function GroupSize(f: Layout, ws: seq<Written>, at: nat): int
    requires |ws| <= |f.schema|
  {
    if ws == [] then 0
    else GroupSize(f, ws[..|ws| - 1], at) +
         ChunkSize(f, f.schema[|ws| - 1], ws[|ws| - 1], ChunkStart(f, ws, at, |ws| - 1))
  }

  function GroupRows(ws: seq<Written>): nat { if ws == [] then 0 else |ws[0].values| }

  function GroupOf(f: Layout, ws: seq<Written>, at: nat): RowGroup
    requires |ws| <= |f.schema|
  {
    RowGroup(GroupRows(ws), GroupSize(f, ws, at), GroupChunks(f, ws, at))
  }

  predicate Columns(f: Layout, hist: seq<seq<Written>>) {
    forall g :: 0 <= g < |hist| ==> |hist[g]| == |f.schema|
  }

  /** The file up to the footer: the opening magic, then the row groups. */
  function Body(f: Layout, hist: seq<seq<Written>>): (bytes: seq<bv8>)
    requires Columns(f, hist)
    ensures |bytes| >= 4
  {
    if hist == [] then MAGIC
    else
      var before := Body(f, hist[..|hist| - 1]);
      before + GroupBytes(f, hist[|hist| - 1], |before|)
  }

  function Groups(f: Layout, hist: seq<seq<Written>>): (gs: seq<RowGroup>)
    requires Columns(f, hist)
    ensures |gs| == |hist|
  {
    if hist == [] then []
    else Groups(f, hist[..|hist| - 1]) + [GroupOf(f, hist[|hist| - 1], |Body(f, hist[..|hist| - 1])|)]
  }

  function TotalRows(hist: seq<seq<Written>>): nat {
    if hist == [] then 0 else TotalRows(hist[..|hist| - 1]) + GroupRows(hist[|hist| - 1])
  }

  function TotalSize(gs: seq<RowGroup>): int {
    if gs == [] then 0 else TotalSize(gs[..|gs| - 1]) + gs[|gs| - 1].totalByteSize
  }

  function ElementOf(c: ColumnDesc): SchemaElement {
    var length := if c.ptype == FIXED_LEN_BYTE_ARRAY && c.typeLength > 0 then Some(c.typeLength) else None;
    SchemaElement(c.name, Some(c.ptype), length, None)
  }

  function Elements(schema: seq<ColumnDesc>): (es: seq<SchemaElement>)
    ensures |es| == |schema| + 1
  {
    [SchemaElement([], None, None, Some(|schema|))] +
    seq(|schema|, i requires 0 <= i < |schema| => ElementOf(schema[i]))
  }

  function MetaData(f: Layout, hist: seq<seq<Written>>): FileMeta
    requires Columns(f, hist)
  {
    FileMeta(TotalRows(hist), Elements(f.schema), Groups(f, hist))
  }

  /** A closed file: the body, the footer, its length and the closing magic. */
  function Whole(f: Layout, hist: seq<seq<Written>>): seq<bv8>
    requires Columns(f, hist)
  {
    var footer := f.k.footer(MetaData(f, hist));
    Body(f, hist) + footer + LeBytes(|footer| % TWO32) + MAGIC
  }

  // ----- byte accounting -----

  /** Page sizes that the 32-bit header fields can hold. The writer checks this for data pages, not for
      the two pages of a dictionary column. */
  predicate SmallPages(w: Written) { (IsDictionary(w.enc) ==> |w.dict| < TWO31) && |w.page| < TWO31 }

  predicate AllSmall(ws: seq<Written>) { forall i :: 0 <= i < |ws| ==> SmallPages(ws[i]) }

  predicate EverySmall(hist: seq<seq<Written>>) { forall g :: 0 <= g < |hist| ==> AllSmall(hist[g]) }

  /** The size fields count every byte of the pages exactly when they can hold the sizes; otherwise
      they count too few. */
  lemma CountedIs(f: Layout, w: Written)
    ensures CountedPages(f, w) <= |Pages(f, w)|
    ensures CountedPages(f, w) == |Pages(f, w)| <==> SmallPages(w)
  {
    hide Crc, Int32;
    Int32Small(|w.dict|);
    Int32Small(|w.page|);
  }

  lemma ChunkSizeIs(f: Layout, c: ColumnDesc, w: Written, at: nat)
    ensures ChunkSize(f, c, w, at) <= |ChunkBytes(f, c, w, at)|
    ensures ChunkSize(f, c, w, at) == |ChunkBytes(f, c, w, at)| <==> SmallPages(w)
  {
    hide Pages, CountedPages, BloomPart, ColumnIndexPart, OffsetIndexPart, SmallPages;
    CountedIs(f, w);
  }

  lemma {:induction false} GroupSizeIs(f: Layout, ws: seq<Written>, at: nat)
    requires |ws| <= |f.schema|
    ensures GroupSize(f, ws, at) <= |GroupBytes(f, ws, at)|
    ensures GroupSize(f, ws, at) == |GroupBytes(f, ws, at)| <==> AllSmall(ws)
    decreases |ws|
  {
    hide ChunkSize, ChunkBytes, SmallPages;
    if ws != [] {
      GroupSizeIs(f, ws[..|ws| - 1], at);
      ChunkSizeIs(f, f.schema[|ws| - 1], ws[|ws| - 1], ChunkStart(f, ws, at, |ws| - 1));
      assert AllSmall(ws) <==> AllSmall(ws[..|ws| - 1]) && SmallPages(ws[|ws| - 1]);
    }
  }

  /** The recorded row-group sizes account for every byte between the opening magic and the footer
      exactly when the size fields can hold every page. */
  lemma {:induction false} BodySize(f: Layout, hist: seq<seq<Written>>)
    requires Columns(f, hist)
    ensures 4 + TotalSize(Groups(f, hist)) <= |Body(f, hist)|
    ensures 4 + TotalSize(Groups(f, hist)) == |Body(f, hist)| <==> EverySmall(hist)
    decreases |hist|
  {
    hide GroupBytes, GroupSize, GroupChunks, AllSmall;
    if hist != [] {
      var init := hist[..|hist| - 1];
      BodySize(f, init);
      GroupSizeIs(f, hist[|hist| - 1], |Body(f, init)|);
      assert Groups(f, hist)[..|hist| - 1] == Groups(f, init);
      assert EverySmall(hist) <==> EverySmall(init) && AllSmall(hist[|hist| - 1]);
    }
  }

  /** One more row group moves the end of the file by the group's recorded size, exactly when the size
      fields can hold its pages. */
  lemma GroupAdvances(f: Layout, hist: seq<seq<Written>>, ws: seq<Written>)
    requires Columns(f, hist) && |ws| == |f.schema|
    ensures var size := Groups(f, hist + [ws])[|hist|].totalByteSize;
            && |Body(f, hist)| + size <= |Body(f, hist + [ws])|
            && (|Body(f, hist)| + size == |Body(f, hist + [ws])| <==> AllSmall(ws))
  {
    hide GroupBytes, GroupSize, GroupChunks, AllSmall;
    assert (hist + [ws])[..|hist|] == hist;
    GroupSizeIs(f, ws, |Body(f, hist)|);
  }

  // ----- tiling -----

  /** Consecutive stretches from one offset to another, none overlapping and none missing. */
  predicate Contiguous(es: seq<Extent>, from: int, to: int) {
    if es == [] then from == to
    else
      var last := es[|es| - 1];
      last.size >= 0 && last.offset + last.size == to && Contiguous(es[..|es| - 1], from, last.offset)
  }

  lemma {:induction false} ContiguousConcat(a: seq<Extent>, b: seq<Extent>, from: int, mid: int, to: int)
    requires Contiguous(a, from, mid) && Contiguous(b, mid, to)
    ensures Contiguous(a + b, from, to)
    decreases |b|
  {
    if b == [] {
      assert a + b == a;
    } else {
      assert (a + b)[..|a + b| - 1] == a + b[..|b| - 1];
      ContiguousConcat(a, b[..|b| - 1], from, mid, b[|b| - 1].offset);
    }
  }

  /** Contiguous stretches split in front of any one of them. */
  lemma {:induction false} ContiguousSplit(a: seq<Extent>, b: seq<Extent>, from: int, to: int)
    requires Contiguous(a + b, from, to) && b != []
    ensures Contiguous(a, from, b[0].offset) && Contiguous(b, b[0].offset, to)
    decreases |b|
  {
    assert (a + b)[..|a + b| - 1] == a + b[..|b| - 1];
    if |b| == 1 {
      assert a + b[..0] == a;
    } else {
      ContiguousSplit(a, b[..|b| - 1], from, b[|b| - 1].offset);
    }
  }

  function OptionalExtent(e: Option<Extent>): seq<Extent> { if e.Some? then [e.value] else [] }

  /** The stretches a chunk's metadata names: dictionary page, data page, bloom filter, both indexes. */
  function ChunkExtents(cc: ColumnChunk): seq<Extent>
    requires cc.meta.Some?
  {
    var m := cc.meta.value;
    (if m.dictPageOffset.None? then []
     else [Extent(m.dictPageOffset.value, m.dataPageOffset - m.dictPageOffset.value)]) +
    [Extent(m.dataPageOffset, cc.fileOffset + m.totalCompressed - m.dataPageOffset)] +
    OptionalExtent(cc.bloom) + OptionalExtent(cc.columnIndex) + OptionalExtent(cc.offsetIndex)
  }

  predicate HaveMeta(cs: seq<ColumnChunk>) { forall i :: 0 <= i < |cs| ==> cs[i].meta.Some? }

  function GroupExtents(cs: seq<ColumnChunk>): seq<Extent>
    requires HaveMeta(cs)
  {
    if cs == [] then [] else GroupExtents(cs[..|cs| - 1]) + ChunkExtents(cs[|cs| - 1])
  }

  function FileExtents(gs: seq<RowGroup>): seq<Extent>
    requires forall g :: 0 <= g < |gs| ==> HaveMeta(gs[g].columns)
  {
    if gs == [] then [] else FileExtents(gs[..|gs| - 1]) + GroupExtents(gs[|gs| - 1].columns)
  }

  lemma ContiguousPart(e: Option<Extent>, from: int, size: nat)
    requires e.Some? ==> e.value == Extent(from, size)
    requires e.None? ==> size == 0
    ensures Contiguous(OptionalExtent(e), from, from + size)
  {
  }

  lemma ContiguousOne(offset: int, size: nat)
    ensures Contiguous([Extent(offset, size)], offset, offset + size)
  {
    assert Contiguous([], offset, offset);
  }

  lemma ContiguousFive(a: seq<Extent>, b: seq<Extent>, c: seq<Extent>, d: seq<Extent>, e: seq<Extent>, p: seq<int>)
    requires |p| == 6 && Contiguous(a, p[0], p[1]) && Contiguous(b, p[1], p[2]) && Contiguous(c, p[2], p[3])
    requires Contiguous(d, p[3], p[4]) && Contiguous(e, p[4], p[5])
    ensures Contiguous(a + b + c + d + e, p[0], p[5])
  {
    hide Contiguous;
    ContiguousConcat(a, b, p[0], p[1], p[2]);
    ContiguousConcat(a + b, c, p[0], p[2], p[3]);
    ContiguousConcat(a + b + c, d, p[0], p[3], p[4]);
    ContiguousConcat(a + b + c + d, e, p[0], p[4], p[5]);
  }

  /** The stretches named for a chunk: its dictionary page, its data page and what is behind them. */
  function DictExtents(f: Layout, w: Written, at: nat): seq<Extent> {
    if IsDictionary(w.enc) then [Extent(at, |DictPart(f, w)|)] else []
  }

  function DataExtent(f: Layout, w: Written, at: nat): Extent {
    Extent(at + |DictPart(f, w)|, CountedPages(f, w) - |DictPart(f, w)|)
  }

  function RestExtents(cc: ColumnChunk): seq<Extent> {
    OptionalExtent(cc.bloom) + OptionalExtent(cc.columnIndex) + OptionalExtent(cc.offsetIndex)
  }

  lemma ExtentsAre(f: Layout, c: ColumnDesc, w: Written, at: nat)
    ensures var cc := ChunkOf(f, c, w, at);
            ChunkExtents(cc) == DictExtents(f, w, at) + ([DataExtent(f, w, at)] + RestExtents(cc))
  {
    hide CountedPages, DataPart, BloomPart, ColumnIndexPart, OffsetIndexPart, ChunkStats, DictHeaderOf;
  }

  lemma ChunkFirst(f: Layout, c: ColumnDesc, w: Written, at: nat)
    ensures ChunkExtents(ChunkOf(f, c, w, at)) != [] && ChunkExtents(ChunkOf(f, c, w, at))[0].offset == at
  {
    hide ChunkExtents, ChunkOf, CountedPages, RestExtents;
    ExtentsAre(f, c, w, at);
  }

  lemma OneEnds(e: Extent, to: int)
    requires Contiguous([e], e.offset, to)
    ensures e.offset + e.size == to
  {
  }

  lemma RestStarts(f: Layout, c: ColumnDesc, w: Written, at: nat)
    ensures var rest := RestExtents(ChunkOf(f, c, w, at));
            at + |Pages(f, w)| == if rest == [] then at + |ChunkBytes(f, c, w, at)| else rest[0].offset
  {
    hide Pages, MetaOf, IndexEntry;
  }

  /** A tiled chunk has all bytes of its pages counted: the stretch behind the data page, or the end of
      the chunk, starts where the pages end. */
  lemma TilesCounted(f: Layout, c: ColumnDesc, w: Written, at: nat)
    requires Contiguous(ChunkExtents(ChunkOf(f, c, w, at)), at, at + |ChunkBytes(f, c, w, at)|)
    ensures CountedPages(f, w) == |Pages(f, w)|
  {
    hide Contiguous, CountedPages, DictExtents, DictPart, Pages, ChunkOf, ChunkExtents, RestExtents, ChunkBytes;
    var to, data, rest := at + |ChunkBytes(f, c, w, at)|, DataExtent(f, w, at), RestExtents(ChunkOf(f, c, w, at));
    ExtentsAre(f, c, w, at);
    RestStarts(f, c, w, at);
    ContiguousSplit(DictExtents(f, w, at), [data] + rest, at, to);
    if rest == [] {
      assert [data] + rest == [data];
      OneEnds(data, to);
    } else {
      ContiguousSplit([data], rest, data.offset, to);
      OneEnds(data, rest[0].offset);
    }
  }

  lemma ExtraTiles(f: Layout, c: ColumnDesc, w: Written, at: nat)
    ensures var cc := ChunkOf(f, c, w, at);
            var from := at + |DictPart(f, w)| + |DataPart(f, w)|;
            var bloom, index := |BloomPart(f, c, w)|, |ColumnIndexPart(f, c, w, at)|;
            var locations := |OffsetIndexPart(f, w, at)|;
            && Contiguous(OptionalExtent(cc.bloom), from, from + bloom)
            && Contiguous(OptionalExtent(cc.columnIndex), from + bloom, from + bloom + index)
            && Contiguous(OptionalExtent(cc.offsetIndex), from + bloom + index, from + bloom + index + locations)
  {
    hide Contiguous, CountedPages, DictPart, DataPart, IndexEntry, ChunkStats, MetaOf;
    var cc := ChunkOf(f, c, w, at);
    var from := at + |DictPart(f, w)| + |DataPart(f, w)|;
    ContiguousPart(cc.bloom, from, |BloomPart(f, c, w)|);
    ContiguousPart(cc.columnIndex, from + |BloomPart(f, c, w)|, |ColumnIndexPart(f, c, w, at)|);
    ContiguousPart(cc.offsetIndex, from + |BloomPart(f, c, w)| + |ColumnIndexPart(f, c, w, at)|,
                   |OffsetIndexPart(f, w, at)|);
  }

  lemma DictTiles(f: Layout, w: Written, at: nat)
    ensures var dict := if IsDictionary(w.enc) then [Extent(at, |DictPart(f, w)|)] else [];
            Contiguous(dict, at, at + |DictPart(f, w)|)
  {
    if IsDictionary(w.enc) {
      ContiguousOne(at, |DictPart(f, w)|);
    }
  }

  lemma SmallTiles(f: Layout, c: ColumnDesc, w: Written, at: nat)
    requires SmallPages(w)
    ensures Contiguous(ChunkExtents(ChunkOf(f, c, w, at)), at, at + |ChunkBytes(f, c, w, at)|)
  {
    hide Contiguous, CountedPages, DictPart, DataPart, BloomPart, ColumnIndexPart, OffsetIndexPart, ChunkStats;
    var dict, data := |DictPart(f, w)|, |DataPart(f, w)|;
    var bloom, index, locations := |BloomPart(f, c, w)|, |ColumnIndexPart(f, c, w, at)|, |OffsetIndexPart(f, w, at)|;
    CountedIs(f, w);
    DictTiles(f, w, at);
    ContiguousOne(at + dict, data);
    ExtraTiles(f, c, w, at);
    var cc := ChunkOf(f, c, w, at);
    ContiguousFive(if IsDictionary(w.enc) then [Extent(at, dict)] else [], [Extent(at + dict, data)],
                   OptionalExtent(cc.bloom), OptionalExtent(cc.columnIndex), OptionalExtent(cc.offsetIndex),
                   [at, at + dict, at + dict + data, at + dict + data + bloom, at + dict + data + bloom + index,
                    at + dict + data + bloom + index + locations]);
  }

  /** The stretches named for a chunk tile it exactly when the size fields can hold its pages. */
  lemma ChunkTiles(f: Layout, c: ColumnDesc, w: Written, at: nat)
    ensures ChunkExtents(ChunkOf(f, c, w, at)) != [] && ChunkExtents(ChunkOf(f, c, w, at))[0].offset == at
    ensures Contiguous(ChunkExtents(ChunkOf(f, c, w, at)), at, at + |ChunkBytes(f, c, w, at)|) <==> SmallPages(w)
  {
    hide Contiguous, CountedPages, DictPart, DataPart, BloomPart, ColumnIndexPart, OffsetIndexPart, ChunkStats,
      SmallPages, ChunkBytes;
    CountedIs(f, w);
    ChunkFirst(f, c, w, at);
    if SmallPages(w) {
      SmallTiles(f, c, w, at);
    } else if Contiguous(ChunkExtents(ChunkOf(f, c, w, at)), at, at + |ChunkBytes(f, c, w, at)|) {
      TilesCounted(f, c, w, at);
    }
  }

  /** Two runs of stretches are contiguous together exactly when each is, up to where the second starts. */
  lemma ContiguousBoth(a: seq<Extent>, b: seq<Extent>, from: int, mid: int, to: int)
    requires if b == [] then mid == to else b[0].offset == mid
    ensures Contiguous(a + b, from, to) <==> Contiguous(a, from, mid) && Contiguous(b, mid, to)
  {
    if b == [] {
      assert a + b == a;
    } else {
      if Contiguous(a + b, from, to) {
        ContiguousSplit(a, b, from, to);
      }
      if Contiguous(a, from, mid) && Contiguous(b, mid, to) {
        ContiguousConcat(a, b, from, mid, to);
      }
    }
  }

  lemma GroupSnoc(f: Layout, ws: seq<Written>, at: nat)
    requires |ws| <= |f.schema| && ws != []
    ensures var n := |ws| - 1;
            var start := ChunkStart(f, ws, at, n);
            && GroupChunks(f, ws, at)[..n] == GroupChunks(f, ws[..n], at)
            && GroupChunks(f, ws, at)[n] == ChunkOf(f, f.schema[n], ws[n], start)
            && at + |GroupBytes(f, ws, at)| == start + |ChunkBytes(f, f.schema[n], ws[n], start)|
            && start == at + |GroupBytes(f, ws[..n], at)|
  {
    hide ChunkBytes, ChunkOf;
  }

  lemma GroupEmpty(f: Layout, at: nat)
    ensures GroupBytes(f, [], at) == [] && GroupSize(f, [], at) == 0 && GroupChunks(f, [], at) == []
    ensures Contiguous([], at, at)
  {
  }

  lemma ChunkHasMeta(f: Layout, c: ColumnDesc, w: Written, at: nat)
    ensures ChunkOf(f, c, w, at).meta.Some?
  {
    hide MetaOf;
  }

  lemma {:induction false} GroupTiles(f: Layout, ws: seq<Written>, at: nat)
    requires |ws| <= |f.schema|
    ensures HaveMeta(GroupChunks(f, ws, at))
    ensures var es := GroupExtents(GroupChunks(f, ws, at));
            && (Contiguous(es, at, at + |GroupBytes(f, ws, at)|) <==> AllSmall(ws))
            && if ws == [] then es == [] && GroupBytes(f, ws, at) == [] else es != [] && es[0].offset == at
    decreases |ws|
  {
    hide ChunkBytes, MetaOf, ChunkExtents, Contiguous, GroupBytes, GroupChunks, ChunkOf, SmallPages;
    GroupEmpty(f, at);
    if ws != [] {
      GroupSnoc(f, ws, at);
      var n := |ws| - 1;
      var cs, start := GroupChunks(f, ws, at), ChunkStart(f, ws, at, n);
      GroupTiles(f, ws[..n], at);
      ChunkHasMeta(f, f.schema[n], ws[n], start);
      ChunkTiles(f, f.schema[n], ws[n], start);
      ContiguousBoth(GroupExtents(cs[..n]), ChunkExtents(cs[n]), at, start,
                     start + |ChunkBytes(f, f.schema[n], ws[n], start)|);
      assert AllSmall(ws) <==> AllSmall(ws[..n]) && SmallPages(ws[n]);
    }
  }

  lemma NoGroups(f: Layout)
    ensures Groups(f, []) == [] && FileExtents([]) == [] && |Body(f, [])| == 4 && Contiguous([], 4, 4)
  {
  }

  lemma GroupsSnoc(f: Layout, hist: seq<seq<Written>>)
    requires Columns(f, hist) && hist != []
    ensures var n := |hist| - 1;
            && Groups(f, hist)[..n] == Groups(f, hist[..n])
            && Groups(f, hist)[n].columns == GroupChunks(f, hist[n], |Body(f, hist[..n])|)
  {
    hide GroupSize, GroupChunks, Body;
  }

  lemma BodySnoc(f: Layout, hist: seq<seq<Written>>)
    requires Columns(f, hist) && hist != []
    ensures var at := |Body(f, hist[..|hist| - 1])|;
            |Body(f, hist)| == at + |GroupBytes(f, hist[|hist| - 1], at)|
  {
    hide GroupBytes;
  }

  lemma FileExtentsSnoc(gs: seq<RowGroup>, init: seq<RowGroup>)
    requires gs != [] && init == gs[..|gs| - 1] && HaveMeta(gs[|gs| - 1].columns)
    requires forall g :: 0 <= g < |init| ==> HaveMeta(init[g].columns)
    ensures forall g :: 0 <= g < |gs| ==> HaveMeta(gs[g].columns)
    ensures FileExtents(gs) == FileExtents(init) + GroupExtents(gs[|gs| - 1].columns)
  {
    hide HaveMeta, GroupExtents;
    forall g | 0 <= g < |gs| ensures HaveMeta(gs[g].columns) {
      if g < |init| {
        assert init[g] == gs[g];
      }
    }
  }

  /** The recorded pages, bloom filters and indexes tile the bytes between the opening magic and the
      footer, with no gap and no overlap, exactly when the size fields can hold every page. */
  lemma {:induction false} FileTiles(f: Layout, hist: seq<seq<Written>>)
    requires Columns(f, hist)
    ensures forall g :: 0 <= g < |hist| ==> HaveMeta(Groups(f, hist)[g].columns)
    ensures Contiguous(FileExtents(Groups(f, hist)), 4, |Body(f, hist)|) <==> EverySmall(hist)
    decreases |hist|
  {
    hide Body, HaveMeta, FileExtents, GroupExtents, AllSmall, Contiguous, Groups, GroupBytes, GroupChunks;
    if hist == [] {
      NoGroups(f);
    } else {
      var n := |hist| - 1;
      var init, last := hist[..n], hist[n];
      var at, gs := |Body(f, init)|, Groups(f, hist);
      FileTiles(f, init);
      GroupTiles(f, last, at);
      GroupsSnoc(f, hist);
      BodySnoc(f, hist);
      FileExtentsSnoc(gs, Groups(f, init));
      ContiguousBoth(FileExtents(gs[..n]), GroupExtents(gs[n].columns), 4, at, |Body(f, hist)|);
      assert EverySmall(hist) <==> EverySmall(init) && AllSmall(last);
    }
  }

  // ----- where things are -----

  /** The offset of column c of row group g. */
  function ChunkAt(f: Layout, hist: seq<seq<Written>>, g: nat, c: nat): nat
    requires Columns(f, hist) && g < |hist| && c < |f.schema|
  {
    ChunkStart(f, hist[g], |Body(f, hist[..g])|, c)
  }

  /** A byte string that appears in the file at an offset. */
  ghost predicate Holds(file: seq<bv8>, at: nat, bytes: seq<bv8>) {
    at + |bytes| <= |file| && file[at..at + |bytes|] == bytes
  }

  lemma HoldsExtends(file: seq<bv8>, more: seq<bv8>, at: nat, bytes: seq<bv8>)
    requires Holds(file, at, bytes)
    ensures Holds(file + more, at, bytes)
  {
    assert (file + more)[at..at + |bytes|] == file[at..at + |bytes|];
  }

  lemma HoldsLast(file: seq<bv8>, bytes: seq<bv8>)
    ensures Holds(file + bytes, |file|, bytes)
  {
  }

  lemma HoldsInside(file: seq<bv8>, at: nat, a: seq<bv8>, b: seq<bv8>, c: seq<bv8>)
    requires Holds(file, at, a + b + c)
    ensures Holds(file, at + |a|, b)
  {
    var s := file[at..at + |a + b + c|];
    forall i | 0 <= i < |b| ensures file[at + |a| + i] == b[i] {
      assert s[|a| + i] == (a + b + c)[|a| + i];
    }
  }

  lemma {:induction false} GroupHolds(f: Layout, ws: seq<Written>, at: nat, c: nat)
    requires c < |ws| <= |f.schema|
    ensures var start := ChunkStart(f, ws, at, c);
            && GroupChunks(f, ws, at)[c] == ChunkOf(f, f.schema[c], ws[c], start)
            && Holds(GroupBytes(f, ws, at), start - at, ChunkBytes(f, f.schema[c], ws[c], start))
    decreases |ws|
  {
    hide ChunkBytes, ChunkOf, Holds;
    var n := |ws| - 1;
    var init := ws[..n];
    var before := GroupBytes(f, init, at);
    if c < n {
      GroupHolds(f, init, at, c);
      assert init[..c] == ws[..c];
      HoldsExtends(before, ChunkBytes(f, f.schema[n], ws[n], at + |before|), ChunkStart(f, ws, at, c) - at,
                   ChunkBytes(f, f.schema[c], ws[c], ChunkStart(f, ws, at, c)));
    } else {
      HoldsLast(before, ChunkBytes(f, f.schema[n], ws[n], at + |before|));
    }
  }

  /** Column c of row group g lies where its metadata says. */
  lemma {:induction false} BodyHolds(f: Layout, hist: seq<seq<Written>>, g: nat, c: nat)
    requires Columns(f, hist) && g < |hist| && c < |f.schema|
    ensures Groups(f, hist)[g].columns == GroupChunks(f, hist[g], |Body(f, hist[..g])|)
    ensures Groups(f, hist)[g].numRows == GroupRows(hist[g])
    ensures Groups(f, hist)[g].columns[c] == ChunkOf(f, f.schema[c], hist[g][c], ChunkAt(f, hist, g, c))
    ensures Holds(Body(f, hist), ChunkAt(f, hist, g, c), ChunkBytes(f, f.schema[c], hist[g][c], ChunkAt(f, hist, g, c)))
    decreases |hist|
  {
    hide ChunkBytes, ChunkOf, Holds, GroupBytes, GroupChunks, GroupSize, ChunkStart;
    var n := |hist| - 1;
    var init := hist[..n];
    var before := Body(f, init);
    var bytes := ChunkBytes(f, f.schema[c], hist[g][c], ChunkAt(f, hist, g, c));
    if g < n {
      BodyHolds(f, init, g, c);
      assert init[..g] == hist[..g];
      HoldsExtends(before, GroupBytes(f, hist[n], |before|), ChunkAt(f, hist, g, c), bytes);
    } else {
      GroupHolds(f, hist[n], |before|, c);
      StartAfter(f, hist[n], |before|, c);
      HoldsShift(before, GroupBytes(f, hist[n], |before|), ChunkAt(f, hist, g, c), bytes);
    }
  }

  lemma StartAfter(f: Layout, ws: seq<Written>, at: nat, c: nat)
    requires c <= |ws| <= |f.schema|
    ensures ChunkStart(f, ws, at, c) >= at
  {
  }

  lemma HoldsShift(before: seq<bv8>, group: seq<bv8>, at: nat, bytes: seq<bv8>)
    requires at >= |before| && Holds(group, at - |before|, bytes)
    ensures Holds(before + group, at, bytes)
  {
    assert (before + group)[at..at + |bytes|] == group[at - |before|..at - |before| + |bytes|];
  }
}
