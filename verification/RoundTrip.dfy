/** The whole-file theorems: what a closed file contains is what the reader finds in it. */
module RoundTrip {
  import opened Bits
  import opened Crc32
  import opened Encodings
  import opened FileFormat
  import opened FileReader
  import opened PlainCodec
  import opened Values
  import opened Words
  import Dictionary

  /** Every recorded chunk has values and is their encoding under its column. */
  ghost predicate Faithful(f: Layout, hist: seq<seq<Written>>) {
    Columns(f, hist) &&
    forall g, c :: 0 <= g < |hist| && 0 <= c < |f.schema| ==>
      EncodesColumn(hist[g][c], f.schema[c])
  }

  ghost predicate EncodesColumn(w: Written, c: ColumnDesc) {
    w.values != [] && Encoded(w, c.ptype, c.typeLength)
  }

  lemma FaithfulAt(f: Layout, hist: seq<seq<Written>>, g: nat, c: nat)
    requires Faithful(f, hist) && g < |hist| && c < |f.schema|
    ensures Columns(f, hist) && hist[g][c].values != []
    ensures Encoded(hist[g][c], f.schema[c].ptype, f.schema[c].typeLength)
  {
    hide Encoded;
    assert EncodesColumn(hist[g][c], f.schema[c]);
  }

  /** The footer decodes to itself. */
  ghost predicate FooterLaw(k: Codec, m: FileMeta) { k.parseFooter(k.footer(m)) == Ok(m) && k.footer(m) != [] }

  /** The schema as the reader rebuilds it: a length survives for fixed-length byte arrays only. */
  function ReadBack(c: ColumnDesc): ColumnDesc { DescOf(ElementOf(c)) }

  lemma {:induction false} LeavesReturn(es: seq<SchemaElement>, schema: seq<ColumnDesc>)
    requires |es| == |schema| && forall i :: 0 <= i < |es| ==> es[i] == ElementOf(schema[i])
    ensures |Leaves(es)| == |schema| && forall i :: 0 <= i < |schema| ==> Leaves(es)[i] == ReadBack(schema[i])
    decreases |es|
  {
    if es != [] {
      LeavesReturn(es[..|es| - 1], schema[..|schema| - 1]);
    }
  }

  lemma SchemaReturns(schema: seq<ColumnDesc>)
    ensures var back := SchemaOf(Elements(schema));
            |back| == |schema| && forall i :: 0 <= i < |schema| ==>
              back[i] == ReadBack(schema[i]) && back[i].name == schema[i].name && back[i].ptype == schema[i].ptype &&
              (schema[i].ptype == FIXED_LEN_BYTE_ARRAY && schema[i].typeLength > 0 ==> back[i] == schema[i])
  {
    LeavesReturn(Elements(schema)[1..], schema);
  }

  /** What opening a closed file gives. */
  function Opened(f: Layout, hist: seq<seq<Written>>): Source
    requires Columns(f, hist)
  {
    Source(f.k, Whole(f, hist), MetaData(f, hist), SchemaOf(Elements(f.schema)))
  }

  /** A closed file opens, and its metadata is what the writer recorded. */
  lemma Opens(f: Layout, hist: seq<seq<Written>>)
    requires Columns(f, hist) && FooterLaw(f.k, MetaData(f, hist)) && |Whole(f, hist)| <= MAX_FILE_SIZE
    ensures Open(f.k, Whole(f, hist)) == Ok(Opened(f, hist))
  {
    hide Body, Groups, TotalRows, LeBytes, LeValue, SchemaOf, Elements;
    var file := Whole(f, hist);
    var footer := f.k.footer(MetaData(f, hist));
    BodyStarts(f, hist);
    LeBytesRoundTrip(|footer|);
    Tail(Body(f, hist), footer, LeBytes(|footer|), MAGIC);
  }

  lemma Tail(body: seq<bv8>, footer: seq<bv8>, len: seq<bv8>, magic: seq<bv8>)
    requires |len| == |magic| == 4 && |body| >= 4
    ensures var file := body + footer + len + magic; var n := |file|;
            && file[..4] == body[..4] && file[n - 4..] == magic && file[n - 8..n - 4] == len
            && file[n - 8 - |footer|..n - 8] == footer
  {
  }

  lemma {:induction false} BodyStarts(f: Layout, hist: seq<seq<Written>>)
    requires Columns(f, hist)
    ensures Body(f, hist)[..4] == MAGIC
    decreases |hist|
  {
    hide GroupBytes;
    if hist != [] {
      BodyStarts(f, hist[..|hist| - 1]);
    }
  }

  /** Where a chunk of a closed file is, and that bytes follow it. */
  lemma WholeHolds(f: Layout, hist: seq<seq<Written>>, g: nat, c: nat)
    requires Columns(f, hist) && g < |hist| && c < |f.schema|
    ensures var at := ChunkAt(f, hist, g, c); var w := hist[g][c];
            && Holds(Whole(f, hist), at, ChunkBytes(f, f.schema[c], w, at))
            && at + |Pages(f, w)| < |Whole(f, hist)|
  {
    hide Body, ChunkBytes, MetaData, ChunkAt, LeBytes, ChunkOf, Pages;
    BodyHolds(f, hist, g, c);
    var at := ChunkAt(f, hist, g, c);
    var footer := f.k.footer(MetaData(f, hist));
    var rest := footer + LeBytes(|footer| % TWO32) + MAGIC;
    assert Whole(f, hist) == Body(f, hist) + rest;
    HoldsExtends(Body(f, hist), rest, at, ChunkBytes(f, f.schema[c], hist[g][c], at));
    PagesInside(f, f.schema[c], hist[g][c], at);
  }

  lemma PagesInside(f: Layout, c: ColumnDesc, w: Written, at: nat)
    ensures |Pages(f, w)| <= |ChunkBytes(f, c, w, at)|
  {
    hide Pages;
  }

  /** Reading a column of an opened file, whatever its bytes now are, follows the recorded metadata. */
  lemma ColumnIs(f: Layout, hist: seq<seq<Written>>, g: nat, c: nat, file: seq<bv8>, want: PhysicalType)
    returns (width: int)
    requires Columns(f, hist) && g < |hist| && c < |f.schema| && Readable(want)
    ensures ColumnOf(Opened(f, hist).(file := file), g, c, want) ==
            ChunkColumn(f.k, file, MetaOf(f, f.schema[c], hist[g][c], ChunkAt(f, hist, g, c)), width, want)
  {
    hide Whole, ChunkColumn, SchemaOf, Elements, GroupChunks, MetaOf, Holds, Pages, ChunkBytes;
    SchemaReturns(f.schema);
    BodyHolds(f, hist, g, c);
    width := Opened(f, hist).schema[c].typeLength;
  }

  /** Whole-file round trip, chunk by chunk: reading column c of row group g of a closed file gives
      exactly the values written to it if and only if its sizes are within the reader's limits and the
      chosen encoding is lossless for them. */
  lemma ColumnReturns(f: Layout, hist: seq<seq<Written>>, g: nat, c: nat)
    requires Faithful(f, hist) && HeaderLaw(f.k) && g < |hist| && c < |f.schema|
    requires Readable(f.schema[c].ptype) && |Whole(f, hist)| <= MAX_FILE_SIZE
    ensures ColumnOf(Opened(f, hist), g, c, f.schema[c].ptype) == Ok(hist[g][c].values) <==>
            WithinLimits(hist[g][c]) && Lossless(hist[g][c], f.schema[c].ptype)
  {
    hide Whole, HeaderLaw, Lossless, Encoded, WithinLimits, ChunkColumn, ColumnOf, SchemaOf, Elements, MetaOf, Holds,
      Pages, ChunkBytes, ChunkAt;
    WholeHolds(f, hist, g, c);
    var width := ColumnIs(f, hist, g, c, Whole(f, hist), f.schema[c].ptype);
    ChunkReads(f, f.schema[c], hist[g][c], Whole(f, hist), ChunkAt(f, hist, g, c), width);
  }

  // ----- fixed-length columns as hexadecimal text -----

  lemma MetaIs(f: Layout, hist: seq<seq<Written>>, g: nat, c: nat)
    requires Columns(f, hist) && g < |hist| && c < |f.schema|
    ensures var s := Opened(f, hist);
            && MetaAt(s.meta, s.schema, g, c) == Ok(MetaOf(f, f.schema[c], hist[g][c], ChunkAt(f, hist, g, c)))
            && c < |s.schema| && s.schema[c] == ReadBack(f.schema[c])
  {
    hide Whole, SchemaOf, Elements, GroupChunks, MetaOf, Holds, ChunkBytes, ReadBack;
    SchemaReturns(f.schema);
    BodyHolds(f, hist, g, c);
  }

  /** Fixed-length values are stored in PLAIN form under every encoding that is not a dictionary. */
  lemma FixedStored(w: Written, width: int)
    requires Encoded(w, FIXED_LEN_BYTE_ARRAY, width)
    ensures !IsDictionary(w.enc) && AllStorable(w.values, FIXED_LEN_BYTE_ARRAY, width)
    ensures w.page == Plain(w.values, FIXED_LEN_BYTE_ARRAY, width)
  {
    hide Plain, AllStorable;
  }

  /** The data page of a chunk without a dictionary, as the reader finds it. */
  lemma HexPage(f: Layout, c: ColumnDesc, w: Written, file: seq<bv8>, at: nat)
    requires HeaderLaw(f.k) && !IsDictionary(w.enc) && Holds(file, at, ChunkBytes(f, c, w, at))
    requires at + |Pages(f, w)| < |file| <= MAX_FILE_SIZE
    ensures var m := MetaOf(f, c, w, at);
            && m.ptype == c.ptype
            && if |w.page| >= TWO31 then PageAt(f.k, file, m.dataPageOffset) == Err(CORRUPT_PAGE)
               else PageAt(f.k, file, m.dataPageOffset).Ok? &&
                    var page := PageAt(f.k, file, m.dataPageOffset).value;
                    page.data == w.page && PageValues(page.header, m) == Int32(|w.values|)
  {
    hide HeaderLaw, ChunkBytes, Crc, ChunkStats, CountedPages, PageAt, Int32;
    PagesHold(f, c, w, file, at);
    PageFits(f.k, file, at + |DictPart(f, w)|, DataHeaderOf(w), w.page);
  }

  /** Reading a column of fixed-length byte arrays as text gives their hexadecimal spelling if and only if
      the chunk is within the reader's limits, its decoded size included. */
  lemma HexReturns(f: Layout, hist: seq<seq<Written>>, g: nat, c: nat)
    requires Faithful(f, hist) && HeaderLaw(f.k) && g < |hist| && c < |f.schema| && |Whole(f, hist)| <= MAX_FILE_SIZE
    requires f.schema[c].ptype == FIXED_LEN_BYTE_ARRAY && f.schema[c].typeLength > 0
    ensures HexColumn(Opened(f, hist), g, c) == Ok(HexAll(hist[g][c].values)) <==>
            WithinLimits(hist[g][c]) && |hist[g][c].values| * f.schema[c].typeLength <= MAX_DECODED
  {
    hide Whole, HeaderLaw, Encoded, Holds, ChunkBytes, ChunkAt, Crc, Plain, AllStorable, ReadMany, PageAt, Int32,
      Faithful, MetaOf, Pages, HexAll, SchemaOf, Elements, MetaData, MetaAt;
    FaithfulAt(f, hist, g, c);
    var w, d, at, file := hist[g][c], f.schema[c], ChunkAt(f, hist, g, c), Whole(f, hist);
    MetaIs(f, hist, g, c);
    FixedStored(w, d.typeLength);
    WholeHolds(f, hist, g, c);
    HexPage(f, d, w, file, at);
    Int32Small(|w.values|);
    var n := Int32(|w.values|);
    if |w.page| < TWO31 && 0 <= n <= MAX_VALUES_PER_PAGE {
      if n == |w.values| {
        ReadPlain(w.values, d.ptype, d.typeLength, w.page, n);
      } else if ReadMany(Start(d.ptype, w.page, n, d.typeLength), d.ptype, n).Ok? {
        ManyCount(Start(d.ptype, w.page, n, d.typeLength), d.ptype, n);
      }
    }
  }

  // ----- byte accounting of a closed file -----

  /** The opening magic, the recorded row groups, the footer, its length and the closing magic are the
      whole file exactly when the size fields can hold every page. */
  lemma WholeSize(f: Layout, hist: seq<seq<Written>>)
    requires Columns(f, hist)
    ensures 4 + TotalSize(Groups(f, hist)) + |f.k.footer(MetaData(f, hist))| + 8 <= |Whole(f, hist)|
    ensures 4 + TotalSize(Groups(f, hist)) + |f.k.footer(MetaData(f, hist))| + 8 == |Whole(f, hist)| <==>
            EverySmall(hist)
  {
    hide Body, Groups, LeBytes, TotalSize, EverySmall;
    BodySize(f, hist);
  }

  // ----- damage -----

  /** Where the bytes of a page are: the data page, or the dictionary page in front of it. */
  function PageStart(f: Layout, hist: seq<seq<Written>>, g: nat, c: nat, dict: bool): nat
    requires Columns(f, hist) && g < |hist| && c < |f.schema|
  {
    var at, w := ChunkAt(f, hist, g, c), hist[g][c];
    if dict then at + |f.k.header(DictHeaderOf(w))| else at + |DictPart(f, w)| + |f.k.header(DataHeaderOf(w))|
  }

  function PageOfChunk(w: Written, dict: bool): seq<bv8> { if dict then w.dict else w.page }

  /** A file that differs from a closed one only inside 32 consecutive bits of one page. */
  ghost predicate DamagedPage(f: Layout, hist: seq<seq<Written>>, g: nat, c: nat, dict: bool, file: seq<bv8>,
          start: nat, width: nat)
    requires Columns(f, hist) && g < |hist| && c < |f.schema|
  {
    var from, page, whole := PageStart(f, hist, g, c, dict), PageOfChunk(hist[g][c], dict), Whole(f, hist);
    && (dict ==> IsDictionary(hist[g][c].enc))
    && |file| == |whole| && from + |page| <= |whole|
    && file[..from] == whole[..from] && file[from + |page|..] == whole[from + |page|..]
    && Damage(page, file[from..from + |page|], start, width)
  }

  lemma HoldsBefore(file: seq<bv8>, whole: seq<bv8>, at: nat, bytes: seq<bv8>, from: nat)
    requires Holds(whole, at, bytes) && at + |bytes| <= from <= |whole| == |file| && file[..from] == whole[..from]
    ensures Holds(file, at, bytes)
  {
    forall i | 0 <= i < |bytes| ensures file[at + i] == bytes[i] {
      assert file[at + i] == file[..from][at + i] == whole[..from][at + i] == whole[at..at + |bytes|][i];
    }
  }

  lemma HoldsDamaged(file: seq<bv8>, whole: seq<bv8>, at: nat, header: seq<bv8>, page: seq<bv8>)
    requires Holds(whole, at, header + page) && |file| == |whole|
    requires file[..at + |header|] == whole[..at + |header|]
    ensures at + |header| + |page| <= |file|
    ensures Holds(file, at, header + file[at + |header|..at + |header| + |page|])
  {
    HoldsInside(whole, at, [], header, page) by { assert [] + header + page == header + page; }
    HoldsBefore(file, whole, at, header, at + |header|);
    var n := at + |header| + |page|;
    assert file[at..n] == file[at..at + |header|] + file[at + |header|..n];
  }

  /** What the reader makes of an undamaged dictionary page. */
  function DictFound(f: Layout, w: Written, at: nat): Result<Page> {
    if |w.dict| < TWO31 then Ok(Page(DictHeaderOf(w), w.dict, at + |DictPart(f, w)|)) else Err(CORRUPT_PAGE)
  }

  /** The damaged page is refused; a dictionary page in front of it is found as before. */
  lemma DamagedPageFails(f: Layout, hist: seq<seq<Written>>, g: nat, c: nat, dict: bool, file: seq<bv8>, start: nat,
          width: nat)
    requires HeaderLaw(f.k) && Columns(f, hist) && g < |hist| && c < |f.schema| && |Whole(f, hist)| <= MAX_FILE_SIZE
    requires DamagedPage(f, hist, g, c, dict, file, start, width)
    ensures var at, w := ChunkAt(f, hist, g, c), hist[g][c];
            if dict then PageAt(f.k, file, at) == Err(CORRUPT_PAGE)
            else PageAt(f.k, file, at + |DictPart(f, w)|) == Err(CORRUPT_PAGE) &&
                 (IsDictionary(w.enc) ==> PageAt(f.k, file, at) == DictFound(f, w, at))
  {
    hide Whole, HeaderLaw, Holds, ChunkBytes, Damage, Crc, ChunkAt, PageAt;
    var w, at, whole := hist[g][c], ChunkAt(f, hist, g, c), Whole(f, hist);
    WholeHolds(f, hist, g, c);
    PagesHold(f, f.schema[c], w, whole, at);
    var from := PageStart(f, hist, g, c, dict);
    if dict {
      HoldsDamaged(file, whole, at, f.k.header(DictHeaderOf(w)), w.dict);
      PageRejected(f.k, file, at, DictHeaderOf(w), w.dict, file[from..from + |w.dict|], start, width);
    } else {
      HoldsDamaged(file, whole, at + |DictPart(f, w)|, f.k.header(DataHeaderOf(w)), w.page);
      var damaged := file[from..from + |w.page|];
      PageRejected(f.k, file, at + |DictPart(f, w)|, DataHeaderOf(w), w.page, damaged, start, width);
      if IsDictionary(w.enc) {
        HoldsBefore(file, whole, at, DictPart(f, w), from);
        PageFits(f.k, file, at, DictHeaderOf(w), w.dict);
      }
    }
  }

  lemma ChunkRejected(f: Layout, c: ColumnDesc, w: Written, file: seq<bv8>, at: nat, width: int, dict: bool)
    requires Encoded(w, c.ptype, c.typeLength) && Readable(c.ptype) && (dict ==> IsDictionary(w.enc))
    requires if dict then PageAt(f.k, file, at) == Err(CORRUPT_PAGE)
             else PageAt(f.k, file, at + |DictPart(f, w)|) == Err(CORRUPT_PAGE) &&
                  (IsDictionary(w.enc) ==> PageAt(f.k, file, at) == DictFound(f, w, at))
    ensures var r := ChunkColumn(f.k, file, MetaOf(f, c, w, at), width, c.ptype);
            r == Err(CORRUPT_PAGE) || r == Err(UNSUPPORTED_ENCODING)
  {
    hide PageAt, Encoded, DictPart, CountedPages, ChunkStats, Strategy, Crc, DecodePage;
    StrategyOf(w.enc, c.ptype);
    StrategyOne(w.enc, c.ptype);
    if IsDictionary(w.enc) {
      DictCountSmall(w, c.ptype, c.typeLength);
    }
  }

  /** The reader rejects every file in which one page is damaged inside 32 consecutive bits. */
  lemma DamageRejected(f: Layout, hist: seq<seq<Written>>, g: nat, c: nat, dict: bool, file: seq<bv8>, start: nat,
          width: nat)
    requires Faithful(f, hist) && HeaderLaw(f.k) && g < |hist| && c < |f.schema|
    requires Readable(f.schema[c].ptype) && |Whole(f, hist)| <= MAX_FILE_SIZE
    requires DamagedPage(f, hist, g, c, dict, file, start, width)
    ensures var r := ColumnOf(Opened(f, hist).(file := file), g, c, f.schema[c].ptype);
            r == Err(CORRUPT_PAGE) || r == Err(UNSUPPORTED_ENCODING)
  {
    hide Whole, HeaderLaw, Encoded, SchemaOf, Elements, MetaOf, PageAt, ChunkColumn, ColumnOf, ChunkAt,
      DamagedPage, Faithful, Opened, DictPart, DictHeaderOf;
    FaithfulAt(f, hist, g, c);
    assert dict ==> IsDictionary(hist[g][c].enc) by { DamagedKind(f, hist, g, c, dict, file, start, width); }
    DamagedPageFails(f, hist, g, c, dict, file, start, width);
    var rebuilt := ColumnIs(f, hist, g, c, file, f.schema[c].ptype);
    ChunkRejected(f, f.schema[c], hist[g][c], file, ChunkAt(f, hist, g, c), rebuilt, dict);
  }

  lemma DamagedKind(f: Layout, hist: seq<seq<Written>>, g: nat, c: nat, dict: bool, file: seq<bv8>, start: nat,
          width: nat)
    requires Columns(f, hist) && g < |hist| && c < |f.schema| && DamagedPage(f, hist, g, c, dict, file, start, width)
    ensures dict ==> IsDictionary(hist[g][c].enc)
  {
    hide Whole, Damage;
  }

  lemma DictCountSmall(w: Written, t: PhysicalType, width: int)
    requires Encoded(w, t, width) && IsDictionary(w.enc)
    ensures Dictionary.Indexable(t) && 0 <= Int32(w.dictCount) <= MAX_DICTIONARY
  {
    hide Dictionary.Pages, Dictionary.Entries;
    Int32Small(w.dictCount);
  }
}
