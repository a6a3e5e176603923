/** Data pages in every encoding the writer produces, what the reader makes of them, and exactly
    which columns come back unchanged. */
module Encodings {
  import opened Bits
  import opened PlainCodec
  import opened Values
  import opened Words
  import ByteStreamSplit
  import Delta
  import Dictionary
  import Packing
  import Rle

  datatype Encoding =
    | PLAIN | PLAIN_DICTIONARY | RLE | BIT_PACKED | DELTA_BINARY_PACKED
    | DELTA_LENGTH_BYTE_ARRAY | DELTA_BYTE_ARRAY | RLE_DICTIONARY | BYTE_STREAM_SPLIT

  predicate IsDictionary(e: Encoding) { e == PLAIN_DICTIONARY || e == RLE_DICTIONARY }

  predicate IsInteger(t: PhysicalType) { t == INT32 || t == INT64 }

  predicate IsFloat(t: PhysicalType) { t == FLOAT || t == DOUBLE }

  // ----- columns as the re-encoders see them -----

  function Int(v: Value): int
    requires v.I32? || v.I64?
  {
    if v.I32? then S32(v.w) else S64(v.d)
  }

  function Ints(vs: seq<Value>, t: PhysicalType): (ns: seq<int>)
    requires AllOfType(vs, t) && IsInteger(t)
    ensures |ns| == |vs|
  {
    seq(|vs|, i requires 0 <= i < |vs| => Int(vs[i]))
  }

  predicate FitsType(n: int, t: PhysicalType) { if t == INT32 then -TWO31 <= n < TWO31 else -TWO63 <= n < TWO63 }

  function FromInt(n: int, t: PhysicalType): Value
    requires FitsType(n, t)
  {
    if t == INT32 then I32(FromS32(n)) else I64(FromS64(n))
  }

  /** Integers narrowed to the wanted type; one that does not fit empties the result. */
  function FromInts(ns: seq<int>, t: PhysicalType): (vs: seq<Value>)
    ensures |vs| == |ns| || vs == []
  {
    if forall i :: 0 <= i < |ns| ==> FitsType(ns[i], t) then
      seq(|ns|, i requires 0 <= i < |ns| => FromInt(ns[i], t))
    else []
  }

  lemma IntRoundTrip(v: Value, t: PhysicalType)
    requires HasType(v, t) && IsInteger(t)
    ensures FitsType(Int(v), t) && FromInt(Int(v), t) == v && Delta.Int64(Int(v))
  {
    hide S32, S64, FromS32, FromS64;
    if t == INT32 {
      FromS32OfS32(v.w);
    } else {
      FromS64OfS64(v.d);
    }
  }

  lemma IntsRoundTrip(vs: seq<Value>, t: PhysicalType)
    requires AllOfType(vs, t) && IsInteger(t)
    ensures Delta.AllInt64(Ints(vs, t)) && FromInts(Ints(vs, t), t) == vs
    ensures t == INT32 ==> Delta.StepsFrom(Ints(vs, t), 0)
  {
    hide Int, FromInt, Delta.Int64;
    forall i | 0 <= i < |vs|
      ensures FitsType(Int(vs[i]), t) && FromInt(Int(vs[i]), t) == vs[i] && Delta.Int64(Int(vs[i]))
    {
      IntRoundTrip(vs[i], t);
    }
    if t == INT32 {
      forall k | 0 <= k < |vs| - 1 ensures Delta.Int64(Ints(vs, t)[k + 1] - Ints(vs, t)[k]) {
        NarrowStep(Ints(vs, t)[k], Ints(vs, t)[k + 1]);
      }
    }
  }

  lemma NarrowStep(a: int, b: int)
    requires FitsType(a, INT32) && FitsType(b, INT32)
    ensures Delta.Int64(b - a)
  {
  }

  /** Booleans as one-bit numbers. */
  function BoolNats(vs: seq<Value>): (ns: seq<nat>)
    requires AllOfType(vs, BOOLEAN)
    ensures |ns| == |vs| && Packing.Fit(ns, 1)
  {
    assert Pow2(1) == 2;
    seq(|vs|, i requires 0 <= i < |vs| => BitNat(vs[i].b))
  }

  function Bools(ns: seq<nat>): (vs: seq<Value>)
    ensures |vs| == |ns|
  {
    seq(|ns|, i requires 0 <= i < |ns| => Bool(ns[i] != 0))
  }

  lemma BoolsRoundTrip(vs: seq<Value>)
    requires AllOfType(vs, BOOLEAN)
    ensures Bools(BoolNats(vs)) == vs
  {
  }

  /** The payload behind its length; one too long for the length field is dropped. */
  function Prefixed(payload: seq<bv8>): seq<bv8> { if |payload| >= TWO32 then [] else LeBytes(|payload|) + payload }

  /** A column chunk as written: its values, their PLAIN bytes, the encoding chosen, the dictionary page if any, the
      data page, and the payload of a boolean run-length page. */
  datatype Written = Written(values: seq<Value>, plain: seq<bv8>, enc: Encoding, dict: seq<bv8>, dictCount: nat,
                             page: seq<bv8>, payload: seq<bv8>)

  /** The pages are the encoding of the values. Encodings without a meaning for the type, and those
      the writer does not implement, store PLAIN bytes. */
  ghost predicate Encoded(w: Written, t: PhysicalType, width: int) {
    AllStorable(w.values, t, width) && w.plain == Plain(w.values, t, width) && |w.values| <= Rle.RUN_MAX &&
    if IsDictionary(w.enc) then
      Dictionary.Indexable(t) && Dictionary.Pages(w.dict, w.page, w.values, t) &&
      w.dictCount == |Dictionary.Entries(w.values)|
    else if w.enc == DELTA_BINARY_PACKED && IsInteger(t) then
      IntsRoundTrip(w.values, t);
      w.page == Delta.Encode(Ints(w.values, t))
    else if w.enc == BYTE_STREAM_SPLIT && IsFloat(t) then
      PlainSize(w.values, t, width);
      w.page == ByteStreamSplit.Split(Plain(w.values, t, width), |w.values|, FixedWidth(t))
    else if w.enc == RLE && t == BOOLEAN then
      Rle.Encodes(w.payload, BoolNats(w.values), 1) && w.page == Prefixed(w.payload)
    else
      w.page == Plain(w.values, t, width)
  }

  /** Fixed-width values fill their width each. */
  lemma {:induction false} PlainSize(vs: seq<Value>, t: PhysicalType, width: int)
    requires AllStorable(vs, t, width) && FixedWidth(t) > 0
    ensures |Plain(vs, t, width)| == |vs| * FixedWidth(t)
    decreases |vs|
  {
    hide PlainOne, Storable, Plain, AllStorable, FixedWidth;
    PlainEmpty(t, width);
    if vs != [] {
      var init, last := vs[..|vs| - 1], vs[|vs| - 1];
      StorableParts(vs, t, width);
      StorableFits(last, t, width);
      assert t != BOOLEAN by { NotBoolean(t); }
      PlainAppend(init, last, t, width);
      PlainSize(init, t, width);
      DecodeOne(last, t);
      assert |vs| * FixedWidth(t) == |init| * FixedWidth(t) + FixedWidth(t);
    }
  }

  lemma NotBoolean(t: PhysicalType)
    requires FixedWidth(t) > 0
    ensures t != BOOLEAN && t != INT96 && t != FIXED_LEN_BYTE_ARRAY && t != BYTE_ARRAY
  {
  }

  /** Re-encoding: the values are taken from the PLAIN page and encoded anew. */
  method EncodeColumn(plain: seq<bv8>, count: nat, enc: Encoding, t: PhysicalType, width: int, ghost vs: seq<Value>)
    returns (page: seq<bv8>, payload: seq<bv8>, ghost w: Written)
    requires AllStorable(vs, t, width) && plain == Plain(vs, t, width) && count == |vs| <= Rle.RUN_MAX
    requires !IsDictionary(enc) && (enc == RLE && t == BOOLEAN ==> count <= Rle.VALUES_MAX)
    ensures Encoded(w, t, width) && w.values == vs && w.plain == plain && w.enc == enc && w.page == page && w.dict == []
  {
    hide Plain, AllStorable, Rle.Encodes, Delta.Encode, ByteStreamSplit.Split, Ints, BoolNats, Prefixed, FixedWidth;
    page, payload := plain, [];
    if enc == DELTA_BINARY_PACKED && IsInteger(t) {
      var values := Extract(plain, count, t, width, vs);
      StorableTyped(vs, t, width);
      IntsRoundTrip(vs, t);
      page := Delta.Encode(Ints(values, t));
    } else if enc == BYTE_STREAM_SPLIT && IsFloat(t) {
      PlainSize(vs, t, width) by { FloatWidth(t); }
      page := ByteStreamSplit.Encode(plain, count, FixedWidth(t));
    } else if enc == RLE && t == BOOLEAN {
      var values := Extract(plain, count, t, width, vs);
      StorableTyped(vs, t, width);
      payload := Rle.Encode(BoolNats(values), 1);
      page := Prefixed(payload);
    }
    w := Written(vs, plain, enc, [], 0, page, payload);
  }

  lemma FloatWidth(t: PhysicalType)
    requires IsFloat(t)
    ensures FixedWidth(t) > 0
  {
  }

  lemma StorableTyped(vs: seq<Value>, t: PhysicalType, width: int)
    requires AllStorable(vs, t, width)
    ensures AllOfType(vs, t)
  {
    forall i | 0 <= i < |vs| ensures HasType(vs[i], t) {
      assert Storable(vs[i], t, width);
    }
  }

  // ----- the reader's side -----

  /** Encodings the reader has a decoder of its own for. */
  predicate Special(e: Encoding, t: PhysicalType) {
    e == DELTA_BINARY_PACKED || e == BYTE_STREAM_SPLIT || (e == RLE && t == BOOLEAN)
  }

  /** What the reader concludes from the encodings listed for a chunk: whether there is a dictionary,
      and the last listed encoding that needs a decoder of its own. */
  function Strategy(encs: seq<Encoding>, t: PhysicalType): (bool, Encoding) {
    if encs == [] then (false, PLAIN)
    else
      var (dict, data) := Strategy(encs[..|encs| - 1], t);
      var e := encs[|encs| - 1];
      (dict || IsDictionary(e),
       if Special(e, t) then e else data)
  }

  function DecodeDelta(data: seq<bv8>, n: nat, want: PhysicalType): Result<seq<Value>> {
    var ns := Delta.Decode(data, n);
    var vs := FromInts(ns, want);
    if |vs| != n then Err(CORRUPT_PAGE) else Ok(vs)
  }

  function DecodeSplit(data: seq<bv8>, n: nat, want: PhysicalType): Result<seq<Value>>
    requires FixedWidth(want) > 0
  {
    if n * FixedWidth(want) > |data| then Err(CORRUPT_PAGE)
    else Ok(Slices(ByteStreamSplit.Unsplit(data, n, FixedWidth(want)), 0, want, n))
  }

  /** The length prefix is trusted only as far as the data goes. */
  function DecodeRleBools(data: seq<bv8>, n: nat): seq<Value> {
    if |data| < 4 then []
    else
      var len := LeValue(data[..4]);
      var end := if len < |data| - 4 then 4 + len else |data|;
      Bools(Rle.Decode(data[4..end], 1, n))
  }

  const MAX_DECODED: nat := 256 * 1024 * 1024

  function ElementSize(t: PhysicalType, width: int): nat {
    match t
    case BOOLEAN => 1
    case FIXED_LEN_BYTE_ARRAY => if width > 0 then width else 1
    case BYTE_ARRAY | INT96 => 0
    case _ => FixedWidth(t)
  }

  /** PLAIN values through the column reader, one by one for booleans and as a batch otherwise. */
  function DecodePlain(t: PhysicalType, width: int, data: seq<bv8>, n: nat, want: PhysicalType): Result<seq<Value>> {
    if n * ElementSize(t, width) > MAX_DECODED then Err(CORRUPT_DATA)
    else if t != want then (if want == BOOLEAN && n == 0 then Ok([]) else Err(UNSUPPORTED_TYPE))
    else match ReadMany(Start(t, data, n, width), want, n)
      case Ok((vs, _)) => Ok(vs)
      case Err(_) => Err(CORRUPT_PAGE)
  }

  /** The types a column can be read as. */
  predicate Readable(t: PhysicalType) { t == BOOLEAN || Dictionary.Indexable(t) }

  /** A data page of a chunk without a dictionary. */
  function DecodePage(data: Encoding, t: PhysicalType, width: int, bytes: seq<bv8>, n: nat,
          want: PhysicalType): Result<seq<Value>>
    requires Readable(want)
  {
    if data == DELTA_BINARY_PACKED then
      if IsInteger(want) then DecodeDelta(bytes, n, want) else Err(UNSUPPORTED_ENCODING)
    else if data == BYTE_STREAM_SPLIT then
      if IsFloat(want) then DecodeSplit(bytes, n, want) else Err(UNSUPPORTED_ENCODING)
    else if data == RLE && t == BOOLEAN then
      if want == BOOLEAN then Ok(DecodeRleBools(bytes, n)) else Err(UNSUPPORTED_ENCODING)
    else DecodePlain(t, width, bytes, n, want)
  }

  lemma DeltaReads(vs: seq<Value>, t: PhysicalType)
    requires AllOfType(vs, t) && IsInteger(t) && |vs| <= Delta.MAX_VALUES
    ensures Delta.AllInt64(Ints(vs, t))
    ensures DecodeDelta(Delta.Encode(Ints(vs, t)), |vs|, t) == Ok(vs) <==> Delta.StepsFrom(Ints(vs, t), 0)
    ensures !Delta.StepsFrom(Ints(vs, t), 0) ==> DecodeDelta(Delta.Encode(Ints(vs, t)), |vs|, t) == Err(CORRUPT_PAGE)
  {
    hide Ints, Delta.Decode, Delta.Encode, FitsType, FromInt, Delta.Int64, FromInts;
    IntsRoundTrip(vs, t);
    FromIntsLength(Delta.Decode(Delta.Encode(Ints(vs, t)), |vs|), t);
    Delta.DecodeEncoded(Ints(vs, t));
    assert vs == [] ==> Delta.StepsFrom(Ints(vs, t), 0);
  }

  lemma FromIntsLength(ns: seq<int>, t: PhysicalType)
    ensures |FromInts(ns, t)| == |ns| || FromInts(ns, t) == []
  {
  }

  lemma SplitReads(vs: seq<Value>, t: PhysicalType, width: int)
    requires AllStorable(vs, t, width) && FixedWidth(t) > 0
    ensures |Plain(vs, t, width)| == |vs| * FixedWidth(t)
    ensures DecodeSplit(ByteStreamSplit.Split(Plain(vs, t, width), |vs|, FixedWidth(t)), |vs|, t) == Ok(vs)
  {
    hide Plain, AllStorable, FixedWidth, ByteStreamSplit.Split, ByteStreamSplit.Unsplit, ReadMany, Slices;
    var plain, n, w := Plain(vs, t, width), |vs|, FixedWidth(t);
    PlainSize(vs, t, width);
    ByteStreamSplit.UnsplitSplit(plain, n, w, []);
    assert ByteStreamSplit.Split(plain, n, w) + [] == ByteStreamSplit.Split(plain, n, w);
    NotBoolean(t);
    ReadPlain(vs, t, width, plain, n);
    ManyFixed(Start(t, plain, n, width), t, n);
  }

  lemma RleReads(payload: seq<bv8>, vs: seq<Value>)
    requires AllOfType(vs, BOOLEAN) && Rle.Encodes(payload, BoolNats(vs), 1) && vs != []
    ensures DecodeRleBools(Prefixed(payload), |vs|) == vs <==> |payload| < TWO32 && Rle.Reads(BoolNats(vs), 1)
  {
    hide Rle.Decode, Rle.Encodes, Rle.Reads, LeBytes, LeValue, BoolNats, Bools;
    if |payload| < TWO32 {
      var data := Prefixed(payload);
      LeBytesRoundTrip(|payload|);
      assert data[..4] == LeBytes(|payload|) && data[4..] == payload && data[4..|data|] == payload;
      Rle.DecodeEncoded(payload, BoolNats(vs), 1);
      BoolsRoundTrip(vs);
    }
  }

  /** What makes a column come back unchanged, per encoding: index and boolean runs the decoder accepts,
      a dictionary that met one spelling per number and lost nothing that shows, differences that fit 64 bits. */
  ghost predicate Lossless(w: Written, t: PhysicalType) {
    if IsDictionary(w.enc) then
      Dictionary.OneSpelling(w.values) && Dictionary.Survives(w.values) &&
      Rle.Reads(Dictionary.Indices(w.values), Dictionary.IndexWidth(|Dictionary.Entries(w.values)|))
    else if w.enc == DELTA_BINARY_PACKED then
      IsInteger(t) && AllOfType(w.values, t) && Delta.StepsFrom(Ints(w.values, t), 0)
    else if w.enc == BYTE_STREAM_SPLIT then IsFloat(t)
    else if w.enc == RLE && t == BOOLEAN then AllOfType(w.values, t) && Rle.Reads(BoolNats(w.values), 1)
    else |w.values| * ElementSize(t, 0) <= MAX_DECODED
  }

  const MAX_VALUES_PER_PAGE: nat := 100_000_000

  /** A chunk without a dictionary reads back exactly when it is lossless. */
  lemma PageReads(w: Written, t: PhysicalType, width: int)
    requires Encoded(w, t, width) && !IsDictionary(w.enc) && Readable(t)
    requires 0 < |w.values| <= MAX_VALUES_PER_PAGE
    ensures Strategy([w.enc], t) == (false, if Special(w.enc, t) then w.enc else PLAIN)
    ensures DecodePage(Strategy([w.enc], t).1, t, width, w.page, |w.values|, t) == Ok(w.values) <==> Lossless(w, t)
  {
    hide Plain, AllStorable, DecodeDelta, DecodeSplit, DecodeRleBools, DecodePlain, Rle.Encodes, BoolNats, Ints,
      FixedWidth, Delta.Encode, Prefixed;
    StorableTyped(w.values, t, width);
    StrategyOne(w.enc, t);
    if w.enc == DELTA_BINARY_PACKED {
      if IsInteger(t) {
        DeltaReads(w.values, t);
      }
    } else if w.enc == BYTE_STREAM_SPLIT {
      if IsFloat(t) {
        FloatWidth(t);
        SplitReads(w.values, t, width);
      }
    } else if w.enc == RLE && t == BOOLEAN {
      Rle.PayloadLength(w.payload, BoolNats(w.values));
      RleReads(w.payload, w.values);
    } else {
      PlainReads(w.values, t, width);
    }
  }

  /** A dictionary chunk is recognised by its second recorded encoding and reads back exactly when it
      is lossless. */
  lemma DictionaryReads(w: Written, t: PhysicalType, width: int)
    requires Encoded(w, t, width) && IsDictionary(w.enc) && w.values != []
    ensures Strategy([PLAIN, w.enc], t).0 && Dictionary.Indexable(t)
    ensures Dictionary.DecodePages(t, w.dict, w.dictCount, w.page, |w.values|) == Ok(w.values) <==> Lossless(w, t)
  {
    hide Dictionary.Pages, Dictionary.Entries, Dictionary.DecodePages, Dictionary.OneSpelling, Dictionary.Survives,
      Rle.Reads;
    assert [PLAIN, w.enc][..1] == [PLAIN];
    Dictionary.PagesRead(w.dict, w.page, w.values, t);
  }

  /** A boolean page that does not read back: two equal flags, a different one, and 32 * 1024 * 1024
      values more than five. */
  lemma FlagsLost(payload: seq<bv8>, vs: seq<Value>)
    requires |vs| == Rle.MAX_BP_VALUES + 8 && forall i :: 0 <= i < |vs| ==> vs[i] == Bool(i == 2)
    requires Rle.Encodes(payload, BoolNats(vs), 1)
    ensures DecodeRleBools(Prefixed(payload), |vs|) != vs
  {
    hide Rle.Encodes, Rle.Reads, DecodeRleBools, Prefixed;
    RleReads(payload, vs);
    Rle.OneRunAccepted(BoolNats(vs), 1);
  }

  /** An INT64 column that does not read back: its two values are more than 64 bits apart. */
  lemma DeltaLost()
    ensures var vs := [I64(0x8000_0000_0000_0000), I64(1)];
            AllOfType(vs, INT64) && DecodeDelta(Delta.Encode(Ints(vs, INT64)), |vs|, INT64) == Err(CORRUPT_PAGE)
  {
    hide Delta.Encode, DecodeDelta;
    var vs := [I64(0x8000_0000_0000_0000), I64(1)];
    DeltaReads(vs, INT64);
    FarApart();
    assert Ints(vs, INT64)[1] - Ints(vs, INT64)[0] == S64(1) - S64(0x8000_0000_0000_0000);
    assert !Delta.Int64(Ints(vs, INT64)[1] - Ints(vs, INT64)[0]);
  }

  lemma FarApart()
    ensures S64(0x8000_0000_0000_0000) == -TWO63 && S64(1) == 1
  {
  }

  lemma StrategyOne(e: Encoding, t: PhysicalType)
    ensures Strategy([e], t) == (IsDictionary(e), if Special(e, t) then e else PLAIN)
  {
    assert Strategy([], t) == (false, PLAIN);
    assert [e][..0] == [];
  }

  lemma PlainReads(vs: seq<Value>, t: PhysicalType, width: int)
    requires AllStorable(vs, t, width) && Readable(t)
    ensures DecodePlain(t, width, Plain(vs, t, width), |vs|, t) == Ok(vs) <==> |vs| * ElementSize(t, 0) <= MAX_DECODED
  {
    hide Plain, AllStorable, ReadMany;
    PlainRoundTrip(vs, t, width);
    assert ElementSize(t, width) == ElementSize(t, 0);
  }
}
