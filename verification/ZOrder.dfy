/** Z-order sorting: order-preserving normalisation of every column type to 32-bit words, and the
    row permutation sorted by Morton key. */
module ZOrder {
  import opened Words
  import opened Orders
  import opened Morton
  import opened Values
  import Sorting

  // ----- normalisation -----

  function NormalizeInt32(w: bv32): bv32 { w ^ 0x8000_0000 }

  function NormalizeInt64(d: bv64): bv64 { d ^ 0x8000_0000_0000_0000 }

  function NormalizeFloat(w: bv32): bv32 {
    var mask := (0 - (w >> 31)) | 0x8000_0000;
    w ^ mask
  }

  function NormalizeDouble(d: bv64): bv64 {
    var mask := (0 - (d >> 63)) | 0x8000_0000_0000_0000;
    d ^ mask
  }

  function TruncateTo32(d: bv64): bv32 { (d >> 32) as bv32 }

  /** Byte i of a string, zero past its end. */
  function PadAt(s: seq<bv8>, i: nat): bv8 {
    if i < |s| then s[i] else 0
  }

  /** The first four bytes, zero-padded, as a big-endian word. */
  function StringKey(s: seq<bv8>): bv32 {
    FromLe32([PadAt(s, 3), PadAt(s, 2), PadAt(s, 1), PadAt(s, 0)])
  }

  method NormalizeString(s: seq<bv8>) returns (key: bv32)
    ensures key == StringKey(s)
  {
    key := 0;
    var i := 0;
    var shift: bv32 := 24;
    while i < 4 && i < |s|
      invariant 0 <= i <= 4 && i <= |s|
      invariant i < 4 ==> shift == [24, 16, 8, 0][i]
      invariant key == PrefixKey(s, i)
    {
      key := key | ((s[i] as bv32) << shift);
      shift := if i < 3 then shift - 8 else 0;
      i := i + 1;
    }
    PrefixKeyEnd(s, i);
  }

  /** The key with only the first n bytes filled in. */
  ghost function PrefixKey(s: seq<bv8>, n: nat): bv32
    requires n <= 4
  {
    StringKey(if n <= |s| then s[..n] else s)
  }

  lemma PrefixKeyEnd(s: seq<bv8>, n: nat)
    requires n <= 4 && n <= |s| && (n == 4 || n == |s|)
    ensures PrefixKey(s, n) == StringKey(s)
  {
  }

  function Normalize(v: Value): bv32 {
    match v
    case I32(w) => NormalizeInt32(w)
    case I64(d) => TruncateTo32(NormalizeInt64(d))
    case F32(w) => NormalizeFloat(w)
    case F64(d) => TruncateTo32(NormalizeDouble(d))
    case Bytes(s) => StringKey(s)
    case Bool(_) => 0
  }

  /** What sorting a column means: signed order, the total order of floats, or the order of strings. */
  predicate ColumnLeq(a: Value, b: Value) {
    match (a, b)
    case (I32(x), I32(y)) => S32(x) <= S32(y)
    case (I64(x), I64(y)) => S64(x) <= S64(y)
    case (F32(x), F32(y)) => TotalOrder(U32(x), U32(y), BINARY32)
    case (F64(x), F64(y)) => TotalOrder(U64(x), U64(y), BINARY64)
    case (Bytes(x), Bytes(y)) => LexLeq(x, y)
    case _ => a.Bool? && b.Bool?
  }

  lemma Int32Flips(w: bv32)
    ensures U32(NormalizeInt32(w)) == S32(w) + TWO31
  {
    hide U32;
    FlipTop32(w);
  }

  /** Normalising a signed word keeps and reflects its order. */
  lemma Int32Order(a: bv32, b: bv32)
    ensures S32(a) <= S32(b) <==> AtMost(NormalizeInt32(a), NormalizeInt32(b))
  {
    hide U32, S32, NormalizeInt32, AtMost;
    Int32Flips(a);
    Int32Flips(b);
    U32AtMost(NormalizeInt32(a), NormalizeInt32(b));
  }

  lemma FloatFlips(w: bv32)
    ensures U32(NormalizeFloat(w)) == Flipped(U32(w), BINARY32)
  {
    hide U32;
    FlipTop32(w);
    FlipAll32(w);
    SignBit32(w);
    RawFloatMask(w);
  }

  lemma SignBit32(w: bv32)
    ensures w & 0x8000_0000 == 0 <==> U32(w) < TWO31
  {
    hide U32;
    U32Order(w, 0x8000_0000);
    U32OfTop();
    RawSign(w);
  }

  lemma RawSign(w: bv32)
    ensures w < 0x8000_0000 <==> w & 0x8000_0000 == 0
  {
  }

  lemma RawFloatMask(w: bv32)
    ensures w & 0x8000_0000 == 0 ==> NormalizeFloat(w) == w ^ 0x8000_0000
    ensures w & 0x8000_0000 != 0 ==> NormalizeFloat(w) == w ^ 0xFFFF_FFFF
  {
  }

  /** Normalising a float keeps and reflects the total order of bit patterns. */
  lemma FloatOrder(a: bv32, b: bv32)
    ensures TotalOrder(U32(a), U32(b), BINARY32) <==> AtMost(NormalizeFloat(a), NormalizeFloat(b))
  {
    hide U32, NormalizeFloat, TotalOrder, Flipped, AtMost;
    FloatFlips(a);
    FloatFlips(b);
    FlippedTotalOrder(U32(a), U32(b), BINARY32);
    U32AtMost(NormalizeFloat(a), NormalizeFloat(b));
  }

  /** Normalised floats sort exactly as the numbers do, unless the first is negative zero and the
      second positive zero. */
  lemma FloatNumericOrder(a: bv32, b: bv32)
    requires !NaN(U32(a), BINARY32) && !NaN(U32(b), BINARY32)
    ensures (Below(NormalizeFloat(a), NormalizeFloat(b)) <==> FloatLess(U32(a), U32(b), BINARY32)) <==>
            !(a == 0x8000_0000 && b == 0)
  {
    hide U32, NormalizeFloat, FloatValue, Flipped, NaN, Below;
    FloatFlips(a);
    FloatFlips(b);
    FlippedNumericOrder(U32(a), U32(b), BINARY32);
    U32AtMost(NormalizeFloat(a), NormalizeFloat(b));
    U32OfTop();
    U32OfZero();
    if U32(a) == TWO31 { U32Injective(a, 0x8000_0000); }
    if U32(b) == 0 { U32Injective(b, 0); }
  }

  // ----- 64-bit columns -----

  lemma Int64Flips(d: bv64)
    ensures U64(NormalizeInt64(d)) == S64(d) + TWO63
  {
    hide U32, NormalizeInt64;
    RawTopHalves(d);
    FlipTop32(Hi(d));
  }

  lemma DoubleFlips(d: bv64)
    ensures U64(NormalizeDouble(d)) == Flipped(U64(d), BINARY64)
  {
    hide U32, NormalizeDouble, Hi, Lo;
    RawTopHalves(d);
    FlipHalves(d);
    RawDoubleMask(d);
    FlipTop32(Hi(d));
    FlipAll32(Hi(d));
    FlipAll32(Lo(d));
    SignBit32(Hi(d));
    assert ((d >> 32) as bv32) == Hi(d) by { HiIs(d); }
  }

  lemma HiIs(d: bv64)
    ensures ((d >> 32) as bv32) == Hi(d)
  {
  }

  lemma RawTopHalves(d: bv64)
    ensures Hi(d ^ 0x8000_0000_0000_0000) == Hi(d) ^ 0x8000_0000 && Lo(d ^ 0x8000_0000_0000_0000) == Lo(d)
    ensures NormalizeInt64(d) == d ^ 0x8000_0000_0000_0000
  {
  }

  /** Normalising a signed 64-bit word keeps and reflects its order. */
  lemma Int64WordOrder(a: bv64, b: bv64)
    ensures S64(a) < S64(b) <==> Below64(NormalizeInt64(a), NormalizeInt64(b))
  {
    hide U64, S64, NormalizeInt64, Below64;
    Int64Flips(a);
    Int64Flips(b);
    U64Below(NormalizeInt64(a), NormalizeInt64(b));
  }

  /** Normalising a double keeps and reflects the total order of bit patterns. */
  lemma DoubleTotalOrder(a: bv64, b: bv64)
    ensures TotalOrder(U64(a), U64(b), BINARY64) <==> !Below64(NormalizeDouble(b), NormalizeDouble(a))
  {
    hide U64, NormalizeDouble, TotalOrder, Flipped, Below64;
    DoubleFlips(a);
    DoubleFlips(b);
    FlippedTotalOrder(U64(a), U64(b), BINARY64);
    U64Below(NormalizeDouble(b), NormalizeDouble(a));
  }

  /** Normalised doubles sort exactly as the numbers do, unless the first is negative zero and the
      second positive zero. */
  lemma DoubleNumericOrder(a: bv64, b: bv64)
    requires !NaN(U64(a), BINARY64) && !NaN(U64(b), BINARY64)
    ensures (Below64(NormalizeDouble(a), NormalizeDouble(b)) <==> FloatLess(U64(a), U64(b), BINARY64)) <==>
            !(U64(a) == BINARY64.top && U64(b) == 0)
  {
    hide U64, NormalizeDouble, FloatValue, Flipped, NaN, Below64;
    DoubleFlips(a);
    DoubleFlips(b);
    FlippedNumericOrder(U64(a), U64(b), BINARY64);
    U64Below(NormalizeDouble(a), NormalizeDouble(b));
  }

  // ----- the sort keeps their upper half -----

  lemma HalfOfInt64(d: bv64)
    ensures TruncateTo32(NormalizeInt64(d)) == NormalizeInt32(Hi(d))
  {
    RawHalfTop(d);
  }

  lemma HalfOfDouble(d: bv64)
    ensures TruncateTo32(NormalizeDouble(d)) == NormalizeFloat(Hi(d))
  {
    hide NormalizeDouble, NormalizeFloat, TruncateTo32;
    RawHalfTop(d);
    RawHalfAll(d);
    RawDoubleMask(d);
    RawFloatMask(Hi(d));
  }

  lemma RawHalfTop(d: bv64)
    ensures TruncateTo32(d ^ 0x8000_0000_0000_0000) == Hi(d) ^ 0x8000_0000
  {
  }

  lemma RawHalfAll(d: bv64)
    ensures TruncateTo32(d ^ 0xFFFF_FFFF_FFFF_FFFF) == Hi(d) ^ 0xFFFF_FFFF
  {
  }

  lemma RawDoubleMask(d: bv64)
    ensures ((d >> 32) as bv32) & 0x8000_0000 == 0 ==> NormalizeDouble(d) == d ^ 0x8000_0000_0000_0000
    ensures ((d >> 32) as bv32) & 0x8000_0000 != 0 ==> NormalizeDouble(d) == d ^ 0xFFFF_FFFF_FFFF_FFFF
  {
  }

  /** Normalising and truncating a signed 64-bit value keeps its order, possibly merging neighbours. */
  lemma Int64Order(a: bv64, b: bv64)
    requires S64(a) <= S64(b)
    ensures AtMost(TruncateTo32(NormalizeInt64(a)), TruncateTo32(NormalizeInt64(b)))
  {
    hide U32, Hi, Lo, TruncateTo32, NormalizeInt64, NormalizeInt32, AtMost;
    HalfOfInt64(a);
    HalfOfInt64(b);
    Int32Order(Hi(a), Hi(b));
  }

  lemma TruncatedFlips(d: bv64)
    ensures U32(TruncateTo32(NormalizeDouble(d))) == Flipped(U32(Hi(d)), BINARY32)
  {
    hide U32, Hi, TruncateTo32, NormalizeDouble, NormalizeFloat;
    HalfOfDouble(d);
    FloatFlips(Hi(d));
  }

  /** Normalising and truncating a double keeps the total order of bit patterns. */
  lemma DoubleOrder(a: bv64, b: bv64)
    requires TotalOrder(U64(a), U64(b), BINARY64)
    ensures AtMost(TruncateTo32(NormalizeDouble(a)), TruncateTo32(NormalizeDouble(b)))
  {
    hide U32, Hi, Lo, TruncateTo32, NormalizeDouble, TotalOrder, AtMost;
    FlippedTotalOrder(U64(a), U64(b), BINARY64);
    TruncatedFlips(a);
    TruncatedFlips(b);
    U32AtMost(TruncateTo32(NormalizeDouble(a)), TruncateTo32(NormalizeDouble(b)));
  }

  // ----- strings keep their first four bytes -----

  lemma {:induction false} PadOrder(s: seq<bv8>, t: seq<bv8>, i: nat)
    requires LexLeq(s, t) && forall j :: 0 <= j < i ==> PadAt(s, j) == PadAt(t, j)
    ensures PadAt(s, i) == PadAt(t, i) || PadAt(s, i) < PadAt(t, i)
  {
    if s != [] && t != [] {
      if i > 0 {
        assert s[0] == t[0] by { assert PadAt(s, 0) == PadAt(t, 0); }
        forall j | 0 <= j < i - 1 ensures PadAt(s[1..], j) == PadAt(t[1..], j) {
          assert PadAt(s, j + 1) == PadAt(t, j + 1);
        }
        PadOrder(s[1..], t[1..], i - 1);
      } else {
        U8Order(s[0], t[0]);
        U8Order(t[0], s[0]);
      }
    } else if s == [] && i < |t| {
      U8Order(0, t[i]);
    }
  }

  /** Strings in lexicographic order have their keys in that order. */
  lemma StringOrder(s: seq<bv8>, t: seq<bv8>)
    requires LexLeq(s, t)
    ensures AtMost(StringKey(s), StringKey(t))
  {
    hide LexLeq, FromLe32, Le32, AtMost;
    var a, b := StringKey(s), StringKey(t);
    FromLe32RoundTrip([PadAt(s, 3), PadAt(s, 2), PadAt(s, 1), PadAt(s, 0)]);
    FromLe32RoundTrip([PadAt(t, 3), PadAt(t, 2), PadAt(t, 1), PadAt(t, 0)]);
    hide StringKey;
    PadOrder(s, t, 0);
    if PadAt(s, 0) != PadAt(t, 0) {
      TopByteLess(a, b);
      BelowAtMost(a, b);
    } else {
      PadOrder(s, t, 1);
      if PadAt(s, 1) != PadAt(t, 1) {
        ThirdByteLess(a, b);
        BelowAtMost(a, b);
      } else {
        PadOrder(s, t, 2);
        if PadAt(s, 2) != PadAt(t, 2) {
          SecondByteLess(a, b);
          BelowAtMost(a, b);
        } else {
          PadOrder(s, t, 3);
          if PadAt(s, 3) != PadAt(t, 3) {
            FirstByteLess(a, b);
            BelowAtMost(a, b);
          } else {
            AtMostSelf(a);
          }
        }
      }
    }
  }

  /** Every typed column's order survives normalisation. */
  lemma NormalizeMonotone(a: Value, b: Value)
    requires ColumnLeq(a, b)
    ensures AtMost(Normalize(a), Normalize(b))
  {
    hide S32, S64, TotalOrder, LexLeq, U32, U64, NormalizeInt32, NormalizeInt64, NormalizeFloat, NormalizeDouble,
      TruncateTo32, StringKey, AtMost;
    AtMostSelf(0);
    match (a, b)
    case (I32(x), I32(y)) => Int32Order(x, y);
    case (I64(x), I64(y)) => Int64Order(x, y);
    case (F32(x), F32(y)) => FloatOrder(x, y);
    case (F64(x), F64(y)) => DoubleOrder(x, y);
    case (Bytes(x), Bytes(y)) => StringOrder(x, y);
    case _ =>
  }

  // ----- sorting rows -----

  /** A column to sort by: its type, its values (absent for a null pointer) and its declared count. */
  datatype ZOrderColumn = ZOrderColumn(ptype: PhysicalType, data: Option<seq<Value>>, count: nat)

  /** The caller's obligation: a present array holds at least count values of the type. */
  predicate WellTyped(col: ZOrderColumn) {
    col.data.Some? ==> col.count <= |col.data.value| && AllOfType(col.data.value, col.ptype)
  }

  /** The word a value of a column contributes; unsupported types contribute zero. */
  function ColumnWord(t: PhysicalType, v: Value): bv32 {
    if t == BOOLEAN || t == INT96 || t == FIXED_LEN_BYTE_ARRAY then 0 else Normalize(v)
  }

  // ----- what a word keeps of a value -----

  /** The first four bytes of a string, zero past its end. */
  function Pad4(s: seq<bv8>): (p: seq<bv8>)
    ensures |p| == 4
  {
    seq(4, i requires 0 <= i < 4 => if i < |s| then s[i] else 0)
  }

  /** The part of two values that is kept is in order: all of 32-bit values, what is left of 64-bit
      integers divided by two to the 32, the upper halves of doubles, four bytes of strings. */
  predicate KeptLeq(t: PhysicalType, a: Value, b: Value)
    requires HasType(a, t) && HasType(b, t)
  {
    match t
    case INT32 => S32(a.w) <= S32(b.w)
    case INT64 => S64(a.d) / TWO32 <= S64(b.d) / TWO32
    case FLOAT => TotalOrder(U32(a.w), U32(b.w), BINARY32)
    case DOUBLE => TotalOrder(U32(Hi(a.d)), U32(Hi(b.d)), BINARY32)
    case BYTE_ARRAY => LexLeq(Pad4(a.s), Pad4(b.s))
    case BOOLEAN | INT96 | FIXED_LEN_BYTE_ARRAY => true
  }

  /** The part of two values that is kept is the same, bit for bit. */
  predicate KeptSame(t: PhysicalType, a: Value, b: Value)
    requires HasType(a, t) && HasType(b, t)
  {
    match t
    case INT32 | FLOAT => a.w == b.w
    case INT64 | DOUBLE => Hi(a.d) == Hi(b.d)
    case BYTE_ARRAY => Pad4(a.s) == Pad4(b.s)
    case BOOLEAN | INT96 | FIXED_LEN_BYTE_ARRAY => true
  }

  lemma HiQuotient(d: bv64)
    ensures S64(d) / TWO32 == S32(Hi(d))
  {
    hide U32, Hi, Lo;
    assert S64(d) == U32(Lo(d)) + TWO32 * S32(Hi(d));
  }

  lemma PaddedKey(s: seq<bv8>)
    ensures StringKey(Pad4(s)) == StringKey(s) && Pad4(Pad4(s)) == Pad4(s)
  {
  }

  /** The bytes of a key, most significant last. */
  lemma KeyBytes(s: seq<bv8>)
    ensures Le32(StringKey(s)) == [Pad4(s)[3], Pad4(s)[2], Pad4(s)[1], Pad4(s)[0]]
  {
    hide FromLe32, Le32;
    FromLe32RoundTrip([PadAt(s, 3), PadAt(s, 2), PadAt(s, 1), PadAt(s, 0)]);
  }

  lemma StringWordSame(s: seq<bv8>, t: seq<bv8>)
    ensures StringKey(s) == StringKey(t) <==> Pad4(s) == Pad4(t)
  {
    hide Le32, StringKey, Pad4;
    var p, q := Pad4(s), Pad4(t);
    KeyBytes(s);
    KeyBytes(t);
    PaddedKey(s);
    PaddedKey(t);
    if StringKey(s) == StringKey(t) {
      var a, b := [p[3], p[2], p[1], p[0]], [q[3], q[2], q[1], q[0]];
      assert a[0] == b[0] && a[1] == b[1] && a[2] == b[2] && a[3] == b[3];
      assert p == q;
    }
  }

  lemma StringWordOrder(s: seq<bv8>, t: seq<bv8>)
    ensures LexLeq(Pad4(s), Pad4(t)) <==> AtMost(StringKey(s), StringKey(t))
  {
    hide LexLess, StringKey, Pad4, AtMost;
    PaddedKey(s);
    PaddedKey(t);
    StringWordSame(s, t);
    LexTrichotomy(Pad4(s), Pad4(t));
    AtMostTotal(StringKey(s), StringKey(t));
    if LexLess(Pad4(t), Pad4(s)) {
      StringOrder(Pad4(t), Pad4(s));
    } else {
      StringOrder(Pad4(s), Pad4(t));
    }
  }

  lemma AtMostTotal(a: bv32, b: bv32)
    ensures AtMost(a, b) || AtMost(b, a)
    ensures AtMost(a, b) && AtMost(b, a) <==> a == b
  {
    hide U32, AtMost;
    U32AtMost(a, b);
    U32AtMost(b, a);
    if U32(a) == U32(b) {
      U32Injective(a, b);
    }
  }

  /** Words are in order exactly when the kept parts are, and equal exactly when those are the same. */
  lemma WordKeeps(t: PhysicalType, a: Value, b: Value)
    requires HasType(a, t) && HasType(b, t)
    ensures KeptLeq(t, a, b) <==> AtMost(ColumnWord(t, a), ColumnWord(t, b))
    ensures KeptSame(t, a, b) <==> ColumnWord(t, a) == ColumnWord(t, b)
  {
    hide S32, S64, TotalOrder, LexLeq, U32, NormalizeInt32, NormalizeInt64, NormalizeFloat, NormalizeDouble,
      TruncateTo32, StringKey, AtMost, Pad4, Hi;
    match t
    case INT32 =>
      Int32Order(a.w, b.w);
      Int32Injective(a.w, b.w);
    case INT64 =>
      HiQuotient(a.d);
      HiQuotient(b.d);
      HalfOfInt64(a.d);
      HalfOfInt64(b.d);
      Int32Order(Hi(a.d), Hi(b.d));
      Int32Injective(Hi(a.d), Hi(b.d));
    case FLOAT =>
      FloatOrder(a.w, b.w);
      FloatInjective(a.w, b.w);
    case DOUBLE =>
      HalfOfDouble(a.d);
      HalfOfDouble(b.d);
      FloatOrder(Hi(a.d), Hi(b.d));
      FloatInjective(Hi(a.d), Hi(b.d));
    case BYTE_ARRAY =>
      StringWordOrder(a.s, b.s);
      StringWordSame(a.s, b.s);
    case _ =>
      AtMostSelf(0);
  }

  lemma Int32Injective(a: bv32, b: bv32)
    ensures NormalizeInt32(a) == NormalizeInt32(b) <==> a == b
  {
  }

  lemma FloatInjective(a: bv32, b: bv32)
    ensures NormalizeFloat(a) == NormalizeFloat(b) <==> a == b
  {
    hide U32, NormalizeFloat;
    FloatFlips(a);
    FloatFlips(b);
    if U32(a) == U32(b) {
      U32Injective(a, b);
    }
  }

  method NormalizeColumn(col: ZOrderColumn) returns (r: Result<seq<bv32>>)
    requires WellTyped(col)
    ensures col.data.None? ==> r == Err(INVALID_ARGUMENT)
    ensures col.data.Some? ==> r.Ok? && |r.value| == col.count &&
                               forall i :: 0 <= i < col.count ==> r.value[i] == ColumnWord(col.ptype, col.data.value[i])
  {
    hide Normalize;
    if col.data.None? {
      return Err(INVALID_ARGUMENT);
    }
    var out := new bv32[col.count](_ => 0);
    var i := 0;
    while i < col.count
      invariant 0 <= i <= col.count
      invariant forall j :: 0 <= j < i ==> out[j] == ColumnWord(col.ptype, col.data.value[j])
    {
      out[i] := ColumnWord(col.ptype, col.data.value[i]);
      i := i + 1;
    }
    return Ok(out[..]);
  }

  /** The words of one row, in column order. */
  function RowWords(columns: seq<ZOrderColumn>, r: nat): (ws: seq<bv32>)
    requires forall c :: 0 <= c < |columns| ==> WellTyped(columns[c]) && columns[c].data.Some? && r < columns[c].count
    ensures |ws| == |columns|
  {
    seq(|columns|, c requires 0 <= c < |columns| => RowWord(columns[c], r))
  }

  function RowWord(col: ZOrderColumn, r: nat): bv32
    requires WellTyped(col) && col.data.Some? && r < col.count
  {
    ColumnWord(col.ptype, col.data.value[r])
  }

  /** The Morton code of a row as bits. With two columns the second is the more significant one,
      with any other number the first is. */
  function Code(ws: seq<bv32>): (bits: seq<bool>)
    ensures |bits| == 32 * |ws|
  {
    if |ws| == 2 then Interleave([ws[1], ws[0]], 32) else Interleave(ws, 32)
  }

  ghost predicate CountsMatch(numRows: nat, columns: seq<ZOrderColumn>) {
    forall c :: 0 <= c < |columns| ==> columns[c].count == numRows
  }

  ghost predicate Sortable(numRows: nat, columns: seq<ZOrderColumn>) {
    forall c :: 0 <= c < |columns| ==> columns[c].count == numRows && columns[c].data.Some? && WellTyped(columns[c])
  }

  /** Sorted by Morton code. */
  ghost predicate SortedByCode(perm: seq<nat>, numRows: nat, columns: seq<ZOrderColumn>)
    requires Sortable(numRows, columns)
  {
    (forall i :: 0 <= i < |perm| ==> perm[i] < numRows) &&
    forall i, j :: 0 <= i < j < |perm| ==> BitsLeq(Code(RowWords(columns, perm[i])), Code(RowWords(columns, perm[j])))
  }

  /** The row permutation: rejected when a column has the wrong count or no data, empty for no rows or
      no columns, and otherwise all row indices in non-decreasing Morton order. */
  method Sort(numRows: nat, columns: seq<ZOrderColumn>) returns (r: Result<seq<nat>>)
    requires forall c :: 0 <= c < |columns| ==> WellTyped(columns[c])
    ensures numRows == 0 || columns == [] ==> r == Ok([])
    ensures numRows > 0 && !CountsMatch(numRows, columns) ==> r == Err(OUT_OF_RANGE)
    ensures numRows > 0 && CountsMatch(numRows, columns) &&
            (exists c :: 0 <= c < |columns| && columns[c].data.None?) ==>
              r == Err(INVALID_ARGUMENT)
    ensures numRows > 0 && columns != [] && Sortable(numRows, columns) ==>
            r.Ok? && Sorting.Permutation(r.value, numRows) && SortedByCode(r.value, numRows, columns) &&
            (|columns| == 1 ==> ColumnSorted(columns[0], r.value))
  {
    hide ColumnSorted, SortedByCode;
    if numRows == 0 || columns == [] {
      return Ok([]);
    }
    var n := |columns|;
    var c := 0;
    while c < n
      invariant 0 <= c <= n
      invariant forall d :: 0 <= d < c ==> columns[d].count == numRows
    {
      if columns[c].count != numRows {
        return Err(OUT_OF_RANGE);
      }
      c := c + 1;
    }
    var all := NormalizeAll(numRows, columns);
    if all.Err? {
      return Err(all.error);
    }
    var perm: seq<nat>;
    if n == 2 {
      perm := SortFast(numRows, columns, all.value);
    } else {
      perm := SortGeneral(numRows, columns, all.value);
      if n == 1 {
        OneColumn(numRows, columns, perm);
      }
    }
    return Ok(perm);
  }

  method NormalizeAll(numRows: nat, columns: seq<ZOrderColumn>) returns (r: Result<seq<seq<bv32>>>)
    requires CountsMatch(numRows, columns) && forall c :: 0 <= c < |columns| ==> WellTyped(columns[c])
    ensures r.Ok? ==> Normalized(numRows, columns, r.value)
    ensures r.Err? ==> r == Err(INVALID_ARGUMENT) && exists c :: 0 <= c < |columns| && columns[c].data.None?
  {
    hide ColumnWord;
    var normalized: seq<seq<bv32>> := [];
    while |normalized| < |columns|
      invariant |normalized| <= |columns|
      invariant forall d :: 0 <= d < |normalized| ==> columns[d].data.Some? && |normalized[d]| == numRows
      invariant forall d, i :: 0 <= d < |normalized| && 0 <= i < numRows ==>
                  normalized[d][i] == ColumnWord(columns[d].ptype, columns[d].data.value[i])
    {
      var col := NormalizeColumn(columns[|normalized|]);
      if col.Err? {
        return Err(col.error);
      }
      normalized := normalized + [col.value];
    }
    return Ok(normalized);
  }

  method SortFast(numRows: nat, ghost columns: seq<ZOrderColumn>, normalized: seq<seq<bv32>>) returns (perm: seq<nat>)
    requires |normalized| == 2 && Normalized(numRows, columns, normalized)
    ensures Sorting.Permutation(perm, numRows) && SortedByCode(perm, numRows, columns)
  {
    hide KeyBits, BigEndian, Code, RowWords, Below64;
    var keys := FastKeys(numRows, columns, normalized);
    var less := (a: nat, b: nat) => a < |keys| && b < |keys| && Below64(keys[a], keys[b]);
    FastKeysWeak(keys, less);
    perm := Sorting.SortIndices(numRows, less);
    PermutationBelow(perm, numRows);
    FastSorted(numRows, columns, keys, less, perm);
  }

  method SortGeneral(numRows: nat, ghost columns: seq<ZOrderColumn>, normalized: seq<seq<bv32>>)
    returns (perm: seq<nat>)
    requires |normalized| != 2 && Normalized(numRows, columns, normalized)
    ensures Sorting.Permutation(perm, numRows) && SortedByCode(perm, numRows, columns)
  {
    hide KeyBits, Code, RowWords, LexLess;
    var keys := GeneralKeys(numRows, columns, normalized);
    var less := (a: nat, b: nat) => a < |keys| && b < |keys| && LexLess(keys[a], keys[b]);
    GeneralKeysWeak(keys, less);
    perm := Sorting.SortIndices(numRows, less);
    PermutationBelow(perm, numRows);
    GeneralSorted(numRows, columns, keys, less, perm);
  }

  lemma PermutationBelow(perm: seq<nat>, n: nat)
    requires Sorting.Permutation(perm, n)
    ensures |perm| == n && forall i :: 0 <= i < |perm| ==> perm[i] < n
  {
    assert |multiset(perm)| == n;
    forall i | 0 <= i < |perm| ensures perm[i] < n {
      assert perm[i] in multiset(perm);
      assert perm[i] in Sorting.Iota(n);
    }
  }

  ghost predicate Normalized(numRows: nat, columns: seq<ZOrderColumn>, normalized: seq<seq<bv32>>) {
    && Sortable(numRows, columns)
    && |normalized| == |columns|
    && (forall d :: 0 <= d < |columns| ==> |normalized[d]| == numRows)
    && (forall d, i :: 0 <= d < |columns| && 0 <= i < numRows ==>
          normalized[d][i] == ColumnWord(columns[d].ptype, columns[d].data.value[i]))
  }

  /** Keys of the two-column path: one unsigned word per row. */
  method FastKeys(numRows: nat, ghost columns: seq<ZOrderColumn>, normalized: seq<seq<bv32>>) returns (keys: seq<bv64>)
    requires |normalized| == 2 && Normalized(numRows, columns, normalized)
    ensures |keys| == numRows
    ensures forall r :: 0 <= r < numRows ==> KeyBits(BigEndian(keys[r], 8)) == Code(RowWords(columns, r))
  {
    hide Morton2D, BigEndian, KeyBits, Interleave, ColumnWord;
    keys := [];
    while |keys| < numRows
      invariant |keys| <= numRows
      invariant forall r :: 0 <= r < |keys| ==> KeyBits(BigEndian(keys[r], 8)) == Code(RowWords(columns, r))
    {
      var x, y := normalized[0][|keys|], normalized[1][|keys|];
      MortonIsInterleave(x, y);
      assert RowWords(columns, |keys|) == [x, y];
      keys := keys + [Morton2D(x, y)];
    }
  }

  lemma RowIs(numRows: nat, columns: seq<ZOrderColumn>, normalized: seq<seq<bv32>>, r: nat, row: seq<bv32>)
    requires Normalized(numRows, columns, normalized) && r < numRows && |row| == |normalized|
    requires forall c :: 0 <= c < |row| ==> row[c] == normalized[c][r]
    ensures row == RowWords(columns, r)
  {
    hide ColumnWord;
  }

  /** Keys of the general path: one byte string per row. */
  method GeneralKeys(numRows: nat, ghost columns: seq<ZOrderColumn>, normalized: seq<seq<bv32>>)
    returns (keys: seq<seq<bv8>>)
    requires |normalized| != 2 && Normalized(numRows, columns, normalized)
    ensures |keys| == numRows
    ensures forall r :: 0 <= r < numRows ==>
              |keys[r]| == 4 * |columns| && KeyBits(keys[r]) == Code(RowWords(columns, r))
  {
    hide KeyBits, Code, ColumnWord, RowWords;
    keys := [];
    while |keys| < numRows
      invariant |keys| <= numRows
      invariant forall r :: 0 <= r < |keys| ==>
                  |keys[r]| == 4 * |columns| && KeyBits(keys[r]) == Code(RowWords(columns, r))
    {
      var key := RowKey(numRows, columns, normalized, |keys|);
      keys := keys + [key];
    }
  }

  lemma CodeIs(key: seq<bv8>, ws: seq<bv32>)
    requires |ws| != 2 && |key| == (|ws| * 32 + 7) / 8 && KeyBits(key)[..32 * |ws|] == Interleave(ws, 32)
    ensures |key| == 4 * |ws| && KeyBits(key) == Code(ws)
  {
    hide KeyBits, Interleave;
    FourBytes(|ws|);
    assert KeyBits(key)[..32 * |ws|] == KeyBits(key);
  }

  lemma FourBytes(n: nat)
    ensures (n * 32 + 7) / 8 == 4 * n
  {
  }

  /** The general key of one row. */
  method RowKey(numRows: nat, ghost columns: seq<ZOrderColumn>, normalized: seq<seq<bv32>>, r: nat)
    returns (key: seq<bv8>)
    requires |normalized| != 2 && Normalized(numRows, columns, normalized) && r < numRows
    ensures |key| == 4 * |columns| && KeyBits(key) == Code(RowWords(columns, r))
  {
    hide KeyBits, Code, ColumnWord, RowWords;
    var rowVals: seq<bv32> := [];
    while |rowVals| < |normalized|
      invariant |rowVals| <= |normalized|
      invariant forall c :: 0 <= c < |rowVals| ==> rowVals[c] == normalized[c][r]
    {
      rowVals := rowVals + [normalized[|rowVals|][r]];
    }
    RowIs(numRows, columns, normalized, r, rowVals);
    key := MortonNd(rowVals, 32);
    CodeIs(key, rowVals);
  }

  lemma FastKeysWeak(keys: seq<bv64>, less: (nat, nat) -> bool)
    requires forall a: nat, b: nat :: less(a, b) <==> a < |keys| && b < |keys| && Below64(keys[a], keys[b])
    ensures Sorting.StrictWeak(less, |keys|)
  {
    hide U64, Below64;
    forall a: nat, b: nat | a < |keys| && b < |keys|
      ensures less(a, b) <==> U64(keys[a]) < U64(keys[b])
    {
      U64Below(keys[a], keys[b]);
    }
  }

  lemma GeneralKeysWeak(keys: seq<seq<bv8>>, less: (nat, nat) -> bool)
    requires forall a: nat, b: nat :: less(a, b) <==> a < |keys| && b < |keys| && LexLess(keys[a], keys[b])
    ensures Sorting.StrictWeak(less, |keys|)
  {
    hide LexLess;
    forall a: nat, b: nat | a < |keys| && b < |keys| && less(a, b) ensures !less(b, a) {
      LexTrichotomy(keys[a], keys[b]);
    }
    forall a: nat, b: nat, c: nat {:trigger less(b, a), less(c, b)} |
      a < |keys| && b < |keys| && c < |keys| && !less(b, a) && !less(c, b) ensures !less(c, a)
    {
      LexLeqTransitive(keys[a], keys[b], keys[c]);
    }
  }

  lemma FastSorted(numRows: nat, columns: seq<ZOrderColumn>, keys: seq<bv64>, less: (nat, nat) -> bool, perm: seq<nat>)
    requires Sortable(numRows, columns) && |keys| == numRows && |columns| == 2
    requires forall a: nat, b: nat :: less(a, b) <==> a < |keys| && b < |keys| && Below64(keys[a], keys[b])
    requires forall r :: 0 <= r < numRows ==> KeyBits(BigEndian(keys[r], 8)) == Code(RowWords(columns, r))
    requires Sorting.SortedBy(perm, less) && forall i :: 0 <= i < |perm| ==> perm[i] < numRows
    ensures SortedByCode(perm, numRows, columns)
  {
    hide KeyBits, BigEndian, Code, RowWords, BitsLeq, BitsLess, LexLess, Below64;
    forall i, j | 0 <= i < j < |perm|
      ensures BitsLeq(Code(RowWords(columns, perm[i])), Code(RowWords(columns, perm[j])))
    {
      assert !less(perm[j], perm[i]);
      var a, b := keys[perm[i]], keys[perm[j]];
      FastOrder(b, a);
      KeyOrder(BigEndian(b, 8), BigEndian(a, 8));
      NotLess(KeyBits(BigEndian(a, 8)), KeyBits(BigEndian(b, 8)));
    }
  }

  lemma GeneralSorted(numRows: nat, columns: seq<ZOrderColumn>, keys: seq<seq<bv8>>,
          less: (nat, nat) -> bool, perm: seq<nat>)
    requires Sortable(numRows, columns) && |keys| == numRows
    requires forall a: nat, b: nat :: less(a, b) <==> a < |keys| && b < |keys| && LexLess(keys[a], keys[b])
    requires forall r :: 0 <= r < numRows ==>
               |keys[r]| == 4 * |columns| && KeyBits(keys[r]) == Code(RowWords(columns, r))
    requires Sorting.SortedBy(perm, less) && forall i :: 0 <= i < |perm| ==> perm[i] < numRows
    ensures SortedByCode(perm, numRows, columns)
  {
    hide KeyBits, Code, RowWords, BitsLeq, BitsLess, LexLess;
    forall i, j | 0 <= i < j < |perm|
      ensures BitsLeq(Code(RowWords(columns, perm[i])), Code(RowWords(columns, perm[j])))
    {
      assert !less(perm[j], perm[i]);
      KeyOrder(keys[perm[j]], keys[perm[i]]);
      NotLess(KeyBits(keys[perm[i]]), KeyBits(keys[perm[j]]));
    }
  }

  lemma NotLess(a: seq<bool>, b: seq<bool>)
    requires |a| == |b| && !BitsLess(b, a)
    ensures BitsLeq(a, b)
  {
    BitsTrichotomy(a, b);
  }

  // ----- what the codes keep of rows -----

  /** The kept part of row a is at most that of row b in every column. */
  ghost predicate RowKeptLeq(columns: seq<ZOrderColumn>, a: nat, b: nat, numRows: nat)
    requires Sortable(numRows, columns) && a < numRows && b < numRows
  {
    forall c :: 0 <= c < |columns| ==> KeptLeq(columns[c].ptype, columns[c].data.value[a], columns[c].data.value[b])
  }

  /** The kept parts of two rows are the same in every column. */
  ghost predicate RowKeptSame(columns: seq<ZOrderColumn>, a: nat, b: nat, numRows: nat)
    requires Sortable(numRows, columns) && a < numRows && b < numRows
  {
    forall c :: 0 <= c < |columns| ==> KeptSame(columns[c].ptype, columns[c].data.value[a], columns[c].data.value[b])
  }

  lemma CodeInjective(x: seq<bv32>, y: seq<bv32>)
    requires |x| == |y| && Code(x) == Code(y)
    ensures x == y
  {
    hide Interleave;
    if |x| == 2 {
      InterleaveInjective([x[1], x[0]], [y[1], y[0]]);
      assert [x[1], x[0]][0] == [y[1], y[0]][0] && [x[1], x[0]][1] == [y[1], y[0]][1];
    } else {
      InterleaveInjective(x, y);
    }
  }

  /** Two rows have the same code exactly when the kept parts of all their values are the same. */
  lemma CodeKeeps(numRows: nat, columns: seq<ZOrderColumn>, a: nat, b: nat)
    requires Sortable(numRows, columns) && a < numRows && b < numRows
    ensures Code(RowWords(columns, a)) == Code(RowWords(columns, b)) <==> RowKeptSame(columns, a, b, numRows)
  {
    hide Code, KeptLeq, KeptSame, ColumnWord;
    var x, y := RowWords(columns, a), RowWords(columns, b);
    forall c | 0 <= c < |columns|
      ensures x[c] == y[c] <==> KeptSame(columns[c].ptype, columns[c].data.value[a], columns[c].data.value[b])
    {
      WordKeeps(columns[c].ptype, columns[c].data.value[a], columns[c].data.value[b]);
    }
    if Code(x) == Code(y) {
      CodeInjective(x, y);
    }
    if RowKeptSame(columns, a, b, numRows) {
      assert x == y;
    }
  }

  /** A row whose kept parts are at most another's in every column has a code at most the other's. */
  lemma CodeFollows(numRows: nat, columns: seq<ZOrderColumn>, a: nat, b: nat)
    requires Sortable(numRows, columns) && a < numRows && b < numRows && RowKeptLeq(columns, a, b, numRows)
    ensures BitsLeq(Code(RowWords(columns, a)), Code(RowWords(columns, b)))
  {
    hide Interleave, BitsLeq, ColumnWord, AtMost, KeptLeq, KeptSame;
    var x, y := RowWords(columns, a), RowWords(columns, b);
    forall c | 0 <= c < |columns| ensures AtMost(x[c], y[c]) {
      WordKeeps(columns[c].ptype, columns[c].data.value[a], columns[c].data.value[b]);
    }
    if |x| == 2 {
      InterleaveMonotone([x[1], x[0]], [y[1], y[0]], 32);
    } else {
      InterleaveMonotone(x, y, 32);
    }
  }

  /** In a sorted result, a later row whose kept parts are at most an earlier one's in every column has
      the same kept parts: strictly smaller rows come first. */
  lemma SortedRows(numRows: nat, columns: seq<ZOrderColumn>, perm: seq<nat>, i: nat, j: nat)
    requires Sortable(numRows, columns) && SortedByCode(perm, numRows, columns)
    requires i < j < |perm| && RowKeptLeq(columns, perm[j], perm[i], numRows)
    ensures RowKeptSame(columns, perm[i], perm[j], numRows)
  {
    hide Code, RowWords, RowKeptLeq, RowKeptSame, BitsLess;
    CodeFollows(numRows, columns, perm[j], perm[i]);
    BitsTrichotomy(Code(RowWords(columns, perm[i])), Code(RowWords(columns, perm[j])));
    CodeKeeps(numRows, columns, perm[i], perm[j]);
  }

  lemma KeptTotal(t: PhysicalType, a: Value, b: Value)
    requires HasType(a, t) && HasType(b, t)
    ensures KeptLeq(t, a, b) || KeptLeq(t, b, a)
    ensures KeptLeq(t, a, b) && KeptLeq(t, b, a) <==> KeptSame(t, a, b)
  {
    hide KeptLeq, KeptSame, ColumnWord, AtMost;
    WordKeeps(t, a, b);
    WordKeeps(t, b, a);
    AtMostTotal(ColumnWord(t, a), ColumnWord(t, b));
  }

  /** A single column comes out in the order of its values, as far as the key keeps them. */
  ghost predicate ColumnSorted(col: ZOrderColumn, perm: seq<nat>)
    requires WellTyped(col) && col.data.Some? && forall i :: 0 <= i < |perm| ==> perm[i] < col.count
  {
    forall i, j :: 0 <= i < j < |perm| ==> KeptLeq(col.ptype, col.data.value[perm[i]], col.data.value[perm[j]])
  }

  lemma OneColumn(numRows: nat, columns: seq<ZOrderColumn>, perm: seq<nat>)
    requires |columns| == 1 && Sortable(numRows, columns) && SortedByCode(perm, numRows, columns)
    ensures ColumnSorted(columns[0], perm)
  {
    hide KeptLeq, KeptSame, BitsLeq, Code, RowWords;
    var col := columns[0];
    forall i, j | 0 <= i < j < |perm|
      ensures KeptLeq(col.ptype, col.data.value[perm[i]], col.data.value[perm[j]])
    {
      var a, b := col.data.value[perm[i]], col.data.value[perm[j]];
      KeptTotal(col.ptype, a, b);
      if KeptLeq(col.ptype, b, a) {
        assert RowKeptLeq(columns, perm[j], perm[i], numRows);
        SortedRows(numRows, columns, perm, i, j);
        assert KeptSame(columns[0].ptype, a, b);
      }
    }
  }

  // ----- what the order means for rows -----

  /** Row a is at most row b in every column. */
  ghost predicate RowLeq(columns: seq<ZOrderColumn>, a: nat, b: nat, numRows: nat)
    requires Sortable(numRows, columns) && a < numRows && b < numRows
  {
    forall c :: 0 <= c < |columns| ==> ColumnLeq(columns[c].data.value[a], columns[c].data.value[b])
  }

  /** What is kept follows the order of the values. */
  lemma KeepsOrder(t: PhysicalType, a: Value, b: Value)
    requires HasType(a, t) && HasType(b, t) && ColumnLeq(a, b)
    ensures KeptLeq(t, a, b)
  {
    hide KeptLeq, KeptSame, ColumnLeq, Normalize, AtMost;
    WordKeeps(t, a, b);
    NormalizeMonotone(a, b);
    AtMostSelf(0);
  }

  /** A row that is at most another in every column has a code at most the other's, whatever the
      number and the types of the columns. */
  lemma CodeMonotone(numRows: nat, columns: seq<ZOrderColumn>, a: nat, b: nat)
    requires Sortable(numRows, columns) && a < numRows && b < numRows
    requires RowLeq(columns, a, b, numRows)
    ensures BitsLeq(Code(RowWords(columns, a)), Code(RowWords(columns, b)))
  {
    hide Code, RowWords, BitsLeq, ColumnLeq, KeptLeq;
    forall c | 0 <= c < |columns|
      ensures KeptLeq(columns[c].ptype, columns[c].data.value[a], columns[c].data.value[b])
    {
      KeepsOrder(columns[c].ptype, columns[c].data.value[a], columns[c].data.value[b]);
    }
    CodeFollows(numRows, columns, a, b);
  }

  /** In a sorted result, a later row that is at most an earlier one in every column ties with it. */
  lemma DominatedRowsTie(numRows: nat, columns: seq<ZOrderColumn>, perm: seq<nat>, i: nat, j: nat)
    requires Sortable(numRows, columns) && SortedByCode(perm, numRows, columns)
    requires i < j < |perm| && RowLeq(columns, perm[j], perm[i], numRows)
    ensures Code(RowWords(columns, perm[i])) == Code(RowWords(columns, perm[j]))
  {
    hide Code, RowWords, RowLeq, BitsLess;
    CodeMonotone(numRows, columns, perm[j], perm[i]);
    BitsTrichotomy(Code(RowWords(columns, perm[i])), Code(RowWords(columns, perm[j])));
  }

  /** On two columns the general code of the swapped columns is the fast code, byte for byte. */
  lemma FastIsGeneral(x: bv32, y: bv32, key: seq<bv8>)
    requires |key| == 8 && KeyBits(key) == Interleave([y, x], 32)
    ensures key == BigEndian(Morton2D(x, y), 8)
  {
    hide KeyBits, Interleave, Morton2D, BigEndian;
    MortonIsInterleave(x, y);
    KeyOrder(key, BigEndian(Morton2D(x, y), 8));
  }
}
