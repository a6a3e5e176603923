/** Machine words as bit patterns, their numeric values and their little-endian bytes. */
module Words {
  import opened Bits

  const TWO31: int := 0x8000_0000
  const TWO32: int := 0x1_0000_0000
  const TWO63: int := 0x8000_0000_0000_0000
  const TWO64: int := 0x1_0000_0000_0000_0000

  function U8(b: bv8): (n: nat)
    ensures n < 256
  {
    b as int
  }

  /** The byte with a given value. */
  function Byte(n: nat): (b: bv8)
    requires n < 256
  {
    JoinBits(NatBits(n, 8))
  }

  lemma ByteValue(n: nat)
    requires n < 256
    ensures U8(Byte(n)) == n
  {
    hide JoinBits, U8, NatBits, BitsNat;
    assert Pow2(8) == 256;
    NatBitsValue(n, 8);
    JoinedBits(NatBits(n, 8));
    U8Bits(Byte(n));
  }

  lemma U8Bits(b: bv8)
    ensures U8(b) == BitsNat(ByteBits(b))
  {
    RawU8Bits(b);
    hide U8, ByteBits;
    ByteBitsAt(b);
    BitsNat8(ByteBits(b));
  }

  lemma RawU8Bits(b: bv8)
    ensures U8(b) == BitNat(b & 1 != 0) + 2 * BitNat(b & 2 != 0) + 4 * BitNat(b & 4 != 0) + 8 * BitNat(b & 8 != 0) +
                     16 * BitNat(b & 16 != 0) + 32 * BitNat(b & 32 != 0) +
                     64 * BitNat(b & 64 != 0) + 128 * BitNat(b & 128 != 0)
  {
  }

  lemma U8Order(a: bv8, b: bv8)
    ensures a < b <==> U8(a) < U8(b)
    ensures a == b <==> U8(a) == U8(b)
  {
  }

  // ----- 32-bit words -----

  function Le32(w: bv32): (s: seq<bv8>)
    ensures |s| == 4
  {
    [(w & 0xFF) as bv8, ((w >> 8) & 0xFF) as bv8, ((w >> 16) & 0xFF) as bv8, (w >> 24) as bv8]
  }

  function FromLe32(s: seq<bv8>): bv32
    requires |s| == 4
  {
    (s[0] as bv32) | ((s[1] as bv32) << 8) | ((s[2] as bv32) << 16) | ((s[3] as bv32) << 24)
  }

  lemma Le32RoundTrip(w: bv32)
    ensures FromLe32(Le32(w)) == w
  {
  }

  lemma FromLe32RoundTrip(s: seq<bv8>)
    requires |s| == 4
    ensures Le32(FromLe32(s)) == s
  {
  }

  /** The number spelled by four little-endian bytes. */
  function LeValue(s: seq<bv8>): (n: nat)
    requires |s| == 4
    ensures n < TWO32
  {
    U8(s[0]) + 0x100 * U8(s[1]) + 0x1_0000 * U8(s[2]) + 0x100_0000 * U8(s[3])
  }

  /** The four little-endian bytes of a number. */
  function LeBytes(n: nat): (s: seq<bv8>)
    requires n < TWO32
    ensures |s| == 4
  {
    [Byte(n % 0x100), Byte(n / 0x100 % 0x100), Byte(n / 0x1_0000 % 0x100), Byte(n / 0x100_0000)]
  }

  lemma LeBytesRoundTrip(n: nat)
    requires n < TWO32
    ensures LeValue(LeBytes(n)) == n
  {
    hide U8, Byte;
    ByteValue(n % 0x100);
    ByteValue(n / 0x100 % 0x100);
    ByteValue(n / 0x1_0000 % 0x100);
    ByteValue(n / 0x100_0000);
    Digits(n);
  }

  lemma Digits(n: nat)
    ensures n == n % 0x100 + 0x100 * (n / 0x100 % 0x100) + 0x1_0000 * (n / 0x1_0000 % 0x100) +
                 0x100_0000 * (n / 0x100_0000)
  {
    var a := n / 0x100;
    var b := a / 0x100;
    assert b == n / 0x1_0000;
    assert b / 0x100 == n / 0x100_0000;
  }

  lemma LeValueInjective(s: seq<bv8>, t: seq<bv8>)
    requires |s| == |t| == 4 && LeValue(s) == LeValue(t)
    ensures s == t
  {
    hide U8;
    U8Order(s[0], t[0]);
    U8Order(s[1], t[1]);
    U8Order(s[2], t[2]);
    U8Order(s[3], t[3]);
  }

  /** The unsigned value of a word. */
  function U32(w: bv32): (n: nat)
    ensures n < TWO32
  {
    LeValue(Le32(w))
  }

  function W32(n: nat): bv32
    requires n < TWO32
  {
    FromLe32(LeBytes(n))
  }

  lemma W32Value(n: nat)
    requires n < TWO32
    ensures U32(W32(n)) == n
  {
    hide Le32, FromLe32, LeValue, LeBytes;
    FromLe32RoundTrip(LeBytes(n));
    LeBytesRoundTrip(n);
  }

  lemma U32Injective(a: bv32, b: bv32)
    requires U32(a) == U32(b)
    ensures a == b
  {
    hide Le32, FromLe32, LeValue;
    LeValueInjective(Le32(a), Le32(b));
    Le32RoundTrip(a);
    Le32RoundTrip(b);
  }

  lemma U32Order(a: bv32, b: bv32)
    ensures a < b <==> U32(a) < U32(b)
    ensures a <= b <==> U32(a) <= U32(b)
  {
    hide U32;
    if U32(a) < U32(b) {
      U32Less(a, b);
      LessFacts32(a, b);
    } else if U32(b) < U32(a) {
      U32Less(b, a);
      LessFacts32(b, a);
    } else {
      U32Injective(a, b);
    }
  }

  /** The machine's unsigned comparisons. */
  predicate AtMost(x: bv32, y: bv32) { x <= y }

  predicate Below(x: bv32, y: bv32) { x < y }

  lemma U32AtMost(a: bv32, b: bv32)
    ensures AtMost(a, b) <==> U32(a) <= U32(b)
    ensures Below(a, b) <==> U32(a) < U32(b)
  {
    hide U32;
    U32Order(a, b);
  }

  lemma BelowAtMost(a: bv32, b: bv32)
    requires a < b
    ensures AtMost(a, b)
  {
  }

  lemma AtMostSelf(a: bv32)
    ensures AtMost(a, a)
  {
  }

  lemma LessFacts32(a: bv32, b: bv32)
    requires a < b
    ensures !(b < a) && a <= b && !(b <= a)
  {
  }

  lemma U32Less(a: bv32, b: bv32)
    requires U32(a) < U32(b)
    ensures a < b
  {
    hide U8, Le32;
    var s, t := Le32(a), Le32(b);
    U8Order(s[0], t[0]);
    U8Order(s[1], t[1]);
    U8Order(s[2], t[2]);
    U8Order(s[3], t[3]);
    if s[3] != t[3] {
      TopByteLess(a, b);
    } else if s[2] != t[2] {
      ThirdByteLess(a, b);
    } else if s[1] != t[1] {
      SecondByteLess(a, b);
    } else {
      FirstByteLess(a, b);
    }
  }

  lemma TopByteLess(a: bv32, b: bv32)
    requires Le32(a)[3] < Le32(b)[3]
    ensures a < b
  {
  }

  lemma ThirdByteLess(a: bv32, b: bv32)
    requires Le32(a)[3] == Le32(b)[3] && Le32(a)[2] < Le32(b)[2]
    ensures a < b
  {
  }

  lemma SecondByteLess(a: bv32, b: bv32)
    requires Le32(a)[3] == Le32(b)[3] && Le32(a)[2] == Le32(b)[2] && Le32(a)[1] < Le32(b)[1]
    ensures a < b
  {
  }

  lemma FirstByteLess(a: bv32, b: bv32)
    requires Le32(a)[3] == Le32(b)[3] && Le32(a)[2] == Le32(b)[2] && Le32(a)[1] == Le32(b)[1] && Le32(a)[0] < Le32(b)[0]
    ensures a < b
  {
  }

  /** The two's-complement value of a word. */
  function S32(w: bv32): int {
    if U32(w) < TWO31 then U32(w) else U32(w) - TWO32
  }

  // ----- 64-bit words, as two halves -----

  function Lo(w: bv64): bv32 { (w & 0xFFFF_FFFF) as bv32 }

  function Hi(w: bv64): bv32 { (w >> 32) as bv32 }

  function Join(lo: bv32, hi: bv32): bv64 { (lo as bv64) | ((hi as bv64) << 32) }

  lemma JoinSplit(w: bv64)
    ensures Join(Lo(w), Hi(w)) == w
  {
  }

  lemma SplitJoin(lo: bv32, hi: bv32)
    ensures Lo(Join(lo, hi)) == lo && Hi(Join(lo, hi)) == hi
  {
  }

  lemma HalvesLess(a: bv64, b: bv64)
    requires Hi(a) < Hi(b) || (Hi(a) == Hi(b) && Lo(a) < Lo(b))
    ensures a < b
  {
    if Hi(a) < Hi(b) {
      HighHalfLess(a, b);
    } else {
      LowHalfLess(a, b);
    }
  }

  lemma HighHalfLess(a: bv64, b: bv64)
    requires (a >> 32) as bv32 < (b >> 32) as bv32
    ensures a < b
  {
  }

  lemma LowHalfLess(a: bv64, b: bv64)
    requires (a >> 32) as bv32 == (b >> 32) as bv32 && (a & 0xFFFF_FFFF) as bv32 < (b & 0xFFFF_FFFF) as bv32
    ensures a < b
  {
  }

  function Le64(w: bv64): (s: seq<bv8>)
    ensures |s| == 8
  {
    Le32(Lo(w)) + Le32(Hi(w))
  }

  function FromLe64(s: seq<bv8>): bv64
    requires |s| == 8
  {
    Join(FromLe32(s[..4]), FromLe32(s[4..]))
  }

  lemma Le64RoundTrip(w: bv64)
    ensures FromLe64(Le64(w)) == w
  {
    hide Le32, FromLe32, Lo, Hi, Join;
    assert Le64(w)[..4] == Le32(Lo(w)) && Le64(w)[4..] == Le32(Hi(w));
    Le32RoundTrip(Lo(w));
    Le32RoundTrip(Hi(w));
    JoinSplit(w);
  }

  function U64(w: bv64): (n: nat)
    ensures n < TWO64
  {
    U32(Lo(w)) + TWO32 * U32(Hi(w))
  }

  function W64(n: nat): bv64
    requires n < TWO64
  {
    Join(W32(n % TWO32), W32(n / TWO32))
  }

  lemma W64Value(n: nat)
    requires n < TWO64
    ensures U64(W64(n)) == n
  {
    hide U32, W32, Lo, Hi, Join;
    SplitJoin(W32(n % TWO32), W32(n / TWO32));
    W32Value(n % TWO32);
    W32Value(n / TWO32);
  }

  lemma U64Injective(a: bv64, b: bv64)
    requires U64(a) == U64(b)
    ensures a == b
  {
    hide U32, Lo, Hi, Join;
    U32Injective(Lo(a), Lo(b));
    U32Injective(Hi(a), Hi(b));
    JoinSplit(a);
    JoinSplit(b);
  }

  lemma U64Order(a: bv64, b: bv64)
    ensures a < b <==> U64(a) < U64(b)
    ensures a <= b <==> U64(a) <= U64(b)
  {
    hide U64;
    if U64(a) < U64(b) {
      U64Less(a, b);
      LessFacts64(a, b);
    } else if U64(b) < U64(a) {
      U64Less(b, a);
      LessFacts64(b, a);
    } else {
      U64Injective(a, b);
    }
  }

  predicate Below64(x: bv64, y: bv64) { x < y }

  lemma Below64Facts(a: bv64, b: bv64)
    requires a < b
    ensures Below64(a, b) && !Below64(b, a)
  {
  }

  lemma Below64Irreflexive(a: bv64)
    ensures !Below64(a, a)
  {
  }

  lemma U64Below(a: bv64, b: bv64)
    ensures Below64(a, b) <==> U64(a) < U64(b)
  {
    hide U64;
    U64Order(a, b);
  }

  lemma LessFacts64(a: bv64, b: bv64)
    requires a < b
    ensures !(b < a) && a <= b && !(b <= a)
  {
  }

  lemma U64Less(a: bv64, b: bv64)
    requires U64(a) < U64(b)
    ensures a < b
  {
    hide U32, Lo, Hi;
    if U32(Hi(a)) < U32(Hi(b)) {
      U32Less(Hi(a), Hi(b));
    } else {
      U32Injective(Hi(a), Hi(b));
      U32Less(Lo(a), Lo(b));
    }
    HalvesLess(a, b);
  }

  function S64(w: bv64): int {
    if U64(w) < TWO63 then U64(w) else U64(w) - TWO64
  }

  /** The word holding a signed number. */
  function FromS64(v: int): bv64
    requires -TWO63 <= v < TWO63
  {
    W64(if v < 0 then v + TWO64 else v)
  }

  lemma FromS64Value(v: int)
    requires -TWO63 <= v < TWO63
    ensures S64(FromS64(v)) == v
  {
    hide U64, W64;
    W64Value(if v < 0 then v + TWO64 else v);
  }

  lemma S64Injective(a: bv64, b: bv64)
    requires S64(a) == S64(b)
    ensures a == b
  {
    hide U64;
    U64Injective(a, b);
  }

  lemma FromS64OfS64(w: bv64)
    ensures -TWO63 <= S64(w) < TWO63 && FromS64(S64(w)) == w
  {
    hide S64, FromS64;
    assert -TWO63 <= S64(w) < TWO63 by { S64Range(w); }
    FromS64Value(S64(w));
    S64Injective(w, FromS64(S64(w)));
  }

  lemma S64Range(w: bv64)
    ensures -TWO63 <= S64(w) < TWO63
  {
    hide U64;
  }

  function FromS32(v: int): bv32
    requires -TWO31 <= v < TWO31
  {
    W32(if v < 0 then v + TWO32 else v)
  }

  lemma FromS32OfS32(w: bv32)
    ensures -TWO31 <= S32(w) < TWO31 && FromS32(S32(w)) == w
  {
    hide U32, W32;
    var n := U32(w);
    W32Value(n);
    U32Injective(W32(n), w);
  }

  // ----- flipping bits -----

  lemma FlipTop32(w: bv32)
    ensures U32(w ^ 0x8000_0000) == if U32(w) < TWO31 then U32(w) + TWO31 else U32(w) - TWO31
  {
    hide Le32, U8;
    FlipTopBytes(w);
    FlipTop8(Le32(w)[3]);
  }

  lemma FlipTopBytes(w: bv32)
    ensures var s, t := Le32(w), Le32(w ^ 0x8000_0000);
            t[0] == s[0] && t[1] == s[1] && t[2] == s[2] && t[3] == s[3] ^ 0x80
  {
    FlipTopRaw(w);
  }

  lemma FlipTopRaw(w: bv32)
    ensures ((w ^ 0x8000_0000) & 0xFF) == w & 0xFF
    ensures (((w ^ 0x8000_0000) >> 8) & 0xFF) == (w >> 8) & 0xFF
    ensures (((w ^ 0x8000_0000) >> 16) & 0xFF) == (w >> 16) & 0xFF
    ensures ((w ^ 0x8000_0000) >> 24) as bv8 == ((w >> 24) as bv8) ^ 0x80
  {
  }

  lemma FlipTop8(b: bv8)
    ensures U8(b ^ 0x80) == if U8(b) < 128 then U8(b) + 128 else U8(b) - 128
  {
  }

  lemma FlipAll8(b: bv8)
    ensures U8(b ^ 0xFF) == 255 - U8(b)
  {
  }

  lemma FlipAll32(w: bv32)
    ensures U32(w ^ 0xFFFF_FFFF) == TWO32 - 1 - U32(w)
  {
    hide Le32, U8;
    FlipAllBytes(w);
    FlipAll8(Le32(w)[0]);
    FlipAll8(Le32(w)[1]);
    FlipAll8(Le32(w)[2]);
    FlipAll8(Le32(w)[3]);
  }

  lemma FlipAllBytes(w: bv32)
    ensures var s, t := Le32(w), Le32(w ^ 0xFFFF_FFFF);
            t[0] == s[0] ^ 0xFF && t[1] == s[1] ^ 0xFF && t[2] == s[2] ^ 0xFF && t[3] == s[3] ^ 0xFF
  {
    FlipAllRaw(w);
  }

  lemma FlipAllRaw(w: bv32)
    ensures ((w ^ 0xFFFF_FFFF) & 0xFF) as bv8 == ((w & 0xFF) as bv8) ^ 0xFF
    ensures (((w ^ 0xFFFF_FFFF) >> 8) & 0xFF) as bv8 == (((w >> 8) & 0xFF) as bv8) ^ 0xFF
    ensures (((w ^ 0xFFFF_FFFF) >> 16) & 0xFF) as bv8 == (((w >> 16) & 0xFF) as bv8) ^ 0xFF
    ensures ((w ^ 0xFFFF_FFFF) >> 24) as bv8 == ((w >> 24) as bv8) ^ 0xFF
  {
  }

  // ----- shifting left by one -----

  function TopBit8(b: bv8): (n: nat)
    ensures n <= 1
  {
    if U8(b) >= 128 then 1 else 0
  }

  lemma Shift8(b: bv8, c: bv8)
    ensures U8(ShiftIn8(b, c)) == 2 * U8(b) - 256 * TopBit8(b) + TopBit8(c)
  {
    Doubled8(b, c >> 7);
    RawCarry(c);
  }

  lemma RawCarry(c: bv8)
    ensures c >> 7 <= 1 && (c >> 7) as int == TopBit8(c)
  {
  }

  lemma Doubled8(b: bv8, c: bv8)
    requires c <= 1
    ensures U8((b << 1) | c) == 2 * U8(b) - 256 * TopBit8(b) + c as int
  {
  }

  /** A word shifted left by one, taking in the top bit of another. */
  function ShiftIn(w: bv32, c: bv32): bv32 { (w << 1) | (c >> 31) }

  function ShiftIn8(b: bv8, c: bv8): bv8 { (b << 1) | (c >> 7) }

  function TopBit32(w: bv32): (n: nat)
    ensures n <= 1
  {
    TopBit8(Le32(w)[3])
  }

  lemma TopBitIs(w: bv32)
    ensures TopBit32(w) == if U32(w) >= TWO31 then 1 else 0
  {
    hide Le32, U8;
  }

  /** Shifting a word left doubles it and takes in a carry. */
  lemma Shift32(w: bv32, c: bv32)
    ensures U32(ShiftIn(w, c)) == 2 * U32(w) - TWO32 * TopBit32(w) + TopBit32(c)
  {
    ShiftBytes(w, c);
    hide Le32, U8, ShiftIn, ShiftIn8, TopBit8;
    var s, d := Le32(w), Le32(c)[3];
    Shift8(s[0], d);
    Shift8(s[1], s[0]);
    Shift8(s[2], s[1]);
    Shift8(s[3], s[2]);
  }

  lemma ShiftBytes(w: bv32, c: bv32)
    ensures var s, t := Le32(w), Le32(ShiftIn(w, c));
            t[0] == ShiftIn8(s[0], Le32(c)[3]) && t[1] == ShiftIn8(s[1], s[0]) &&
            t[2] == ShiftIn8(s[2], s[1]) && t[3] == ShiftIn8(s[3], s[2])
  {
    ShiftRaw(w, c);
  }

  lemma ShiftRaw(w: bv32, c: bv32)
    ensures var t := (w << 1) | (c >> 31);
            (t & 0xFF) as bv8 == (((w & 0xFF) as bv8) << 1) | (((c >> 24) as bv8) >> 7) &&
            ((t >> 8) & 0xFF) as bv8 == ((((w >> 8) & 0xFF) as bv8) << 1) | (((w & 0xFF) as bv8) >> 7) &&
            ((t >> 16) & 0xFF) as bv8 == ((((w >> 16) & 0xFF) as bv8) << 1) | ((((w >> 8) & 0xFF) as bv8) >> 7) &&
            (t >> 24) as bv8 == (((w >> 24) as bv8) << 1) | ((((w >> 16) & 0xFF) as bv8) >> 7)
  {
  }

  /** Shifting a 64-bit word left doubles it, modulo its size. */
  lemma Shift64(w: bv64)
    ensures U64(w << 1) == 2 * U64(w) - (if U64(w) >= TWO63 then TWO64 else 0)
  {
    ShiftHalves(w);
    hide U32, Lo, Hi, ShiftIn, TopBit32;
    Shift32(Lo(w), 0);
    Shift32(Hi(w), Lo(w));
    U32OfZero();
    TopBitIs(0);
    TopBitIs(Lo(w));
    TopBitIs(Hi(w));
  }

  lemma ShiftHalves(w: bv64)
    ensures Lo(w << 1) == ShiftIn(Lo(w), 0) && Hi(w << 1) == ShiftIn(Hi(w), Lo(w))
  {
  }

  /** Flipping every bit of a 64-bit word. */
  lemma FlipAll64(w: bv64)
    ensures U64(w ^ 0xFFFF_FFFF_FFFF_FFFF) == TWO64 - 1 - U64(w)
  {
    hide U32, Lo, Hi;
    FlipHalves(w);
    FlipAll32(Lo(w));
    FlipAll32(Hi(w));
  }

  lemma FlipHalves(w: bv64)
    ensures Hi(w ^ 0xFFFF_FFFF_FFFF_FFFF) == Hi(w) ^ 0xFFFF_FFFF && Lo(w ^ 0xFFFF_FFFF_FFFF_FFFF) == Lo(w) ^ 0xFFFF_FFFF
  {
  }

  lemma SignBit64(w: bv64)
    ensures w & 0x8000_0000_0000_0000 != 0 <==> U64(w) >= TWO63
  {
    hide U32, Lo, Hi;
    RawSign64(w);
    U32Order(Hi(w), 0x8000_0000);
    U32OfTop();
  }

  lemma RawSign64(w: bv64)
    ensures w & 0x8000_0000_0000_0000 != 0 <==> Hi(w) >= 0x8000_0000
  {
  }

  lemma U32OfTop()
    ensures U32(0x8000_0000) == TWO31
  {
  }

  lemma U32OfZero()
    ensures U32(0) == 0
  {
  }
}
