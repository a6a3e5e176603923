/** Bits, least significant first: of bytes, of byte strings and of numbers. */
module Bits {

  /** The byte with only bit i set. */
  function ByteMask(i: nat): bv8 {
    if i == 0 then 1 else ByteMask(i - 1) << 1
  }

  /** The bits of a byte, least significant first. */
  function ByteBits(b: bv8): (bits: seq<bool>)
    ensures |bits| == 8
  {
    [b & 1 != 0, b & 2 != 0, b & 4 != 0, b & 8 != 0, b & 16 != 0, b & 32 != 0, b & 64 != 0, b & 128 != 0]
  }

  lemma ByteBitsAt(b: bv8)
    ensures var s := ByteBits(b);
            s[0] == (b & 1 != 0) && s[1] == (b & 2 != 0) && s[2] == (b & 4 != 0) && s[3] == (b & 8 != 0) &&
            s[4] == (b & 16 != 0) && s[5] == (b & 32 != 0) && s[6] == (b & 64 != 0) && s[7] == (b & 128 != 0)
  {
  }

  lemma RawOr(b: bv8, m: bv8, k: bv8)
    ensures (b | m) & k != 0 <==> b & k != 0 || m & k != 0
  {
  }

  /** Or-ing two bytes sets the bits of either. */
  lemma OrBits(b: bv8, m: bv8, i: nat)
    requires i < 8
    ensures ByteBits(b | m)[i] == (ByteBits(b)[i] || ByteBits(m)[i])
  {
    hide ByteBits;
    ByteBitsAt(b);
    ByteBitsAt(m);
    ByteBitsAt(b | m);
    RawOr(b, m, 1); RawOr(b, m, 2); RawOr(b, m, 4); RawOr(b, m, 8);
    RawOr(b, m, 16); RawOr(b, m, 32); RawOr(b, m, 64); RawOr(b, m, 128);
  }

  lemma ByteMasks()
    ensures ByteMask(0) == 1 && ByteMask(1) == 2 && ByteMask(2) == 4 && ByteMask(3) == 8
    ensures ByteMask(4) == 16 && ByteMask(5) == 32 && ByteMask(6) == 64 && ByteMask(7) == 128
  {
    assert ByteMask(3) == 8;
    assert ByteMask(5) == 32;
  }

  lemma MaskBits(j: nat, i: nat)
    requires j < 8 && i < 8
    ensures ByteBits(ByteMask(j))[i] <==> i == j
  {
    ByteMasks();
  }

  lemma SetBit(b: bv8, j: nat, i: nat)
    requires j < 8 && i < 8
    ensures ByteBits(b | ByteMask(j))[i] == (i == j || ByteBits(b)[i])
  {
    hide ByteBits, ByteMask;
    OrBits(b, ByteMask(j), i);
    MaskBits(j, i);
  }

  lemma ZeroBits(i: nat)
    requires i < 8
    ensures !ByteBits(0)[i]
  {
  }

  // ----- bytes from bits -----

  function MaskIf(b: bool, m: bv8): bv8 { if b then m else 0 }

  function JoinBits(s: seq<bool>): bv8
    requires |s| == 8
  {
    MaskIf(s[0], 1) | MaskIf(s[1], 2) | MaskIf(s[2], 4) | MaskIf(s[3], 8) |
    MaskIf(s[4], 16) | MaskIf(s[5], 32) | MaskIf(s[6], 64) | MaskIf(s[7], 128)
  }

  lemma JoinedBits(s: seq<bool>)
    requires |s| == 8
    ensures ByteBits(JoinBits(s)) == s
  {
    RawJoined(s[0], s[1], s[2], s[3], s[4], s[5], s[6], s[7]);
    hide ByteBits, MaskIf;
    ByteBitsAt(JoinBits(s));
  }

  lemma RawJoined(a: bool, b: bool, c: bool, d: bool, e: bool, f: bool, g: bool, h: bool)
    ensures var w := MaskIf(a, 1) | MaskIf(b, 2) | MaskIf(c, 4) | MaskIf(d, 8) |
                     MaskIf(e, 16) | MaskIf(f, 32) | MaskIf(g, 64) | MaskIf(h, 128);
      (w & 1 != 0 <==> a) && (w & 2 != 0 <==> b) && (w & 4 != 0 <==> c) && (w & 8 != 0 <==> d) &&
      (w & 16 != 0 <==> e) && (w & 32 != 0 <==> f) && (w & 64 != 0 <==> g) && (w & 128 != 0 <==> h)
  {
  }

  // ----- the bits of a byte string -----

  function BitsOf(data: seq<bv8>): (bits: seq<bool>)
    ensures |bits| == 8 * |data|
  {
    if data == [] then [] else ByteBits(data[0]) + BitsOf(data[1..])
  }

  lemma {:induction false} BitsOfAt(data: seq<bv8>, k: nat)
    requires k < 8 * |data|
    ensures BitsOf(data)[k] == ByteBits(data[k / 8])[k % 8]
  {
    hide ByteBits;
    if k >= 8 {
      BitsOfAt(data[1..], k - 8);
      assert (k - 8) / 8 == k / 8 - 1 && (k - 8) % 8 == k % 8;
    }
  }

  lemma {:induction false} BitsOfConcat(a: seq<bv8>, b: seq<bv8>)
    ensures BitsOf(a + b) == BitsOf(a) + BitsOf(b)
  {
    hide ByteBits;
    if a == [] {
      assert a + b == b;
    } else {
      assert (a + b)[1..] == a[1..] + b;
      BitsOfConcat(a[1..], b);
    }
  }

  // ----- the binary digits of a number -----

  function Pow2(n: nat): (p: nat)
    ensures p >= 1
  {
    if n == 0 then 1 else 2 * Pow2(n - 1)
  }

  lemma {:induction false} Pow2Monotone(a: nat, b: nat)
    requires a <= b
    ensures Pow2(a) <= Pow2(b)
    decreases b
  {
    if a < b {
      Pow2Monotone(a, b - 1);
    }
  }

  lemma {:induction false} Pow2Add(a: nat, b: nat)
    ensures Pow2(a + b) == Pow2(a) * Pow2(b)
  {
    if a > 0 {
      Pow2Add(a - 1, b);
    }
  }

  lemma Pow2Product(a: nat, b: nat, x: nat, y: nat)
    requires Pow2(a) == x && Pow2(b) == y
    ensures Pow2(a + b) == x * y
  {
    Pow2Add(a, b);
  }

  lemma Pow2At8()
    ensures Pow2(4) == 16 && Pow2(7) == 128 && Pow2(8) == 256
  {
    assert Pow2(4) == 16;
  }

  lemma Pow2At20()
    ensures Pow2(16) == 0x1_0000 && Pow2(20) == 0x10_0000
  {
    Pow2At8();
    hide Pow2;
    Pow2Product(8, 8, 256, 256);
    Pow2Product(16, 4, 0x1_0000, 16);
  }

  lemma Pow2At32()
    ensures Pow2(32) == 0x1_0000_0000
  {
    Pow2At20();
    hide Pow2;
    Pow2Product(16, 16, 0x1_0000, 0x1_0000);
  }

  lemma Pow2At57()
    ensures Pow2(56) == 0x100_0000_0000_0000 && Pow2(57) == 0x200_0000_0000_0000
  {
    Pow2At8();
    Pow2At20();
    Pow2At32();
    Pow2Product(32, 16, 0x1_0000_0000, 0x1_0000);
    Pow2Product(48, 8, 0x1_0000_0000_0000, 256);
  }

  lemma Pow2At64()
    ensures Pow2(63) == 0x8000_0000_0000_0000 && Pow2(64) == 0x1_0000_0000_0000_0000
  {
    Pow2At8();
    Pow2At57();
    Pow2Product(56, 7, 0x100_0000_0000_0000, 128);
    Pow2Product(56, 8, 0x100_0000_0000_0000, 256);
  }

  function BitNat(b: bool): (n: nat)
    ensures n <= 1
  {
    if b then 1 else 0
  }

  /** The k lowest binary digits of n. */
  function NatBits(n: nat, k: nat): (s: seq<bool>)
    ensures |s| == k
  {
    if k == 0 then [] else [n % 2 == 1] + NatBits(n / 2, k - 1)
  }

  function BitsNat(s: seq<bool>): nat {
    if s == [] then 0 else BitNat(s[0]) + 2 * BitsNat(s[1..])
  }

  lemma {:induction false} NatBitsValue(n: nat, k: nat)
    requires n < Pow2(k)
    ensures BitsNat(NatBits(n, k)) == n
  {
    if k > 0 {
      NatBitsValue(n / 2, k - 1);
      assert NatBits(n, k)[1..] == NatBits(n / 2, k - 1);
    }
  }

  lemma {:induction false} BitsNatBound(s: seq<bool>)
    ensures BitsNat(s) < Pow2(|s|)
  {
    if s != [] {
      BitsNatBound(s[1..]);
    }
  }

  lemma BitsNatCons(s: seq<bool>, i: nat)
    requires i < |s|
    ensures BitsNat(s[i..]) == BitNat(s[i]) + 2 * BitsNat(s[i + 1..])
  {
    hide BitNat;
    assert s[i..][1..] == s[i + 1..];
  }

  lemma BitsNat8(s: seq<bool>)
    requires |s| == 8
    ensures BitsNat(s) == BitNat(s[0]) + 2 * BitNat(s[1]) + 4 * BitNat(s[2]) + 8 * BitNat(s[3]) +
                          16 * BitNat(s[4]) + 32 * BitNat(s[5]) + 64 * BitNat(s[6]) + 128 * BitNat(s[7])
  {
    hide BitNat;
    assert BitsNat([]) == 0;
    BitsNatCons(s, 0); BitsNatCons(s, 1); BitsNatCons(s, 2); BitsNatCons(s, 3);
    BitsNatCons(s, 4); BitsNatCons(s, 5); BitsNatCons(s, 6); BitsNatCons(s, 7);
    assert s[0..] == s && s[8..] == [];
  }
}
