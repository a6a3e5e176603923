/** Page checksums: the table-driven CRC-32 of the page writer and reader, and the bit-serial
    CRC-32 of section 8 of RFC 1952 that it must agree with. */
module Crc32 {
  import opened Bits

  const POLY: bv32 := 0xEDB88320
  const ALL_ONES: bv32 := 0xFFFF_FFFF

  /** One step of the reflected shift register. */
  function BitStep(c: bv32): bv32 {
    if c & 1 == 1 then POLY ^ (c >> 1) else c >> 1
  }

  function Steps(c: bv32, n: nat): bv32
    decreases n
  {
    if n == 0 then c else Steps(BitStep(c), n - 1)
  }

  function Xor(a: bv32, b: bv32): bv32 { a ^ b }

  // ----- reference: one message bit at a time -----

  function BitWord(b: bool): bv32 { if b then 1 else 0 }

  /** Feeds one message bit into the register, least significant end first. */
  function FeedBit(c: bv32, b: bool): bv32 { BitStep(Xor(c, BitWord(b))) }

  function FeedBits(c: bv32, bits: seq<bool>): bv32
    decreases bits
  {
    if bits == [] then c else FeedBits(FeedBit(c, bits[0]), bits[1..])
  }

  /** The bit-serial CRC-32 of a byte string. */
  function Crc(data: seq<bv8>): bv32 {
    Xor(FeedBits(ALL_ONES, BitsOf(data)), ALL_ONES)
  }

  // ----- the table-driven form -----

  function TableEntry(i: bv8): bv32 { Steps(i as bv32, 8) }

  ghost predicate IsTable(table: seq<bv32>) {
    |table| == 256 && forall i :: 0 <= i < 256 ==> table[i] == TableEntry(i as bv8)
  }

  method MakeTable() returns (table: seq<bv32>)
    ensures IsTable(table)
  {
    hide BitStep;
    table := [];
    while |table| < 256
      invariant |table| <= 256
      invariant forall i :: 0 <= i < |table| ==> table[i] == TableEntry(i as bv8)
    {
      var c: bv32 := (|table| as bv8) as bv32;
      var k := 0;
      while k < 8
        invariant k <= 8
        invariant Steps(c, 8 - k) == TableEntry(|table| as bv8)
      {
        c := BitStep(c);
        k := k + 1;
      }
      table := table + [c];
    }
  }

  /** The table slot for the next byte. */
  function TableIndex(crc: bv32, b: bv8): bv8 {
    ((crc ^ (b as bv32)) & 0xFF) as bv8
  }

  /** The page checksum of writer and reader: one table lookup per byte computes the bit-serial CRC. */
  method PageCrc32(data: seq<bv8>) returns (crc: bv32)
    ensures crc == Crc(data)
  {
    hide BitStep, Xor, TableIndex, TableEntry, ByteBits;
    var table := MakeTable();
    crc := ALL_ONES;
    var i := 0;
    while i < |data|
      invariant 0 <= i <= |data|
      invariant FeedBits(crc, BitsOf(data[i..])) == FeedBits(ALL_ONES, BitsOf(data))
    {
      ghost var before := crc;
      crc := Xor(table[TableIndex(crc, data[i]) as int], crc >> 8);
      TableStep(before, data[i]);
      FeedBitsConcat(before, ByteBits(data[i]), BitsOf(data[i + 1..]));
      assert data[i..][1..] == data[i + 1..];
      i := i + 1;
    }
    assert data[|data|..] == [];
    crc := Xor(crc, ALL_ONES);
  }

  // ----- the register is injective -----

  lemma BitStepInjective(a: bv32, b: bv32)
    ensures BitStep(a) == BitStep(b) ==> a == b
  {
  }

  lemma XorInjective(c: bv32, a: bv32, b: bv32)
    ensures Xor(c, a) == Xor(c, b) ==> a == b
    ensures Xor(a, c) == Xor(b, c) ==> a == b
  {
  }

  lemma {:induction false} StepsInjective(a: bv32, b: bv32, n: nat)
    requires Steps(a, n) == Steps(b, n)
    ensures a == b
    decreases n
  {
    hide BitStep;
    if n > 0 {
      StepsInjective(BitStep(a), BitStep(b), n - 1);
      BitStepInjective(a, b);
    }
  }

  lemma {:induction false} FeedBitsConcat(c: bv32, a: seq<bool>, b: seq<bool>)
    ensures FeedBits(c, a + b) == FeedBits(FeedBits(c, a), b)
    decreases a
  {
    hide FeedBit;
    if a == [] {
      assert a + b == b;
    } else {
      assert (a + b)[1..] == a[1..] + b;
      FeedBitsConcat(FeedBit(c, a[0]), a[1..], b);
    }
  }

  lemma {:induction false} FeedBitsInjective(c: bv32, d: bv32, bits: seq<bool>)
    requires FeedBits(c, bits) == FeedBits(d, bits)
    ensures c == d
    decreases bits
  {
    hide BitStep, Xor, BitWord;
    if bits != [] {
      FeedBitsInjective(FeedBit(c, bits[0]), FeedBit(d, bits[0]), bits[1..]);
      BitStepInjective(Xor(c, BitWord(bits[0])), Xor(d, BitWord(bits[0])));
      XorInjective(BitWord(bits[0]), c, d);
    }
  }

  // ----- up to 32 message bits act on the register as one word -----

  function Push(b: bool, w: bv32): bv32 { BitWord(b) | (w << 1) }

  /** The word whose lowest bits are the given bits. */
  function WordOf(bits: seq<bool>): bv32 {
    if bits == [] then 0 else Push(bits[0], WordOf(bits[1..]))
  }

  /** The n lowest bits. */
  function Mask(n: nat): bv32 {
    if n == 0 then 0 else Push(true, Mask(n - 1))
  }

  predicate Inside(w: bv32, m: bv32) { w & !m == 0 }

  predicate TopClear(w: bv32) { w <= 0x7FFF_FFFF }

  lemma InsidePush(b: bool, c: bool, w: bv32, m: bv32)
    requires Inside(w, m) && (b ==> c)
    ensures Inside(Push(b, w), Push(c, m))
  {
    InsideShift(BitWord(b), BitWord(c), w, m);
  }

  lemma InsideShift(b: bv32, c: bv32, w: bv32, m: bv32)
    requires w & !m == 0 && b <= c <= 1
    ensures (b | (w << 1)) & !(c | (m << 1)) == 0
  {
  }

  lemma {:induction false} MaskGrows(n: nat, m: nat)
    requires n <= m
    ensures Inside(Mask(n), Mask(m))
  {
    if n > 0 {
      hide Inside, Push;
      MaskGrows(n - 1, m - 1);
      InsidePush(true, true, Mask(n - 1), Mask(m - 1));
    }
  }

  lemma Mask31()
    ensures Mask(31) == 0x7FFF_FFFF
  {
    assert Mask(4) == 0xF;
    assert Mask(8) == 0xFF;
    assert Mask(12) == 0xFFF;
    assert Mask(16) == 0xFFFF;
    assert Mask(20) == 0xF_FFFF;
    assert Mask(24) == 0xFF_FFFF;
    assert Mask(28) == 0xFFF_FFFF;
  }

  lemma {:induction false} WordOfMasked(bits: seq<bool>)
    ensures Inside(WordOf(bits), Mask(|bits|))
  {
    if bits != [] {
      hide Inside, Push;
      WordOfMasked(bits[1..]);
      InsidePush(bits[0], true, WordOf(bits[1..]), Mask(|bits| - 1));
    }
  }

  lemma InsideTop(w: bv32, m: bv32)
    requires Inside(w, m) && Inside(m, 0x7FFF_FFFF)
    ensures TopClear(w)
  {
  }

  /** A word of at most 31 bits leaves the top bit clear. */
  lemma WordOfBound(bits: seq<bool>)
    requires |bits| <= 31
    ensures TopClear(WordOf(bits))
  {
    hide Inside, Push, TopClear;
    WordOfMasked(bits);
    MaskGrows(|bits|, 31);
    Mask31();
    InsideTop(WordOf(bits), Mask(|bits|));
  }

  lemma PushInjective(b: bool, x: bv32, c: bool, y: bv32)
    requires TopClear(x) && TopClear(y) && Push(b, x) == Push(c, y)
    ensures b == c && x == y
  {
  }

  lemma {:induction false} WordOfInjective(u: seq<bool>, v: seq<bool>)
    requires |u| == |v| <= 32 && WordOf(u) == WordOf(v)
    ensures u == v
  {
    hide Push, TopClear;
    if u != [] {
      WordOfBound(u[1..]);
      WordOfBound(v[1..]);
      PushInjective(u[0], WordOf(u[1..]), v[0], WordOf(v[1..]));
      WordOfInjective(u[1..], v[1..]);
      assert u == [u[0]] + u[1..] && v == [v[0]] + v[1..];
    }
  }

  /** Bits above the lowest one move down untouched. */
  lemma BitStepPush(x: bv32, b: bool, y: bv32)
    requires TopClear(y)
    ensures BitStep(Xor(x, Push(b, y))) == Xor(BitStep(Xor(x, BitWord(b))), y)
  {
    hide BitStep, Xor, Push, Shl;
    XorPush(x, b, y);
    BitStepShift(Xor(x, BitWord(b)), y);
  }

  function Shl(y: bv32): bv32 { y << 1 }

  lemma XorPush(x: bv32, b: bool, y: bv32)
    requires TopClear(y)
    ensures Xor(x, Push(b, y)) == Xor(Xor(x, BitWord(b)), Shl(y))
  {
    XorOr(x, BitWord(b), y);
  }

  lemma XorOr(x: bv32, w: bv32, y: bv32)
    requires w <= 1 && y <= 0x7FFF_FFFF
    ensures x ^ (w | (y << 1)) == (x ^ w) ^ (y << 1)
  {
  }

  lemma BitStepShift(x: bv32, y: bv32)
    requires TopClear(y)
    ensures BitStep(Xor(x, Shl(y))) == Xor(BitStep(x), y)
  {
    StepShift(x, y);
  }

  lemma StepShift(x: bv32, y: bv32)
    requires y <= 0x7FFF_FFFF
    ensures BitStep(x ^ (y << 1)) == BitStep(x) ^ y
  {
  }

  /** Feeding at most 32 bits equals mixing them in as a word and stepping once per bit. */
  lemma {:induction false} FeedBitsIsWord(c: bv32, bits: seq<bool>)
    requires |bits| <= 32
    ensures FeedBits(c, bits) == Steps(Xor(c, WordOf(bits)), |bits|)
    decreases bits
  {
    if bits == [] {
    } else {
      hide BitStep, Xor, Push, BitWord, TopClear;
      WordOfBound(bits[1..]);
      FeedBitsIsWord(FeedBit(c, bits[0]), bits[1..]);
      BitStepPush(c, bits[0], WordOf(bits[1..]));
    }
  }

  function Up(y: bv32, n: nat): bv32 {
    if n == 0 then y else Push(false, Up(y, n - 1))
  }

  lemma {:induction false} UpBound(y: bv32, n: nat)
    requires y <= 0xFF_FFFF && n <= 7
    ensures TopClear(Up(y, n))
  {
    UpMasked(y, n);
    MaskGrows(24 + n, 31);
    Mask31();
    InsideTop(Up(y, n), Mask(24 + n));
  }

  lemma {:induction false} UpMasked(y: bv32, n: nat)
    requires y <= 0xFF_FFFF
    ensures Inside(Up(y, n), Mask(24 + n))
  {
    if n == 0 {
      Mask31();
    } else {
      hide Inside, Push;
      UpMasked(y, n - 1);
      InsidePush(false, true, Up(y, n - 1), Mask(24 + n - 1));
    }
  }

  /** The upper 24 bits of the register arrive at the bottom after eight steps. */
  lemma {:induction false} StepsCarry(x: bv32, y: bv32, n: nat)
    requires y <= 0xFF_FFFF && n <= 8
    ensures Steps(Xor(x, Up(y, n)), n) == Xor(Steps(x, n), y)
    decreases n
  {
    hide BitStep, Xor, Push, TopClear;
    if n > 0 {
      UpBound(y, n - 1);
      BitStepPush(x, false, Up(y, n - 1));
      assert Xor(x, BitWord(false)) == x by { XorZero(x); }
      StepsCarry(BitStep(x), y, n - 1);
    }
  }

  lemma XorZero(x: bv32)
    ensures Xor(x, 0) == x
  {
  }

  lemma SplitLowByte(c: bv32, b: bv8)
    ensures Xor(c, b as bv32) == Xor(TableIndex(c, b) as bv32, Up(c >> 8, 8))
    ensures c >> 8 <= 0xFF_FFFF
  {
    UpEight(c >> 8);
    LowByteSplit(c, b as bv32);
  }

  lemma LowByteSplit(c: bv32, b: bv32)
    requires b <= 0xFF
    ensures c ^ b == ((c ^ b) & 0xFF) ^ ((c >> 8) << 8)
  {
  }

  lemma UpEight(y: bv32)
    ensures Up(y, 8) == y << 8
  {
    hide Push;
    PushEight(y);
    assert Up(y, 4) == Push(false, Push(false, Push(false, Push(false, y)))) by {
      assert Up(y, 1) == Push(false, Up(y, 0)) && Up(y, 2) == Push(false, Up(y, 1));
    }
    assert Up(y, 6) == Push(false, Push(false, Up(y, 4)));
    assert Up(y, 8) == Push(false, Push(false, Up(y, 6)));
  }

  lemma PushEight(y: bv32)
    ensures Push(false, Push(false, Push(false, Push(false,
              Push(false, Push(false, Push(false, Push(false, y)))))))) == y << 8
  {
  }

  /** The bits of a byte spell the byte. */
  lemma ByteWord(b: bv8)
    ensures WordOf(ByteBits(b)) == b as bv32
  {
    hide Push;
    var s := ByteBits(b);
    WordCons(s, 7); WordCons(s, 6); WordCons(s, 5); WordCons(s, 4);
    WordCons(s, 3); WordCons(s, 2); WordCons(s, 1); WordCons(s, 0);
    assert s[8..] == [] && s[0..] == s;
    PushByte(b);
  }

  lemma WordCons(s: seq<bool>, i: nat)
    requires i < |s|
    ensures WordOf(s[i..]) == Push(s[i], WordOf(s[i + 1..]))
  {
    hide Push;
    assert s[i..][1..] == s[i + 1..];
  }

  lemma PushByte(b: bv8)
    ensures Push(b & 1 != 0, Push(b & 2 != 0, Push(b & 4 != 0, Push(b & 8 != 0, Push(b & 16 != 0,
            Push(b & 32 != 0, Push(b & 64 != 0, Push(b & 128 != 0, 0)))))))) == b as bv32
  {
  }

  /** One table lookup advances the register by the eight bits of a byte. */
  lemma TableStep(c: bv32, b: bv8)
    ensures Xor(TableEntry(TableIndex(c, b)), c >> 8) == FeedBits(c, ByteBits(b))
  {
    hide BitStep, Xor, TableIndex, ByteBits, Up;
    ByteWord(b);
    FeedBitsIsWord(c, ByteBits(b));
    SplitLowByte(c, b);
    StepsCarry(TableIndex(c, b) as bv32, c >> 8, 8);
  }

  // ----- the check value -----

  /** Eight steps of the register, one after the other. */
  function EightSteps(c: bv32): bv32 {
    BitStep(BitStep(BitStep(BitStep(BitStep(BitStep(BitStep(BitStep(c))))))))
  }

  lemma StepsEight(c: bv32)
    ensures Steps(c, 8) == EightSteps(c)
  {
    hide BitStep;
    assert Steps(c, 8) == Steps(BitStep(BitStep(BitStep(BitStep(c)))), 4);
  }

  /** Feeding the bits of one byte. */
  lemma FeedByte(c: bv32, data: seq<bv8>, k: nat, after: bv32)
    requires k < |data| && EightSteps(Xor(c, data[k] as bv32)) == after
    ensures FeedBits(c, BitsOf(data[k..])) == FeedBits(after, BitsOf(data[k + 1..]))
  {
    hide BitStep, ByteBits, Steps, Xor, EightSteps;
    ByteWord(data[k]);
    FeedBitsIsWord(c, ByteBits(data[k]));
    StepsEight(Xor(c, data[k] as bv32));
    FeedBitsConcat(c, ByteBits(data[k]), BitsOf(data[k + 1..]));
    assert data[k..][1..] == data[k + 1..];
  }

  lemma DigitSteps()
    ensures EightSteps(Xor(0xFFFFFFFF, 0x31)) == 0x7C231048
    ensures EightSteps(Xor(0x7C231048, 0x32)) == 0xB0ACBB32
    ensures EightSteps(Xor(0xB0ACBB32, 0x33)) == 0x77B79C2D
    ensures EightSteps(Xor(0x77B79C2D, 0x34)) == 0x641C1F5C
    ensures EightSteps(Xor(0x641C1F5C, 0x35)) == 0x340AC5E3
    ensures EightSteps(Xor(0x340AC5E3, 0x36)) == 0xF68D2C9E
    ensures EightSteps(Xor(0xF68D2C9E, 0x37)) == 0xAFFC9660
    ensures EightSteps(Xor(0xAFFC9660, 0x38)) == 0x651F2550
    ensures EightSteps(Xor(0x651F2550, 0x39)) == 0x340BC6D9
  {
  }

  lemma NothingFed(c: bv32)
    ensures FeedBits(c, BitsOf([])) == c && Xor(c, ALL_ONES) == c ^ 0xFFFF_FFFF
  {
  }

  /** The check value of the CRC-32 of RFC 1952: the checksum of the nine digits 1 to 9. */
  lemma CheckValue()
    ensures Crc([0x31, 0x32, 0x33, 0x34, 0x35, 0x36, 0x37, 0x38, 0x39]) == 0xCBF43926
  {
    hide FeedBits, EightSteps, BitsOf, Xor;
    var digits: seq<bv8> := [0x31, 0x32, 0x33, 0x34, 0x35, 0x36, 0x37, 0x38, 0x39];
    DigitSteps();
    FeedByte(0xFFFFFFFF, digits, 0, 0x7C231048);
    FeedByte(0x7C231048, digits, 1, 0xB0ACBB32);
    FeedByte(0xB0ACBB32, digits, 2, 0x77B79C2D);
    FeedByte(0x77B79C2D, digits, 3, 0x641C1F5C);
    FeedByte(0x641C1F5C, digits, 4, 0x340AC5E3);
    FeedByte(0x340AC5E3, digits, 5, 0xF68D2C9E);
    FeedByte(0xF68D2C9E, digits, 6, 0xAFFC9660);
    FeedByte(0xAFFC9660, digits, 7, 0x651F2550);
    FeedByte(0x651F2550, digits, 8, 0x340BC6D9);
    assert digits[0..] == digits && digits[9..] == [];
    NothingFed(0x340BC6D9);
  }

  // ----- damage inside 32 consecutive bits is always seen -----

  /** Two messages that agree outside a window of at most 32 consecutive bits and differ
      inside it leave different registers. */
  lemma BurstDetected(prefix: seq<bool>, u: seq<bool>, v: seq<bool>, suffix: seq<bool>, c: bv32)
    requires |u| == |v| <= 32 && u != v
    ensures FeedBits(c, prefix + u + suffix) != FeedBits(c, prefix + v + suffix)
  {
    hide FeedBit, Xor, FeedBits, Steps, WordOf;
    var s := FeedBits(c, prefix);
    FeedBitsConcat(c, prefix, u);
    FeedBitsConcat(c, prefix, v);
    FeedBitsConcat(c, prefix + u, suffix);
    FeedBitsConcat(c, prefix + v, suffix);
    FeedBitsIsWord(s, u);
    FeedBitsIsWord(s, v);
    if FeedBits(c, prefix + u + suffix) == FeedBits(c, prefix + v + suffix) {
      FeedBitsInjective(FeedBits(s, u), FeedBits(s, v), suffix);
      StepsInjective(Xor(s, WordOf(u)), Xor(s, WordOf(v)), |u|);
      XorInjective(s, WordOf(u), WordOf(v));
      WordOfInjective(u, v);
    }
  }

  /** Two pages of the same length whose bit strings differ, and only inside 32 consecutive bits,
      never share a checksum. */
  lemma DamageDetected(a: seq<bv8>, b: seq<bv8>, start: nat, width: nat)
    requires |a| == |b| && width <= 32 && start + width <= 8 * |a|
    requires forall i :: 0 <= i < start || start + width <= i < 8 * |a| ==> BitsOf(a)[i] == BitsOf(b)[i]
    requires a != b
    ensures Crc(a) != Crc(b)
  {
    hide FeedBits, Xor, BitsOf;
    var x, y := BitsOf(a), BitsOf(b);
    var u, v := x[start..start + width], y[start..start + width];
    assert x == x[..start] + u + x[start + width..];
    assert x[..start] == y[..start] && x[start + width..] == y[start + width..];
    assert y == x[..start] + v + x[start + width..];
    if u == v {
      BitsInjective(a, b);
    }
    BurstDetected(x[..start], u, v, x[start + width..], ALL_ONES);
    XorInjective(ALL_ONES, FeedBits(ALL_ONES, x), FeedBits(ALL_ONES, y));
  }

  lemma {:induction false} BitsInjective(a: seq<bv8>, b: seq<bv8>)
    requires |a| == |b| && BitsOf(a) == BitsOf(b)
    ensures a == b
  {
    hide ByteBits, WordOf;
    if a != [] {
      var x, y := BitsOf(a), BitsOf(b);
      assert x[..8] == ByteBits(a[0]) && y[..8] == ByteBits(b[0]);
      assert x[8..] == BitsOf(a[1..]) && y[8..] == BitsOf(b[1..]);
      ByteWord(a[0]);
      ByteWord(b[0]);
      SameByte(a[0], b[0]);
      BitsInjective(a[1..], b[1..]);
      assert a == [a[0]] + a[1..] && b == [b[0]] + b[1..];
    }
  }

  lemma SameByte(a: bv8, b: bv8)
    ensures a as bv32 == b as bv32 ==> a == b
  {
  }
}
