/** Morton codes: the magic-mask two-column code, the general round-robin code, and the order
    both of them give to rows. */
module Morton {
  import opened Arithmetic
  import opened Words
  import opened Orders
  import opened Bits

  // ----- the two-column fast path -----

  function Spread(v: bv32): bv64 {
    var r0 := v as bv64;
    var r1 := (r0 | (r0 << 16)) & 0x0000_FFFF_0000_FFFF;
    var r2 := (r1 | (r1 << 8)) & 0x00FF_00FF_00FF_00FF;
    var r3 := (r2 | (r2 << 4)) & 0x0F0F_0F0F_0F0F_0F0F;
    var r4 := (r3 | (r3 << 2)) & 0x3333_3333_3333_3333;
    (r4 | (r4 << 1)) & 0x5555_5555_5555_5555
  }

  function Compact(c: bv64): bv32 {
    var v0 := c & 0x5555_5555_5555_5555;
    var v1 := (v0 | (v0 >> 1)) & 0x3333_3333_3333_3333;
    var v2 := (v1 | (v1 >> 2)) & 0x0F0F_0F0F_0F0F_0F0F;
    var v3 := (v2 | (v2 >> 4)) & 0x00FF_00FF_00FF_00FF;
    var v4 := (v3 | (v3 >> 8)) & 0x0000_FFFF_0000_FFFF;
    ((v4 | (v4 >> 16)) & 0xFFFF_FFFF) as bv32
  }

  function Morton2D(x: bv32, y: bv32): bv64 { Spread(x) | (Spread(y) << 1) }

  function Deinterleave2D(code: bv64): (bv32, bv32) { (Compact(code), Compact(code >> 1)) }

  /** Deinterleaving undoes interleaving. */
  lemma DeinterleaveOfMorton(x: bv32, y: bv32)
    ensures Deinterleave2D(Morton2D(x, y)) == (x, y)
  {
  }

  /** Interleaving undoes deinterleaving, so the two are inverse bijections. */
  lemma MortonOfDeinterleave(code: bv64)
    ensures var (x, y) := Deinterleave2D(code); Morton2D(x, y) == code
  {
  }

  // ----- bits, most significant first -----

  function BitMask(i: nat): bv32 {
    if i == 0 then 1 else BitMask(i - 1) << 1
  }

  predicate TestBit(w: bv32, i: nat) { Hits(w, BitMask(i)) }

  /** One bit of each column, in column order. */
  function Level(ws: seq<bv32>, i: nat): (bits: seq<bool>)
    ensures |bits| == |ws|
    ensures forall c :: 0 <= c < |ws| ==> bits[c] == TestBit(ws[c], i)
  {
    seq(|ws|, c requires 0 <= c < |ws| => TestBit(ws[c], i))
  }

  /** Plain interleaving: the columns take turns, from bit n - 1 down to bit 0. */
  function Interleave(ws: seq<bv32>, n: nat): (bits: seq<bool>)
    ensures |bits| == n * |ws|
  {
    if n == 0 then [] else Level(ws, n - 1) + Interleave(ws, n - 1)
  }

  function MsbBits(b: bv8): (bits: seq<bool>)
    ensures |bits| == 8
  {
    [b & 128 != 0, b & 64 != 0, b & 32 != 0, b & 16 != 0, b & 8 != 0, b & 4 != 0, b & 2 != 0, b & 1 != 0]
  }

  /** The bits of a byte string, most significant first. */
  function KeyBits(key: seq<bv8>): (bits: seq<bool>)
    ensures |bits| == 8 * |key|
  {
    if key == [] then [] else MsbBits(key[0]) + KeyBits(key[1..])
  }

  // ----- shifting a word up brings its bits to the top one by one -----

  function Top(w: bv32): bool { w & 0x8000_0000 != 0 }

  function Shl(w: bv32): bv32 { w << 1 }

  function ShiftUp(w: bv32, k: nat): bv32 {
    if k == 0 then w else Shl(ShiftUp(w, k - 1))
  }

  predicate AtMostOneBit(m: bv32) { m & (m - 1) == 0 }

  lemma {:induction false} BitMaskOneBit(i: nat)
    ensures AtMostOneBit(BitMask(i))
  {
    if i > 0 {
      BitMaskOneBit(i - 1);
      DoubleOneBit(BitMask(i - 1));
    }
  }

  lemma DoubleOneBit(m: bv32)
    requires AtMostOneBit(m)
    ensures AtMostOneBit(m << 1)
  {
  }

  lemma {:induction false} BitMaskNonzero(i: nat)
    requires i <= 31
    ensures BitMask(i) != 0
    decreases 31 - i
  {
    if i == 31 {
      BitMask31();
    } else {
      BitMaskNonzero(i + 1);
    }
  }

  /** Below the top mask the top bit is clear, or the next mask would be zero. */
  lemma BitMaskBelow(i: nat)
    requires i <= 30
    ensures !Top(BitMask(i))
  {
    BitMaskOneBit(i);
    BitMaskNonzero(i + 1);
    hide Top, AtMostOneBit;
    if Top(BitMask(i)) {
      TopAlone(BitMask(i));
    }
  }

  lemma TopAlone(m: bv32)
    requires AtMostOneBit(m) && Top(m)
    ensures m << 1 == 0
  {
  }

  lemma BitMask31()
    ensures BitMask(31) == 0x8000_0000
  {
    assert BitMask(4) == 0x10;
    assert BitMask(8) == 0x100;
    assert BitMask(12) == 0x1000;
    assert BitMask(16) == 0x1_0000;
    assert BitMask(20) == 0x10_0000;
    assert BitMask(24) == 0x100_0000;
    assert BitMask(28) == 0x1000_0000;
  }

  /** Shifting word and mask up together keeps the tested bit. */
  lemma ShiftedTest(w: bv32, m: bv32)
    requires m & 0x8000_0000 == 0
    ensures Hits(Shl(w), m << 1) <==> Hits(w, m)
  {
    RawShiftedTest(w, m);
  }

  predicate Hits(w: bv32, m: bv32) { w & m != 0 }

  lemma RawShiftedTest(w: bv32, m: bv32)
    requires m & 0x8000_0000 == 0
    ensures (w << 1) & (m << 1) != 0 <==> w & m != 0
  {
  }

  lemma {:induction false} ShiftUpBit(w: bv32, k: nat, i: nat)
    requires k + i <= 31
    ensures TestBit(ShiftUp(w, k), k + i) <==> TestBit(w, i)
  {
    hide Shl, Hits, Top;
    if k > 0 {
      ShiftUpBit(w, k - 1, i);
      BitMaskBelow(k - 1 + i);
      NotTop(BitMask(k - 1 + i));
      ShiftedTest(ShiftUp(w, k - 1), BitMask(k - 1 + i));
    }
  }

  lemma NotTop(m: bv32)
    ensures Top(m) <==> m & 0x8000_0000 != 0
  {
  }

  lemma TopOfShiftUp(w: bv32, n: nat)
    requires 1 <= n <= 32
    ensures Top(ShiftUp(w, 32 - n)) <==> TestBit(w, n - 1)
  {
    ShiftUpBit(w, 32 - n, n - 1);
    BitMask31();
  }

  // ----- the order of keys -----

  /** Lexicographic order of bit strings of equal length. */
  predicate BitsLess(a: seq<bool>, b: seq<bool>)
    requires |a| == |b|
  {
    a != [] && ((!a[0] && b[0]) || (a[0] == b[0] && BitsLess(a[1..], b[1..])))
  }

  predicate BitsLeq(a: seq<bool>, b: seq<bool>)
    requires |a| == |b|
  {
    a == b || BitsLess(a, b)
  }

  lemma {:induction false} BitsLeqConcat(a: seq<bool>, b: seq<bool>, x: seq<bool>, y: seq<bool>)
    requires |a| == |b| && |x| == |y|
    requires BitsLess(a, b) || (a == b && BitsLeq(x, y))
    ensures BitsLeq(a + x, b + y)
    ensures BitsLess(a, b) || (a == b && BitsLess(x, y)) ==> BitsLess(a + x, b + y)
  {
    if a == [] {
      assert a + x == x && b + y == y;
    } else {
      assert (a + x)[1..] == a[1..] + x && (b + y)[1..] == b[1..] + y;
      if a[0] == b[0] {
        BitsLeqConcat(a[1..], b[1..], x, y);
        assert a + x == [a[0]] + (a[1..] + x) && b + y == [b[0]] + (b[1..] + y);
      }
    }
  }

  /** Where two equally long bit strings never drop from set to clear, the first is at most the second. */
  lemma {:induction false} BitsPointwise(a: seq<bool>, b: seq<bool>)
    requires |a| == |b| && forall i :: 0 <= i < |a| ==> (a[i] ==> b[i])
    ensures BitsLeq(a, b)
    ensures a != b ==> BitsLess(a, b)
  {
    if a != [] {
      BitsPointwise(a[1..], b[1..]);
      assert a == [a[0]] + a[1..] && b == [b[0]] + b[1..];
    }
  }

  lemma TopStep(x: bv32, y: bv32)
    requires AtMost(x, y)
    ensures Top(x) ==> Top(y)
    ensures Top(x) == Top(y) ==> AtMost(Shl(x), Shl(y))
  {
    if x & 0x8000_0000 == y & 0x8000_0000 {
      RawTopSame(x, y);
    }
    if Top(x) {
      RawTop(x, y);
    }
  }

  lemma RawTop(x: bv32, y: bv32)
    requires x <= y && x & 0x8000_0000 != 0
    ensures y & 0x8000_0000 != 0
  {
  }

  lemma RawTopSame(x: bv32, y: bv32)
    requires x <= y && x & 0x8000_0000 == y & 0x8000_0000
    ensures x << 1 <= y << 1
  {
  }

  /** Rows that are at most each other column by column have interleavings in the same order,
      for any number of columns. */
  lemma {:induction false} InterleaveMonotone(a: seq<bv32>, b: seq<bv32>, n: nat)
    requires |a| == |b| && n <= 32
    requires forall c :: 0 <= c < |a| ==> AtMost(ShiftUp(a[c], 32 - n), ShiftUp(b[c], 32 - n))
    ensures BitsLeq(Interleave(a, n), Interleave(b, n))
  {
    if n > 0 {
      hide Top, TestBit, Shl, AtMost;
      var x, y := Level(a, n - 1), Level(b, n - 1);
      forall c | 0 <= c < |a|
        ensures x[c] ==> y[c]
        ensures x[c] == y[c] ==> AtMost(ShiftUp(a[c], 32 - n + 1), ShiftUp(b[c], 32 - n + 1))
      {
        TopOfShiftUp(a[c], n);
        TopOfShiftUp(b[c], n);
        TopStep(ShiftUp(a[c], 32 - n), ShiftUp(b[c], 32 - n));
      }
      BitsPointwise(x, y);
      if x == y {
        InterleaveMonotone(a, b, n - 1);
      }
      BitsLeqConcat(x, y, Interleave(a, n - 1), Interleave(b, n - 1));
    }
  }

  // ----- interleaving loses nothing -----

  predicate LowClear(w: bv32, m: bv32) { w & (m - 1) == 0 }

  lemma {:induction false} ShiftUpClears(w: bv32, k: nat)
    ensures LowClear(ShiftUp(w, k), BitMask(k))
  {
    hide LowClear, Shl;
    if k == 0 {
      AllClear(w);
    }
    if k > 0 {
      ShiftUpClears(w, k - 1);
      ShlClears(ShiftUp(w, k - 1), BitMask(k - 1));
    }
  }

  lemma AllClear(w: bv32)
    ensures LowClear(w, 1)
  {
  }

  lemma ShlClears(w: bv32, m: bv32)
    requires LowClear(w, m)
    ensures LowClear(Shl(w), m << 1)
  {
  }

  /** Shifted up by its width, a word is gone. */
  lemma ShiftUpAll(w: bv32)
    ensures ShiftUp(w, 32) == 0
  {
    ShiftUpClears(w, 31);
    BitMask31();
    OnlyTop(ShiftUp(w, 31));
  }

  lemma OnlyTop(w: bv32)
    requires LowClear(w, 0x8000_0000)
    ensures Shl(w) == 0
  {
  }

  lemma TopAndRest(x: bv32, y: bv32)
    requires Top(x) == Top(y) && Shl(x) == Shl(y)
    ensures x == y
  {
  }

  lemma {:induction false} ShiftedEqual(a: seq<bv32>, b: seq<bv32>, n: nat)
    requires |a| == |b| && n <= 32 && Interleave(a, n) == Interleave(b, n)
    ensures forall c :: 0 <= c < |a| ==> ShiftUp(a[c], 32 - n) == ShiftUp(b[c], 32 - n)
  {
    hide Top, TestBit, Shl, Interleave, Level;
    forall c | 0 <= c < |a| ensures ShiftUp(a[c], 32 - n) == ShiftUp(b[c], 32 - n) {
      if n == 0 {
        ShiftUpAll(a[c]);
        ShiftUpAll(b[c]);
      } else {
        LevelsEqual(a, b, n);
        ShiftedEqual(a, b, n - 1);
        TopOfShiftUp(a[c], n);
        TopOfShiftUp(b[c], n);
        TopAndRest(ShiftUp(a[c], 32 - n), ShiftUp(b[c], 32 - n));
      }
    }
  }

  lemma LevelsEqual(a: seq<bv32>, b: seq<bv32>, n: nat)
    requires |a| == |b| && n > 0 && Interleave(a, n) == Interleave(b, n)
    ensures Interleave(a, n - 1) == Interleave(b, n - 1)
    ensures forall c :: 0 <= c < |a| ==> TestBit(a[c], n - 1) == TestBit(b[c], n - 1)
  {
    hide TestBit;
    var x, y := Level(a, n - 1), Level(b, n - 1);
    assert Interleave(a, n)[..|a|] == x && Interleave(b, n)[..|a|] == y;
    assert Interleave(a, n)[|a|..] == Interleave(a, n - 1) && Interleave(b, n)[|a|..] == Interleave(b, n - 1);
    forall c | 0 <= c < |a| ensures TestBit(a[c], n - 1) == TestBit(b[c], n - 1) {
      assert x[c] == y[c];
    }
  }

  /** Words with the same interleaving are the same words, for any number of columns. */
  lemma InterleaveInjective(a: seq<bv32>, b: seq<bv32>)
    requires |a| == |b| && Interleave(a, 32) == Interleave(b, 32)
    ensures a == b
  {
    hide Interleave, Shl;
    ShiftedEqual(a, b, 32);
    forall c | 0 <= c < |a| ensures a[c] == b[c] {
      assert ShiftUp(a[c], 0) == ShiftUp(b[c], 0);
    }
  }

  // ----- keys as bytes -----

  lemma {:induction false} BitsTrichotomy(a: seq<bool>, b: seq<bool>)
    requires |a| == |b|
    ensures !(BitsLess(a, b) && BitsLess(b, a))
    ensures BitsLess(a, b) || a == b || BitsLess(b, a)
    ensures a == b ==> !BitsLess(a, b)
  {
    if a != [] {
      BitsTrichotomy(a[1..], b[1..]);
      assert a == [a[0]] + a[1..] && b == [b[0]] + b[1..];
    }
  }

  lemma BitsCons(a: seq<bool>, b: seq<bool>, i: nat)
    requires |a| == |b| && i < |a|
    ensures BitsLess(a[i..], b[i..]) <==> (!a[i] && b[i]) || (a[i] == b[i] && BitsLess(a[i + 1..], b[i + 1..]))
  {
    assert a[i..][1..] == a[i + 1..] && b[i..][1..] == b[i + 1..];
  }

  lemma ByteLess(a: bv8, b: bv8)
    requires a < b
    ensures BitsLess(MsbBits(a), MsbBits(b))
  {
    hide MsbBits, BitsLess;
    MsbAt(a);
    MsbAt(b);
    RawByteLess(a, b);
    BitsLess8(MsbBits(a), MsbBits(b));
  }

  lemma MsbAt(b: bv8)
    ensures var s := MsbBits(b);
            s[0] == (b & 128 != 0) && s[1] == (b & 64 != 0) && s[2] == (b & 32 != 0) && s[3] == (b & 16 != 0) &&
            s[4] == (b & 8 != 0) && s[5] == (b & 4 != 0) && s[6] == (b & 2 != 0) && s[7] == (b & 1 != 0)
  {
  }

  lemma BitsLess8(x: seq<bool>, y: seq<bool>)
    requires |x| == |y| == 8
    ensures BitsLess(x, y) <==>
      (!x[0] && y[0]) || (x[0] == y[0] && ((!x[1] && y[1]) || (x[1] == y[1] && ((!x[2] && y[2]) || (x[2] == y[2] &&
      ((!x[3] && y[3]) || (x[3] == y[3] && ((!x[4] && y[4]) || (x[4] == y[4] && ((!x[5] && y[5]) || (x[5] == y[5] &&
      ((!x[6] && y[6]) || (x[6] == y[6] && !x[7] && y[7])))))))))))))
  {
    BitsCons(x, y, 7); BitsCons(x, y, 6); BitsCons(x, y, 5); BitsCons(x, y, 4);
    BitsCons(x, y, 3); BitsCons(x, y, 2); BitsCons(x, y, 1); BitsCons(x, y, 0);
    assert x[0..] == x && y[0..] == y;
  }

  lemma RawByteLess(a: bv8, b: bv8)
    requires a < b
    ensures (!(a & 128 != 0) && b & 128 != 0) || ((a & 128 != 0) == (b & 128 != 0) &&
           ((!(a & 64 != 0) && b & 64 != 0) || ((a & 64 != 0) == (b & 64 != 0) &&
           ((!(a & 32 != 0) && b & 32 != 0) || ((a & 32 != 0) == (b & 32 != 0) &&
           ((!(a & 16 != 0) && b & 16 != 0) || ((a & 16 != 0) == (b & 16 != 0) &&
           ((!(a & 8 != 0) && b & 8 != 0) || ((a & 8 != 0) == (b & 8 != 0) &&
           ((!(a & 4 != 0) && b & 4 != 0) || ((a & 4 != 0) == (b & 4 != 0) &&
           ((!(a & 2 != 0) && b & 2 != 0) || ((a & 2 != 0) == (b & 2 != 0) && !(a & 1 != 0) && b & 1 != 0)))))))))))))
  {
  }

  lemma {:induction false} KeyLess(a: seq<bv8>, b: seq<bv8>)
    requires |a| == |b| && LexLess(a, b)
    ensures BitsLess(KeyBits(a), KeyBits(b))
  {
    hide MsbBits;
    if a[0] == b[0] {
      KeyLess(a[1..], b[1..]);
    } else {
      ByteLess(a[0], b[0]);
    }
    BitsLeqConcat(MsbBits(a[0]), MsbBits(b[0]), KeyBits(a[1..]), KeyBits(b[1..]));
  }

  /** Comparing keys of equal length as byte strings is comparing their bits. */
  lemma KeyOrder(a: seq<bv8>, b: seq<bv8>)
    requires |a| == |b|
    ensures LexLess(a, b) <==> BitsLess(KeyBits(a), KeyBits(b))
    ensures a == b <==> KeyBits(a) == KeyBits(b)
  {
    hide LexLess, BitsLess, KeyBits;
    LexTrichotomy(a, b);
    BitsTrichotomy(KeyBits(a), KeyBits(b));
    if LexLess(a, b) {
      KeyLess(a, b);
    } else if LexLess(b, a) {
      KeyLess(b, a);
    }
  }

  // ----- the general code -----

  lemma {:induction false} InterleaveAt(ws: seq<bv32>, n: nat, b: nat, c: nat)
    requires b < n && c < |ws|
    ensures b * |ws| + c < n * |ws|
    ensures Interleave(ws, n)[b * |ws| + c] == TestBit(ws[c], n - 1 - b)
  {
    hide TestBit;
    var m := |ws|;
    MulMonotone(b + 1, n, m);
    assert (b + 1) * m == b * m + m;
    var rest := Interleave(ws, n - 1);
    assert Interleave(ws, n) == Level(ws, n - 1) + rest;
    if b == 0 {
      assert b * m == 0;
    } else {
      InterleaveAt(ws, n - 1, b - 1, c);
      assert b * m + c == m + ((b - 1) * m + c) by { assert (b - 1) * m == b * m - m; }
    }
  }

  lemma MsbBitsAt(b: bv8)
    ensures var s := MsbBits(b);
            s[0] == (b & 128 != 0) && s[1] == (b & 64 != 0) && s[2] == (b & 32 != 0) && s[3] == (b & 16 != 0) &&
            s[4] == (b & 8 != 0) && s[5] == (b & 4 != 0) && s[6] == (b & 2 != 0) && s[7] == (b & 1 != 0)
  {
  }

  lemma MsbMirrors(b: bv8, i: nat)
    requires i < 8
    ensures MsbBits(b)[i] == ByteBits(b)[7 - i]
  {
    MsbBitsAt(b);
    ByteBitsAt(b);
    hide MsbBits, ByteBits;
  }

  lemma SetMsbBit(b: bv8, j: nat, i: nat)
    requires j < 8 && i < 8
    ensures MsbBits(b | ByteMask(7 - j))[i] == (i == j || MsbBits(b)[i])
  {
    hide MsbBits, ByteBits, ByteMask;
    MsbMirrors(b, i);
    MsbMirrors(b | ByteMask(7 - j), i);
    SetBit(b, 7 - j, 7 - i);
  }

  function GetBit(key: seq<bv8>, k: nat): bool
    requires k < 8 * |key|
  {
    MsbBits(key[k / 8])[k % 8]
  }

  lemma {:induction false} KeyBitsAt(key: seq<bv8>, k: nat)
    requires k < 8 * |key|
    ensures KeyBits(key)[k] == GetBit(key, k)
  {
    hide MsbBits;
    if k >= 8 {
      KeyBitsAt(key[1..], k - 8);
      assert (k - 8) / 8 == k / 8 - 1 && (k - 8) % 8 == k % 8;
    }
  }

  /** The general Morton key: the plain interleaving of the columns, padded with zero bits to whole bytes. */
  method MortonNd(ws: seq<bv32>, bitsPerCol: nat) returns (key: seq<bv8>)
    requires bitsPerCol <= 32
    ensures |key| == (|ws| * bitsPerCol + 7) / 8
    ensures KeyBits(key)[..bitsPerCol * |ws|] == Interleave(ws, bitsPerCol)
    ensures forall k :: bitsPerCol * |ws| <= k < 8 * |key| ==> !KeyBits(key)[k]
  {
    hide TestBit, MsbBits, ByteMask, Interleave, KeyBits, Filled;
    var n := |ws|;
    var total := (n * bitsPerCol + 7) / 8;
    var result := new bv8[total](_ => 0);
    ghost var want := Interleave(ws, bitsPerCol);
    assert |want| == bitsPerCol * n == n * bitsPerCol <= 8 * total;
    ZeroFilled(result[..], want);
    var outBit := 0;
    var b := 0;
    while b < bitsPerCol
      invariant b <= bitsPerCol && outBit == b * n <= |want|
      invariant Filled(result[..], want, outBit)
    {
      var srcBit := bitsPerCol - 1 - b;
      var c := 0;
      MulMonotone(b + 1, bitsPerCol, n);
      assert (b + 1) * n == b * n + n;
      while c < n
        invariant c <= n && outBit == b * n + c
        invariant Filled(result[..], want, outBit)
      {
        InterleaveAt(ws, bitsPerCol, b, c);
        if TestBit(ws[c], srcBit) {
          var byteIdx := outBit / 8;
          SetFilled(result[..], want, outBit);
          ghost var after := result[..][byteIdx := result[byteIdx] | ByteMask(7 - outBit % 8)];
          result[byteIdx] := result[byteIdx] | ByteMask(7 - outBit % 8);
          assert result[..] == after;
        } else {
          SkipFilled(result[..], want, outBit);
        }
        outBit := outBit + 1;
        c := c + 1;
      }
      b := b + 1;
    }
    key := result[..];
    FilledKey(key, want);
  }

  /** The first upto key bits are as wanted, the others still zero. */
  ghost predicate Filled(key: seq<bv8>, want: seq<bool>, upto: nat)
    requires upto <= |want| <= 8 * |key|
  {
    forall k :: 0 <= k < 8 * |key| ==> GetBit(key, k) == (k < upto && want[k])
  }

  lemma ZeroFilled(key: seq<bv8>, want: seq<bool>)
    requires |want| <= 8 * |key| && forall i :: 0 <= i < |key| ==> key[i] == 0
    ensures Filled(key, want, 0)
  {
    assert forall j :: 0 <= j < 8 ==> !MsbBits(0)[j];
    hide MsbBits;
  }

  lemma SkipFilled(key: seq<bv8>, want: seq<bool>, at: nat)
    requires at < |want| <= 8 * |key| && Filled(key, want, at) && !want[at]
    ensures Filled(key, want, at + 1)
  {
    hide GetBit;
  }

  lemma SetFilled(key: seq<bv8>, want: seq<bool>, at: nat)
    requires at < |want| <= 8 * |key| && Filled(key, want, at) && want[at]
    ensures Filled(key[at / 8 := key[at / 8] | ByteMask(7 - at % 8)], want, at + 1)
  {
    hide GetBit, ByteMask;
    var after := key[at / 8 := key[at / 8] | ByteMask(7 - at % 8)];
    forall k | 0 <= k < 8 * |key|
      ensures GetBit(after, k) == (k < at + 1 && want[k])
    {
      AfterSet(key, at, k);
      assert GetBit(key, k) == (k < at && want[k]);
    }
  }

  lemma AfterSet(key: seq<bv8>, at: nat, k: nat)
    requires at < 8 * |key| && k < 8 * |key|
    ensures GetBit(key[at / 8 := key[at / 8] | ByteMask(7 - at % 8)], k) == (k == at || GetBit(key, k))
  {
    hide MsbBits, ByteMask;
    assert k == 8 * (k / 8) + k % 8 && at == 8 * (at / 8) + at % 8;
    if k / 8 == at / 8 {
      SetMsbBit(key[at / 8], at % 8, k % 8);
    }
  }

  lemma FilledKey(key: seq<bv8>, want: seq<bool>)
    requires |want| <= 8 * |key| && Filled(key, want, |want|)
    ensures KeyBits(key)[..|want|] == want
    ensures forall k :: |want| <= k < 8 * |key| ==> !KeyBits(key)[k]
  {
    hide GetBit, KeyBits;
    forall k | 0 <= k < 8 * |key| ensures KeyBits(key)[k] == GetBit(key, k) { KeyBitsAt(key, k); }
  }

  // ----- the fast code is the general code -----

  /** The n most significant bytes of a 64-bit word, most significant first. */
  function BigEndian(w: bv64, n: nat): (s: seq<bv8>)
    ensures |s| == n
    decreases n
  {
    if n == 0 then [] else [(w >> 56) as bv8] + BigEndian(w << 8, n - 1)
  }

  function WideTop(w: bv64): bool { w & 0x8000_0000_0000_0000 != 0 }

  function WideShl(w: bv64): bv64 { w << 1 }

  /** The n most significant bits, most significant first. */
  function WideBits(w: bv64, n: nat): (s: seq<bool>)
    ensures |s| == n
    decreases n
  {
    if n == 0 then [] else [WideTop(w)] + WideBits(WideShl(w), n - 1)
  }

  /** The top two bits of a two-column code are the top bits of the columns, second column first,
      and the rest is the code of the columns shifted up. */
  lemma MortonStep(x: bv32, y: bv32)
    ensures WideTop(Morton2D(x, y)) == Top(y)
    ensures WideTop(WideShl(Morton2D(x, y))) == Top(x)
    ensures WideShl(WideShl(Morton2D(x, y))) == Morton2D(Shl(x), Shl(y))
  {
    SpreadStep(x);
    SpreadStep(y);
    hide Spread;
    RawMortonStep(Spread(x), Spread(y));
  }

  lemma SpreadStep(x: bv32)
    ensures Spread(x) & 0xAAAA_AAAA_AAAA_AAAA == 0
    ensures Spread(x) & 0x4000_0000_0000_0000 != 0 <==> x & 0x8000_0000 != 0
    ensures Spread(x << 1) == Spread(x) << 2
  {
  }

  lemma RawMortonStep(p: bv64, q: bv64)
    requires p & 0xAAAA_AAAA_AAAA_AAAA == 0 && q & 0xAAAA_AAAA_AAAA_AAAA == 0
    ensures (p | (q << 1)) & 0x8000_0000_0000_0000 != 0 <==> q & 0x4000_0000_0000_0000 != 0
    ensures ((p | (q << 1)) << 1) & 0x8000_0000_0000_0000 != 0 <==> p & 0x4000_0000_0000_0000 != 0
    ensures ((p | (q << 1)) << 1) << 1 == (p << 2) | ((q << 2) << 1)
  {
  }

  lemma {:induction false} MortonBits(x: bv32, y: bv32, n: nat)
    requires n <= 32
    ensures WideBits(Morton2D(ShiftUp(x, 32 - n), ShiftUp(y, 32 - n)), 2 * n) == Interleave([y, x], n)
  {
    if n > 0 {
      hide Morton2D, Top, Shl, WideTop, WideShl, TestBit, WideBits, Interleave;
      var p, q := ShiftUp(x, 32 - n), ShiftUp(y, 32 - n);
      var m := Morton2D(p, q);
      MortonStep(p, q);
      TopOfShiftUp(x, n);
      TopOfShiftUp(y, n);
      MortonBits(x, y, n - 1);
      WideTwo(m, 2 * n - 2);
      InterleaveTwo(y, x, n);
    }
  }

  lemma WideTwo(m: bv64, n: nat)
    ensures WideBits(m, n + 2) == [WideTop(m), WideTop(WideShl(m))] + WideBits(WideShl(WideShl(m)), n)
  {
    hide WideTop, WideShl;
    assert WideBits(m, n + 2) == [WideTop(m)] + WideBits(WideShl(m), n + 1);
  }

  lemma InterleaveTwo(y: bv32, x: bv32, n: nat)
    requires n > 0
    ensures Interleave([y, x], n) == [TestBit(y, n - 1), TestBit(x, n - 1)] + Interleave([y, x], n - 1)
  {
    hide TestBit;
    assert Level([y, x], n - 1) == [TestBit(y, n - 1), TestBit(x, n - 1)];
  }

  lemma WideCons(w: bv64, n: nat)
    ensures WideBits(w, n + 1) == [WideTop(w)] + WideBits(WideShl(w), n)
  {
  }

  lemma WideByte(w: bv64, n: nat)
    ensures WideBits(w, n + 8) == MsbBits((w >> 56) as bv8) + WideBits(w << 8, n)
  {
    hide WideTop, MsbBits, WideBits, WideShl;
    TopByteBits(w);
    WideShifts(w);
    WideCons(w, n + 7);
    WideCons(w << 1, n + 6);
    WideCons(w << 2, n + 5);
    WideCons(w << 3, n + 4);
    WideCons(w << 4, n + 3);
    WideCons(w << 5, n + 2);
    WideCons(w << 6, n + 1);
    WideCons(w << 7, n);
    Eight(WideTop(w), WideTop(w << 1), WideTop(w << 2), WideTop(w << 3), WideTop(w << 4), WideTop(w << 5),
          WideTop(w << 6), WideTop(w << 7), WideBits(w << 8, n));
  }

  lemma Eight(a: bool, b: bool, c: bool, d: bool, e: bool, f: bool, g: bool, h: bool, rest: seq<bool>)
    ensures [a] + ([b] + ([c] + ([d] + ([e] + ([f] + ([g] + ([h] + rest))))))) == [a, b, c, d, e, f, g, h] + rest
  {
    Four(e, f, g, h, rest);
    Four(a, b, c, d, [e, f, g, h] + rest);
    assert [a, b, c, d] + ([e, f, g, h] + rest) == [a, b, c, d, e, f, g, h] + rest;
  }

  lemma Four(a: bool, b: bool, c: bool, d: bool, rest: seq<bool>)
    ensures [a] + ([b] + ([c] + ([d] + rest))) == [a, b, c, d] + rest
  {
  }

  lemma TopByteBits(w: bv64)
    ensures MsbBits((w >> 56) as bv8) == [WideTop(w), WideTop(w << 1), WideTop(w << 2), WideTop(w << 3),
                                          WideTop(w << 4), WideTop(w << 5), WideTop(w << 6), WideTop(w << 7)]
  {
  }

  lemma WideShifts(w: bv64)
    ensures WideShl(w) == w << 1 && WideShl(w << 1) == w << 2 && WideShl(w << 2) == w << 3 && WideShl(w << 3) == w << 4
    ensures WideShl(w << 4) == w << 5 && WideShl(w << 5) == w << 6 && WideShl(w << 6) == w << 7
    ensures WideShl(w << 7) == w << 8
  {
  }

  lemma {:induction false} BigEndianBits(w: bv64, n: nat)
    ensures KeyBits(BigEndian(w, n)) == WideBits(w, 8 * n)
    decreases n
  {
    if n > 0 {
      hide MsbBits;
      WideByte(w, 8 * (n - 1));
      BigEndianBits(w << 8, n - 1);
      assert BigEndian(w, n)[1..] == BigEndian(w << 8, n - 1);
    }
  }

  /** The big-endian bytes of the fast code spell the plain interleaving of the columns, second column first. */
  lemma MortonIsInterleave(x: bv32, y: bv32)
    ensures KeyBits(BigEndian(Morton2D(x, y), 8)) == Interleave([y, x], 32)
  {
    hide Morton2D, KeyBits, Interleave, WideBits;
    MortonBits(x, y, 32);
    BigEndianBits(Morton2D(x, y), 8);
  }

  lemma {:induction false} BigEndianLess(a: bv64, b: bv64, n: nat)
    requires LexLess(BigEndian(a, n), BigEndian(b, n))
    ensures a < b
    decreases n
  {
    var s, t := BigEndian(a, n), BigEndian(b, n);
    assert s[1..] == BigEndian(a << 8, n - 1) && t[1..] == BigEndian(b << 8, n - 1);
    if s[0] == t[0] {
      BigEndianLess(a << 8, b << 8, n - 1);
      RawLowerLess(a, b);
    } else {
      RawTopLess(a, b);
    }
  }

  lemma RawTopLess(a: bv64, b: bv64)
    requires (a >> 56) as bv8 < (b >> 56) as bv8
    ensures a < b
  {
  }

  lemma RawLowerLess(a: bv64, b: bv64)
    requires (a >> 56) as bv8 == (b >> 56) as bv8 && a << 8 < b << 8
    ensures a < b
  {
  }

  lemma BigEndianInjective(a: bv64, b: bv64)
    requires BigEndian(a, 8) == BigEndian(b, 8)
    ensures a == b
  {
    BigEndianBytes(a);
    BigEndianBytes(b);
    hide BigEndian;
    RawSameBytes(a, b);
  }

  lemma BigEndianBytes(w: bv64)
    ensures var s := BigEndian(w, 8);
            s[0] == (w >> 56) as bv8 && s[1] == ((w << 8) >> 56) as bv8 && s[2] == ((w << 16) >> 56) as bv8 &&
            s[3] == ((w << 24) >> 56) as bv8 && s[4] == ((w << 32) >> 56) as bv8 && s[5] == ((w << 40) >> 56) as bv8 &&
            s[6] == ((w << 48) >> 56) as bv8 && s[7] == ((w << 56) >> 56) as bv8
  {
    RawByteShifts(w);
    BigEndianCons(w, 7);
    BigEndianCons(w << 8, 6);
    BigEndianCons(w << 16, 5);
    BigEndianCons(w << 24, 4);
    BigEndianCons(w << 32, 3);
    BigEndianCons(w << 40, 2);
    BigEndianCons(w << 48, 1);
    BigEndianCons(w << 56, 0);
    hide BigEndian;
  }

  lemma BigEndianCons(w: bv64, n: nat)
    ensures BigEndian(w, n + 1) == [(w >> 56) as bv8] + BigEndian(w << 8, n)
  {
  }

  lemma RawByteShifts(w: bv64)
    ensures (w << 8) << 8 == w << 16 && (w << 16) << 8 == w << 24 && (w << 24) << 8 == w << 32
    ensures (w << 32) << 8 == w << 40 && (w << 40) << 8 == w << 48 && (w << 48) << 8 == w << 56
  {
  }

  lemma RawSameBytes(a: bv64, b: bv64)
    requires (a >> 56) as bv8 == (b >> 56) as bv8 && ((a << 8) >> 56) as bv8 == ((b << 8) >> 56) as bv8
    requires ((a << 16) >> 56) as bv8 == ((b << 16) >> 56) as bv8
    requires ((a << 24) >> 56) as bv8 == ((b << 24) >> 56) as bv8
    requires ((a << 32) >> 56) as bv8 == ((b << 32) >> 56) as bv8
    requires ((a << 40) >> 56) as bv8 == ((b << 40) >> 56) as bv8
    requires ((a << 48) >> 56) as bv8 == ((b << 48) >> 56) as bv8
    requires ((a << 56) >> 56) as bv8 == ((b << 56) >> 56) as bv8
    ensures a == b
  {
  }

  lemma BigEndianBelow(a: bv64, b: bv64)
    requires LexLess(BigEndian(a, 8), BigEndian(b, 8))
    ensures Below64(a, b) && !Below64(b, a)
  {
    BigEndianLess(a, b, 8);
    hide BigEndian, LexLess, Below64;
    Below64Facts(a, b);
  }

  /** Comparing fast codes as unsigned words is comparing general keys as byte strings. */
  lemma FastOrder(a: bv64, b: bv64)
    ensures Below64(a, b) <==> LexLess(BigEndian(a, 8), BigEndian(b, 8))
  {
    hide LexLess, BigEndian, Below64;
    LexTrichotomy(BigEndian(a, 8), BigEndian(b, 8));
    if LexLess(BigEndian(a, 8), BigEndian(b, 8)) {
      BigEndianBelow(a, b);
    } else if LexLess(BigEndian(b, 8), BigEndian(a, 8)) {
      BigEndianBelow(b, a);
    } else {
      BigEndianInjective(a, b);
      Below64Irreflexive(a);
    }
  }
}
