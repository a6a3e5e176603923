/** Fixed-width bit packing and variable-length integers, the two building blocks shared by the
    RLE, dictionary and delta encodings. */
module Packing {
  import opened Arithmetic
  import opened Bits
  import opened Words

  function Copies<T>(n: nat, v: T): (s: seq<T>)
    ensures |s| == n && forall i :: 0 <= i < n ==> s[i] == v
  {
    seq(n, _ => v)
  }

  // ----- bit strings as bytes -----

  function BytesOf(bits: seq<bool>): (data: seq<bv8>)
    requires |bits| % 8 == 0
    ensures |data| == |bits| / 8
  {
    if bits == [] then [] else [JoinBits(bits[..8])] + BytesOf(bits[8..])
  }

  lemma {:induction false} BitsOfBytesOf(bits: seq<bool>)
    requires |bits| % 8 == 0
    ensures BitsOf(BytesOf(bits)) == bits
  {
    hide JoinBits, ByteBits;
    if bits != [] {
      BitsOfBytesOf(bits[8..]);
      JoinedBits(bits[..8]);
      var data := BytesOf(bits);
      assert data[0] == JoinBits(bits[..8]) && data[1..] == BytesOf(bits[8..]);
    }
  }

  // ----- numbers as fixed-width digit groups, least significant bit first -----

  ghost predicate Fit(vs: seq<nat>, width: nat) {
    forall i :: 0 <= i < |vs| ==> vs[i] < Pow2(width)
  }

  function Digits(vs: seq<nat>, width: nat): (bits: seq<bool>)
    ensures |bits| == |vs| * width
  {
    if vs == [] then [] else NatBits(vs[0], width) + Digits(vs[1..], width)
  }

  function Undigits(bits: seq<bool>, width: nat, n: nat): (vs: seq<nat>)
    requires n * width <= |bits|
    ensures |vs| == n
  {
    if n == 0 then []
    else
      assert n * width == width + (n - 1) * width;
      [BitsNat(bits[..width])] + Undigits(bits[width..], width, n - 1)
  }

  lemma {:induction false} DigitsRoundTrip(vs: seq<nat>, width: nat, rest: seq<bool>)
    requires Fit(vs, width)
    ensures Undigits(Digits(vs, width) + rest, width, |vs|) == vs
  {
    hide NatBits, BitsNat, Pow2;
    if vs != [] {
      var bits := Digits(vs, width) + rest;
      DigitsRoundTrip(vs[1..], width, rest);
      NatBitsValue(vs[0], width);
      assert bits[..width] == NatBits(vs[0], width);
      assert bits[width..] == Digits(vs[1..], width) + rest;
      assert vs == [vs[0]] + vs[1..];
    }
  }

  lemma {:induction false} DigitsConcat(a: seq<nat>, b: seq<nat>, width: nat)
    ensures Digits(a + b, width) == Digits(a, width) + Digits(b, width)
  {
    hide NatBits;
    if a == [] {
      assert a + b == b;
    } else {
      assert (a + b)[1..] == a[1..] + b;
      DigitsConcat(a[1..], b, width);
    }
  }

  /** A multiple of eight values, each in width bits. */
  function Pack(vs: seq<nat>, width: nat): (data: seq<bv8>)
    requires |vs| % 8 == 0
    ensures |data| == |vs| / 8 * width
  {
    EightFold(|vs|, width);
    BytesOf(Digits(vs, width))
  }

  lemma EightFold(n: nat, width: nat)
    requires n % 8 == 0
    ensures n * width % 8 == 0 && n * width / 8 == n / 8 * width
  {
    assert n == 8 * (n / 8);
    assert n * width == 8 * (n / 8 * width);
  }

  function Unpack(data: seq<bv8>, width: nat, n: nat): (vs: seq<nat>)
    requires n * width <= 8 * |data|
    ensures |vs| == n
  {
    Undigits(BitsOf(data), width, n)
  }

  /** Unpacking what was packed, whatever bytes follow. */
  lemma PackRoundTrip(vs: seq<nat>, width: nat, rest: seq<bv8>)
    requires |vs| % 8 == 0 && Fit(vs, width)
    ensures |vs| * width <= 8 * |Pack(vs, width) + rest|
    ensures Unpack(Pack(vs, width) + rest, width, |vs|) == vs
  {
    hide BitsOf, BytesOf, Digits, Undigits;
    EightFold(|vs|, width);
    BitsOfConcat(Pack(vs, width), rest);
    BitsOfBytesOf(Digits(vs, width));
    DigitsRoundTrip(vs, width, BitsOf(rest));
  }

  lemma PackConcat(a: seq<nat>, b: seq<nat>, width: nat)
    requires |a| % 8 == 0 && |b| % 8 == 0
    ensures Pack(a + b, width) == Pack(a, width) + Pack(b, width)
  {
    hide BytesOf, Digits;
    EightFold(|a|, width);
    EightFold(|b|, width);
    EightFold(|a + b|, width);
    DigitsConcat(a, b, width);
    BytesOfConcat(Digits(a, width), Digits(b, width));
  }

  lemma {:induction false} BytesOfConcat(a: seq<bool>, b: seq<bool>)
    requires |a| % 8 == 0 && |b| % 8 == 0
    ensures BytesOf(a + b) == BytesOf(a) + BytesOf(b)
  {
    hide JoinBits;
    if a == [] {
      assert a + b == b;
    } else {
      assert (a + b)[8..] == a[8..] + b;
      assert (a + b)[..8] == a[..8];
      BytesOfConcat(a[8..], b);
    }
  }

  // ----- the packing loops -----

  /** The first upto bits are as wanted, the others still clear. */
  ghost predicate Filled(data: seq<bv8>, want: seq<bool>, upto: nat) {
    |want| == 8 * |data| && forall k :: 0 <= k < |want| ==> BitsOf(data)[k] == (k < upto && want[k])
  }

  /** Packs values one behind the other. */
  method PackBits(vs: seq<nat>, width: nat) returns (data: seq<bv8>)
    requires |vs| % 8 == 0
    ensures data == Pack(vs, width)
  {
    hide BitsOf, BytesOf, Digits, Filled, NatBits;
    EightFold(|vs|, width);
    ghost var want := Digits(vs, width);
    var dst := new bv8[|vs| / 8 * width](_ => 0);
    ClearFilled(dst[..], want);
    var i, offset := 0, 0;
    while i < |vs|
      invariant 0 <= i <= |vs| && offset == i * width && fresh(dst)
      invariant Filled(dst[..], want, offset)
    {
      ValueAt(vs, width, i);
      Successor(i, width);
      PackOneValue(dst, vs[i], width, offset, want);
      i, offset := i + 1, offset + width;
    }
    data := dst[..];
    AllFilled(data, want);
  }

  /** The lowest n bits of a value, moved up by o bits. */
  function ChunkByte(v: nat, n: nat, o: nat): bv8
    requires n + o <= 8
  {
    ShiftedChunk(v, n, o);
    Byte(v % Pow2(n) * Pow2(o))
  }

  /** Packs a value chunk by chunk: as many bits as the byte at the cursor has room for, then the rest
      in the bytes that follow. */
  method PackOneValue(dst: array<bv8>, v: nat, width: nat, offset: nat, ghost want: seq<bool>)
    requires Filled(dst[..], want, offset) && offset + width <= |want|
    requires want[offset..offset + width] == NatBits(v, width)
    modifies dst
    ensures Filled(dst[..], want, offset + width)
  {
    hide BitsOf, ChunkByte, Pow2, NatBits, Filled;
    var val: nat, remaining: nat, cur: nat := v, width, offset;
    while remaining > 0
      invariant remaining <= width && cur + remaining == offset + width
      invariant want[cur..cur + remaining] == NatBits(val, remaining)
      invariant Filled(dst[..], want, cur)
    {
      var bit := cur % 8;
      var n := Min(remaining, 8 - bit);
      NextChunk(dst[..], want, cur, val, n, remaining);
      ghost var before := dst[..];
      dst[cur / 8] := dst[cur / 8] | ChunkByte(val, n, bit);
      assert dst[..] == before[cur / 8 := before[cur / 8] | ChunkByte(val, n, bit)];
      val, cur, remaining := Quotient(val, n), cur + n, remaining - n;
    }
  }

  function Quotient(v: nat, n: nat): nat {
    NotNegative(v, Pow2(n));
    v / Pow2(n)
  }

  lemma NotNegative(v: nat, p: nat)
    requires p > 0
    ensures v / p >= 0
  {
  }

  lemma NextChunk(data: seq<bv8>, want: seq<bool>, cur: nat, val: nat, n: nat, remaining: nat)
    requires Filled(data, want, cur) && cur + remaining <= |want|
    requires want[cur..cur + remaining] == NatBits(val, remaining)
    requires remaining > 0 && n == Min(remaining, 8 - cur % 8)
    ensures cur / 8 < |data|
    ensures Filled(data[cur / 8 := data[cur / 8] | ChunkByte(val, n, cur % 8)], want, cur + n)
    ensures want[cur + n..cur + remaining] == NatBits(Quotient(val, n), remaining - n)
  {
    hide BitsOf, ChunkByte, Pow2, NatBits, Filled, Quotient;
    FilledRoom(data, want, cur);
    ChunkOfValue(val, n, remaining);
    assert want[cur..cur + remaining][..n] == want[cur..cur + n];
    assert want[cur..cur + remaining][n..] == want[cur + n..cur + remaining];
    FillChunk(data, want, cur, n, val);
  }

  lemma FilledRoom(data: seq<bv8>, want: seq<bool>, cur: nat)
    requires Filled(data, want, cur) && cur < |want|
    ensures cur / 8 < |data|
  {
  }

  /** Unpacks n values one behind the other. */
  method UnpackBits(data: seq<bv8>, width: nat, n: nat) returns (vs: seq<nat>)
    requires n * width <= 8 * |data|
    ensures vs == Unpack(data, width, n)
  {
    hide BitsOf, BitsNat, Undigits;
    ghost var bits := BitsOf(data);
    vs := [];
    var offset := 0;
    NoDigits(bits, width);
    while |vs| < n
      invariant |vs| <= n && offset == |vs| * width <= 8 * |data|
      invariant vs == Undigits(bits, width, |vs|)
    {
      Successor(|vs|, width);
      Gap(|vs|, n, width);
      var val := UnpackOneValue(data, width, offset);
      NextDigit(bits, width, |vs|);
      vs := vs + [val];
      offset := offset + width;
    }
  }

  /** Unpacks a value chunk by chunk. */
  method UnpackOneValue(data: seq<bv8>, width: nat, offset: nat) returns (v: nat)
    requires offset + width <= 8 * |data|
    ensures v == BitsNat(BitsOf(data)[offset..offset + width])
  {
    hide BitsOf, BitsNat, Pow2, U8;
    ghost var bits := BitsOf(data);
    var val: nat, remaining: nat, cur: nat, done: nat := 0, width, offset, 0;
    NoBits();
    assert bits[offset..offset] == [];
    while remaining > 0
      invariant done + remaining == width && cur == offset + done
      invariant val == BitsNat(bits[offset..cur])
    {
      var bit := cur % 8;
      var count := Min(remaining, 8 - bit);
      ChunkAt(data, cur, count);
      var chunk := U8(data[cur / 8]) / Pow2(bit) % Pow2(count);
      JoinNat(bits[offset..cur], bits[cur..cur + count]);
      assert bits[offset..cur] + bits[cur..cur + count] == bits[offset..cur + count];
      val := val + chunk * Pow2(done);
      cur, done, remaining := cur + count, done + count, remaining - count;
    }
    BitsNatBound(bits[offset..cur]);
    KeepsAll(val, Pow2(width));
    return val % Pow2(width);
  }

  lemma KeepsAll(v: nat, p: nat)
    requires v < p
    ensures v % p == v
  {
  }

  lemma NoBits()
    ensures BitsNat([]) == 0
  {
  }

  lemma NoDigits(bits: seq<bool>, width: nat)
    ensures Undigits(bits, width, 0) == []
  {
  }

  lemma {:induction false} NextDigit(bits: seq<bool>, width: nat, n: nat)
    requires n * width + width <= |bits|
    ensures (n + 1) * width <= |bits|
    ensures Undigits(bits, width, n + 1) == Undigits(bits, width, n) + [BitsNat(bits[n * width..n * width + width])]
    decreases n
  {
    hide BitsNat;
    Successor(n, width);
    if n > 0 {
      Successor(n - 1, width);
      NextDigit(bits[width..], width, n - 1);
      assert bits[width..][(n - 1) * width..(n - 1) * width + width] == bits[n * width..n * width + width];
    } else {
      assert Undigits(bits[width..], width, 0) == [];
      assert bits[0..width] == bits[..width];
    }
  }

  lemma {:induction false} JoinNat(a: seq<bool>, b: seq<bool>)
    ensures BitsNat(a + b) == BitsNat(a) + BitsNat(b) * Pow2(|a|)
  {
    hide BitNat;
    if a == [] {
      assert a + b == b;
    } else {
      JoinNat(a[1..], b);
      assert (a + b)[1..] == a[1..] + b;
      Twice(BitsNat(b), Pow2(|a| - 1));
    }
  }

  lemma Twice(x: nat, p: nat)
    ensures x * (2 * p) == 2 * (x * p)
  {
  }

  /** The bits of a chunk are the shifted and masked byte. */
  lemma ChunkAt(data: seq<bv8>, cur: nat, n: nat)
    requires cur / 8 < |data| && cur % 8 + n <= 8
    ensures cur + n <= 8 * |data|
    ensures U8(data[cur / 8]) / Pow2(cur % 8) % Pow2(n) == BitsNat(BitsOf(data)[cur..cur + n])
  {
    hide BitsOf, ByteBits, BitsNat, Pow2, U8;
    var b, o := data[cur / 8], cur % 8;
    U8Bits(b);
    SliceNat(ByteBits(b), o, n);
    var s, t := BitsOf(data)[cur..cur + n], ByteBits(b)[o..o + n];
    forall k | 0 <= k < n ensures s[k] == t[k] {
      BitsOfAt(data, cur + k);
      assert (cur + k) / 8 == cur / 8 && (cur + k) % 8 == o + k;
    }
    assert s == t;
  }

  lemma {:induction false} SliceNat(s: seq<bool>, o: nat, n: nat)
    requires o + n <= |s|
    ensures BitsNat(s) / Pow2(o) % Pow2(n) == BitsNat(s[o..o + n])
  {
    hide BitsNat, Pow2;
    assert s == s[..o] + s[o..] && s[o..] == s[o..o + n] + s[o + n..];
    JoinNat(s[..o], s[o..]);
    JoinNat(s[o..o + n], s[o + n..]);
    BitsNatBound(s[..o]);
    BitsNatBound(s[o..o + n]);
    Coordinates(BitsNat(s[o..]), BitsNat(s[..o]), Pow2(o));
    Coordinates(BitsNat(s[o + n..]), BitsNat(s[o..o + n]), Pow2(n));
  }

  lemma ClearFilled(data: seq<bv8>, want: seq<bool>)
    requires |want| == 8 * |data| && forall i :: 0 <= i < |data| ==> data[i] == 0
    ensures Filled(data, want, 0)
  {
    hide BitsOf, ByteBits;
    forall k | 0 <= k < |want| ensures !BitsOf(data)[k] {
      BitsOfAt(data, k);
      ZeroBits(k % 8);
    }
  }

  lemma AllFilled(data: seq<bv8>, want: seq<bool>)
    requires Filled(data, want, |want|)
    ensures |want| % 8 == 0 && data == BytesOf(want)
  {
    hide BitsOf, BytesOf;
    assert BitsOf(data) == want;
    BytesOfBitsOf(data);
  }

  lemma {:induction false} BytesOfBitsOf(data: seq<bv8>)
    ensures BytesOf(BitsOf(data)) == data
  {
    hide JoinBits, ByteBits;
    if data != [] {
      BytesOfBitsOf(data[1..]);
      var bits := BitsOf(data);
      assert bits[..8] == ByteBits(data[0]) && bits[8..] == BitsOf(data[1..]);
      JoinedByte(data[0]);
    }
  }

  lemma JoinedByte(b: bv8)
    ensures JoinBits(ByteBits(b)) == b
  {
    hide ByteBits, JoinBits, U8;
    JoinedBits(ByteBits(b));
    U8Bits(JoinBits(ByteBits(b)));
    U8Bits(b);
    U8Order(b, JoinBits(ByteBits(b)));
  }

  /** The digits of value i stand at i times the width. */
  lemma {:induction false} ValueAt(vs: seq<nat>, width: nat, i: nat)
    requires i < |vs|
    ensures i * width + width <= |vs| * width
    ensures Digits(vs, width)[i * width..i * width + width] == NatBits(vs[i], width)
  {
    hide NatBits;
    Gap(i, |vs|, width);
    if i > 0 {
      Successor(i - 1, width);
      ValueAt(vs[1..], width, i - 1);
      var tail := Digits(vs[1..], width);
      assert Digits(vs, width) == NatBits(vs[0], width) + tail;
      assert Digits(vs, width)[i * width..i * width + width] == tail[(i - 1) * width..(i - 1) * width + width];
    } else {
      assert Digits(vs, width)[0..width] == NatBits(vs[0], width);
    }
  }

  /** Cutting digits off a value is dividing it. */
  lemma {:induction false} ChunkOfValue(v: nat, n: nat, k: nat)
    requires n <= k
    ensures NatBits(v, k)[..n] == NatBits(v, n) && NatBits(v, k)[n..] == NatBits(Quotient(v, n), k - n)
    decreases n
  {
    if n > 0 {
      ChunkOfValue(v / 2, n - 1, k - 1);
      HalfParts(v, Pow2(n - 1));
      assert NatBits(v, k)[n..] == NatBits(v / 2, k - 1)[n - 1..];
      assert NatBits(v, k)[..n] == [v % 2 == 1] + NatBits(v / 2, k - 1)[..n - 1];
    }
  }

  lemma {:induction false} RemainderDigits(v: nat, n: nat)
    ensures NatBits(v % Pow2(n), n) == NatBits(v, n)
    decreases n
  {
    if n > 0 {
      RemainderDigits(v / 2, n - 1);
      HalfParts(v, Pow2(n - 1));
    }
  }

  lemma HalfParts(v: nat, p: nat)
    requires p > 0
    ensures v / (2 * p) == v / 2 / p && v % (2 * p) % 2 == v % 2 && v % (2 * p) / 2 == v / 2 % p
  {
    var h, b := v / 2, v % 2;
    var q, r := h / p, h % p;
    assert h == q * p + r;
    Twice(q, p);
    assert v == q * (2 * p) + (2 * r + b);
    Coordinates(q, 2 * r + b, 2 * p);
  }

  lemma ShiftedChunk(v: nat, n: nat, o: nat)
    requires n + o <= 8
    ensures v % Pow2(n) * Pow2(o) < 256
  {
    hide Pow2;
    Pow2Add(n, o);
    Pow2Monotone(n + o, 8);
    Pow2At8();
    MulStrict(v % Pow2(n), Pow2(n), Pow2(o));
  }

  /** Or-ing a chunk into the byte at the cursor moves the filled prefix on. */
  lemma FillChunk(data: seq<bv8>, want: seq<bool>, cur: nat, n: nat, v: nat)
    requires Filled(data, want, cur) && cur / 8 < |data| && cur % 8 + n <= 8
    requires cur + n <= |want| && want[cur..cur + n] == NatBits(v, n)
    ensures Filled(data[cur / 8 := data[cur / 8] | ChunkByte(v, n, cur % 8)], want, cur + n)
  {
    hide BitsOf, ChunkByte, NatBits;
    var at, o := cur / 8, cur % 8;
    var after := data[at := data[at] | ChunkByte(v, n, o)];
    forall k | 0 <= k < |want| ensures BitsOf(after)[k] == (k < cur + n && want[k]) {
      FillBit(data, want, at, o, n, v, k / 8, k % 8);
      assert k == 8 * (k / 8) + k % 8;
    }
  }

  lemma FillBit(data: seq<bv8>, want: seq<bool>, at: nat, o: nat, n: nat, v: nat, l: nat, j: nat)
    requires at < |data| && o + n <= 8 && l < |data| && j < 8 && Filled(data, want, 8 * at + o)
    requires 8 * at + o + n <= |want| && want[8 * at + o..8 * at + o + n] == NatBits(v, n)
    ensures var k := 8 * l + j;
            BitsOf(data[at := data[at] | ChunkByte(v, n, o)])[k] == (k < 8 * at + o + n && want[k])
  {
    hide BitsOf, ByteBits, ChunkByte, NatBits;
    AfterOr(data, at, ChunkByte(v, n, o), l, j);
    if l == at {
      ChunkBits(v, n, o, j);
      if o <= j < o + n {
        assert want[8 * l + j] == want[8 * at + o..8 * at + o + n][j - o];
      }
    }
  }

  lemma AfterOr(data: seq<bv8>, at: nat, m: bv8, l: nat, j: nat)
    requires at < |data| && l < |data| && j < 8
    ensures BitsOf(data[at := data[at] | m])[8 * l + j] == (BitsOf(data)[8 * l + j] || (l == at && ByteBits(m)[j]))
  {
    hide BitsOf, ByteBits;
    BitsOfAt(data[at := data[at] | m], 8 * l + j);
    BitsOfAt(data, 8 * l + j);
    OrBits(data[at], m, j);
  }

  lemma ChunkBits(v: nat, n: nat, o: nat, j: nat)
    requires o + n <= 8 && j < 8
    ensures ByteBits(ChunkByte(v, n, o))[j] == (o <= j < o + n && NatBits(v, n)[j - o])
  {
    hide ByteBits, JoinBits, Pow2, NatBits;
    ShiftedChunk(v, n, o);
    KeepsBelow(v, Pow2(n));
    ShiftedBits(v % Pow2(n), n, o, j);
    RemainderDigits(v, n);
  }

  lemma KeepsBelow(v: nat, p: nat)
    requires p > 0
    ensures v % p < p
  {
  }

  lemma ShiftedBits(chunk: nat, n: nat, o: nat, j: nat)
    requires chunk < Pow2(n) && o + n <= 8 && j < 8 && chunk * Pow2(o) < 256
    ensures ByteBits(Byte(chunk * Pow2(o)))[j] == (o <= j < o + n && NatBits(chunk, n)[j - o])
  {
    hide ByteBits, Byte, Pow2, NatBits;
    ByteDigits(chunk * Pow2(o), j);
    ShiftedDigits(chunk, o, 8);
    if j >= o {
      HighDigits(chunk, n, 8 - o, j - o);
    }
  }

  lemma ByteDigits(y: nat, j: nat)
    requires y < 256 && j < 8
    ensures ByteBits(Byte(y))[j] == NatBits(y, 8)[j]
  {
    hide ByteBits, JoinBits, NatBits;
    JoinedBits(NatBits(y, 8));
  }

  /** A number below 2 to the n has no digits from n on. */
  lemma HighDigits(chunk: nat, n: nat, k: nat, i: nat)
    requires chunk < Pow2(n) && n <= k && i < k
    ensures NatBits(chunk, k)[i] == (i < n && NatBits(chunk, n)[i])
  {
    hide Pow2, NatBits;
    ChunkOfValue(chunk, n, k);
    QuotientZero(chunk, Pow2(n));
    ZeroDigits(k - n);
    if i < n {
      assert NatBits(chunk, k)[i] == NatBits(chunk, k)[..n][i];
    } else {
      assert NatBits(chunk, k)[i] == NatBits(chunk, k)[n..][i - n];
    }
  }

  lemma QuotientZero(v: nat, p: nat)
    requires v < p
    ensures v / p == 0
  {
  }

  lemma {:induction false} ZeroDigits(k: nat)
    ensures forall i :: 0 <= i < k ==> !NatBits(0, k)[i]
  {
    if k > 0 {
      ZeroDigits(k - 1);
    }
  }

  /** Shifting by o puts o zeros below the digits. */
  lemma {:induction false} ShiftedDigits(v: nat, o: nat, k: nat)
    requires o <= k
    ensures forall i :: 0 <= i < k ==> NatBits(v * Pow2(o), k)[i] == (i >= o && NatBits(v, k - o)[i - o])
    decreases o
  {
    if o > 0 {
      ShiftedDigits(v, o - 1, k - 1);
      Twice(v, Pow2(o - 1));
      var w := v * Pow2(o - 1);
      assert v * Pow2(o) == 2 * w && 2 * w % 2 == 0 && 2 * w / 2 == w;
      assert NatBits(2 * w, k) == [false] + NatBits(w, k - 1);
    }
  }

  // ----- variable-length integers -----

  /** Seven bits a byte, least significant first, the top bit set on every byte but the last. */
  function Varint(n: nat): (data: seq<bv8>)
    ensures |data| > 0
  {
    if n < 128 then [Byte(n)] else [Byte(128 + n % 128)] + Varint(n / 128)
  }

  lemma {:induction false} VarintLength(n: nat, k: nat)
    requires n < Pow2(7 * k) && k > 0
    ensures |Varint(n)| <= k
    decreases n
  {
    if n >= 128 {
      assert Pow2(7) == 128;
      if k > 1 {
        Pow2Add(7, 7 * (k - 1));
        VarintLength(n / 128, k - 1);
      }
    }
  }

  /** Arithmetic in 64 unsigned bits. */
  function Wrap64(n: int): (w: nat)
    ensures w < TWO64
  {
    n % TWO64
  }

  lemma WrapSmall(n: nat)
    requires n < TWO64
    ensures Wrap64(n) == n
  {
  }

  /** The decoder's loop from one byte on: the value accumulated and, unless the bytes ran out or the
      shift passed 63, the position behind the integer. Running out keeps the partial value; a shift
      beyond 63 gives zero. */
  function VarintLoop(data: seq<bv8>, pos: nat, shift: nat, acc: nat): (r: (nat, int))
    ensures r.1 <= |data| && (r.1 == -1 || r.1 > pos)
    decreases if pos < |data| then |data| - pos else 0
  {
    if pos >= |data| then (acc, -1)
    else
      var b := U8(data[pos]);
      var sum := Wrap64(acc + b % 128 * Pow2(shift));
      if b < 128 then (sum, pos + 1)
      else if shift + 7 >= 64 then (0, -1)
      else VarintLoop(data, pos + 1, shift + 7, sum)
  }

  /** The value and the new position, which is the old one when decoding fails. */
  function ReadVarint(data: seq<bv8>, pos: nat): (r: (nat, nat))
    ensures pos <= r.1 && (pos <= |data| ==> r.1 <= |data|)
  {
    var (v, next) := VarintLoop(data, pos, 0, 0);
    (v, if next < 0 then pos else next)
  }

  lemma {:induction false} VarintLoopReads(n: nat, data: seq<bv8>, pos: nat, shift: nat, acc: nat)
    requires acc + n * Pow2(shift) < TWO64
    requires pos + |Varint(n)| <= |data| && data[pos..pos + |Varint(n)|] == Varint(n)
    ensures VarintLoop(data, pos, shift, acc) == (acc + n * Pow2(shift), pos + |Varint(n)|)
    decreases n
  {
    hide Byte, U8, Pow2, VarintLoop;
    VarintHead(n, data, pos);
    if n < 128 {
      LastStep(n, data, pos, shift, acc);
    } else {
      SplitProduct(n, Pow2(shift));
      LargeShift(n, shift);
      NextStep(n, data, pos, shift, acc);
      VarintLoopReads(n / 128, data, pos + 1, shift + 7, acc + n % 128 * Pow2(shift));
    }
  }

  lemma VarintHead(n: nat, data: seq<bv8>, pos: nat)
    requires pos + |Varint(n)| <= |data| && data[pos..pos + |Varint(n)|] == Varint(n)
    ensures U8(data[pos]) == if n < 128 then n else 128 + n % 128
    ensures n >= 128 ==> |Varint(n)| == 1 + |Varint(n / 128)| &&
                         data[pos + 1..pos + 1 + |Varint(n / 128)|] == Varint(n / 128)
  {
    hide Byte, U8;
    var p := Varint(n);
    assert data[pos] == data[pos..pos + |p|][0] == p[0];
    if n < 128 {
      ByteValue(n);
    } else {
      ByteValue(128 + n % 128);
      assert data[pos + 1..pos + |p|] == data[pos..pos + |p|][1..];
    }
  }

  lemma LastStep(n: nat, data: seq<bv8>, pos: nat, shift: nat, acc: nat)
    requires acc + n * Pow2(shift) < TWO64 && pos < |data| && U8(data[pos]) == n < 128
    ensures VarintLoop(data, pos, shift, acc) == (acc + n * Pow2(shift), pos + 1)
  {
    hide U8, Pow2, Wrap64;
    WrapSmall(acc + n * Pow2(shift));
  }

  lemma NextStep(n: nat, data: seq<bv8>, pos: nat, shift: nat, acc: nat)
    requires acc + n % 128 * Pow2(shift) < TWO64 && pos < |data| && U8(data[pos]) == 128 + n % 128 && shift + 7 < 64
    ensures VarintLoop(data, pos, shift, acc) == VarintLoop(data, pos + 1, shift + 7, acc + n % 128 * Pow2(shift))
  {
    hide U8, Pow2, Wrap64;
    WrapSmall(acc + n % 128 * Pow2(shift));
    assert (128 + n % 128) % 128 == n % 128;
  }

  lemma SplitProduct(n: nat, p: nat)
    ensures n * p == n % 128 * p + n / 128 * (128 * p)
    ensures n % 128 * p <= n * p
  {
    assert n == n % 128 + 128 * (n / 128);
  }

  /** Seven more bits still fit while the integer does. */
  lemma LargeShift(n: nat, shift: nat)
    requires n >= 128 && n * Pow2(shift) < TWO64
    ensures shift + 7 < 64 && Pow2(shift + 7) == 128 * Pow2(shift)
  {
    Pow2Add(7, shift);
    assert Pow2(7) == 128;
    if shift >= 57 {
      Pow2Monotone(57, shift);
      Pow2At57();
      AtLeastProduct(n, Pow2(shift));
    }
  }

  lemma AtLeastProduct(n: nat, p: nat)
    requires n >= 128
    ensures n * p >= 128 * p
  {
  }

  /** Every 64-bit integer reads back from its bytes, whatever surrounds them. */
  lemma VarintRoundTrip(n: nat, before: seq<bv8>, after: seq<bv8>)
    requires n < TWO64
    ensures ReadVarint(before + Varint(n) + after, |before|) == (n, |before| + |Varint(n)|)
  {
    hide Varint, VarintLoop;
    var data := before + Varint(n) + after;
    assert data[|before|..|before| + |Varint(n)|] == Varint(n);
    VarintLoopReads(n, data, |before|, 0, 0);
  }

  lemma VarintAt(data: seq<bv8>, pos: nat, n: nat, rest: seq<bv8>)
    requires pos <= |data| && data[pos..] == Varint(n) + rest && n < TWO64
    ensures ReadVarint(data, pos) == (n, pos + |Varint(n)|)
    ensures pos + |Varint(n)| <= |data| && data[pos + |Varint(n)|..] == rest
  {
    hide Varint, ReadVarint;
    assert data == data[..pos] + Varint(n) + rest;
    VarintRoundTrip(n, data[..pos], rest);
    assert data[pos + |Varint(n)|..] == data[pos..][|Varint(n)|..];
  }
}
