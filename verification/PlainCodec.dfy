/** The PLAIN encoding: the column writer that builds a page and the column reader that takes it
    apart again, value by value or in batches. */
module PlainCodec {
  import opened Bits
  import opened Words
  import opened Values
  import Statistics

  // ----- bit-packed booleans -----

  function BytesFor(bits: nat): nat { (bits + 7) / 8 }

  /** Booleans packed eight to a byte, least significant bit first, the last byte zero-padded. */
  ghost predicate Packs(buf: seq<bv8>, bits: seq<bool>) {
    |buf| == BytesFor(|bits|) &&
    forall k :: 0 <= k < 8 * |buf| ==> BitAt(buf, k) == (k < |bits| && bits[k])
  }

  function BitAt(buf: seq<bv8>, k: nat): bool
    requires k < 8 * |buf|
  {
    ByteBits(buf[k / 8])[k % 8]
  }

  /** Appending one boolean the way the column writer does it: extend on a byte boundary, then set. */
  function PackOne(buf: seq<bv8>, at: nat, b: bool): seq<bv8>
    requires at / 8 <= |buf|
  {
    var extended := if at / 8 >= |buf| then buf + [0] else buf;
    if b then extended[at / 8 := extended[at / 8] | ByteMask(at % 8)] else extended
  }

  lemma PackOnePacks(buf: seq<bv8>, bits: seq<bool>, b: bool)
    requires Packs(buf, bits)
    ensures |bits| / 8 <= |buf| && Packs(PackOne(buf, |bits|, b), bits + [b])
  {
    hide BitAt, PackOne;
    PackOneLength(buf, |bits|, b);
    var after := PackOne(buf, |bits|, b);
    forall k | 0 <= k < 8 * |after| ensures BitAt(after, k) == (k < |bits + [b]| && (bits + [b])[k]) {
      PackOneBit(buf, bits, b, k);
    }
  }

  lemma PackOneLength(buf: seq<bv8>, at: nat, b: bool)
    requires |buf| == BytesFor(at)
    ensures at / 8 <= |buf| && |PackOne(buf, at, b)| == BytesFor(at + 1)
  {
    hide ByteMask;
  }

  /** Bit k after one more boolean. */
  lemma PackOneBit(buf: seq<bv8>, bits: seq<bool>, b: bool, k: nat)
    requires Packs(buf, bits) && |bits| / 8 <= |buf| && k < 8 * |PackOne(buf, |bits|, b)|
    ensures BitAt(PackOne(buf, |bits|, b), k) == (k < |bits + [b]| && (bits + [b])[k])
  {
    hide ByteBits, ByteMask;
    var at := |bits|;
    var extended := if at / 8 >= |buf| then buf + [0] else buf;
    if k / 8 < |buf| {
      assert BitAt(buf, k) == (k < |bits| && bits[k]);
    } else {
      ZeroBits(k % 8);
    }
    if k / 8 == at / 8 {
      SetBit(extended[at / 8], at % 8, k % 8);
      assert k == 8 * (k / 8) + k % 8 && at == 8 * (at / 8) + at % 8;
    }
  }

  function PackAll(bits: seq<bool>): (buf: seq<bv8>)
    ensures |buf| == BytesFor(|bits|)
  {
    if bits == [] then [] else PackOne(PackAll(bits[..|bits| - 1]), |bits| - 1, bits[|bits| - 1])
  }

  lemma {:induction false} PackAllPacks(bits: seq<bool>)
    ensures Packs(PackAll(bits), bits)
  {
    hide Packs, PackOne;
    if bits == [] {
      NothingPacks();
    } else {
      var init := bits[..|bits| - 1];
      PackAllPacks(init);
      PackOnePacks(PackAll(init), init, bits[|bits| - 1]);
      assert bits == init + [bits[|bits| - 1]];
    }
  }

  lemma NothingPacks()
    ensures Packs([], [])
  {
  }

  // ----- values as PLAIN bytes -----

  /** Values the type can store: byte arrays have a 32-bit length, fixed arrays the declared one. */
  predicate Storable(v: Value, t: PhysicalType, width: int) {
    HasType(v, t) &&
    match t
    case BYTE_ARRAY | INT96 => |v.s| < TWO32
    case FIXED_LEN_BYTE_ARRAY => width > 0 ==> |v.s| == width
    case _ => true
  }

  /** Only byte arrays are ever refused: one too long for a length field, or not of the declared length. */
  lemma StorableWhen(v: Value, t: PhysicalType, width: int)
    requires HasType(v, t)
    ensures Storable(v, t, width) <==>
              && (t == BYTE_ARRAY || t == INT96 ==> |v.s| < 0x1_0000_0000)
              && (t == FIXED_LEN_BYTE_ARRAY ==> width <= 0 || |v.s| == width)
  {
  }

  predicate AllStorable(vs: seq<Value>, t: PhysicalType, width: int) {
    forall i :: 0 <= i < |vs| ==> Storable(vs[i], t, width)
  }

  /** How many leading values can be stored. */
  function StorableCount(vs: seq<Value>, t: PhysicalType, width: int): (n: nat)
    ensures n <= |vs|
  {
    if AllStorable(vs, t, width) then |vs| else StorableCount(vs[..|vs| - 1], t, width)
  }

  lemma {:induction false} FirstRefused(vs: seq<Value>, t: PhysicalType, width: int, i: nat)
    requires i <= |vs| && AllStorable(vs[..i], t, width) && (i < |vs| ==> !Storable(vs[i], t, width))
    ensures StorableCount(vs, t, width) == i
    decreases |vs|
  {
    hide Storable;
    if i < |vs| {
      var init := vs[..|vs| - 1];
      assert init[..i] == vs[..i];
      FirstRefused(init, t, width, i);
    } else {
      assert vs[..i] == vs;
    }
  }

  /** The bytes of one byte-aligned value. */
  function PlainOne(v: Value, t: PhysicalType): seq<bv8>
    requires HasType(v, t) && t != BOOLEAN && (t == BYTE_ARRAY || t == INT96 ==> |v.s| < TWO32)
  {
    match v
    case I32(w) => Le32(w)
    case F32(w) => Le32(w)
    case I64(d) => Le64(d)
    case F64(d) => Le64(d)
    case Bytes(s) => if t == FIXED_LEN_BYTE_ARRAY then s else LeBytes(|s|) + s
  }

  function Flags(vs: seq<Value>): (bits: seq<bool>)
    requires AllOfType(vs, BOOLEAN)
    ensures |bits| == |vs| && forall i :: 0 <= i < |vs| ==> bits[i] == vs[i].b
  {
    seq(|vs|, i requires 0 <= i < |vs| => vs[i].b)
  }

  /** The PLAIN page of a column. */
  function Plain(vs: seq<Value>, t: PhysicalType, width: int): seq<bv8>
    requires AllStorable(vs, t, width)
  {
    if t == BOOLEAN then PackAll(Flags(vs))
    else if vs == [] then []
    else Plain(vs[..|vs| - 1], t, width) + PlainOne(vs[|vs| - 1], t)
  }

  /** The items the statistics see: every value, no nulls. */
  function Items(vs: seq<Value>): (s: seq<Statistics.Item>)
    ensures |s| == |vs| && forall i :: 0 <= i < |vs| ==> s[i] == Some(vs[i])
  {
    seq(|vs|, i requires 0 <= i < |vs| => Some(vs[i]))
  }

  lemma PlainAppend(vs: seq<Value>, v: Value, t: PhysicalType, width: int)
    requires AllStorable(vs, t, width) && Storable(v, t, width)
    ensures AllStorable(vs + [v], t, width)
    ensures t == BOOLEAN ==> |vs| / 8 <= |Plain(vs, t, width)| &&
                             Plain(vs + [v], t, width) == PackOne(Plain(vs, t, width), |vs|, v.b)
    ensures t != BOOLEAN ==> Plain(vs + [v], t, width) == Plain(vs, t, width) + PlainOne(v, t)
  {
    hide PlainOne, PackOne, Storable;
    assert (vs + [v])[..|vs|] == vs;
    if t == BOOLEAN {
      FlagsAppend(vs, v, width);
    }
  }

  lemma FlagsAppend(vs: seq<Value>, v: Value, width: int)
    requires AllStorable(vs, BOOLEAN, width) && Storable(v, BOOLEAN, width)
    ensures AllOfType(vs, BOOLEAN) && AllOfType(vs + [v], BOOLEAN) && v.Bool?
    ensures PackAll(Flags(vs + [v])) == PackOne(PackAll(Flags(vs)), |vs|, v.b) && |vs| / 8 <= |PackAll(Flags(vs))|
  {
    hide PackOne;
    forall i | 0 <= i < |vs| ensures HasType(vs[i], BOOLEAN) {
      assert Storable(vs[i], BOOLEAN, width);
    }
    assert Flags(vs + [v]) == Flags(vs) + [v.b];
    assert Flags(vs + [v])[..|vs|] == Flags(vs);
  }

  /** The column writer: a growing page, its value count and its statistics. */
  class ColumnWriter {
    const ptype: PhysicalType
    const typeLength: int
    const stats: Statistics.ColumnStatistics
    var buf: seq<bv8>
    var numValues: nat
    ghost var written: seq<Value>

    /** The page, the count and the statistics are those of the values written since the last reset. */
    ghost predicate Valid()
      reads this, stats
    {
      && AllStorable(written, ptype, typeLength)
      && buf == Plain(written, ptype, typeLength)
      && numValues == |written|
      && stats.State() == Statistics.Feed(Statistics.Fresh(INT32), Items(written))
    }

    constructor (t: PhysicalType, length: int)
      ensures Valid() && written == [] && ptype == t && typeLength == length && fresh(stats)
    {
      ptype, typeLength, buf, numValues, written := t, length, [], 0, [];
      stats := new Statistics.ColumnStatistics();
    }

    /** Writes one value of the column's type; a byte string of the wrong length is refused and
        nothing changes. */
    method Write(v: Value) returns (ok: bool)
      requires Valid() && HasType(v, ptype)
      modifies this, stats
      ensures ok == Storable(v, ptype, typeLength)
      ensures ptype == BYTE_ARRAY || ptype == INT96 ==> (ok <==> |v.s| < 0x1_0000_0000)
      ensures ptype == FIXED_LEN_BYTE_ARRAY ==> (ok <==> typeLength <= 0 || |v.s| == typeLength)
      ensures !v.Bytes? ==> ok
      ensures Valid() && written == if ok then old(written) + [v] else old(written)
    {
      hide Plain, Storable, PackOne, PlainOne;
      ok := StorableNow(v, ptype, typeLength);
      StorableWhen(v, ptype, typeLength);
      if !ok {
        return;
      }
      PlainAppend(written, v, ptype, typeLength);
      StorableFits(v, ptype, typeLength);
      if ptype == BOOLEAN {
        buf := PackOne(buf, numValues, v.b);
      } else {
        buf := buf + PlainOne(v, ptype);
      }
      stats.Add(v);
      numValues := numValues + 1;
      FeedAppend(written, v);
      written := written + [v];
    }

    /** Writes a batch, stopping at the first value that is refused; those before it stay. */
    method WriteBatch(values: seq<Value>) returns (ok: bool)
      requires Valid() && AllOfType(values, ptype)
      modifies this, stats
      ensures ok == AllStorable(values, ptype, typeLength)
      ensures Valid() && written == old(written) + values[..StorableCount(values, ptype, typeLength)]
      ensures ok ==> StorableCount(values, ptype, typeLength) == |values|
    {
      hide Storable, Plain, HasType, Valid, AllStorable, StorableCount;
      ok := true;
      var i := 0;
      AllStorableStart(ptype, typeLength);
      while i < |values|
        invariant 0 <= i <= |values| && Valid()
        invariant AllStorable(values[..i], ptype, typeLength)
        invariant written == old(written) + values[..i]
      {
        AllStorableStep(values, i, ptype, typeLength);
        ok := Write(values[i]);
        if !ok {
          FirstRefused(values, ptype, typeLength, i);
          return;
        }
        assert values[..i + 1] == values[..i] + [values[i]];
        i := i + 1;
      }
      assert values[..i] == values;
      FirstRefused(values, ptype, typeLength, i);
    }

    method Reset()
      requires Valid()
      modifies this, stats
      ensures Valid() && written == []
    {
      FeedKeepsType(Items(written));
      buf, numValues, written := [], 0, [];
      stats.Reset();
    }
  }

  lemma AllStorableStart(t: PhysicalType, width: int)
    ensures AllStorable([], t, width)
  {
  }

  lemma AllStorableStep(vs: seq<Value>, i: nat, t: PhysicalType, width: int)
    requires i < |vs| && AllStorable(vs[..i], t, width)
    ensures AllStorable(vs[..i + 1], t, width) <==> Storable(vs[i], t, width)
    ensures !Storable(vs[i], t, width) ==> !AllStorable(vs, t, width)
  {
    hide Storable;
    assert vs[..i + 1] == vs[..i] + [vs[i]];
  }

  function StorableNow(v: Value, t: PhysicalType, width: int): (ok: bool)
    requires HasType(v, t)
    ensures ok == Storable(v, t, width)
  {
    if t == BYTE_ARRAY || t == INT96 then |v.s| < TWO32
    else if t == FIXED_LEN_BYTE_ARRAY then !(width > 0 && |v.s| != width)
    else true
  }

  lemma StorableFits(v: Value, t: PhysicalType, width: int)
    requires Storable(v, t, width)
    ensures HasType(v, t) && (t == BYTE_ARRAY || t == INT96 ==> |v.s| < TWO32)
  {
  }

  lemma FeedAppend(vs: seq<Value>, v: Value)
    ensures Statistics.Feed(Statistics.Fresh(INT32), Items(vs + [v])) ==
            Statistics.Update(Statistics.Feed(Statistics.Fresh(INT32), Items(vs)), v)
  {
    hide Statistics.Update;
    assert Items(vs + [v])[..|vs|] == Items(vs);
  }

  lemma {:induction false} FeedKeepsType(items: seq<Statistics.Item>)
    ensures Statistics.Feed(Statistics.Fresh(INT32), items).ptype == INT32
    decreases |items|
  {
    if items != [] {
      FeedKeepsType(items[..|items| - 1]);
    }
  }

  // ----- the reader -----

  /** A column reader: the page, the value count of its header, and the cursor. */
  datatype Cursor = Cursor(t: PhysicalType, data: seq<bv8>, num: nat, width: int, pos: nat, done: nat, bit: nat)

  function Start(t: PhysicalType, data: seq<bv8>, num: nat, width: int): Cursor { Cursor(t, data, num, width, 0, 0, 0) }

  /** Bytes of a fixed-width type. */
  function FixedWidth(t: PhysicalType): nat {
    match t
    case INT32 | FLOAT => 4
    case INT64 | DOUBLE => 8
    case _ => 0
  }

  function Decode(t: PhysicalType, s: seq<bv8>): Value
    requires FixedWidth(t) > 0 && |s| == FixedWidth(t)
  {
    match t
    case INT32 => I32(FromLe32(s))
    case FLOAT => F32(FromLe32(s))
    case INT64 => I64(FromLe64(s))
    case DOUBLE => F64(FromLe64(s))
  }

  /** One value at the cursor, read as a value of the wanted type. */
  function ReadOne(c: Cursor, want: PhysicalType): Result<(Value, Cursor)> {
    if want == INT96 || c.t != want then Err(UNSUPPORTED_TYPE)
    else if c.done >= c.num then Err(OUT_OF_RANGE)
    else if want == BOOLEAN then
      if c.bit / 8 >= |c.data| then Err(CORRUPT_PAGE)
      else Ok((Bool(BitAt(c.data, c.bit)), c.(bit := c.bit + 1, done := c.done + 1)))
    else if want == BYTE_ARRAY then
      if c.pos + 4 > |c.data| then Err(CORRUPT_PAGE)
      else
        var len := LeValue(c.data[c.pos..c.pos + 4]);
        if len > |c.data| - c.pos - 4 then Err(CORRUPT_PAGE)
        else Ok((Bytes(c.data[c.pos + 4..c.pos + 4 + len]), c.(pos := c.pos + 4 + len, done := c.done + 1)))
    else if want == FIXED_LEN_BYTE_ARRAY then
      if c.width <= 0 then Err(SCHEMA_MISMATCH)
      else if c.pos + c.width > |c.data| then Err(CORRUPT_PAGE)
      else Ok((Bytes(c.data[c.pos..c.pos + c.width]), c.(pos := c.pos + c.width, done := c.done + 1)))
    else
      var w := FixedWidth(want);
      if c.pos + w > |c.data| then Err(CORRUPT_PAGE)
      else Ok((Decode(want, c.data[c.pos..c.pos + w]), c.(pos := c.pos + w, done := c.done + 1)))
  }

  /** n single reads in a row. */
  function ReadMany(c: Cursor, want: PhysicalType, n: nat): Result<(seq<Value>, Cursor)> {
    if n == 0 then Ok(([], c))
    else
      var (vs, before) :- ReadMany(c, want, n - 1);
      var (v, after) :- ReadOne(before, want);
      Ok((vs + [v], after))
  }

  const SIZE_MAX: nat := 0xFFFF_FFFF_FFFF_FFFF

  /** More bytes than any page in memory has; its bits can still be counted in 64 bits. */
  const PAGE_MAX: nat := 0x1000_0000_0000_0000

  /** A size as the signed number of the same bits. */
  function Signed(n: nat): int { if n < TWO63 then n else n - TWO64 }

  /** The largest count whose bytes can be counted. */
  function CountMax(t: PhysicalType): nat { if FixedWidth(t) > 0 then SIZE_MAX / FixedWidth(t) else SIZE_MAX }

  /** What every successful read leaves alone. */
  lemma OneKeeps(c: Cursor, want: PhysicalType)
    requires ReadOne(c, want).Ok?
    ensures var after := ReadOne(c, want).value.1; after == c.(pos := after.pos, bit := after.bit, done := c.done + 1)
    ensures c.t == want && c.done < c.num
  {
    hide Decode, BitAt, LeValue;
  }

  lemma {:induction false} ManyCount(c: Cursor, want: PhysicalType, n: nat)
    requires ReadMany(c, want, n).Ok?
    ensures var (vs, after) := ReadMany(c, want, n).value;
            |vs| == n && after == c.(pos := after.pos, bit := after.bit, done := c.done + n)
    ensures n > 0 ==> c.t == want && c.done + n <= c.num
  {
    hide ReadOne;
    if n > 0 {
      ManyCount(c, want, n - 1);
      OneKeeps(ReadMany(c, want, n - 1).value.1, want);
    }
  }

  lemma {:induction false} ManyPrefix(c: Cursor, want: PhysicalType, n: nat, m: nat)
    requires ReadMany(c, want, n).Ok? && m <= n
    ensures ReadMany(c, want, m).Ok?
    decreases n
  {
    hide ReadOne;
    if m < n {
      ManyPrefix(c, want, n - 1, m);
    }
  }

  /** A fixed-width value is the slice at the cursor. */
  lemma OneFixed(c: Cursor, want: PhysicalType)
    requires c.t == want && FixedWidth(want) > 0 && c.done < c.num
    ensures var w := FixedWidth(want);
            ReadOne(c, want) == if c.pos + w > |c.data| then Err(CORRUPT_PAGE)
                                else Ok((Decode(want, c.data[c.pos..c.pos + w]),
                                         c.(pos := c.pos + w, done := c.done + 1)))
  {
    hide Decode;
  }

  /** Value i of a run of fixed-width values starting at pos. */
  function SliceAt(data: seq<bv8>, pos: nat, want: PhysicalType, i: nat): Value
    requires FixedWidth(want) > 0 && pos + i * FixedWidth(want) + FixedWidth(want) <= |data|
  {
    Decode(want, data[pos + i * FixedWidth(want)..pos + i * FixedWidth(want) + FixedWidth(want)])
  }

  /** Consecutive fixed-width values of a page region, as one copy takes them. */
  function Slices(data: seq<bv8>, pos: nat, want: PhysicalType, n: nat): (vs: seq<Value>)
    requires FixedWidth(want) > 0 && pos + n * FixedWidth(want) <= |data|
    ensures |vs| == n
  {
    if n == 0 then []
    else
      assert (n - 1) * FixedWidth(want) + FixedWidth(want) == n * FixedWidth(want);
      Slices(data, pos, want, n - 1) + [SliceAt(data, pos, want, n - 1)]
  }

  /** n reads of a fixed-width type succeed exactly when n widths are left, and give the slices. */
  lemma {:induction false} ManyFixed(c: Cursor, want: PhysicalType, n: nat)
    requires c.t == want && FixedWidth(want) > 0 && c.done + n <= c.num && c.pos <= |c.data|
    ensures var w := FixedWidth(want);
            ReadMany(c, want, n) == if c.pos + n * w > |c.data| then Err(CORRUPT_PAGE)
                                    else Ok((Slices(c.data, c.pos, want, n),
                                             c.(pos := c.pos + n * w, done := c.done + n)))
  {
    hide ReadOne, Decode, FixedWidth;
    if n > 0 {
      var w := FixedWidth(want);
      assert (n - 1) * w + w == n * w;
      ManyFixed(c, want, n - 1);
      if c.pos + (n - 1) * w <= |c.data| {
        OneFixed(c.(pos := c.pos + (n - 1) * w, done := c.done + (n - 1)), want);
      }
    }
  }

  /** The column reader of one page. */
  class ColumnReader {
    const t: PhysicalType
    const data: seq<bv8>
    const num: nat
    const width: int
    var pos: nat
    var done: nat
    var bit: nat

    ghost function State(): Cursor
      reads this
    {
      Cursor(t, data, num, width, pos, done, bit)
    }

    /** The cursor stays inside the page. */
    ghost predicate Valid()
      reads this
    {
      pos <= |data|
    }

    constructor (t: PhysicalType, data: seq<bv8>, num: nat, width: int)
      ensures Valid() && State() == Start(t, data, num, width)
    {
      this.t, this.data, this.num, this.width := t, data, num, width;
      pos, done, bit := 0, 0, 0;
    }

    /** One value; a failed read leaves the cursor where it was. */
    method Read(want: PhysicalType) returns (r: Result<Value>)
      requires Valid()
      modifies this
      ensures Valid()
      ensures match ReadOne(old(State()), want)
              case Ok((v, after)) => r == Ok(v) && State() == after
              case Err(e) => r == Err(e) && State() == old(State())
    {
      hide Decode, LeValue;
      if want == INT96 || t != want {
        return Err(UNSUPPORTED_TYPE);
      }
      if done >= num {
        return Err(OUT_OF_RANGE);
      }
      if want == BOOLEAN {
        if bit / 8 >= |data| {
          return Err(CORRUPT_PAGE);
        }
        r := Ok(Bool(BitAt(data, bit)));
        bit := bit + 1;
      } else if want == BYTE_ARRAY {
        if pos + 4 > |data| {
          return Err(CORRUPT_PAGE);
        }
        var len := LeValue(data[pos..pos + 4]);
        if len > |data| - pos - 4 {
          return Err(CORRUPT_PAGE);
        }
        r := Ok(Bytes(data[pos + 4..pos + 4 + len]));
        pos := pos + 4 + len;
      } else if want == FIXED_LEN_BYTE_ARRAY {
        if width <= 0 {
          return Err(SCHEMA_MISMATCH);
        }
        if pos + width > |data| {
          return Err(CORRUPT_PAGE);
        }
        r := Ok(Bytes(data[pos..pos + width]));
        pos := pos + width;
      } else {
        var w := FixedWidth(want);
        if pos + w > |data| {
          return Err(CORRUPT_PAGE);
        }
        r := Ok(Decode(want, data[pos..pos + w]));
        pos := pos + w;
      }
      done := done + 1;
    }

    /** The sums the batch reads form stay below the limits of their types. */
    ghost predicate NoOverflow(want: PhysicalType, n: nat)
      reads this
    {
      num < TWO63 &&
      (n <= CountMax(want) ==>
        && done + Signed(n) < TWO63
        && (FixedWidth(want) > 0 && done + n <= num ==> pos + n * FixedWidth(want) <= SIZE_MAX))
    }

    /** A batch of n values: it succeeds exactly when the type matches and n single reads would,
        and then gives their values and leaves their cursor. Only running out of bytes in a loop moves
        the cursor without success: it then stands where that many single reads leave it, or behind
        the length of a string that is cut short. */
    method ReadBatch(want: PhysicalType, n: nat) returns (r: Result<seq<Value>>)
      requires Valid() && want != INT96 && want != FIXED_LEN_BYTE_ARRAY && |data| < PAGE_MAX
      requires n <= SIZE_MAX && NoOverflow(want, n)
      modifies this
      ensures Valid()
      ensures r.Ok? <==> t == want && old(done) <= num && ReadMany(old(State()), want, n).Ok?
      ensures r.Ok? ==> ReadMany(old(State()), want, n) == Ok((r.value, State()))
      ensures r.Err? ==> r.error == if t != want then UNSUPPORTED_TYPE
                                    else if n > CountMax(want) || old(done) + Signed(n) > num then OUT_OF_RANGE
                                    else CORRUPT_PAGE
      ensures r.Err? ==>
                if r.error == CORRUPT_PAGE && FixedWidth(want) == 0
                then exists m: nat :: m < n && StopsAfter(old(State()), want, n, m, State())
                else State() == old(State())
    {
      hide ReadOne, Decode, ReadMany, Slices, StopsAfter, CountMax;
      if t != want {
        return Err(UNSUPPORTED_TYPE);
      }
      if ReadMany(State(), want, n).Ok? {
        ManyFits(State(), want, n);
      }
      if n > CountMax(want) {
        return Err(OUT_OF_RANGE);
      }
      if done + Signed(n) > num {
        return Err(OUT_OF_RANGE);
      }
      if want == BOOLEAN || want == BYTE_ARRAY {
        if n < TWO63 {
          LoopBatch(State(), want, n);
        }
        r := ReadLoop(want, n);
        return;
      }
      ManyFixed(State(), want, n) by { CountFits(want, n); }
      var w := FixedWidth(want);
      if pos + n * w > |data| {
        return Err(CORRUPT_PAGE);
      }
      r := Ok(Slices(data, pos, want, n));
      pos := pos + n * w;
      done := done + n;
    }

    /** The loop over flags or strings; it counts values, whatever the header of the page declares. */
    method ReadLoop(want: PhysicalType, n: nat) returns (r: Result<seq<Value>>)
      requires Valid() && (want == BOOLEAN || want == BYTE_ARRAY) && t == want && |data| < PAGE_MAX
      modifies this
      ensures Valid()
      ensures r.Ok? ==> n <= 8 * |data|
      ensures var open := old(State()).(num := old(done) + n);
              match ReadMany(open, want, n)
              case Ok((vs, after)) => r == Ok(vs) && State() == after.(num := num)
              case Err(e) =>
                r == Err(CORRUPT_PAGE) && exists m: nat :: m < n && StopsAfter(old(State()), want, n, m, State())
    {
      hide ReadMany, ReadOne, StopsAfter;
      ghost var start := State();
      ghost var open := start.(num := done + n);
      ManyStart(open, want);
      var out: seq<Value> := [];
      while |out| < n
        invariant |out| <= n && Valid() && done == start.done + |out|
        invariant ReadMany(open, want, |out|) == Ok((out, State().(num := open.num)))
        invariant |out| > 0 ==> |out| <= 8 * |data|
        invariant if want == BOOLEAN then bit == start.bit + |out| else pos >= 4 * |out|
      {
        ManyStep(open, want, |out|);
        ghost var at := State().(num := open.num);
        OneNum(at, want, done + 1);
        if ReadOne(at, want).Ok? {
          OneKeeps(at, want);
        }
        var v := LoopStep(want);
        if v.None? {
          StopsHere(start, want, n, |out|, at, State());
          return Err(CORRUPT_PAGE);
        }
        out := out + [v.value];
      }
      return Ok(out);
    }

    /** One turn of the loop. */
    method LoopStep(want: PhysicalType) returns (v: Option<Value>)
      requires Valid() && (want == BOOLEAN || want == BYTE_ARRAY) && t == want
      modifies this
      ensures Valid()
      ensures var c := old(State()).(num := old(done) + 1);
              match ReadOne(c, want)
              case Ok((x, after)) => v == Some(x) && State() == after.(num := num)
              case Err(e) => e == CORRUPT_PAGE && v == None && State() == PastLength(c, want).(num := num)
      ensures v.Some? ==> if want == BOOLEAN then bit == old(bit) + 1 <= 8 * |data| else pos >= old(pos) + 4
    {
      hide LeValue;
      if want == BOOLEAN {
        if bit / 8 >= |data| {
          return None;
        }
        v := Some(Bool(BitAt(data, bit)));
        bit := bit + 1;
      } else {
        if pos + 4 > |data| {
          return None;
        }
        var len := LeValue(data[pos..pos + 4]);
        pos := pos + 4;
        if len > |data| - pos {
          return None;
        }
        v := Some(Bytes(data[pos..pos + len]));
        pos := pos + len;
      }
      done := done + 1;
    }
  }

  /** A loop over n values that stops after m of them: m single reads, then a string cut short. */
  ghost predicate StopsAfter(c: Cursor, want: PhysicalType, n: nat, m: nat, after: Cursor) {
    var open := c.(num := c.done + n);
    ReadMany(open, want, m).Ok? &&
    var at := ReadMany(open, want, m).value.1;
    ReadOne(at, want) == Err(CORRUPT_PAGE) && after == PastLength(at, want).(num := c.num)
  }

  function PastLength(at: Cursor, want: PhysicalType): Cursor {
    if want == BYTE_ARRAY && at.pos + 4 <= |at.data| then at.(pos := at.pos + 4) else at
  }

  lemma StopsHere(c: Cursor, want: PhysicalType, n: nat, m: nat, at: Cursor, after: Cursor)
    requires m < n
    requires var open := c.(num := c.done + n); ReadMany(open, want, m).Ok? && ReadMany(open, want, m).value.1 == at
    requires ReadOne(at, want) == Err(CORRUPT_PAGE) && after == PastLength(at, want).(num := c.num)
    ensures StopsAfter(c, want, n, m, after)
    ensures ReadMany(c.(num := c.done + n), want, n).Err?
  {
    hide ReadMany, ReadOne;
    var open := c.(num := c.done + n);
    ManyStep(open, want, m);
    if ReadMany(open, want, n).Ok? {
      ManyPrefix(open, want, n, m + 1);
    }
  }

  /** Values that can be read are few enough for every counter. */
  lemma ManyFits(c: Cursor, want: PhysicalType, n: nat)
    requires ReadMany(c, want, n).Ok? && c.t == want && |c.data| < PAGE_MAX && c.pos <= |c.data| && c.num < TWO63
    ensures n <= CountMax(want) && (c.done <= c.num ==> c.done + Signed(n) <= c.num)
    ensures n > 0 ==> c.done + n <= c.num
  {
    hide ReadMany, Slices;
    ManyCount(c, want, n);
    if n > 0 {
      assert Signed(n) == n;
      if FixedWidth(want) > 0 {
        ManyFixed(c, want, n);
        FewFit(n, FixedWidth(want));
      }
    }
  }

  /** Counts that pass the guard of a fixed-width type are below two to the 63. */
  lemma CountFits(t: PhysicalType, n: nat)
    requires FixedWidth(t) > 0 && n <= CountMax(t)
    ensures Signed(n) == n
  {
  }

  lemma FewFit(n: nat, w: nat)
    requires (w == 4 || w == 8) && n * w <= SIZE_MAX
    ensures n <= SIZE_MAX / w
  {
  }

  /** The declared count does not matter while it is not reached. */
  lemma {:induction false} ManyNum(c: Cursor, want: PhysicalType, n: nat, num: nat)
    requires c.done + n <= c.num && c.done + n <= num
    ensures ReadMany(c.(num := num), want, n) ==
            match ReadMany(c, want, n)
            case Ok((vs, after)) => Ok((vs, after.(num := num)))
            case Err(e) => Err(e)
    decreases n
  {
    hide LeValue, Decode, BitAt, ReadOne;
    if n > 0 {
      ManyNum(c, want, n - 1, num);
      if ReadMany(c, want, n - 1).Ok? {
        ManyCount(c, want, n - 1);
        OneNum(ReadMany(c, want, n - 1).value.1, want, num);
      }
    }
  }

  lemma LoopBatch(c: Cursor, want: PhysicalType, n: nat)
    requires c.done + n <= c.num
    ensures ReadMany(c, want, n) == match ReadMany(c.(num := c.done + n), want, n)
                                    case Ok((vs, after)) => Ok((vs, after.(num := c.num)))
                                    case Err(e) => Err(e)
  {
    hide ReadMany;
    ManyNum(c, want, n, c.done + n);
    if ReadMany(c, want, n).Ok? {
      ManyCount(c, want, n);
    }
  }

  lemma OneNum(c: Cursor, want: PhysicalType, num: nat)
    requires c.done < c.num && c.done < num
    ensures ReadOne(c.(num := num), want) ==
            match ReadOne(c, want)
            case Ok((v, after)) => Ok((v, after.(num := num)))
            case Err(e) => Err(e)
  {
    hide LeValue, Decode, BitAt, FixedWidth;
  }

  // ----- what was written is read back -----

  lemma DecodeOne(v: Value, t: PhysicalType)
    requires HasType(v, t) && FixedWidth(t) > 0
    ensures |PlainOne(v, t)| == FixedWidth(t) && Decode(t, PlainOne(v, t)) == v
  {
    hide Le32, FromLe32, Le64, FromLe64;
    match v
    case I32(w) => Le32RoundTrip(w);
    case F32(w) => Le32RoundTrip(w);
    case I64(d) => Le64RoundTrip(d);
    case F64(d) => Le64RoundTrip(d);
  }

  lemma SubSlices<T>(s: seq<T>, a: nat, b: nat, k: nat)
    requires a + k <= b <= |s|
    ensures s[a..a + k] == s[a..b][..k] && s[a + k..b] == s[a..b][k..]
  {
  }

  lemma PrefixTail<T>(p: seq<T>, q: seq<T>, s: seq<T>)
    requires p + q <= s
    ensures p <= s && |p| + |q| <= |s| && s[|p|..|p| + |q|] == q
  {
    assert s[..|p| + |q|] == p + q;
    assert s[..|p|] == s[..|p| + |q|][..|p|];
    assert s[|p|..|p| + |q|] == s[..|p| + |q|][|p|..];
  }

  /** Reading a byte-aligned value where its PLAIN bytes begin. */
  lemma ReadWritten(c: Cursor, v: Value, t: PhysicalType)
    requires Storable(v, t, c.width) && t != BOOLEAN && t != INT96 && (t == FIXED_LEN_BYTE_ARRAY ==> c.width > 0)
    requires c.t == t && c.done < c.num && c.pos + |PlainOne(v, t)| <= |c.data|
    requires c.data[c.pos..c.pos + |PlainOne(v, t)|] == PlainOne(v, t)
    ensures ReadOne(c, t) == Ok((v, c.(pos := c.pos + |PlainOne(v, t)|, done := c.done + 1)))
  {
    hide LeValue, LeBytes, Le32, Le64, Decode;
    var p := PlainOne(v, t);
    if t == BYTE_ARRAY {
      LeBytesRoundTrip(|v.s|);
      assert p[..4] == LeBytes(|v.s|) && p[4..] == v.s;
      SubSlices(c.data, c.pos, c.pos + |p|, 4);
    } else if t == FIXED_LEN_BYTE_ARRAY {
    } else {
      DecodeOne(v, t);
    }
  }

  lemma StorableParts(vs: seq<Value>, t: PhysicalType, width: int)
    requires vs != [] && AllStorable(vs, t, width)
    ensures vs == vs[..|vs| - 1] + [vs[|vs| - 1]]
    ensures AllStorable(vs[..|vs| - 1], t, width) && Storable(vs[|vs| - 1], t, width)
  {
    hide Storable;
  }

  /** One more value behind a prefix that reads back. */
  lemma ReadPlainStep(init: seq<Value>, last: Value, t: PhysicalType, page: seq<bv8>, start: Cursor)
    requires Storable(last, t, start.width) && t != BOOLEAN && t != INT96
    requires (t == FIXED_LEN_BYTE_ARRAY ==> start.width > 0)
    requires page + PlainOne(last, t) <= start.data && |init| < start.num && start.t == t && start.done == 0
    requires ReadMany(start, t, |init|) == Ok((init, start.(pos := |page|, done := |init|)))
    ensures ReadMany(start, t, |init| + 1) ==
            Ok((init + [last], start.(pos := |page| + |PlainOne(last, t)|, done := |init| + 1)))
  {
    hide PlainOne, ReadOne, Storable, ReadMany;
    StorableFits(last, t, start.width);
    PrefixTail(page, PlainOne(last, t), start.data);
    ManyStep(start, t, |init|);
    ReadWritten(start.(pos := |page|, done := |init|), last, t);
  }

  /** A page starting with the PLAIN bytes of the values reads back as the values, whatever follows,
      and leaves the cursor at their end. */
  lemma {:induction false} ReadPlain(vs: seq<Value>, t: PhysicalType, width: int, data: seq<bv8>, num: nat)
    requires AllStorable(vs, t, width) && t != BOOLEAN && t != INT96 && (t == FIXED_LEN_BYTE_ARRAY ==> width > 0)
    requires Plain(vs, t, width) <= data && |vs| <= num
    ensures ReadMany(Start(t, data, num, width), t, |vs|) ==
            Ok((vs, Start(t, data, num, width).(pos := |Plain(vs, t, width)|, done := |vs|)))
    decreases |vs|
  {
    hide PlainOne, ReadOne, Storable, Plain, ReadMany, AllStorable;
    PlainEmpty(t, width);
    ManyStart(Start(t, data, num, width), t);
    if vs != [] {
      var init, last := vs[..|vs| - 1], vs[|vs| - 1];
      StorableParts(vs, t, width);
      StorableFits(last, t, width);
      PlainAppend(init, last, t, width);
      ReadPlain(init, t, width, data, num);
      ReadPlainStep(init, last, t, Plain(init, t, width), Start(t, data, num, width));
    }
  }

  lemma PlainEmpty(t: PhysicalType, width: int)
    ensures AllStorable([], t, width) && Plain([], t, width) == []
  {
  }

  lemma {:induction false} ReadFlags(vs: seq<Value>, data: seq<bv8>, num: nat, width: int)
    requires AllOfType(vs, BOOLEAN) && |vs| <= num && |vs| <= 8 * |data|
    requires forall k :: 0 <= k < |vs| ==> BitAt(data, k) == vs[k].b
    ensures ReadMany(Start(BOOLEAN, data, num, width), BOOLEAN, |vs|) ==
            Ok((vs, Cursor(BOOLEAN, data, num, width, 0, |vs|, |vs|)))
    decreases |vs|
  {
    hide BitAt;
    if vs != [] {
      var init := vs[..|vs| - 1];
      ReadFlags(init, data, num, width);
      assert vs == init + [vs[|vs| - 1]];
    }
  }

  /** The PLAIN codec: for every readable type, reading as many values as were written gives exactly
      the written values and, for byte-aligned types, ends at the end of the page. */
  lemma PlainRoundTrip(vs: seq<Value>, t: PhysicalType, width: int)
    requires AllStorable(vs, t, width) && t != INT96 && (t == FIXED_LEN_BYTE_ARRAY ==> width > 0)
    ensures var page := Plain(vs, t, width); var r := ReadMany(Start(t, page, |vs|, width), t, |vs|);
            r.Ok? && r.value.0 == vs && (t != BOOLEAN ==> r.value.1.pos == |page|)
  {
    hide Plain, PlainOne, ReadMany, Storable;
    if t == BOOLEAN {
      FlagsRoundTrip(vs, width);
    } else {
      ReadPlain(vs, t, width, Plain(vs, t, width), |vs|);
    }
  }

  lemma FlagsRoundTrip(vs: seq<Value>, width: int)
    requires AllStorable(vs, BOOLEAN, width)
    ensures ReadMany(Start(BOOLEAN, Plain(vs, BOOLEAN, width), |vs|, width), BOOLEAN, |vs|) ==
            Ok((vs, Cursor(BOOLEAN, Plain(vs, BOOLEAN, width), |vs|, width, 0, |vs|, |vs|)))
  {
    hide BitAt;
    PackAllPacks(Flags(vs));
    var page := Plain(vs, BOOLEAN, width);
    forall k | 0 <= k < |vs| ensures BitAt(page, k) == vs[k].b {
    }
    ReadFlags(vs, page, |vs|, width);
  }

  // ----- the writer takes its own page apart -----

  /** Re-reads the values of a PLAIN page, the way re-encoding starts. */
  method Extract(page: seq<bv8>, count: nat, t: PhysicalType, width: int, ghost vs: seq<Value>)
    returns (values: seq<Value>)
    requires AllStorable(vs, t, width) && page == Plain(vs, t, width) && count == |vs|
    requires t != INT96 && t != FIXED_LEN_BYTE_ARRAY
    ensures values == vs
  {
    hide Plain, PlainOne, ReadOne, ReadMany, Storable, Decode, BitAt, LeValue;
    PlainRoundTrip(vs, t, width);
    ghost var start := Start(t, page, count, width);
    values := [];
    var pos := 0;
    ghost var cursor := start;
    ManyStart(start, t);
    var i := 0;
    while i < count
      invariant 0 <= i <= count && |values| == i
      invariant ReadMany(start, t, i) == Ok((values, cursor))
      invariant cursor == start.(pos := cursor.pos, bit := cursor.bit, done := i)
      invariant t != BOOLEAN ==> pos == cursor.pos
      invariant t == BOOLEAN ==> cursor.bit == i
    {
      ManyPrefix(start, t, count, i + 1);
      ManyStep(start, t, i);
      ExtractStep(cursor, t);
      var v: Value;
      if t == BOOLEAN {
        v := Bool(BitAt(page, i));
      } else if t == BYTE_ARRAY {
        var len := LeValue(page[pos..pos + 4]);
        v := Bytes(page[pos + 4..pos + 4 + len]);
        pos := pos + 4 + len;
      } else {
        v := Decode(t, page[pos..pos + FixedWidth(t)]);
        pos := pos + FixedWidth(t);
      }
      values := values + [v];
      cursor := ReadOne(cursor, t).value.1;
      i := i + 1;
    }
  }

  lemma ManyStart(c: Cursor, want: PhysicalType)
    ensures ReadMany(c, want, 0) == Ok(([], c))
  {
  }

  lemma ManyStep(c: Cursor, want: PhysicalType, n: nat)
    requires ReadMany(c, want, n).Ok?
    ensures var (vs, at) := ReadMany(c, want, n).value;
            ReadMany(c, want, n + 1) == match ReadOne(at, want)
                                        case Ok((v, after)) => Ok((vs + [v], after))
                                        case Err(e) => Err(e)
  {
    hide ReadOne;
  }

  /** What a successful read of an extractable type found. */
  lemma ExtractStep(c: Cursor, t: PhysicalType)
    requires ReadOne(c, t).Ok? && t != FIXED_LEN_BYTE_ARRAY
    ensures t == BOOLEAN ==>
              c.bit < 8 * |c.data| &&
              ReadOne(c, t).value == (Bool(BitAt(c.data, c.bit)), c.(bit := c.bit + 1, done := c.done + 1))
    ensures t == BYTE_ARRAY ==>
              c.pos + 4 <= |c.data| &&
              var len := LeValue(c.data[c.pos..c.pos + 4]);
              var end := c.pos + 4 + len;
              end <= |c.data| &&
              ReadOne(c, t).value == (Bytes(c.data[c.pos + 4..end]), c.(pos := end, done := c.done + 1))
    ensures t != BOOLEAN && t != BYTE_ARRAY ==>
              var w := FixedWidth(t);
              w > 0 && c.pos + w <= |c.data| &&
              ReadOne(c, t).value == (Decode(t, c.data[c.pos..c.pos + w]), c.(pos := c.pos + w, done := c.done + 1))
  {
    hide Decode, BitAt, LeValue;
  }
}
