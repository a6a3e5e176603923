/** Dictionary encoding: distinct values in order of first appearance, and per value an index into
    them. The dictionary page is PLAIN, the index page a width byte and a hybrid stream. */
module Dictionary {
  import opened Arithmetic
  import opened Bits
  import opened Orders
  import opened Packing
  import opened PlainCodec
  import opened Values
  import opened Words
  import Delta
  import Rle

  const MAX_ENTRIES: nat := 0x10_0000

  predicate Indexable(t: PhysicalType) { t == BYTE_ARRAY || t == INT32 || t == INT64 || t == FLOAT || t == DOUBLE }

  // ----- the keys of the encoder's hash map -----

  predicate Zero(v: Value) {
    match v
    case F32(w) => U32(w) == 0 || U32(w) == BINARY32.top
    case F64(d) => U64(d) == 0 || U64(d) == BINARY64.top
    case _ => false
  }

  /** Equality of the language: floats compare as numbers, everything else bit for bit. */
  predicate SameKey(a: Value, b: Value) { !IsNaN(a) && (a == b || (Zero(a) && Zero(b) && a.F32? == b.F32?)) }

  /** On floats that is equality of the numbers they stand for, and a NaN equals nothing. */
  lemma SameKeyIsNumeric(a: Value, b: Value)
    requires (a.F32? && b.F32?) || (a.F64? && b.F64?)
    ensures SameKey(a, b) <==> !IsNaN(a) && !IsNaN(b) && Number(a) == Number(b)
  {
    hide U32, U64;
    if a.F32? {
      NumbersDiffer(U32(a.w), U32(b.w), BINARY32);
      if U32(a.w) == U32(b.w) { U32Injective(a.w, b.w); }
    } else {
      NumbersDiffer(U64(a.d), U64(b.d), BINARY64);
      if U64(a.d) == U64(b.d) { U64Injective(a.d, b.d); }
    }
  }

  lemma NumbersDiffer(a: nat, b: nat, fmt: Format)
    requires fmt.unit > 0 && a < 2 * fmt.top && b < 2 * fmt.top
    ensures FloatValue(a, fmt) == FloatValue(b, fmt) <==>
            a == b || ((a == 0 || a == fmt.top) && (b == 0 || b == fmt.top))
  {
    hide Magnitude;
    FlippedNumericOrder(a, b, fmt);
    FlippedNumericOrder(b, a, fmt);
    assert Magnitude(0, fmt.unit) == 0 by { ZeroMagnitude(fmt.unit); }
  }

  lemma ZeroMagnitude(unit: nat)
    requires unit > 0
    ensures Magnitude(0, unit) == 0
  {
  }

  /** The entry with this key, or the number of entries. */
  function Find(entries: seq<Value>, v: Value): (i: nat)
    ensures i <= |entries|
  {
    if entries == [] then 0
    else
      var i := Find(entries[..|entries| - 1], v);
      if i < |entries| - 1 then i
      else if SameKey(entries[|entries| - 1], v) then |entries| - 1 else |entries|
  }

  /** The search finds the first entry with the key, if there is one. */
  lemma {:induction false} FindFirst(entries: seq<Value>, v: Value)
    ensures Find(entries, v) < |entries| ==> SameKey(entries[Find(entries, v)], v)
    ensures forall k :: 0 <= k < Find(entries, v) ==> !SameKey(entries[k], v)
    decreases |entries|
  {
    hide SameKey;
    if entries != [] {
      FindFirst(entries[..|entries| - 1], v);
    }
  }

  /** The dictionary after some values; a full one takes no new entry. */
  function Entries(vs: seq<Value>): (entries: seq<Value>)
    ensures |entries| <= MAX_ENTRIES && |entries| <= |vs|
  {
    if vs == [] then []
    else
      var before, v := Entries(vs[..|vs| - 1]), vs[|vs| - 1];
      if Find(before, v) < |before| || |before| >= MAX_ENTRIES then before else before + [v]
  }

  /** One index per value that found or got an entry; the others are lost. */
  function Indices(vs: seq<Value>): (ix: seq<nat>)
    ensures |ix| <= |vs|
  {
    if vs == [] then []
    else
      var before, v := Entries(vs[..|vs| - 1]), vs[|vs| - 1];
      if Find(before, v) >= |before| && |before| >= MAX_ENTRIES then Indices(vs[..|vs| - 1])
      else Indices(vs[..|vs| - 1]) + [Find(before, v)]
  }

  class DictionaryEncoder {
    var entries: seq<Value>
    var indices: seq<nat>
    ghost var put: seq<Value>

    ghost predicate Valid()
      reads this
    {
      entries == Entries(put) && indices == Indices(put)
    }

    constructor ()
      ensures Valid() && put == []
    {
      entries, indices, put := [], [], [];
    }

    /** False, and the value is not recorded, when a new entry is needed and the dictionary is full. */
    method Put(v: Value) returns (ok: bool)
      requires Valid()
      modifies this
      ensures Valid() && put == old(put) + [v]
      ensures ok <==> |indices| > |old(indices)|
    {
      hide SameKey, Find;
      assert (put + [v])[..|put|] == put;
      var i := Find(entries, v);
      if i == |entries| {
        if |entries| >= MAX_ENTRIES {
          put := put + [v];
          return false;
        }
        entries := entries + [v];
      }
      indices := indices + [i];
      put := put + [v];
      return true;
    }
  }

  /** No value ever needs an entry the dictionary cannot hold. */
  predicate Fits(vs: seq<Value>) {
    vs == [] ||
    (Fits(vs[..|vs| - 1]) &&
     (var before := Entries(vs[..|vs| - 1]); Find(before, vs[|vs| - 1]) < |before| || |before| < MAX_ENTRIES))
  }

  /** A million values never fill the dictionary. */
  lemma {:induction false} SmallFits(vs: seq<Value>)
    requires |vs| <= MAX_ENTRIES
    ensures Fits(vs)
    decreases |vs|
  {
    hide Find, Entries;
    if vs != [] {
      SmallFits(vs[..|vs| - 1]);
    }
  }

  /** No two values share a key without being the same bits. */
  predicate OneSpelling(vs: seq<Value>) {
    forall i, j :: 0 <= i < |vs| && 0 <= j < |vs| && SameKey(vs[i], vs[j]) ==> vs[i] == vs[j]
  }

  predicate InRange(ix: seq<nat>, n: nat) { forall i :: 0 <= i < |ix| ==> ix[i] < n }

  /** What the indices point at. */
  function Lookup(entries: seq<Value>, ix: seq<nat>): (vs: seq<Value>)
    requires InRange(ix, |entries|)
    ensures |vs| == |ix|
  {
    seq(|ix|, i requires 0 <= i < |ix| => entries[ix[i]])
  }

  lemma {:induction false} IndicesInRange(vs: seq<Value>)
    ensures InRange(Indices(vs), |Entries(vs)|)
    decreases |vs|
  {
    hide SameKey, Find;
    if vs != [] {
      IndicesInRange(vs[..|vs| - 1]);
    }
  }

  lemma {:induction false} AllIndexed(vs: seq<Value>)
    ensures |Indices(vs)| == |vs| <==> Fits(vs)
    decreases |vs|
  {
    hide SameKey, Find, Entries;
    if vs != [] {
      AllIndexed(vs[..|vs| - 1]);
    }
  }

  /** Nothing is lost exactly when every value got an entry and equal keys have equal bits. */
  lemma {:induction false} LookupReturns(vs: seq<Value>)
    ensures InRange(Indices(vs), |Entries(vs)|)
    ensures Lookup(Entries(vs), Indices(vs)) == vs <==> Fits(vs) && OneSpelling(vs)
    decreases |vs|
  {
    hide SameKey, Find, Entries, Indices, Fits, OneSpelling;
    IndicesInRange(vs);
    AllIndexed(vs);
    if Fits(vs) {
      EntriesAreValues(vs);
      if OneSpelling(vs) {
        forall i | 0 <= i < |vs| ensures Lookup(Entries(vs), Indices(vs))[i] == vs[i] {
          Agrees(vs, i);
        }
      } else {
        var i, j := Respelled(vs);
        assert Indices(vs)[i] == Indices(vs)[j];
      }
    }
  }

  /** Every entry is one of the values, and no two entries share a key. */
  lemma {:induction false} EntriesAreValues(vs: seq<Value>)
    ensures forall e :: 0 <= e < |Entries(vs)| ==> Entries(vs)[e] in vs
    ensures forall d, e :: 0 <= d < e < |Entries(vs)| ==> !SameKey(Entries(vs)[d], Entries(vs)[e])
    decreases |vs|
  {
    hide SameKey;
    if vs != [] {
      EntriesAreValues(vs[..|vs| - 1]);
      FindFirst(Entries(vs[..|vs| - 1]), vs[|vs| - 1]);
    }
  }

  /** The entry of value i has its key; a NaN has an entry of its own. */
  lemma {:induction false} EntryOf(vs: seq<Value>, i: nat)
    requires Fits(vs) && i < |vs|
    ensures |Indices(vs)| == |vs| && Indices(vs)[i] < |Entries(vs)|
    ensures var e := Entries(vs)[Indices(vs)[i]]; e == vs[i] || SameKey(e, vs[i])
    decreases |vs|
  {
    hide SameKey, Find;
    AllIndexed(vs);
    IndicesInRange(vs);
    var init := vs[..|vs| - 1];
    AllIndexed(init);
    if i < |vs| - 1 {
      EntryOf(init, i);
    } else {
      FindFirst(Entries(init), vs[i]);
    }
  }

  lemma Agrees(vs: seq<Value>, i: nat)
    requires Fits(vs) && OneSpelling(vs) && i < |vs|
    ensures |Indices(vs)| == |vs| && Indices(vs)[i] < |Entries(vs)| && Entries(vs)[Indices(vs)[i]] == vs[i]
  {
    hide SameKey, Find, Entries, Indices, Fits;
    EntryOf(vs, i);
    EntriesAreValues(vs);
    var e := Entries(vs)[Indices(vs)[i]];
    var k :| 0 <= k < |vs| && vs[k] == e;
  }

  /** Two spellings of one key share an entry. */
  lemma Respelled(vs: seq<Value>) returns (i: nat, j: nat)
    requires Fits(vs) && !OneSpelling(vs)
    ensures i < |vs| && j < |vs| && vs[i] != vs[j] && |Indices(vs)| == |vs| && Indices(vs)[i] == Indices(vs)[j]
  {
    hide Find, Entries, Indices, Fits, Zero, IsNaN;
    i, j :| 0 <= i < |vs| && 0 <= j < |vs| && SameKey(vs[i], vs[j]) && vs[i] != vs[j];
    EntryOf(vs, i);
    EntryOf(vs, j);
    EntriesAreValues(vs);
    var d, e := Indices(vs)[i], Indices(vs)[j];
    ZeroKeys(vs[i], vs[j], Entries(vs)[d], Entries(vs)[e]);
    SameEntry(Entries(vs), d, e);
  }

  lemma SameEntry(entries: seq<Value>, d: nat, e: nat)
    requires d < |entries| && e < |entries| && SameKey(entries[d], entries[e]) && SameKey(entries[e], entries[d])
    requires forall k, l :: 0 <= k < l < |entries| ==> !SameKey(entries[k], entries[l])
    ensures d == e
  {
  }

  lemma ZeroKeys(x: Value, y: Value, d: Value, e: Value)
    requires SameKey(x, y) && x != y && (d == x || SameKey(d, x)) && (e == y || SameKey(e, y))
    ensures SameKey(d, e) && SameKey(e, d)
  {
    hide U32, U64;
  }

  // ----- pages -----

  /** The least width for indices below n. */
  function IndexWidth(n: nat): nat { if n <= 1 then 0 else Delta.BitWidth(n - 1) }

  /** The width holds the last of n indices, and no smaller width does. */
  lemma IndexWidthLeast(n: nat, k: nat)
    requires n > 0 && n - 1 < Pow2(k)
    ensures n - 1 < Pow2(IndexWidth(n)) && IndexWidth(n) <= k
  {
    hide Delta.BitWidth;
    if n > 1 {
      Delta.BitWidthHolds(n - 1);
      Delta.BitWidthLeast(n - 1, k);
    } else {
      assert Pow2(0) == 1;
    }
  }

  lemma IndicesFit(vs: seq<Value>)
    ensures Fit(Indices(vs), IndexWidth(|Entries(vs)|)) && IndexWidth(|Entries(vs)|) <= 20
  {
    hide Indices, Entries, InRange;
    IndicesInRange(vs);
    IndicesBelow(Indices(vs), |Entries(vs)|);
  }

  lemma IndicesBelow(ix: seq<nat>, n: nat)
    requires InRange(ix, n) && n <= MAX_ENTRIES
    ensures Fit(ix, IndexWidth(n)) && IndexWidth(n) <= 20
  {
    if n <= 1 {
      assert Pow2(0) == 1;
    } else {
      Delta.BitWidthHolds(n - 1);
      Pow2At20();
      Delta.BitWidthLeast(n - 1, 20);
    }
  }

  /** The empty or zero value of a type. */
  function Default(t: PhysicalType): Value {
    match t
    case INT32 => I32(0)
    case INT64 => I64(0)
    case FLOAT => F32(0)
    case DOUBLE => F64(0)
    case _ => Bytes([])
  }

  /** A dictionary entry; one that is cut short reads as an empty or zero value. */
  function EntryAt(t: PhysicalType, data: seq<bv8>, pos: nat): (Value, nat)
    requires Indexable(t)
  {
    if t == BYTE_ARRAY then
      if pos + 4 > |data| then (Default(t), pos)
      else
        var len := LeValue(data[pos..pos + 4]);
        if pos + 4 + len > |data| then (Default(t), pos + 4) else (Bytes(data[pos + 4..pos + 4 + len]), pos + 4 + len)
    else
      var w := FixedWidth(t);
      if pos + w > |data| then (Default(t), pos) else (Decode(t, data[pos..pos + w]), pos + w)
  }

  function ReadEntries(t: PhysicalType, data: seq<bv8>, n: nat): (r: (seq<Value>, nat))
    requires Indexable(t)
    ensures |r.0| == n
  {
    if n == 0 then ([], 0)
    else
      var (vs, pos) := ReadEntries(t, data, n - 1);
      var (v, end) := EntryAt(t, data, pos);
      (vs + [v], end)
  }

  /** An entry is read where its PLAIN bytes begin. */
  lemma EntryReads(v: Value, t: PhysicalType, data: seq<bv8>, pos: nat)
    requires Indexable(t) && Storable(v, t, 0) && pos + |PlainOne(v, t)| <= |data|
    requires data[pos..pos + |PlainOne(v, t)|] == PlainOne(v, t)
    ensures EntryAt(t, data, pos) == (v, pos + |PlainOne(v, t)|)
  {
    hide LeValue, LeBytes, Le32, Le64, Decode;
    var p := PlainOne(v, t);
    if t == BYTE_ARRAY {
      LeBytesRoundTrip(|v.s|);
      assert p[..4] == LeBytes(|v.s|) && p[4..] == v.s;
      SubSlices(data, pos, pos + |p|, 4);
    } else {
      DecodeOne(v, t);
    }
  }

  lemma {:induction false} EntriesRead(vs: seq<Value>, t: PhysicalType, data: seq<bv8>)
    requires Indexable(t) && AllStorable(vs, t, 0) && Plain(vs, t, 0) <= data
    ensures ReadEntries(t, data, |vs|) == (vs, |Plain(vs, t, 0)|)
    decreases |vs|
  {
    hide PlainOne, Storable, Plain, AllStorable, EntryAt;
    PlainEmpty(t, 0);
    if vs != [] {
      var init, last := vs[..|vs| - 1], vs[|vs| - 1];
      StorableParts(vs, t, 0);
      StorableFits(last, t, 0);
      PlainAppend(init, last, t, 0);
      PrefixTail(Plain(init, t, 0), PlainOne(last, t), data);
      EntriesRead(init, t, data);
      EntryReads(last, t, data, |Plain(init, t, 0)|);
    }
  }

  /** What the reader makes of a dictionary page and an index page of n values. */
  function DecodePages(t: PhysicalType, dict: seq<bv8>, count: nat, index: seq<bv8>, n: nat): Result<seq<Value>>
    requires Indexable(t)
  {
    if index == [] || n == 0 then Ok([])
    else
      var entries := ReadEntries(t, dict, count).0;
      var ix := Rle.Decode(index[1..], U8(index[0]), n);
      if InRange(ix, |entries|) then Ok(Lookup(entries, ix)) else Err(CORRUPT_DATA)
  }

  /** No more values than the data page declares. */
  lemma PagesAtMost(t: PhysicalType, dict: seq<bv8>, count: nat, index: seq<bv8>, n: nat)
    requires Indexable(t) && DecodePages(t, dict, count, index, n).Ok?
    ensures |DecodePages(t, dict, count, index, n).value| <= n
  {
    hide Rle.Decode, ReadEntries;
    if index != [] {
      Rle.DecodeAtMost(index[1..], U8(index[0]), n);
    }
  }

  /** How many leading values have an entry; the value behind them is refused. */
  function Held(vs: seq<Value>): (n: nat)
    ensures n <= |vs|
  {
    if Fits(vs) then |vs| else Held(vs[..|vs| - 1])
  }

  /** The values behind the held ones come back although they are lost: they are all the NaN that is
      entry 0, and the zeros that fill the last index group stand in for them. */
  predicate Survives(vs: seq<Value>) {
    var n := Held(vs);
    n < |vs| ==>
      IsNaN(vs[0]) && |vs| - n <= Rle.Padding(Indices(vs[..n])) && forall i :: n <= i < |vs| ==> vs[i] == vs[0]
  }

  lemma {:induction false} HeldFits(vs: seq<Value>)
    ensures Fits(vs[..Held(vs)])
    ensures Held(vs) < |vs| ==>
              var h := Held(vs); |Entries(vs[..h])| == MAX_ENTRIES && Find(Entries(vs[..h]), vs[h]) == MAX_ENTRIES
    decreases |vs|
  {
    hide Find, Entries;
    if Fits(vs) {
      assert vs[..|vs|] == vs;
    } else {
      var init := vs[..|vs| - 1];
      HeldFits(init);
      assert vs[..Held(vs)] == init[..Held(vs)];
      if Held(init) == |init| {
        assert vs[..Held(vs)] == init;
      }
    }
  }

  /** Behind a refused value the entries stay, and the next index points at an entry that is no NaN. */
  lemma {:induction false} AfterRefusal(vs: seq<Value>, h: nat, m: nat)
    requires h < m <= |vs| && Fits(vs[..h]) && |Entries(vs[..h])| == MAX_ENTRIES
    requires Find(Entries(vs[..h]), vs[h]) == MAX_ENTRIES
    ensures Entries(vs[..m]) == Entries(vs[..h])
    ensures Indices(vs[..m]) == Indices(vs[..h]) ||
            (|Indices(vs[..m])| > h && var d := Indices(vs[..m])[h];
              d < MAX_ENTRIES && exists v :: SameKey(Entries(vs[..h])[d], v))
    decreases m
  {
    hide SameKey, Find;
    AllIndexed(vs[..h]);
    assert vs[..m][..m - 1] == vs[..m - 1];
    if m > h + 1 {
      AfterRefusal(vs, h, m - 1);
    }
    FindFirst(Entries(vs[..h]), vs[m - 1]);
  }

  /** Only NaN is refused though it is one of the entries. */
  lemma RefusedEntry(entries: seq<Value>, v: Value)
    requires Find(entries, v) >= |entries| && v in entries
    ensures IsNaN(v)
  {
    FindFirst(entries, v);
    hide IsNaN, Find;
  }

  /** The first value is entry 0. */
  lemma {:induction false} FirstEntry(vs: seq<Value>)
    requires vs != []
    ensures Entries(vs) != [] && Entries(vs)[0] == vs[0]
    decreases |vs|
  {
    hide SameKey;
    if |vs| > 1 {
      FirstEntry(vs[..|vs| - 1]);
    } else {
      assert vs[..0] == [];
    }
  }

  /** Whatever indices give the values back, equal numbers among them are spelled alike. */
  lemma LookupSpelling(vs: seq<Value>, ix: seq<nat>)
    requires InRange(ix, |Entries(vs)|) && Lookup(Entries(vs), ix) == vs
    ensures OneSpelling(vs)
  {
    hide Entries;
    EntriesAreValues(vs);
    forall i, j | 0 <= i < |vs| && 0 <= j < |vs| && SameKey(vs[i], vs[j]) ensures vs[i] == vs[j] {
      KeySymmetric(vs[i], vs[j]);
      assert vs[i] == Entries(vs)[ix[i]] && vs[j] == Entries(vs)[ix[j]];
    }
  }

  lemma KeySymmetric(a: Value, b: Value)
    requires SameKey(a, b)
    ensures SameKey(b, a)
  {
    hide U32, U64;
  }

  /** With indices that may end in padding zeros, the values come back exactly when none was lost and
      equal numbers are spelled alike, or what was lost survives. */
  lemma PaddedLookup(vs: seq<Value>, pad: nat)
    requires pad == Min(|vs| - |Indices(vs)|, Rle.Padding(Indices(vs)))
    ensures InRange(Indices(vs), |Entries(vs)|) && (vs != [] ==> Entries(vs) != [])
    ensures InRange(Indices(vs) + Copies(pad, 0), |Entries(vs)|)
    ensures Lookup(Entries(vs), Indices(vs) + Copies(pad, 0)) == vs <==> OneSpelling(vs) && Survives(vs)
  {
    hide SameKey, Find, Entries, Indices, Fits, OneSpelling, Held, Rle.Padding;
    IndicesInRange(vs);
    AllIndexed(vs);
    if vs != [] {
      FirstEntry(vs);
    }
    HeldFits(vs);
    HeldAll(vs);
    if Fits(vs) {
      LookupReturns(vs);
      assert Indices(vs) + Copies(0, 0) == Indices(vs);
    } else {
      LostLookup(vs, pad);
    }
  }

  lemma KeyNumber(a: Value, b: Value)
    requires SameKey(a, b)
    ensures !IsNaN(a)
  {
  }

  lemma NaNNotFound(entries: seq<Value>, v: Value)
    requires IsNaN(v)
    ensures Find(entries, v) == |entries|
  {
    hide Find, SameKey;
    FindFirst(entries, v);
    if Find(entries, v) < |entries| {
      KeySymmetric(entries[Find(entries, v)], v);
      KeyNumber(v, entries[Find(entries, v)]);
    }
  }

  /** A NaN behind a full dictionary is refused: it never finds an entry. */
  lemma NaNRefused(vs: seq<Value>)
    requires vs != [] && IsNaN(vs[|vs| - 1]) && |Entries(vs[..|vs| - 1])| == MAX_ENTRIES
    ensures Entries(vs) == Entries(vs[..|vs| - 1]) && Indices(vs) == Indices(vs[..|vs| - 1])
  {
    hide SameKey, Find, IsNaN;
    NaNNotFound(Entries(vs[..|vs| - 1]), vs[|vs| - 1]);
  }

  lemma {:induction false} NaNsRefused(vs: seq<Value>, h: nat, m: nat)
    requires h <= m <= |vs| && |Entries(vs[..h])| == MAX_ENTRIES && forall i :: h <= i < m ==> IsNaN(vs[i])
    ensures Entries(vs[..m]) == Entries(vs[..h]) && Indices(vs[..m]) == Indices(vs[..h])
    decreases m
  {
    hide Entries, Indices, IsNaN;
    if m > h {
      assert vs[..m][..m - 1] == vs[..m - 1];
      NaNsRefused(vs, h, m - 1);
      NaNRefused(vs[..m]);
    }
  }

  lemma LookupPadded(entries: seq<Value>, ix: seq<nat>, pad: nat)
    requires InRange(ix, |entries|) && entries != []
    ensures InRange(ix + Copies(pad, 0), |entries|)
    ensures var vs := Lookup(entries, ix + Copies(pad, 0));
            vs[..|ix|] == Lookup(entries, ix) && forall i :: |ix| <= i < |vs| ==> vs[i] == entries[0]
  {
  }

  /** The lost values come back exactly when they survive. */
  lemma LostLookup(vs: seq<Value>, pad: nat)
    requires !Fits(vs) && pad == Min(|vs| - |Indices(vs)|, Rle.Padding(Indices(vs)))
    requires InRange(Indices(vs), |Entries(vs)|) && Entries(vs) != [] && Entries(vs)[0] == vs[0] && Held(vs) < |vs|
    ensures InRange(Indices(vs) + Copies(pad, 0), |Entries(vs)|)
    ensures Lookup(Entries(vs), Indices(vs) + Copies(pad, 0)) == vs <==> OneSpelling(vs) && Survives(vs)
  {
    hide SameKey, Find, Entries, Indices, Fits, OneSpelling, Held, Rle.Padding, Survives, IsNaN, Lookup, InRange, Min;
    LookupPadded(Entries(vs), Indices(vs), pad);
    if Lookup(Entries(vs), Indices(vs) + Copies(pad, 0)) == vs {
      LookupSpelling(vs, Indices(vs) + Copies(pad, 0));
      LookedUpSurvives(vs, pad);
    } else if OneSpelling(vs) && Survives(vs) {
      SurvivesLookedUp(vs, pad);
    }
  }

  lemma LookedUpSurvives(vs: seq<Value>, pad: nat)
    requires !Fits(vs) && pad == Min(|vs| - |Indices(vs)|, Rle.Padding(Indices(vs)))
    requires InRange(Indices(vs) + Copies(pad, 0), |Entries(vs)|) && Held(vs) < |vs|
    requires Entries(vs) != [] && Entries(vs)[0] == vs[0]
    requires Lookup(Entries(vs), Indices(vs) + Copies(pad, 0)) == vs
    ensures Survives(vs)
  {
    hide SameKey, Find, Entries, Indices, Fits, Held, Rle.Padding, IsNaN;
    var h, full := Held(vs), Indices(vs) + Copies(pad, 0);
    HeldFits(vs);
    AllIndexed(vs[..h]);
    assert vs[..|vs|] == vs;
    AfterRefusal(vs, h, |vs|);
    assert vs[h] == Entries(vs)[full[h]];
    RefusedEntry(Entries(vs), vs[h]);
    if Indices(vs) != Indices(vs[..h]) {
      var d := Indices(vs)[h];
      var v :| SameKey(Entries(vs)[d], v);
      KeyNumber(Entries(vs)[d], v);
      assert false;
    }
    forall i | h <= i < |vs| ensures vs[i] == vs[0] {
      assert vs[i] == Entries(vs)[full[i]] && full[i] == 0;
    }
  }

  lemma SurvivesLookedUp(vs: seq<Value>, pad: nat)
    requires !Fits(vs) && pad == Min(|vs| - |Indices(vs)|, Rle.Padding(Indices(vs)))
    requires InRange(Indices(vs), |Entries(vs)|) && InRange(Indices(vs) + Copies(pad, 0), |Entries(vs)|)
    requires Entries(vs) != [] && Entries(vs)[0] == vs[0] && Held(vs) < |vs| && OneSpelling(vs) && Survives(vs)
    ensures Lookup(Entries(vs), Indices(vs) + Copies(pad, 0)) == vs
  {
    hide SameKey, Find, Entries, Indices, Fits, Held, Rle.Padding, IsNaN, Lookup, InRange;
    var h := Held(vs);
    HeldFits(vs);
    AllIndexed(vs[..h]);
    assert vs[..|vs|] == vs;
    NaNsRefused(vs, h, |vs|);
    LookupReturns(vs[..h]);
    LookupPadded(Entries(vs), Indices(vs), pad);
    var back := Lookup(Entries(vs), Indices(vs) + Copies(pad, 0));
    assert back[..h] == vs[..h];
    forall i | 0 <= i < |vs| ensures back[i] == vs[i] {
      if i < h {
        assert back[i] == back[..h][i] == vs[..h][i];
      }
    }
  }

  lemma HeldAll(vs: seq<Value>)
    ensures Held(vs) == |vs| <==> Fits(vs)
  {
  }

  lemma {:induction false} LostFull(vs: seq<Value>)
    requires !Fits(vs)
    ensures |Entries(vs)| == MAX_ENTRIES
    decreases |vs|
  {
    hide Find;
    if !Fits(vs[..|vs| - 1]) {
      LostFull(vs[..|vs| - 1]);
    }
  }

  lemma {:induction false} EntriesStorable(vs: seq<Value>, t: PhysicalType, width: int)
    requires AllStorable(vs, t, width) && Indexable(t)
    ensures AllStorable(Entries(vs), t, 0)
  {
    hide Entries, SameKey;
    EntriesAreValues(vs);
    forall e | 0 <= e < |Entries(vs)| ensures Storable(Entries(vs)[e], t, 0) {
      var k :| 0 <= k < |vs| && vs[k] == Entries(vs)[e];
    }
  }

  /** The pages the encoder makes of a column: PLAIN entries, and a width byte before the hybrid
      stream of the indices. */
  ghost predicate Pages(dict: seq<bv8>, index: seq<bv8>, vs: seq<Value>, t: PhysicalType) {
    var w := IndexWidth(|Entries(vs)|);
    && AllStorable(Entries(vs), t, 0) && dict == Plain(Entries(vs), t, 0)
    && w < 256 && index != [] && index[0] == Byte(w) && Rle.Encodes(index[1..], Indices(vs), w)
  }

  /** Dictionary columns read back exactly when no two values were equal numbers with different bits,
      the dictionary had room or what it lost survives, and the decoder accepts the index runs. */
  lemma PagesRead(dict: seq<bv8>, index: seq<bv8>, vs: seq<Value>, t: PhysicalType)
    requires Indexable(t) && Pages(dict, index, vs, t) && vs != []
    ensures DecodePages(t, dict, |Entries(vs)|, index, |vs|) == Ok(vs) <==>
            OneSpelling(vs) && Survives(vs) && Rle.Reads(Indices(vs), IndexWidth(|Entries(vs)|))
  {
    hide Entries, Indices, Fits, OneSpelling, Survives, Plain, Byte, U8, Rle.Decode, Rle.Encodes, ReadEntries,
      IndexWidth, Rle.Reads,
      Rle.Padding, Min;
    var ix, n := Indices(vs), |vs|;
    var w := IndexWidth(|Entries(vs)|);
    EntriesRead(Entries(vs), t, dict);
    ByteValue(w);
    IndicesFit(vs);
    Rle.DecodeMore(index[1..], ix, w, n);
    if Rle.Reads(ix, w) {
      WidthZero(vs);
      PaddedLookup(vs, Min(n - |ix|, Rle.Padding(ix)));
      assert Rle.Decode(index[1..], w, n) == ix + Copies(Min(n - |ix|, Rle.Padding(ix)), 0);
    }
  }

  /** A dictionary with indices of no width has lost nothing. */
  lemma WidthZero(vs: seq<Value>)
    ensures IndexWidth(|Entries(vs)|) == 0 ==> |Indices(vs)| == |vs| && Min(0, Rle.Padding(Indices(vs))) == 0
  {
    hide Entries, Indices, Rle.Padding, Delta.BitWidth;
    AllIndexed(vs);
    if !Fits(vs) {
      LostFull(vs);
      Delta.BitWidthHolds(MAX_ENTRIES - 1);
      assert Pow2(0) == 1;
    }
  }

  /** Plus and minus zero in one column: the second comes back as the first. */
  lemma ZerosRespelled(dict: seq<bv8>, index: seq<bv8>)
    requires Pages(dict, index, [F32(0), F32(0x8000_0000)], FLOAT)
    ensures var vs := [F32(0), F32(0x8000_0000)];
            !OneSpelling(vs) && DecodePages(FLOAT, dict, |Entries(vs)|, index, |vs|) != Ok(vs)
  {
    hide Entries, Pages, DecodePages, U32, IsNaN;
    var vs := [F32(0), F32(0x8000_0000)];
    TwoZeros();
    assert SameKey(vs[0], vs[1]) && vs[0] != vs[1];
    PagesRead(dict, index, vs, FLOAT);
  }

  lemma TwoZeros()
    ensures SameKey(F32(0), F32(0x8000_0000)) && F32(0) != F32(0x8000_0000)
  {
    hide U32;
    U32OfZero();
    U32OfTop();
  }

  /** Builds the two pages. */
  method Encode(vs: seq<Value>, t: PhysicalType, width: int)
    returns (dict: seq<bv8>, index: seq<bv8>, count: nat)
    requires Indexable(t) && AllStorable(vs, t, width) && |vs| <= Rle.VALUES_MAX
    ensures Pages(dict, index, vs, t) && count == |Entries(vs)|
  {
    hide Entries, Indices, Plain, Byte, Rle.Encodes, IndexWidth, AllStorable;
    var encoder := new DictionaryEncoder();
    var i := 0;
    while i < |vs|
      invariant 0 <= i <= |vs| && encoder.Valid() && fresh(encoder) && encoder.put == vs[..i]
    {
      var _ := encoder.Put(vs[i]);
      i := i + 1;
    }
    assert vs[..i] == vs;
    EntriesStorable(vs, t, width);
    IndicesFit(vs);
    count := |encoder.entries|;
    dict := Plain(encoder.entries, t, 0);
    var w := IndexWidth(count);
    var data := Rle.Encode(encoder.indices, w);
    index := [Byte(w)] + data;
    assert index[1..] == data;
  }
}
