/** Column statistics: minimum and maximum kept as little-endian bytes, updated value by value and
    merged chunk by chunk. */
module Statistics {
  import opened Words
  import opened Orders
  import opened Values

  // ----- values as bytes -----

  function ToLe(v: Value): seq<bv8> {
    match v
    case Bool(b) => [if b then 1 else 0]
    case I32(w) => Le32(w)
    case I64(d) => Le64(d)
    case F32(w) => Le32(w)
    case F64(d) => Le64(d)
    case Bytes(s) => s
  }

  /** Reads bytes back as a value of the physical type; too few bytes read as zero. */
  function FromLe(t: PhysicalType, s: seq<bv8>): Value {
    match t
    case BOOLEAN => Bool(|s| >= 1 && s[0] != 0)
    case INT32 => I32(if |s| >= 4 then FromLe32(s[..4]) else 0)
    case INT64 => I64(if |s| >= 8 then FromLe64(s[..8]) else 0)
    case FLOAT => F32(if |s| >= 4 then FromLe32(s[..4]) else 0)
    case DOUBLE => F64(if |s| >= 8 then FromLe64(s[..8]) else 0)
    case INT96 | BYTE_ARRAY | FIXED_LEN_BYTE_ARRAY => Bytes(s)
  }

  lemma LeRoundTrip(v: Value, t: PhysicalType)
    requires HasType(v, t)
    ensures FromLe(t, ToLe(v)) == v
  {
    hide Le32, FromLe32, Le64, FromLe64;
    match v
    case I32(w) => Le32RoundTrip(w); assert Le32(w)[..4] == Le32(w);
    case F32(w) => Le32RoundTrip(w); assert Le32(w)[..4] == Le32(w);
    case I64(d) => Le64RoundTrip(d); assert Le64(d)[..8] == Le64(d);
    case F64(d) => Le64RoundTrip(d); assert Le64(d)[..8] == Le64(d);
    case _ =>
  }

  // ----- the tracker -----

  datatype Stats = Stats(nulls: nat, values: nat, distinct: Option<int>, minB: seq<bv8>, maxB: seq<bv8>,
                         has: bool, ptype: PhysicalType)

  function Fresh(t: PhysicalType): Stats { Stats(0, 0, None, [], [], false, t) }

  /** The type a value is compared as when it is fed to the tracker, whatever the recorded type. */
  function TypeOf(v: Value): (t: PhysicalType)
    ensures HasType(v, t)
  {
    match v
    case Bool(_) => BOOLEAN
    case I32(_) => INT32
    case I64(_) => INT64
    case F32(_) => FLOAT
    case F64(_) => DOUBLE
    case Bytes(_) => BYTE_ARRAY
  }

  function Update(st: Stats, v: Value): Stats {
    if IsNaN(v) then st
    else if !st.has then st.(values := st.values + 1, minB := ToLe(v), maxB := ToLe(v), has := true)
    else
      st.(values := st.values + 1,
          minB := if Less(v, FromLe(TypeOf(v), st.minB)) then ToLe(v) else st.minB,
          maxB := if Less(FromLe(TypeOf(v), st.maxB), v) then ToLe(v) else st.maxB)
  }

  function UpdateNull(st: Stats): Stats { st.(nulls := st.nulls + 1) }

  /** One tracked item: a value, or a null. */
  type Item = Option<Value>

  function Feed(st: Stats, items: seq<Item>): Stats
    decreases |items|
  {
    if items == [] then st
    else
      var before := Feed(st, items[..|items| - 1]);
      var last := items[|items| - 1];
      if last.Some? then Update(before, last.value) else UpdateNull(before)
  }

  /** Values alone never set a distinct count. */
  lemma {:induction false} FeedCountsNoDistinct(st: Stats, items: seq<Item>)
    ensures Feed(st, items).distinct == st.distinct
    decreases |items|
  {
    hide Less, ToLe, FromLe, IsNaN;
    if items != [] {
      FeedCountsNoDistinct(st, items[..|items| - 1]);
    }
  }

  /** fmin of C: a NaN operand is ignored. */
  function Fmin(a: Value, b: Value): Value {
    if IsNaN(a) then b else if IsNaN(b) then a else if Less(b, a) then b else a
  }

  function Fmax(a: Value, b: Value): Value {
    if IsNaN(a) then b else if IsNaN(b) then a else if Less(a, b) then b else a
  }

  predicate FloatDiffers(a: Value, b: Value) { IsNaN(a) || IsNaN(b) || Less(a, b) || Less(b, a) }

  function Merge(a: Stats, b: Stats): Stats {
    if a.has && b.has && a.ptype != b.ptype then a
    else
      var summed := a.(nulls := a.nulls + b.nulls, values := a.values + b.values, distinct := None);
      if !b.has then summed
      else if !a.has then summed.(minB := b.minB, maxB := b.maxB, has := true)
      else summed.(minB := MergedMin(a.ptype, a.minB, b.minB), maxB := MergedMax(a.ptype, a.maxB, b.maxB))
  }

  function MergedMin(t: PhysicalType, cur: seq<bv8>, other: seq<bv8>): seq<bv8> {
    if t == FLOAT || t == DOUBLE then
      if FloatDiffers(Fmin(FromLe(t, cur), FromLe(t, other)), FromLe(t, cur)) then other else cur
    else if t == INT32 || t == INT64 then
      if Less(FromLe(t, other), FromLe(t, cur)) then other else cur
    else if LexLess(other, cur) then other else cur
  }

  function MergedMax(t: PhysicalType, cur: seq<bv8>, other: seq<bv8>): seq<bv8> {
    if t == FLOAT || t == DOUBLE then
      if FloatDiffers(Fmax(FromLe(t, cur), FromLe(t, other)), FromLe(t, cur)) then other else cur
    else if t == INT32 || t == INT64 then
      if Less(FromLe(t, cur), FromLe(t, other)) then other else cur
    else if LexLess(cur, other) then other else cur
  }

  /** The mutable tracker of the column writer. */
  class ColumnStatistics {
    var nullCount: nat
    var numValues: nat
    var distinctCount: Option<int>
    var minValue: seq<bv8>
    var maxValue: seq<bv8>
    var hasMinMax: bool
    var ptype: PhysicalType

    function State(): Stats
      reads this
    {
      Stats(nullCount, numValues, distinctCount, minValue, maxValue, hasMinMax, ptype)
    }

    constructor ()
      ensures State() == Fresh(INT32)
    {
      nullCount, numValues, distinctCount := 0, 0, None;
      minValue, maxValue, hasMinMax, ptype := [], [], false, INT32;
    }

    method Reset()
      modifies this
      ensures State() == Fresh(old(ptype))
    {
      nullCount, numValues, distinctCount := 0, 0, None;
      minValue, maxValue, hasMinMax := [], [], false;
    }

    method SetType(t: PhysicalType)
      modifies this
      ensures State() == old(State()).(ptype := t)
    {
      ptype := t;
    }

    method SetDistinctCount(n: int)
      modifies this
      ensures State() == old(State()).(distinct := Some(n))
    {
      distinctCount := Some(n);
    }

    method AddNull()
      modifies this
      ensures State() == UpdateNull(old(State()))
    {
      nullCount := nullCount + 1;
    }

    method Add(v: Value)
      modifies this
      ensures State() == Update(old(State()), v)
    {
      hide Less, IsNaN, ToLe, FromLe;
      if IsNaN(v) {
        return;
      }
      var bytes := ToLe(v);
      if !hasMinMax {
        minValue, maxValue, hasMinMax := bytes, bytes, true;
      } else {
        var currentMin, currentMax := FromLe(TypeOf(v), minValue), FromLe(TypeOf(v), maxValue);
        if Less(v, currentMin) {
          minValue := bytes;
        }
        if Less(currentMax, v) {
          maxValue := bytes;
        }
      }
      numValues := numValues + 1;
    }

    method MergeFrom(other: ColumnStatistics)
      requires other != this
      modifies this
      ensures State() == Merge(old(State()), old(other.State()))
    {
      hide MergedMin, MergedMax;
      if hasMinMax && other.hasMinMax && ptype != other.ptype {
        return;
      }
      nullCount := nullCount + other.nullCount;
      numValues := numValues + other.numValues;
      if other.hasMinMax {
        if !hasMinMax {
          minValue, maxValue, hasMinMax := other.minValue, other.maxValue, true;
        } else {
          minValue, maxValue := MergedMin(ptype, minValue, other.minValue), MergedMax(ptype, maxValue, other.maxValue);
        }
      }
      if distinctCount.Some? || other.distinctCount.Some? {
        distinctCount := None;
      }
    }
  }

  // ----- what the tracker holds -----

  /** Items of one type. */
  predicate Typed(items: seq<Item>, t: PhysicalType) {
    forall i :: 0 <= i < |items| ==> ItemTyped(items[i], t)
  }

  predicate ItemTyped(item: Item, t: PhysicalType) { item.Some? ==> HasType(item.value, t) }

  /** An item that takes part in the bounds. */
  predicate Counts(item: Item) { item.Some? && !IsNaN(item.value) }

  function Nulls(items: seq<Item>): nat {
    if items == [] then 0 else Nulls(items[..|items| - 1]) + (if items[|items| - 1].None? then 1 else 0)
  }

  function Counted(items: seq<Item>): nat {
    if items == [] then 0 else Counted(items[..|items| - 1]) + (if Counts(items[|items| - 1]) then 1 else 0)
  }

  /** Strictly ahead in the race for the minimum (down) or the maximum. */
  predicate Ahead(a: Value, b: Value, down: bool) {
    if down then Less(a, b) else Less(b, a)
  }

  /** The winner of two candidates; the incumbent keeps ties. */
  function Pick(x: Item, y: Item, down: bool): Item {
    if x.None? then y else if y.None? then x else if Ahead(y.value, x.value, down) then y else x
  }

  function Candidate(item: Item): Item { if Counts(item) then item else None }

  function Best(items: seq<Item>, down: bool): Item {
    if items == [] then None else Pick(Best(items[..|items| - 1], down), Candidate(items[|items| - 1]), down)
  }

  /** The item at i is the first among the best of those that count: none is ahead of it, and it is
      ahead of every one before it. */
  ghost predicate FirstBest(items: seq<Item>, i: nat, down: bool) {
    i < |items| && Counts(items[i]) &&
    (forall j :: 0 <= j < |items| && Counts(items[j]) ==> !Ahead(items[j].value, items[i].value, down)) &&
    (forall j :: 0 <= j < i && Counts(items[j]) ==> Ahead(items[i].value, items[j].value, down))
  }

  lemma AheadIsOrder(a: Value, b: Value, c: Value, t: PhysicalType, down: bool)
    requires HasType(a, t) && HasType(b, t) && HasType(c, t)
    requires !IsNaN(a) && !IsNaN(b) && !IsNaN(c)
    ensures !Ahead(a, a, down) && !(Ahead(a, b, down) && Ahead(b, a, down))
    ensures Ahead(a, b, down) && !Ahead(c, b, down) ==> Ahead(a, c, down)
    ensures !Ahead(b, a, down) && Ahead(b, c, down) ==> Ahead(a, c, down)
  {
    hide Less, IsNaN, HasType, Leq;
    LessIsOrder(a, a, a, t);
    LessIsOrder(a, b, c, t);
    LessIsOrder(c, b, a, t);
    LessIsOrder(a, c, b, t);
    LessIsOrder(b, c, a, t);
    LessIsOrder(b, a, c, t);
    LessIsOrder(c, a, b, t);
    LeqIs(a, b); LeqIs(b, a); LeqIs(a, c); LeqIs(c, a); LeqIs(b, c); LeqIs(c, b);
  }

  lemma LeqIs(a: Value, b: Value)
    ensures Leq(a, b) <==> !Less(b, a)
  {
  }

  /** The best item is the first among the best that count, and there is one exactly when some item counts. */
  lemma {:induction false} BestAt(items: seq<Item>, t: PhysicalType, down: bool) returns (i: nat)
    requires Typed(items, t)
    ensures Best(items, down).Some? ==> FirstBest(items, i, down) && items[i] == Best(items, down)
    ensures Best(items, down).None? ==> forall j :: 0 <= j < |items| ==> !Counts(items[j])
  {
    i := 0;
    if items != [] {
      hide Ahead, Counts, FirstBest;
      var last := items[|items| - 1];
      var m := BestAt(items[..|items| - 1], t, down);
      var init := items[..|items| - 1];
      if Candidate(last).None? || (Best(init, down).Some? && !Ahead(last.value, Best(init, down).value, down)) {
        i := m;
        KeepBest(items, m, down);
      } else {
        i := |items| - 1;
        NewBest(items, m, t, down);
      }
    }
  }

  /** The last item does not win: the winner of the others stays. */
  lemma KeepBest(items: seq<Item>, m: nat, down: bool)
    requires items != []
    requires var init, last := items[..|items| - 1], items[|items| - 1];
             && (Best(init, down).Some? ==> FirstBest(init, m, down) && init[m] == Best(init, down))
             && (Best(init, down).None? ==> forall j :: 0 <= j < |init| ==> !Counts(init[j]))
             && (Counts(last) ==> Best(init, down).Some? && !Ahead(last.value, Best(init, down).value, down))
    ensures Best(items, down).Some? ==> FirstBest(items, m, down) && items[m] == Best(items, down)
    ensures Best(items, down).None? ==> forall j :: 0 <= j < |items| ==> !Counts(items[j])
  {
    hide Ahead, Counts;
    var init := items[..|items| - 1];
    assert forall j :: 0 <= j < |init| ==> init[j] == items[j];
  }

  /** The last item wins: it is ahead of all the others. */
  lemma NewBest(items: seq<Item>, m: nat, t: PhysicalType, down: bool)
    requires items != [] && Typed(items, t)
    requires var init, last := items[..|items| - 1], items[|items| - 1];
             && (Best(init, down).Some? ==> FirstBest(init, m, down) && init[m] == Best(init, down))
             && (Best(init, down).None? ==> forall j :: 0 <= j < |init| ==> !Counts(init[j]))
             && Counts(last) && (Best(init, down).Some? ==> Ahead(last.value, Best(init, down).value, down))
    ensures FirstBest(items, |items| - 1, down) && Best(items, down) == items[|items| - 1]
  {
    hide Ahead, IsNaN, HasType;
    var init, last := items[..|items| - 1], items[|items| - 1];
    assert ItemTyped(last, t);
    AheadIsOrder(last.value, last.value, last.value, t, down);
    forall j | 0 <= j < |init| && Counts(items[j])
      ensures !Ahead(items[j].value, last.value, down) && Ahead(last.value, items[j].value, down)
    {
      assert init[j] == items[j] && init[m] == items[m];
      assert ItemTyped(items[j], t) && ItemTyped(items[m], t);
      AheadIsOrder(last.value, items[m].value, items[j].value, t, down);
      AheadIsOrder(last.value, items[j].value, items[j].value, t, down);
    }
  }

  /** The tracker is exact: the counts, and the bytes of the first least and the first greatest value
      that counts, whenever one does. */
  ghost predicate Exact(st: Stats, items: seq<Item>) {
    && st.nulls == Nulls(items)
    && st.values == Counted(items)
    && st.has == Best(items, true).Some? == Best(items, false).Some?
    && st.minB == (if st.has then ToLe(Best(items, true).value) else [])
    && st.maxB == (if st.has then ToLe(Best(items, false).value) else [])
    && st.distinct == None
  }

  lemma {:induction false} BestTyped(items: seq<Item>, t: PhysicalType, down: bool)
    requires Typed(items, t)
    ensures ItemTyped(Best(items, down), t) && (Best(items, down).Some? ==> Counts(Best(items, down)))
  {
    if items != [] {
      hide Less, IsNaN, HasType, Ahead;
      BestTyped(items[..|items| - 1], t, down);
    }
  }

  /** After any updates the tracker is exact, whatever type is recorded. */
  lemma {:induction false} FeedExact(items: seq<Item>, t: PhysicalType, recorded: PhysicalType)
    requires Typed(items, t)
    ensures Exact(Feed(Fresh(recorded), items), items)
    ensures Feed(Fresh(recorded), items).ptype == recorded
    decreases |items|
  {
    if items != [] {
      hide Update, UpdateNull, Exact, ItemTyped;
      FeedExact(items[..|items| - 1], t, recorded);
      StepExact(Feed(Fresh(recorded), items[..|items| - 1]), items, t);
    }
  }

  lemma StepExact(st: Stats, items: seq<Item>, t: PhysicalType)
    requires items != [] && Typed(items, t) && Exact(st, items[..|items| - 1])
    ensures var last := items[|items| - 1];
            var after := if last.Some? then Update(st, last.value) else UpdateNull(st);
            Exact(after, items) && after.ptype == st.ptype
  {
    hide Less, IsNaN, HasType, ToLe, FromLe;
    var init, last := items[..|items| - 1], items[|items| - 1];
    assert ItemTyped(last, t);
    if Counts(last) && st.has {
      BestTyped(init, t, true);
      BestTyped(init, t, false);
      SameTypeDecode(last.value, Best(init, true).value, t);
      SameTypeDecode(last.value, Best(init, false).value, t);
    }
  }

  lemma SameTypeDecode(v: Value, m: Value, t: PhysicalType)
    requires HasType(v, t) && HasType(m, t)
    ensures FromLe(TypeOf(v), ToLe(m)) == m
  {
    LeRoundTrip(m, TypeOf(v));
  }

  // ----- merging is feeding -----

  lemma {:induction false} CountsConcat(a: seq<Item>, b: seq<Item>)
    ensures Nulls(a + b) == Nulls(a) + Nulls(b) && Counted(a + b) == Counted(a) + Counted(b)
    decreases |b|
  {
    hide Counts;
    if b == [] {
      assert a + b == a;
    } else {
      assert (a + b)[..|a + b| - 1] == a + b[..|b| - 1];
      CountsConcat(a, b[..|b| - 1]);
    }
  }

  /** Picking is associative on values of one type. */
  lemma PickAssociative(x: Item, y: Item, z: Item, t: PhysicalType, down: bool)
    requires ItemTyped(x, t) && ItemTyped(y, t) && ItemTyped(z, t)
    requires (x.Some? ==> Counts(x)) && (y.Some? ==> Counts(y)) && (z.Some? ==> Counts(z))
    ensures Pick(Pick(x, y, down), z, down) == Pick(x, Pick(y, z, down), down)
  {
    hide Less, IsNaN, HasType, Ahead;
    if x.Some? && y.Some? && z.Some? {
      AheadIsOrder(x.value, y.value, z.value, t, down);
      AheadIsOrder(y.value, x.value, z.value, t, down);
      AheadIsOrder(z.value, y.value, x.value, t, down);
      AheadIsOrder(z.value, x.value, y.value, t, down);
    }
  }

  lemma {:induction false} BestConcat(a: seq<Item>, b: seq<Item>, t: PhysicalType, down: bool)
    requires Typed(a, t) && Typed(b, t)
    ensures Best(a + b, down) == Pick(Best(a, down), Best(b, down), down)
    decreases |b|
  {
    hide Less, IsNaN, HasType, Ahead;
    if b == [] {
      assert a + b == a;
    } else {
      var init, last := b[..|b| - 1], b[|b| - 1];
      assert (a + b)[..|a + b| - 1] == a + init;
      BestConcat(a, init, t, down);
      BestTyped(a, t, down);
      BestTyped(init, t, down);
      assert ItemTyped(last, t);
      PickAssociative(Best(a, down), Best(init, down), Candidate(last), t, down);
    }
  }

  /** With the type recorded, merging two bounds picks between the values they stand for. */
  lemma MergedBounds(x: Value, y: Value, t: PhysicalType)
    requires HasType(x, t) && HasType(y, t) && !IsNaN(x) && !IsNaN(y)
    ensures MergedMin(t, ToLe(x), ToLe(y)) == if Less(y, x) then ToLe(y) else ToLe(x)
    ensures MergedMax(t, ToLe(x), ToLe(y)) == if Less(x, y) then ToLe(y) else ToLe(x)
  {
    hide IsNaN, Less, ToLe, FromLe;
    LeRoundTrip(x, t);
    LeRoundTrip(y, t);
    LessIsOrder(x, y, x, t);
    LessIsOrder(x, x, x, t);
    if t == BOOLEAN {
      BoolOrder(x, y);
    } else if x.Bytes? {
      BytesOrder(x, y);
    }
  }

  lemma BoolOrder(x: Value, y: Value)
    requires x.Bool? && y.Bool?
    ensures LexLess(ToLe(x), ToLe(y)) <==> Less(x, y)
    ensures LexLess(ToLe(y), ToLe(x)) <==> Less(y, x)
  {
    hide LexLess;
    BoolBytes();
  }

  lemma BytesOrder(x: Value, y: Value)
    requires x.Bytes? && y.Bytes?
    ensures LexLess(ToLe(x), ToLe(y)) <==> Less(x, y)
    ensures LexLess(ToLe(y), ToLe(x)) <==> Less(y, x)
  {
  }

  lemma BoolBytes()
    ensures LexLess([0], [1]) && !LexLess([1], [0]) && !LexLess([0], [0]) && !LexLess([1], [1])
  {
  }

  function MergedBound(r: PhysicalType, cur: seq<bv8>, other: seq<bv8>, down: bool): seq<bv8> {
    if down then MergedMin(r, cur, other) else MergedMax(r, cur, other)
  }

  /** Comparing the stored bounds under the recorded type picks the one that is ahead. */
  predicate Agrees(r: PhysicalType, x: Item, y: Item, down: bool) {
    x.None? || y.None? ||
    var best := if Ahead(y.value, x.value, down) then y.value else x.value;
    MergedBound(r, ToLe(x.value), ToLe(y.value), down) == ToLe(best)
  }

  /** Whatever type is recorded, merging the statistics of two chunks gives, byte for byte, the
      statistics of the chunks fed one after the other exactly when both bounds are compared right. */
  lemma MergeExact(a: seq<Item>, b: seq<Item>, t: PhysicalType, r: PhysicalType)
    requires Typed(a, t) && Typed(b, t)
    ensures Merge(Feed(Fresh(r), a), Feed(Fresh(r), b)) == Feed(Fresh(r), a + b) <==>
            Agrees(r, Best(a, true), Best(b, true), true) && Agrees(r, Best(a, false), Best(b, false), false)
  {
    hide Less, IsNaN, HasType, ToLe, FromLe, MergedMin, MergedMax, Feed, Ahead;
    FeedExact(a, t, r);
    FeedExact(b, t, r);
    assert forall i :: 0 <= i < |a + b| ==> (a + b)[i] == if i < |a| then a[i] else b[i - |a|];
    FeedExact(a + b, t, r);
    CountsConcat(a, b);
    BestConcat(a, b, t, true);
    BestConcat(a, b, t, false);
  }

  /** With the type of the values recorded the comparisons are always right. */
  lemma MergeIsFeed(a: seq<Item>, b: seq<Item>, t: PhysicalType)
    requires Typed(a, t) && Typed(b, t)
    ensures Merge(Feed(Fresh(t), a), Feed(Fresh(t), b)) == Feed(Fresh(t), a + b)
  {
    hide Less, IsNaN, HasType, ToLe, FromLe, MergedMin, MergedMax, Feed, Merge, Best;
    MergeExact(a, b, t, t);
    forall down: bool ensures Agrees(t, Best(a, down), Best(b, down), down) {
      BestTyped(a, t, down);
      BestTyped(b, t, down);
      if Best(a, down).Some? && Best(b, down).Some? {
        MergedBounds(Best(a, down).value, Best(b, down).value, t);
      }
    }
  }

  /** The lower half of a 64-bit value, as the signed number a 32-bit comparison sees. */
  function LowHalf(v: Value): int
    requires v.I64? || v.F64?
  {
    S32(Lo(v.d))
  }

  /** 64-bit values tracked under the default type: a bound is right exactly when the lower halves of
      the two candidates compare as the values do. */
  lemma HalvesDecide(x: Value, y: Value, t: PhysicalType, down: bool)
    requires (t == INT64 || t == DOUBLE) && HasType(x, t) && HasType(y, t) && !IsNaN(x) && !IsNaN(y)
    ensures Agrees(INT32, Some(x), Some(y), down) <==>
            (Ahead(y, x, down) <==> if down then LowHalf(y) < LowHalf(x) else LowHalf(x) < LowHalf(y))
  {
    hide Less, IsNaN;
    LowBytes(x);
    LowBytes(y);
    LessIsHalf(LowWord(x), LowWord(y));
    LessIsHalf(LowWord(y), LowWord(x));
    hide ToLe, FromLe;
    LeRoundTrip(x, t);
    LeRoundTrip(y, t);
    LessIsOrder(x, x, x, t);
  }

  function LowWord(v: Value): bv32
    requires v.I64? || v.F64?
  {
    Lo(v.d)
  }

  lemma LowBytes(v: Value)
    requires v.I64? || v.F64?
    ensures FromLe(INT32, ToLe(v)) == I32(LowWord(v))
  {
    hide Lo, Hi, FromLe32, Le32;
    Le32RoundTrip(Lo(v.d));
    assert ToLe(v)[..4] == Le32(Lo(v.d));
  }

  lemma LessIsHalf(a: bv32, b: bv32)
    ensures Less(I32(a), I32(b)) <==> S32(a) < S32(b)
  {
    hide U32;
  }

  /** The default type of a column writer's tracker: merging 64-bit columns is right exactly when, for
      both bounds, the lower halves of the two bounds compare as the bounds do. */
  lemma MergeUnset(a: seq<Item>, b: seq<Item>, t: PhysicalType)
    requires (t == INT64 || t == DOUBLE) && Typed(a, t) && Typed(b, t)
    ensures Best(a, true).Some? && Best(b, true).Some? ==>
              Best(a, false).Some? && Best(b, false).Some? &&
              var (x, y) := (Best(a, true).value, Best(b, true).value);
              var (p, q) := (Best(a, false).value, Best(b, false).value);
              (x.I64? || x.F64?) && (y.I64? || y.F64?) && (p.I64? || p.F64?) && (q.I64? || q.F64?) &&
              (Merge(Feed(Fresh(INT32), a), Feed(Fresh(INT32), b)) == Feed(Fresh(INT32), a + b) <==>
               (Less(y, x) <==> LowHalf(y) < LowHalf(x)) && (Less(p, q) <==> LowHalf(p) < LowHalf(q)))
    ensures Best(a, true).None? || Best(b, true).None? ==>
              Merge(Feed(Fresh(INT32), a), Feed(Fresh(INT32), b)) == Feed(Fresh(INT32), a + b)
  {
    hide Less, IsNaN, ToLe, FromLe, Feed, Merge, Best, LowHalf;
    MergeExact(a, b, t, INT32);
    BestBoth(a);
    BestBoth(b);
    forall down: bool ensures ItemTyped(Best(a, down), t) && ItemTyped(Best(b, down), t) {
      BestTyped(a, t, down);
      BestTyped(b, t, down);
    }
    if Best(a, true).Some? && Best(b, true).Some? {
      BestTyped(a, t, true);
      BestTyped(b, t, true);
      BestTyped(a, t, false);
      BestTyped(b, t, false);
      HalvesDecide(Best(a, true).value, Best(b, true).value, t, true);
      HalvesDecide(Best(a, false).value, Best(b, false).value, t, false);
    }
  }

  /** Both bounds exist or neither does. */
  lemma {:induction false} BestBoth(items: seq<Item>)
    ensures Best(items, true).Some? == Best(items, false).Some?
    decreases |items|
  {
    hide Less, IsNaN;
    if items != [] {
      BestBoth(items[..|items| - 1]);
    }
  }

  /** With the default recorded type the claim fails: INT64 bounds are compared by their lower halves. */
  lemma MergeNeedsType()
    ensures var a, b := [Some(I64(0x1_0000_0000))], [Some(I64(1))];
            Merge(Feed(Fresh(INT32), a), Feed(Fresh(INT32), b)) != Feed(Fresh(INT32), a + b)
  {
    var x, y := I64(0x1_0000_0000), I64(1);
    var a, b := [Some(x)], [Some(y)];
    hide Update, Merge, Less, FromLe, ToLe;
    FeedOne(Fresh(INT32), x);
    FeedOne(Fresh(INT32), y);
    FeedTwo(Fresh(INT32), x, y);
    HalvesMisorder();
    UpdateFirst(x);
    UpdateFirst(y);
    SameTypeDecode(y, x, INT64);
    UpdateSecond(x, y);
  }

  lemma FeedOne(st: Stats, v: Value)
    ensures Feed(st, [Some(v)]) == Update(st, v)
  {
    hide Update;
    assert [Some(v)][..0] == [];
  }

  lemma FeedTwo(st: Stats, v: Value, w: Value)
    ensures Feed(st, [Some(v)] + [Some(w)]) == Update(Update(st, v), w)
  {
    hide Update;
    FeedOne(st, v);
    assert ([Some(v)] + [Some(w)])[..1] == [Some(v)];
  }

  lemma UpdateFirst(v: Value)
    requires v.I64?
    ensures var st := Update(Fresh(INT32), v); st.has && st.minB == ToLe(v) && st.ptype == INT32
  {
    hide ToLe, Less;
  }

  /** The two 64-bit words compare one way as values and the other way by their lower halves. */
  lemma HalvesMisorder()
    ensures Less(I64(1), I64(0x1_0000_0000)) && ToLe(I64(1)) != ToLe(I64(0x1_0000_0000))
    ensures !Less(FromLe(INT32, ToLe(I64(1))), FromLe(INT32, ToLe(I64(0x1_0000_0000))))
  {
    U64Order(1, 0x1_0000_0000);
    U64Order(0x1_0000_0000, 0x7FFF_FFFF_FFFF_FFFF);
    assert U64(1) == 1 && U64(0x1_0000_0000) == TWO32;
    var p, q := ToLe(I64(1)), ToLe(I64(0x1_0000_0000));
    assert p[..4] == [1, 0, 0, 0] && q[..4] == [0, 0, 0, 0];
    assert U32(0) == 0 && U32(1) == 1;
  }

  lemma UpdateSecond(x: Value, y: Value)
    requires x.I64? && y.I64? && Less(y, x) && FromLe(TypeOf(y), ToLe(x)) == x && ToLe(x) != ToLe(y)
    requires !Less(FromLe(INT32, ToLe(y)), FromLe(INT32, ToLe(x)))
    ensures var a, b := Update(Fresh(INT32), x), Update(Fresh(INT32), y);
            Merge(a, b).minB == ToLe(x) && Update(a, y).minB == ToLe(y)
  {
    hide ToLe, Less, FromLe;
  }
}
