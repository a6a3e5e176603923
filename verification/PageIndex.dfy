/** The page index: bounds recorded per page, page filtering for predicate pushdown, and the
    detected order of page minima. */
module PageIndex {
  import opened Words
  import opened Orders
  import opened Values
  import opened Statistics

  datatype BoundaryOrder = UNORDERED | ASCENDING | DESCENDING

  datatype ColumnIndex = ColumnIndex(nullPages: seq<bool>, minValues: seq<seq<bv8>>, maxValues: seq<seq<bv8>>,
                                     boundaryOrder: BoundaryOrder, nullCounts: seq<nat>)

  /** Bytes needed before a bound is compared as a number; zero for types compared as byte strings. */
  function Width(t: PhysicalType): nat {
    match t
    case INT32 | FLOAT => 4
    case INT64 | DOUBLE => 8
    case _ => 0
  }

  /** Three-way comparison of recorded bounds: typed when both are wide enough, else as byte strings. */
  function Compare(t: PhysicalType, a: seq<bv8>, b: seq<bv8>): (c: int)
    ensures -1 <= c <= 1
  {
    if Width(t) > 0 && |a| >= Width(t) && |b| >= Width(t) then
      if Less(FromLe(t, a), FromLe(t, b)) then -1 else if Less(FromLe(t, b), FromLe(t, a)) then 1 else 0
    else if LexLess(a, b) then -1 else if LexLess(b, a) then 1 else 0
  }

  /** The page is not all-null and its recorded interval meets the query interval. */
  predicate PageMatches(ci: ColumnIndex, i: nat, lo: seq<bv8>, hi: seq<bv8>, t: PhysicalType)
    requires i < |ci.minValues|
  {
    && !(i < |ci.nullPages| && ci.nullPages[i])
    && !(i < |ci.maxValues| && Compare(t, ci.maxValues[i], lo) < 0)
    && !(Compare(t, ci.minValues[i], hi) > 0)
  }

  /** Exactly the matching pages, in increasing order. */
  method FilterPages(ci: ColumnIndex, lo: seq<bv8>, hi: seq<bv8>, t: PhysicalType) returns (matching: seq<nat>)
    ensures forall k, l :: 0 <= k < l < |matching| ==> matching[k] < matching[l]
    ensures forall i :: i in matching <==> 0 <= i < |ci.minValues| && PageMatches(ci, i, lo, hi, t)
  {
    hide Compare;
    matching := [];
    var i := 0;
    while i < |ci.minValues|
      invariant 0 <= i <= |ci.minValues|
      invariant forall k, l :: 0 <= k < l < |matching| ==> matching[k] < matching[l]
      invariant forall k :: 0 <= k < |matching| ==> matching[k] < i
      invariant forall j :: j in matching <==> 0 <= j < i && PageMatches(ci, j, lo, hi, t)
    {
      if i < |ci.nullPages| && ci.nullPages[i] {
        i := i + 1;
        continue;
      }
      if i < |ci.maxValues| && Compare(t, ci.maxValues[i], lo) < 0 {
        i := i + 1;
        continue;
      }
      if Compare(t, ci.minValues[i], hi) > 0 {
        i := i + 1;
        continue;
      }
      matching := matching + [i];
      i := i + 1;
    }
  }

  // ----- the builder -----

  datatype PageInfo = PageInfo(minValue: seq<bv8>, maxValue: seq<bv8>, nullPage: bool, nullCount: nat,
                               firstRow: nat, offset: nat, size: nat)

  const BLANK_PAGE := PageInfo([], [], false, 0, 0, 0, 0)

  datatype PageLocation = PageLocation(offset: nat, size: nat, firstRow: nat)

  class ColumnIndexBuilder {
    var pages: seq<PageInfo>

    constructor ()
      ensures pages == []
    {
      pages := [];
    }

    method StartPage()
      modifies this
      ensures pages == old(pages) + [BLANK_PAGE]
    {
      pages := pages + [BLANK_PAGE];
    }

    /** Rewrites the last page; without one, nothing happens. */
    method Amend(page: PageInfo)
      modifies this
      ensures pages == if old(pages) == [] then [] else old(pages)[..|old(pages)| - 1] + [page]
    {
      if pages != [] {
        pages := pages[..|pages| - 1] + [page];
      }
    }

    /** What the file writer records for one data page of a chunk: the tracked bounds when there are any,
        the null flag when every value is null, and the page's place in the file. */
    method RecordPage(stats: Stats, numValues: nat, offset: nat, size: nat)
      modifies this
      ensures pages == old(pages) + [PageOf(stats, numValues, offset, size)]
    {
      StartPage();
      Amend(pages[|pages| - 1].(firstRow := 0));
      Amend(pages[|pages| - 1].(offset := offset, size := size));
      if stats.has {
        Amend(pages[|pages| - 1].(minValue := stats.minB));
        Amend(pages[|pages| - 1].(maxValue := stats.maxB));
      }
      Amend(pages[|pages| - 1].(nullPage := stats.nulls == numValues));
      Amend(pages[|pages| - 1].(nullCount := stats.nulls));
    }

    method BuildColumnIndex(t: PhysicalType) returns (ci: ColumnIndex)
      ensures ci == IndexOf(pages, t)
    {
      var nulls: seq<bool>, mins: seq<seq<bv8>>, maxs: seq<seq<bv8>>, counts: seq<nat> := [], [], [], [];
      var i := 0;
      while i < |pages|
        invariant 0 <= i <= |pages| && |nulls| == |mins| == |maxs| == |counts| == i
        invariant forall k :: 0 <= k < i ==> nulls[k] == pages[k].nullPage && mins[k] == pages[k].minValue &&
                                             maxs[k] == pages[k].maxValue && counts[k] == pages[k].nullCount
      {
        nulls, mins := nulls + [pages[i].nullPage], mins + [pages[i].minValue];
        maxs, counts := maxs + [pages[i].maxValue], counts + [pages[i].nullCount];
        i := i + 1;
      }
      var order := DetectBoundaryOrder(mins, t);
      assert mins == Mins(pages);
      ci := ColumnIndex(nulls, mins, maxs, order, counts);
    }

    method BuildOffsetIndex() returns (locations: seq<PageLocation>)
      ensures locations == LocationsOf(pages)
    {
      locations := [];
      while |locations| < |pages|
        invariant |locations| <= |pages|
        invariant forall k :: 0 <= k < |locations| ==>
                    locations[k] == PageLocation(pages[k].offset, pages[k].size, pages[k].firstRow)
      {
        var p := pages[|locations|];
        locations := locations + [PageLocation(p.offset, p.size, p.firstRow)];
      }
    }

    method Reset()
      modifies this
      ensures pages == []
    {
      pages := [];
    }
  }

  function PageOf(stats: Stats, numValues: nat, offset: nat, size: nat): PageInfo {
    PageInfo(if stats.has then stats.minB else [], if stats.has then stats.maxB else [],
             stats.nulls == numValues, stats.nulls, 0, offset, size)
  }

  function Mins(pages: seq<PageInfo>): seq<seq<bv8>> {
    seq(|pages|, k requires 0 <= k < |pages| => pages[k].minValue)
  }

  function LocationsOf(pages: seq<PageInfo>): seq<PageLocation> {
    seq(|pages|, k requires 0 <= k < |pages| => PageLocation(pages[k].offset, pages[k].size, pages[k].firstRow))
  }

  function IndexOf(pages: seq<PageInfo>, t: PhysicalType): ColumnIndex {
    ColumnIndex(seq(|pages|, k requires 0 <= k < |pages| => pages[k].nullPage),
                Mins(pages),
                seq(|pages|, k requires 0 <= k < |pages| => pages[k].maxValue),
                OrderOf(Mins(pages), t),
                seq(|pages|, k requires 0 <= k < |pages| => pages[k].nullCount))
  }

  /** How minimum k compares with its predecessor. */
  function StepSign(values: seq<seq<bv8>>, t: PhysicalType, k: nat): int
    requires 1 <= k < |values|
  {
    Compare(t, values[k], values[k - 1])
  }

  /** No minimum is below its predecessor. */
  predicate NeverFalls(values: seq<seq<bv8>>, t: PhysicalType) {
    forall k :: 1 <= k < |values| ==> StepSign(values, t, k) >= 0
  }

  /** No minimum is above its predecessor. */
  predicate NeverRises(values: seq<seq<bv8>>, t: PhysicalType) {
    forall k :: 1 <= k < |values| ==> StepSign(values, t, k) <= 0
  }

  function OrderOf(values: seq<seq<bv8>>, t: PhysicalType): BoundaryOrder {
    if NeverFalls(values, t) then ASCENDING else if NeverRises(values, t) then DESCENDING else UNORDERED
  }

  method DetectBoundaryOrder(values: seq<seq<bv8>>, t: PhysicalType) returns (order: BoundaryOrder)
    ensures order == OrderOf(values, t)
  {
    hide StepSign;
    if |values| <= 1 {
      return ASCENDING;
    }
    var ascending, descending := true, true;
    var i := 1;
    while i < |values|
      invariant 1 <= i <= |values|
      invariant ascending <==> forall k :: 1 <= k < i ==> StepSign(values, t, k) >= 0
      invariant descending <==> forall k :: 1 <= k < i ==> StepSign(values, t, k) <= 0
    {
      var cmp := StepSign(values, t, i);
      if cmp < 0 { ascending := false; }
      if cmp > 0 { descending := false; }
      i := i + 1;
      if !ascending && !descending {
        return UNORDERED;
      }
    }
    order := if ascending then ASCENDING else if descending then DESCENDING else UNORDERED;
  }

  // ----- bounds of one width are totally ordered -----

  /** A recorded bound that compares as a value of the type. */
  predicate Comparable(t: PhysicalType, a: seq<bv8>) {
    |a| >= Width(t) && !IsNaN(FromLe(t, a))
  }

  lemma CompareIsOrder(t: PhysicalType, a: seq<bv8>, b: seq<bv8>, c: seq<bv8>)
    requires Comparable(t, a) && Comparable(t, b) && Comparable(t, c)
    ensures Compare(t, a, b) >= 0 && Compare(t, b, c) >= 0 ==> Compare(t, a, c) >= 0
    ensures Compare(t, a, b) <= 0 && Compare(t, b, c) <= 0 ==> Compare(t, a, c) <= 0
    ensures Compare(t, a, a) == 0
  {
    if Width(t) > 0 {
      hide Less, Leq, FromLe, IsNaN, HasType;
      var x, y, z := FromLe(t, a), FromLe(t, b), FromLe(t, c);
      FromLeTyped(t, a); FromLeTyped(t, b); FromLeTyped(t, c);
      LessIsOrder(x, y, z, t); LessIsOrder(z, y, x, t); LessIsOrder(x, x, x, t);
      LessIsOrder(x, z, y, t); LessIsOrder(y, z, x, t); LessIsOrder(y, x, z, t);
      LeqIs(x, y); LeqIs(y, x); LeqIs(y, z); LeqIs(z, y); LeqIs(x, z); LeqIs(z, x);
    } else {
      hide LexLess, LexLeq;
      LexTrichotomy(a, b); LexTrichotomy(b, c); LexTrichotomy(a, c); LexTrichotomy(a, a);
      if LexLess(a, b) && LexLess(b, c) { LexTransitive(a, b, c); }
      if LexLess(c, b) && LexLess(b, a) { LexTransitive(c, b, a); }
    }
  }

  lemma FromLeTyped(t: PhysicalType, a: seq<bv8>)
    ensures HasType(FromLe(t, a), t)
  {
  }

  /** No minimum is below an earlier one. */
  predicate Ascend(values: seq<seq<bv8>>, t: PhysicalType) {
    forall i, j :: 0 <= i <= j < |values| ==> Compare(t, values[j], values[i]) >= 0
  }

  /** No minimum is above an earlier one. */
  predicate Descend(values: seq<seq<bv8>>, t: PhysicalType) {
    forall i, j :: 0 <= i <= j < |values| ==> Compare(t, values[j], values[i]) <= 0
  }

  /** What holds of neighbours holds of every pair of minima. */
  lemma {:induction false} NeighboursSuffice(values: seq<seq<bv8>>, t: PhysicalType, i: nat, j: nat)
    requires i <= j < |values| && forall k :: 0 <= k < |values| ==> Comparable(t, values[k])
    ensures NeverFalls(values, t) ==> Compare(t, values[j], values[i]) >= 0
    ensures NeverRises(values, t) ==> Compare(t, values[j], values[i]) <= 0
    decreases j - i
  {
    hide Compare, Comparable;
    CompareIsOrder(t, values[i], values[i], values[i]);
    if i < j {
      NeighboursSuffice(values, t, i, j - 1);
      CompareIsOrder(t, values[j], values[j - 1], values[i]);
      assert StepSign(values, t, j) == Compare(t, values[j], values[j - 1]);
    }
  }

  lemma AscendIs(values: seq<seq<bv8>>, t: PhysicalType)
    requires forall k :: 0 <= k < |values| ==> Comparable(t, values[k])
    ensures NeverFalls(values, t) <==> Ascend(values, t)
  {
    hide Compare, Comparable;
    if NeverFalls(values, t) {
      forall i, j | 0 <= i <= j < |values| ensures Compare(t, values[j], values[i]) >= 0 {
        NeighboursSuffice(values, t, i, j);
      }
    }
    if Ascend(values, t) {
      forall k | 1 <= k < |values| ensures StepSign(values, t, k) >= 0 {
        assert Compare(t, values[k], values[k - 1]) >= 0;
      }
    }
  }

  lemma DescendIs(values: seq<seq<bv8>>, t: PhysicalType)
    requires forall k :: 0 <= k < |values| ==> Comparable(t, values[k])
    ensures NeverRises(values, t) <==> Descend(values, t)
  {
    hide Compare, Comparable;
    if NeverRises(values, t) {
      forall i, j | 0 <= i <= j < |values| ensures Compare(t, values[j], values[i]) <= 0 {
        NeighboursSuffice(values, t, i, j);
      }
    }
    if Descend(values, t) {
      forall k | 1 <= k < |values| ensures StepSign(values, t, k) <= 0 {
        assert Compare(t, values[k], values[k - 1]) <= 0;
      }
    }
  }

  /** The order recorded is ascending exactly when no minimum is below any earlier one, and otherwise
      descending exactly when none is above any earlier one. */
  lemma BoundaryOrderHolds(values: seq<seq<bv8>>, t: PhysicalType)
    requires forall k :: 0 <= k < |values| ==> Comparable(t, values[k])
    ensures OrderOf(values, t) == if Ascend(values, t) then ASCENDING
                                  else if Descend(values, t) then DESCENDING else UNORDERED
  {
    hide Comparable, NeverFalls, NeverRises, Ascend, Descend;
    AscendIs(values, t);
    DescendIs(values, t);
  }

  // ----- no page with a matching value is dropped -----

  /** Bounds of values of the column's type compare as the values do. */
  lemma CompareValues(t: PhysicalType, x: Value, y: Value)
    requires HasType(x, t) && HasType(y, t) && !IsNaN(x) && !IsNaN(y)
    ensures Compare(t, ToLe(x), ToLe(y)) < 0 <==> Less(x, y)
    ensures Compare(t, ToLe(x), ToLe(y)) > 0 <==> Less(y, x)
  {
    LeRoundTrip(x, t);
    LeRoundTrip(y, t);
    LessIsOrder(x, y, x, t);
    if t == BOOLEAN {
      BoolBytes();
    } else {
      if x.Bytes? { LexTrichotomy(x.s, y.s); }
      hide IsNaN, LexLess, Le32, Le64, FromLe32, FromLe64, Number;
    }
  }

  /** One page per chunk of items, with the bounds tracked for that chunk. */
  ghost predicate FedFrom(pages: seq<PageInfo>, chunks: seq<seq<Item>>, recorded: PhysicalType) {
    |pages| == |chunks| &&
    forall i :: 0 <= i < |pages| ==>
      exists offset, size :: pages[i] == PageOf(Feed(Fresh(recorded), chunks[i]), |chunks[i]|, offset, size)
  }

  lemma FedByOne(items: seq<Item>, recorded: PhysicalType, offset: nat, size: nat)
    ensures FedFrom([PageOf(Feed(Fresh(recorded), items), |items|, offset, size)], [items], recorded)
  {
    hide Feed, PageOf;
    assert [items][0] == items;
  }

  /** A page holding a value of the query interval is always among the matching pages. */
  lemma NoMatchDropped(pages: seq<PageInfo>, chunks: seq<seq<Item>>, recorded: PhysicalType, t: PhysicalType,
                       lo: Value, hi: Value, i: nat, k: nat)
    requires FedFrom(pages, chunks, recorded) && i < |chunks| && k < |chunks[i]| && Typed(chunks[i], t)
    requires HasType(lo, t) && HasType(hi, t) && !IsNaN(lo) && !IsNaN(hi)
    requires Counts(chunks[i][k]) && Leq(lo, chunks[i][k].value) && Leq(chunks[i][k].value, hi)
    ensures PageMatches(IndexOf(pages, t), i, ToLe(lo), ToLe(hi), t)
  {
    hide Less, Leq, IsNaN, HasType, ToLe, Compare, Best, OrderOf, Feed;
    var items, v := chunks[i], chunks[i][k].value;
    FeedExact(items, t, recorded);
    var least := BestAt(items, t, true);
    var greatest := BestAt(items, t, false);
    assert ItemTyped(items[k], t) && ItemTyped(items[least], t) && ItemTyped(items[greatest], t);
    var a, b := items[least].value, items[greatest].value;
    LeqIs(lo, v); LeqIs(v, hi); LeqIs(a, v); LeqIs(v, b); LeqIs(lo, b); LeqIs(a, hi);
    LessIsOrder(lo, v, b, t);
    LessIsOrder(a, v, hi, t);
    CompareValues(t, b, lo);
    CompareValues(t, a, hi);
    NullsBelow(items, k);
  }

  /** A page that counted any value is returned exactly when one of its values is not below the interval
      and one is not above it; a page of nulls is never returned. */
  lemma MatchIs(pages: seq<PageInfo>, chunks: seq<seq<Item>>, recorded: PhysicalType, t: PhysicalType,
          lo: Value, hi: Value, i: nat)
    requires FedFrom(pages, chunks, recorded) && i < |chunks| && Typed(chunks[i], t)
    requires HasType(lo, t) && HasType(hi, t) && !IsNaN(lo) && !IsNaN(hi)
    ensures (exists k :: 0 <= k < |chunks[i]| && Counts(chunks[i][k])) ==>
              (PageMatches(IndexOf(pages, t), i, ToLe(lo), ToLe(hi), t) <==>
                 (exists k :: 0 <= k < |chunks[i]| && CountedFrom(chunks[i][k], lo)) &&
                 (exists k :: 0 <= k < |chunks[i]| && CountedUpTo(chunks[i][k], hi)))
    ensures (forall k :: 0 <= k < |chunks[i]| ==> chunks[i][k].None?) ==>
              !PageMatches(IndexOf(pages, t), i, ToLe(lo), ToLe(hi), t)
  {
    hide Less, Leq, IsNaN, HasType, ToLe, Compare, Best, OrderOf, Feed, CountedFrom, CountedUpTo;
    var items := chunks[i];
    FeedExact(items, t, recorded);
    if k :| 0 <= k < |items| && Counts(items[k]) {
      var least := BestAt(items, t, true);
      var greatest := BestAt(items, t, false);
      assert ItemTyped(items[least], t) && ItemTyped(items[greatest], t);
      CompareValues(t, items[greatest].value, lo);
      CompareValues(t, items[least].value, hi);
      NullsBelow(items, k);
      SomeFrom(items, t, lo, greatest);
      SomeUpTo(items, t, hi, least);
    }
    if forall k :: 0 <= k < |items| ==> items[k].None? {
      NullsAll(items);
    }
  }

  predicate CountedFrom(item: Item, lo: Value) { Counts(item) && !Less(item.value, lo) }

  predicate CountedUpTo(item: Item, hi: Value) { Counts(item) && !Less(hi, item.value) }

  /** Some counted value is not below a bound exactly when the greatest is not. */
  lemma SomeFrom(items: seq<Item>, t: PhysicalType, lo: Value, b: nat)
    requires Typed(items, t) && HasType(lo, t) && !IsNaN(lo) && b < |items| && Counts(items[b])
    requires forall k :: 0 <= k < |items| && Counts(items[k]) ==> !Less(items[b].value, items[k].value)
    ensures (exists k :: 0 <= k < |items| && CountedFrom(items[k], lo)) <==> !Less(items[b].value, lo)
  {
    hide Less, Leq, IsNaN, HasType;
    if k :| 0 <= k < |items| && CountedFrom(items[k], lo) {
      assert ItemTyped(items[k], t) && ItemTyped(items[b], t);
      LessIsOrder(items[b].value, lo, items[k].value, t);
      LessIsOrder(items[k].value, lo, items[b].value, t);
      LeqIs(lo, items[k].value); LeqIs(items[k].value, items[b].value); LeqIs(lo, items[b].value);
      LessIsOrder(lo, items[k].value, items[b].value, t);
    }
    if !Less(items[b].value, lo) {
      assert CountedFrom(items[b], lo);
    }
  }

  lemma SomeUpTo(items: seq<Item>, t: PhysicalType, hi: Value, a: nat)
    requires Typed(items, t) && HasType(hi, t) && !IsNaN(hi) && a < |items| && Counts(items[a])
    requires forall k :: 0 <= k < |items| && Counts(items[k]) ==> !Less(items[k].value, items[a].value)
    ensures (exists k :: 0 <= k < |items| && CountedUpTo(items[k], hi)) <==> !Less(hi, items[a].value)
  {
    hide Less, Leq, IsNaN, HasType;
    if k :| 0 <= k < |items| && CountedUpTo(items[k], hi) {
      assert ItemTyped(items[k], t) && ItemTyped(items[a], t);
      LeqIs(items[a].value, items[k].value); LeqIs(items[k].value, hi); LeqIs(items[a].value, hi);
      LessIsOrder(items[a].value, items[k].value, hi, t);
    }
    if !Less(hi, items[a].value) {
      assert CountedUpTo(items[a], hi);
    }
  }

  lemma {:induction false} NullsAll(items: seq<Item>)
    requires forall k :: 0 <= k < |items| ==> items[k].None?
    ensures Nulls(items) == |items|
  {
    if items != [] {
      NullsAll(items[..|items| - 1]);
    }
  }

  lemma {:induction false} NullsBelow(items: seq<Item>, k: nat)
    requires k < |items| && items[k].Some?
    ensures Nulls(items) < |items|
  {
    NullsAtMost(items[..|items| - 1]);
    if k < |items| - 1 {
      NullsBelow(items[..|items| - 1], k);
    }
  }

  lemma {:induction false} NullsAtMost(items: seq<Item>)
    ensures Nulls(items) <= |items|
  {
    if items != [] {
      NullsAtMost(items[..|items| - 1]);
    }
  }
}
