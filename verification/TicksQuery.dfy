/** The tick query: row groups are skipped by their recorded bounds, rows are filtered and limited,
    and skipping never changes the answer. */
module TicksQuery {
  import opened Words
  import opened Orders
  import opened Values
  import opened Statistics

  /** A tick: its timestamp, symbol, exchange and the six quoted numbers. */
  datatype Tick = Tick(ts: bv64, sym: seq<bv8>, exch: seq<bv8>, quotes: seq<bv64>)

  /** Statistics of a column chunk as the footer carries them. */
  datatype ChunkStats = ChunkStats(minValue: Option<seq<bv8>>, maxValue: Option<seq<bv8>>)

  /** A row group: its ticks, whether all nine column reads succeed, and the statistics of the
      three filtered columns. */
  datatype Group = Group(ticks: seq<Tick>, readable: bool, tsStats: Option<ChunkStats>,
                         symStats: Option<ChunkStats>, exchStats: Option<ChunkStats>)

  datatype Filter = Filter(symbol: Option<seq<bv8>>, exchange: Option<seq<bv8>>, fromMs: Option<int>, toMs: Option<int>)

  predicate HasBounds(st: Option<ChunkStats>) {
    st.Some? && st.value.minValue.Some? && st.value.maxValue.Some?
  }

  predicate Passes(f: Filter, t: Tick) {
    && (f.symbol.Some? ==> t.sym == f.symbol.value)
    && (f.exchange.Some? ==> t.exch == f.exchange.value)
    && (f.fromMs.Some? ==> f.fromMs.value <= S64(t.ts))
    && (f.toMs.Some? ==> S64(t.ts) <= f.toMs.value)
  }

  // ----- the plain query: filter everything, keep the first rows -----

  function FilterTicks(f: Filter, ticks: seq<Tick>): seq<Tick> {
    if ticks == [] then []
    else FilterTicks(f, ticks[..|ticks| - 1]) + (if Passes(f, ticks[|ticks| - 1]) then [ticks[|ticks| - 1]] else [])
  }

  /** All ticks of the readable groups, in file order. */
  function AllTicks(groups: seq<Group>): seq<Tick> {
    if groups == [] then []
    else AllTicks(groups[..|groups| - 1]) + (if groups[|groups| - 1].readable then groups[|groups| - 1].ticks else [])
  }

  function First<T>(s: seq<T>, limit: int): seq<T> {
    if limit <= 0 then [] else if limit < |s| then s[..limit] else s
  }

  function PlainQuery(f: Filter, groups: seq<Group>, limit: int): seq<Tick> {
    First(FilterTicks(f, AllTicks(groups)), limit)
  }

  /** What a filter asks for: the symbol and the exchange if given, and a time in the closed interval
      from the lower to the upper bound, as far as they are given. */
  predicate Asked(f: Filter, t: Tick) {
    && f.symbol in {None, Some(t.sym)} && f.exchange in {None, Some(t.exch)}
    && !(f.fromMs.Some? && S64(t.ts) < f.fromMs.value) && !(f.toMs.Some? && f.toMs.value < S64(t.ts))
  }

  /** The plain filter keeps exactly the ticks asked for, each as often as it occurs. */
  lemma {:induction false} FilterIs(f: Filter, ticks: seq<Tick>, t: Tick)
    ensures multiset(FilterTicks(f, ticks))[t] == if Asked(f, t) then multiset(ticks)[t] else 0
    decreases |ticks|
  {
    hide S64;
    if ticks != [] {
      FilterIs(f, ticks[..|ticks| - 1], t);
      assert ticks == ticks[..|ticks| - 1] + [ticks[|ticks| - 1]];
    }
  }

  lemma AnswerIs(f: Filter, ticks: seq<Tick>, limit: int)
    ensures var answer := First(FilterTicks(f, ticks), limit);
            && (forall t :: t in answer ==> t in ticks && Asked(f, t))
            && (|answer| < limit ==>
                  forall t :: multiset(answer)[t] == if Asked(f, t) then multiset(ticks)[t] else 0)
  {
    hide Asked, FilterTicks;
    var all := FilterTicks(f, ticks);
    forall t ensures multiset(all)[t] == if Asked(f, t) then multiset(ticks)[t] else 0 {
      FilterIs(f, ticks, t);
    }
    forall t | t in First(all, limit) ensures t in ticks && Asked(f, t) {
      assert t in multiset(all);
    }
  }

  // ----- the query with skipping -----

  function StatBytesToI64(b: seq<bv8>): int {
    if |b| < 8 then 0 else S64(FromLe64(b[..8]))
  }

  predicate OutsideBytes(wanted: Option<seq<bv8>>, st: Option<ChunkStats>) {
    wanted.Some? && HasBounds(st) &&
    (LexLess(wanted.value, st.value.minValue.value) || LexLess(st.value.maxValue.value, wanted.value))
  }

  predicate OutsideTime(f: Filter, st: Option<ChunkStats>) {
    HasBounds(st) &&
    ((f.fromMs.Some? && StatBytesToI64(st.value.maxValue.value) < f.fromMs.value) ||
     (f.toMs.Some? && StatBytesToI64(st.value.minValue.value) > f.toMs.value))
  }

  /** The footer's statistics of a chunk are those of a tracker fed with the chunk's values. */
  ghost predicate Recorded(st: Option<ChunkStats>, items: seq<Item>) {
    st.Some? ==>
      exists recorded :: Feed(Fresh(recorded), items).has &&
        st.value == ChunkStats(Some(Feed(Fresh(recorded), items).minB), Some(Feed(Fresh(recorded), items).maxB))
  }

  function TsItems(ticks: seq<Tick>): (s: seq<Item>)
    ensures |s| == |ticks| && forall i :: 0 <= i < |s| ==> s[i] == Some(I64(ticks[i].ts))
  {
    seq(|ticks|, i requires 0 <= i < |ticks| => Some(I64(ticks[i].ts)))
  }

  function SymItems(ticks: seq<Tick>): (s: seq<Item>)
    ensures |s| == |ticks| && forall i :: 0 <= i < |s| ==> s[i] == Some(Bytes(ticks[i].sym))
  {
    seq(|ticks|, i requires 0 <= i < |ticks| => Some(Bytes(ticks[i].sym)))
  }

  function ExchItems(ticks: seq<Tick>): (s: seq<Item>)
    ensures |s| == |ticks| && forall i :: 0 <= i < |s| ==> s[i] == Some(Bytes(ticks[i].exch))
  {
    seq(|ticks|, i requires 0 <= i < |ticks| => Some(Bytes(ticks[i].exch)))
  }

  ghost predicate StatsRecorded(g: Group) {
    && Recorded(g.tsStats, TsItems(g.ticks))
    && Recorded(g.symStats, SymItems(g.ticks))
    && Recorded(g.exchStats, ExchItems(g.ticks))
  }

  /** The rows emitted with row-group skipping are exactly the first rows of the plain filter. */
  method Query(groups: seq<Group>, f: Filter, limit: int)
    returns (emitted: seq<Tick>, scanned: nat, skipped: nat, read: nat)
    requires forall g :: 0 <= g < |groups| ==> StatsRecorded(groups[g])
    ensures emitted == PlainQuery(f, groups, limit)
    ensures skipped + read <= |groups|
    ensures |emitted| < limit ==> skipped + read == |groups|
    ensures forall t :: t in emitted ==> t in AllTicks(groups) && Asked(f, t)
    ensures |emitted| < limit ==>
              forall t :: multiset(emitted)[t] == if Asked(f, t) then multiset(AllTicks(groups))[t] else 0
  {
    AnswerIs(f, AllTicks(groups), limit);
    hide LexLess, S64, StatBytesToI64, StatsRecorded, FilterTicks, AllTicks;
    emitted, scanned, skipped, read := [], 0, 0, 0;
    PlainStart(f);
    var rg := 0;
    while rg < |groups| && |emitted| < limit
      invariant 0 <= rg <= |groups| && skipped + read == rg
      invariant emitted == PlainQuery(f, groups[..rg], limit)
    {
      var g := groups[rg];
      assert groups[..rg + 1] == groups[..rg] + [g];
      PlainStep(f, groups[..rg], g, limit);
      PlainUnchanged(f, groups[..rg], limit);
      FilterStart(f);
      rg := rg + 1;
      if OutsideBytes(f.symbol, g.symStats) {
        SkipSound(f, g);
        skipped := skipped + 1;
        continue;
      }
      if OutsideBytes(f.exchange, g.exchStats) {
        SkipSound(f, g);
        skipped := skipped + 1;
        continue;
      }
      if OutsideTime(f, g.tsStats) {
        SkipSound(f, g);
        skipped := skipped + 1;
        continue;
      }
      read := read + 1;
      if !g.readable {
        continue;
      }
      var n := |g.ticks|;
      scanned := scanned + n;
      ghost var before := emitted;
      assert before + [] == before;
      var i := 0;
      while i < n && |emitted| < limit
        invariant 0 <= i <= n
        invariant emitted == First(before + FilterTicks(f, g.ticks[..i]), limit)
      {
        var t := g.ticks[i];
        assert g.ticks[..i + 1] == g.ticks[..i] + [t];
        FilterStep(f, g.ticks[..i], t);
        FirstStep(before, FilterTicks(f, g.ticks[..i]), t, limit);
        i := i + 1;
        if !Passes(f, t) {
          continue;
        }
        emitted := emitted + [t];
      }
      FirstRest(f, before, g.ticks, i, limit);
    }
    PlainRest(f, groups, rg, limit);
  }

  // ----- the pieces -----

  lemma PlainStart(f: Filter)
    ensures forall limit :: PlainQuery(f, [], limit) == []
  {
  }

  lemma FilterStart(f: Filter)
    ensures FilterTicks(f, []) == []
  {
  }

  lemma FilterStep(f: Filter, ticks: seq<Tick>, t: Tick)
    ensures FilterTicks(f, ticks + [t]) == FilterTicks(f, ticks) + (if Passes(f, t) then [t] else [])
  {
    hide Passes;
    assert (ticks + [t])[..|ticks|] == ticks;
  }

  lemma {:induction false} FilterConcat(f: Filter, a: seq<Tick>, b: seq<Tick>)
    ensures FilterTicks(f, a + b) == FilterTicks(f, a) + FilterTicks(f, b)
    decreases |b|
  {
    hide Passes;
    if b == [] {
      assert a + b == a;
    } else {
      assert (a + b)[..|a + b| - 1] == a + b[..|b| - 1];
      FilterConcat(f, a, b[..|b| - 1]);
    }
  }

  lemma FirstStep(before: seq<Tick>, done: seq<Tick>, t: Tick, limit: int)
    requires |First(before + done, limit)| < limit
    ensures First(before + (done + [t]), limit) == First(before + done, limit) + [t]
    ensures First(before + (done + []), limit) == First(before + done, limit)
  {
    assert before + (done + [t]) == (before + done) + [t];
    assert done + [] == done;
  }

  /** A full result is not changed by later rows. */
  lemma FirstFull(s: seq<Tick>, more: seq<Tick>, limit: int)
    requires |First(s, limit)| >= limit
    ensures First(s + more, limit) == First(s, limit)
  {
  }

  lemma FirstFirst(s: seq<Tick>, more: seq<Tick>, limit: int)
    ensures First(First(s, limit) + more, limit) == First(s + more, limit)
  {
  }

  lemma FirstRest(f: Filter, before: seq<Tick>, ticks: seq<Tick>, i: nat, limit: int)
    requires i <= |ticks| && (i == |ticks| || |First(before + FilterTicks(f, ticks[..i]), limit)| >= limit)
    ensures First(before + FilterTicks(f, ticks[..i]), limit) == First(before + FilterTicks(f, ticks), limit)
  {
    hide FilterTicks, First;
    assert ticks == ticks[..i] + ticks[i..];
    FilterConcat(f, ticks[..i], ticks[i..]);
    if i == |ticks| {
      assert ticks[..i] == ticks;
    } else {
      FirstFull(before + FilterTicks(f, ticks[..i]), FilterTicks(f, ticks[i..]), limit);
      assert before + FilterTicks(f, ticks) == (before + FilterTicks(f, ticks[..i])) + FilterTicks(f, ticks[i..]);
    }
  }

  lemma PlainStep(f: Filter, groups: seq<Group>, g: Group, limit: int)
    ensures PlainQuery(f, groups + [g], limit) ==
            First(PlainQuery(f, groups, limit) + FilterTicks(f, if g.readable then g.ticks else []), limit)
  {
    hide FilterTicks, First;
    var ticks := if g.readable then g.ticks else [];
    assert (groups + [g])[..|groups|] == groups;
    assert AllTicks(groups + [g]) == AllTicks(groups) + ticks;
    FilterConcat(f, AllTicks(groups), ticks);
    FirstFirst(FilterTicks(f, AllTicks(groups)), FilterTicks(f, ticks), limit);
  }

  lemma PlainUnchanged(f: Filter, groups: seq<Group>, limit: int)
    ensures First(PlainQuery(f, groups, limit) + [], limit) == PlainQuery(f, groups, limit)
  {
    FirstFirst(FilterTicks(f, AllTicks(groups)), [], limit);
    assert FilterTicks(f, AllTicks(groups)) + [] == FilterTicks(f, AllTicks(groups));
  }

  lemma {:induction false} AllConcat(a: seq<Group>, b: seq<Group>)
    ensures AllTicks(a + b) == AllTicks(a) + AllTicks(b)
    decreases |b|
  {
    if b == [] {
      assert a + b == a;
    } else {
      assert (a + b)[..|a + b| - 1] == a + b[..|b| - 1];
      AllConcat(a, b[..|b| - 1]);
    }
  }

  lemma PlainRest(f: Filter, groups: seq<Group>, rg: nat, limit: int)
    requires rg <= |groups| && (rg == |groups| || |PlainQuery(f, groups[..rg], limit)| >= limit)
    ensures PlainQuery(f, groups[..rg], limit) == PlainQuery(f, groups, limit)
  {
    hide FilterTicks, First, AllTicks;
    assert groups == groups[..rg] + groups[rg..];
    AllConcat(groups[..rg], groups[rg..]);
    FilterConcat(f, AllTicks(groups[..rg]), AllTicks(groups[rg..]));
    if rg == |groups| {
      assert groups[..rg] == groups;
    } else {
      FirstFull(FilterTicks(f, AllTicks(groups[..rg])), FilterTicks(f, AllTicks(groups[rg..])), limit);
    }
  }

  // ----- skipping is sound -----

  /** Recorded bounds enclose every value of the chunk. */
  lemma BoundsEnclose(items: seq<Item>, t: PhysicalType, recorded: PhysicalType, k: nat)
    requires Typed(items, t) && k < |items| && Counts(items[k])
    ensures var st := Feed(Fresh(recorded), items);
            st.has && exists lo, hi :: HasType(lo, t) && HasType(hi, t) && st.minB == ToLe(lo) && st.maxB == ToLe(hi) &&
                                       Leq(lo, items[k].value) && Leq(items[k].value, hi)
  {
    hide Less, Leq, IsNaN, HasType, ToLe, Feed, Best;
    FeedExact(items, t, recorded);
    var least := BestAt(items, t, true);
    var greatest := BestAt(items, t, false);
    assert ItemTyped(items[least], t) && ItemTyped(items[greatest], t);
    var a, b := items[least].value, items[greatest].value;
    LeqIs(a, items[k].value);
    LeqIs(items[k].value, b);
  }

  lemma SymbolInside(wanted: Option<seq<bv8>>, st: Option<ChunkStats>, items: seq<Item>, k: nat)
    requires Recorded(st, items) && Typed(items, BYTE_ARRAY) && k < |items|
    requires wanted.Some? && items[k] == Some(Bytes(wanted.value))
    ensures !OutsideBytes(wanted, st)
  {
    hide LexLess, Feed;
    if st.Some? {
      var recorded :| Feed(Fresh(recorded), items).has &&
        st.value == ChunkStats(Some(Feed(Fresh(recorded), items).minB), Some(Feed(Fresh(recorded), items).maxB));
      BoundsEnclose(items, BYTE_ARRAY, recorded, k);
    }
  }

  lemma TimeInside(f: Filter, st: Option<ChunkStats>, items: seq<Item>, k: nat, ts: bv64)
    requires Recorded(st, items) && Typed(items, INT64) && k < |items| && items[k] == Some(I64(ts))
    requires f.fromMs.Some? ==> f.fromMs.value <= S64(ts)
    requires f.toMs.Some? ==> S64(ts) <= f.toMs.value
    ensures !OutsideTime(f, st)
  {
    hide S64, Feed, FromLe64, Le64;
    if st.Some? {
      var recorded :| Feed(Fresh(recorded), items).has &&
        st.value == ChunkStats(Some(Feed(Fresh(recorded), items).minB), Some(Feed(Fresh(recorded), items).maxB));
      BoundsEnclose(items, INT64, recorded, k);
      var st' := Feed(Fresh(recorded), items);
      var lo, hi :| HasType(lo, INT64) && HasType(hi, INT64) && st'.minB == ToLe(lo) && st'.maxB == ToLe(hi) &&
                    Leq(lo, items[k].value) && Leq(items[k].value, hi);
      Le64RoundTrip(lo.d);
      Le64RoundTrip(hi.d);
      assert Le64(lo.d)[..8] == Le64(lo.d) && Le64(hi.d)[..8] == Le64(hi.d);
    }
  }

  /** The recorded bounds of a chunk are two of its values, and no value is outside them. */
  lemma BoundsReached(st: Option<ChunkStats>, items: seq<Item>, t: PhysicalType) returns (lo: nat, hi: nat)
    requires Recorded(st, items) && st.Some? && Typed(items, t) && items != []
    requires forall k :: 0 <= k < |items| ==> items[k].Some? && Counts(items[k])
    ensures lo < |items| && hi < |items| && items[lo].Some? && items[hi].Some?
    ensures st.value == ChunkStats(Some(ToLe(items[lo].value)), Some(ToLe(items[hi].value)))
    ensures forall k :: 0 <= k < |items| ==>
              !Less(items[k].value, items[lo].value) && !Less(items[hi].value, items[k].value)
  {
    hide Less, IsNaN, HasType, ToLe, Feed, Best;
    var recorded :| Feed(Fresh(recorded), items).has &&
      st.value == ChunkStats(Some(Feed(Fresh(recorded), items).minB), Some(Feed(Fresh(recorded), items).maxB));
    FeedExact(items, t, recorded);
    lo := BestAt(items, t, true);
    hi := BestAt(items, t, false);
    assert Counts(items[0]);
  }

  /** A group is skipped by its symbols or exchanges exactly when the wanted one is before or behind all of
      them in byte order. */
  lemma OutsideBytesIs(wanted: seq<bv8>, st: Option<ChunkStats>, items: seq<Item>)
    requires Recorded(st, items) && Typed(items, BYTE_ARRAY) && items != []
    requires forall k :: 0 <= k < |items| ==> items[k].Some?
    ensures OutsideBytes(Some(wanted), st) <==>
              st.Some? && ((forall k :: 0 <= k < |items| ==> LexLess(wanted, items[k].value.s)) ||
                           (forall k :: 0 <= k < |items| ==> LexLess(items[k].value.s, wanted)))
  {
    hide LexLess, LexLeq, Feed, Recorded;
    if st.Some? {
      forall k | 0 <= k < |items| ensures Counts(items[k]) && items[k].value.Bytes? {
        assert ItemTyped(items[k], BYTE_ARRAY);
      }
      var lo, hi := BoundsReached(st, items, BYTE_ARRAY);
      var a, b := items[lo].value.s, items[hi].value.s;
      forall k | 0 <= k < |items|
        ensures LexLess(wanted, a) ==> LexLess(wanted, items[k].value.s)
        ensures LexLess(b, wanted) ==> LexLess(items[k].value.s, wanted)
      {
        LexFollows(wanted, a, items[k].value.s);
        LexFollowed(items[k].value.s, b, wanted);
      }
    }
  }

  lemma LexFollows(x: seq<bv8>, y: seq<bv8>, z: seq<bv8>)
    requires !LexLess(z, y)
    ensures LexLess(x, y) ==> LexLess(x, z)
  {
    hide LexLess;
    LexTrichotomy(y, z);
    if LexLess(x, y) && LexLess(y, z) {
      LexTransitive(x, y, z);
    }
  }

  lemma LexFollowed(x: seq<bv8>, y: seq<bv8>, z: seq<bv8>)
    requires !LexLess(y, x)
    ensures LexLess(y, z) ==> LexLess(x, z)
  {
    hide LexLess;
    LexTrichotomy(x, y);
    if LexLess(x, y) && LexLess(y, z) {
      LexTransitive(x, y, z);
    }
  }

  /** A group is skipped by its times exactly when all of them are before the lower or behind the upper
      bound asked for. */
  lemma OutsideTimeIs(f: Filter, st: Option<ChunkStats>, ticks: seq<Tick>)
    requires Recorded(st, TsItems(ticks)) && ticks != []
    ensures OutsideTime(f, st) <==>
              st.Some? &&
              ((f.fromMs.Some? && forall k :: 0 <= k < |ticks| ==> S64(ticks[k].ts) < f.fromMs.value) ||
               (f.toMs.Some? && forall k :: 0 <= k < |ticks| ==> S64(ticks[k].ts) > f.toMs.value))
  {
    hide S64, Feed, FromLe64, Le64, Recorded;
    if st.Some? {
      var items := TsItems(ticks);
      var lo, hi := BoundsReached(st, items, INT64);
      TimeBytes(ticks[lo].ts);
      TimeBytes(ticks[hi].ts);
      forall k | 0 <= k < |ticks| ensures S64(ticks[lo].ts) <= S64(ticks[k].ts) <= S64(ticks[hi].ts) {
        assert !Less(items[k].value, items[lo].value) && !Less(items[hi].value, items[k].value);
      }
    }
  }

  lemma TimeBytes(ts: bv64)
    ensures StatBytesToI64(ToLe(I64(ts))) == S64(ts)
  {
    hide S64, FromLe64, Le64;
    Le64RoundTrip(ts);
    assert Le64(ts)[..8] == Le64(ts);
  }

  /** A skipped group holds no matching tick. */
  lemma SkipSound(f: Filter, g: Group)
    requires StatsRecorded(g)
    requires OutsideBytes(f.symbol, g.symStats) || OutsideBytes(f.exchange, g.exchStats) || OutsideTime(f, g.tsStats)
    ensures FilterTicks(f, g.ticks) == [] && FilterTicks(f, []) == []
  {
    hide Recorded, OutsideBytes, OutsideTime, Feed;
    forall k | 0 <= k < |g.ticks| ensures !Passes(f, g.ticks[k]) {
      var t := g.ticks[k];
      if Passes(f, t) {
        if f.symbol.Some? { SymbolInside(f.symbol, g.symStats, SymItems(g.ticks), k); }
        if f.exchange.Some? { SymbolInside(f.exchange, g.exchStats, ExchItems(g.ticks), k); }
        TimeInside(f, g.tsStats, TsItems(g.ticks), k, t.ts);
        OutsideNeedsWanted(f.symbol, g.symStats);
        OutsideNeedsWanted(f.exchange, g.exchStats);
      }
    }
    NonePass(f, g.ticks);
  }

  lemma OutsideNeedsWanted(wanted: Option<seq<bv8>>, st: Option<ChunkStats>)
    ensures OutsideBytes(wanted, st) ==> wanted.Some?
  {
  }

  lemma {:induction false} NonePass(f: Filter, ticks: seq<Tick>)
    requires forall k :: 0 <= k < |ticks| ==> !Passes(f, ticks[k])
    ensures FilterTicks(f, ticks) == []
  {
    hide Passes;
    if ticks != [] {
      NonePass(f, ticks[..|ticks| - 1]);
    }
  }
}
