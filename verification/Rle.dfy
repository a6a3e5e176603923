/** The hybrid of run lengths and bit packing used for boolean pages and dictionary indices: the
    encoder's state machine, the decoder's, and exactly when one undoes the other. */
module Rle {
  import opened Arithmetic
  import opened Bits
  import opened Packing
  import opened Values
  import opened Words

  // ----- runs and their bytes -----

  datatype Run =
    | Repeat(count: nat, v: nat)
    | Packed(vals: seq<nat>)

  ghost predicate WellFormed(r: Run, width: nat) {
    match r
    case Repeat(count, v) => 0 < count <= RUN_MAX && v < Pow2(width)
    case Packed(vals) => 0 < |vals| && |vals| % 8 == 0 && |vals| / 8 <= RUN_MAX && Fit(vals, width)
  }

  ghost predicate AllWellFormed(rs: seq<Run>, width: nat) {
    forall i :: 0 <= i < |rs| ==> WellFormed(rs[i], width)
  }

  /** The longest run a 64-bit header can announce. */
  const RUN_MAX: nat := 0x7FFF_FFFF_FFFF_FFFF

  /** The most groups the encoder's counter can hold while they wait for their header. */
  const GROUPS_MAX: nat := 0x7FFF_FFFF

  /** The most values that cannot pass that limit, whatever they are. */
  const VALUES_MAX: nat := 8 * GROUPS_MAX

  function ByteWidth(width: nat): nat { (width + 7) / 8 }

  /** The n little-endian bytes of a value. */
  function Literal(v: nat, n: nat): (data: seq<bv8>)
    ensures |data| == n
  {
    if n == 0 then [] else [Byte(v % 256)] + Literal(v / 256, n - 1)
  }

  function ReadLiteral(data: seq<bv8>): nat {
    if data == [] then 0 else U8(data[0]) + 256 * ReadLiteral(data[1..])
  }

  lemma {:induction false} LiteralRoundTrip(v: nat, n: nat)
    requires v < Pow2(8 * n)
    ensures ReadLiteral(Literal(v, n)) == v
    decreases n
  {
    hide Byte, U8;
    if n > 0 {
      Pow2Add(8, 8 * (n - 1));
      assert Pow2(8) == 256;
      LiteralRoundTrip(v / 256, n - 1);
      ByteValue(v % 256);
      var data := Literal(v, n);
      assert data[0] == Byte(v % 256) && data[1..] == Literal(v / 256, n - 1);
    }
  }

  function Wire(r: Run, width: nat): (data: seq<bv8>)
    requires r.Packed? ==> |r.vals| % 8 == 0
    ensures |data| > 0
  {
    match r
    case Repeat(count, v) => Varint(2 * count) + Literal(v, ByteWidth(width))
    case Packed(vals) => Varint(2 * (|vals| / 8) + 1) + Pack(vals, width)
  }

  function WireAll(rs: seq<Run>, width: nat): seq<bv8>
    requires forall i :: 0 <= i < |rs| ==> rs[i].Packed? ==> |rs[i].vals| % 8 == 0
  {
    if rs == [] then [] else Wire(rs[0], width) + WireAll(rs[1..], width)
  }

  /** The values a run stands for. */
  function Spelled(r: Run): seq<nat> {
    match r
    case Repeat(count, v) => Copies(count, v)
    case Packed(vals) => vals
  }

  function Expand(rs: seq<Run>): seq<nat> {
    if rs == [] then [] else Spelled(rs[0]) + Expand(rs[1..])
  }

  lemma {:induction false} WireAppend(rs: seq<Run>, r: Run, width: nat)
    requires AllWellFormed(rs, width) && WellFormed(r, width)
    ensures AllWellFormed(rs + [r], width)
    ensures WireAll(rs + [r], width) == WireAll(rs, width) + Wire(r, width)
  {
    hide Wire, WellFormed;
    WireDefined(rs, width);
    WireDefined([r], width);
    WireDefined(rs + [r], width);
    if rs == [] {
      assert rs + [r] == [r];
    } else {
      assert (rs + [r])[1..] == rs[1..] + [r];
      WireAppend(rs[1..], r, width);
    }
  }

  lemma WireDefined(rs: seq<Run>, width: nat)
    requires AllWellFormed(rs, width)
    ensures forall i :: 0 <= i < |rs| ==> rs[i].Packed? ==> |rs[i].vals| % 8 == 0
  {
    forall i | 0 <= i < |rs| && rs[i].Packed? ensures |rs[i].vals| % 8 == 0 {
      assert WellFormed(rs[i], width);
    }
  }

  lemma {:induction false} ExpandAppend(rs: seq<Run>, r: Run)
    ensures Expand(rs + [r]) == Expand(rs) + Spelled(r)
  {
    hide Spelled;
    if rs == [] {
      assert rs + [r] == [r];
    } else {
      assert (rs + [r])[1..] == rs[1..] + [r];
      ExpandAppend(rs[1..], r);
    }
  }

  // ----- the decoder -----

  const MAX_RLE_RUN: nat := 256 * 1024 * 1024
  const MAX_BP_VALUES: nat := 32 * 1024 * 1024
  const MAX_BP_BYTES: nat := 256 * 1024 * 1024

  datatype Decoding = Decoding(data: seq<bv8>, width: nat, pos: nat, rleLeft: nat, rleValue: nat, pending: seq<nat>)

  /** A repeated run whose header has been read; the value starts at pos. */
  function OpenRepeat(s: Decoding, count: nat, pos: nat): Option<(nat, Decoding)> {
    if count == 0 || count > MAX_RLE_RUN || pos + ByteWidth(s.width) > |s.data| then None
    else
      var end := pos + ByteWidth(s.width);
      var v := ReadLiteral(s.data[pos..end]);
      Some((v, s.(pos := end, rleLeft := count - 1, rleValue := v)))
  }

  /** Groups the decoder believes in, given the bytes left. */
  function Groups(header: nat, width: nat, avail: nat): nat {
    Min(header, if width > 0 then avail / width + 1 else avail + 1)
  }

  /** Groups that are there in full. */
  function WholeGroups(groups: nat, width: nat, avail: nat): (whole: nat)
    ensures 8 * whole * width <= 8 * avail
  {
    if width == 0 then groups
    else
      assert avail / width * width <= avail;
      var whole := Min(groups, avail / width);
      assert whole * width <= avail / width * width;
      whole
  }

  /** Bit-packed groups whose header has been read. */
  function OpenPacked(s: Decoding, header: nat, pos: nat): Option<(nat, Decoding)>
    requires pos <= |s.data|
  {
    var avail := |s.data| - pos;
    var groups := Groups(header, s.width, avail);
    var whole := WholeGroups(groups, s.width, avail);
    if groups == 0 || groups * 8 > MAX_BP_VALUES || groups * s.width > MAX_BP_BYTES || whole == 0 then None
    else
      var vals := Unpack(s.data[pos..], s.width, 8 * whole);
      Some((vals[0], s.(pos := pos + Min(groups * s.width, avail), pending := vals[1..])))
  }

  /** The next value, or none at the end of the data and at anything malformed. */
  function Get(s: Decoding): (r: Option<(nat, Decoding)>)
    requires s.pos <= |s.data|
    ensures r.Some? ==> r.value.1.data == s.data && r.value.1.width == s.width && r.value.1.pos <= |s.data|
  {
    if s.rleLeft > 0 then Some((s.rleValue, s.(rleLeft := s.rleLeft - 1)))
    else if s.pending != [] then Some((s.pending[0], s.(pending := s.pending[1..])))
    else if s.pos >= |s.data| then None
    else
      var (header, pos) := ReadVarint(s.data, s.pos);
      if header % 2 == 0 then OpenRepeat(s, header / 2, pos) else OpenPacked(s, header / 2, pos)
  }

  /** Where a refused or cut-short repeated run leaves the decoder: behind the header, or at the end. */
  function PastRepeat(s: Decoding, count: nat, pos: nat): Decoding {
    s.(pos := if count == 0 || count > MAX_RLE_RUN then pos else |s.data|)
  }

  /** Where refused or cut-short groups leave it: behind the header, or behind what there is of them. */
  function PastPacked(s: Decoding, header: nat, pos: nat): Decoding
    requires pos <= |s.data|
  {
    var avail := |s.data| - pos;
    var groups := Groups(header, s.width, avail);
    if groups == 0 || groups * 8 > MAX_BP_VALUES || groups * s.width > MAX_BP_BYTES then s.(pos := pos)
    else s.(pos := pos + Min(groups * s.width, avail))
  }

  /** The state after a failed step. */
  function Stopped(s: Decoding): Decoding
    requires s.pos <= |s.data|
  {
    if s.pos >= |s.data| then s
    else
      var (header, pos) := ReadVarint(s.data, s.pos);
      if header % 2 == 0 then PastRepeat(s, header / 2, pos) else PastPacked(s, header / 2, pos)
  }

  // ----- decoding what was encoded -----

  /** The data from pos on is exactly these runs. */
  ghost predicate At(data: seq<bv8>, pos: nat, rs: seq<Run>, width: nat) {
    pos <= |data| && AllWellFormed(rs, width) &&
    (WireDefined(rs, width); data[pos..] == WireAll(rs, width))
  }

  /** The values already taken out of the current run. */
  function Buffered(s: Decoding): seq<nat> { if s.rleLeft > 0 then Copies(s.rleLeft, s.rleValue) else s.pending }

  ghost predicate Holds(s: Decoding, rs: seq<Run>) {
    0 < s.width <= 64 && At(s.data, s.pos, rs, s.width) && (s.rleLeft > 0 ==> s.pending == [])
  }

  /** Runs the decoder's allocation guards accept. */
  predicate Accepted(r: Run, width: nat) {
    match r
    case Repeat(count, _) => count <= MAX_RLE_RUN
    case Packed(vals) => |vals| <= MAX_BP_VALUES && |vals| / 8 * width <= MAX_BP_BYTES
  }

  lemma NextRun(data: seq<bv8>, pos: nat, rs: seq<Run>, width: nat) returns (rest: seq<bv8>)
    requires At(data, pos, rs, width) && rs != []
    ensures pos < |data| && WellFormed(rs[0], width)
    ensures data[pos..] == Wire(rs[0], width) + rest
    ensures At(data, pos + |Wire(rs[0], width)|, rs[1..], width)
  {
    hide Wire, WellFormed;
    WireDefined(rs, width);
    var w := Wire(rs[0], width);
    rest := WireAll(rs[1..], width);
    assert data[pos + |w|..] == data[pos..][|w|..];
  }

  lemma GetRepeat(s: Decoding, rs: seq<Run>)
    requires Holds(s, rs) && Buffered(s) == [] && rs != [] && rs[0].Repeat?
    ensures Get(s) == if !Accepted(rs[0], s.width) then None
                      else Some((rs[0].v, s.(pos := s.pos + |Wire(rs[0], s.width)|,
                                             rleLeft := rs[0].count - 1, rleValue := rs[0].v)))
  {
    hide Varint, ReadVarint, Pow2, Pack, OpenRepeat, Literal, Get, At, Buffered;
    var after := NextRun(s.data, s.pos, rs, s.width);
    var head, value := Varint(2 * rs[0].count), Literal(rs[0].v, ByteWidth(s.width));
    assert head + value + after == head + (value + after);
    VarintAt(s.data, s.pos, 2 * rs[0].count, value + after);
    GetOpens(s, 2 * rs[0].count, s.pos + |head|);
    OpensRepeat(s, rs[0].count, rs[0].v, s.pos + |head|, after);
  }

  lemma GetOpens(s: Decoding, header: nat, pos: nat)
    requires Buffered(s) == [] && s.pos < |s.data| && ReadVarint(s.data, s.pos) == (header, pos)
    ensures Get(s) == if header % 2 == 0 then OpenRepeat(s, header / 2, pos) else OpenPacked(s, header / 2, pos)
  {
    hide ReadVarint, OpenRepeat, OpenPacked;
  }

  lemma OpensRepeat(s: Decoding, count: nat, v: nat, pos: nat, rest: seq<bv8>)
    requires count > 0 && v < Pow2(s.width) && pos <= |s.data| && s.data[pos..] == Literal(v, ByteWidth(s.width)) + rest
    ensures OpenRepeat(s, count, pos) ==
            if count > MAX_RLE_RUN then None
            else Some((v, s.(pos := pos + ByteWidth(s.width), rleLeft := count - 1, rleValue := v)))
  {
    hide Literal, ReadLiteral, Pow2;
    var n := ByteWidth(s.width);
    assert s.data[pos..pos + n] == s.data[pos..][..n] == Literal(v, n);
    Pow2Monotone(s.width, 8 * n);
    LiteralRoundTrip(v, n);
  }

  lemma GetPacked(s: Decoding, rs: seq<Run>)
    requires Holds(s, rs) && Buffered(s) == [] && rs != [] && rs[0].Packed?
    ensures Get(s) == if !Accepted(rs[0], s.width) then None
                      else Some((rs[0].vals[0], s.(pos := s.pos + |Wire(rs[0], s.width)|, pending := rs[0].vals[1..])))
  {
    hide Varint, ReadVarint, Pow2, Pack, Unpack, OpenPacked, Get, At, Buffered, Wire, WellFormed, Fit;
    var after := NextRun(s.data, s.pos, rs, s.width);
    var vals := rs[0].vals;
    PackedParts(vals, s.width);
    PackedHeader(s, vals, after);
    var pos := s.pos + |Varint(2 * (|vals| / 8) + 1)|;
    GetOpens(s, 2 * (|vals| / 8) + 1, pos);
    OpensPacked(s, vals, pos, after);
  }

  /** The header of a packed run, and its groups behind it. */
  lemma PackedHeader(s: Decoding, vals: seq<nat>, after: seq<bv8>)
    requires WellFormed(Packed(vals), s.width) && s.pos <= |s.data|
    requires s.data[s.pos..] == Wire(Packed(vals), s.width) + after
    ensures var header := 2 * (|vals| / 8) + 1;
            var pos := s.pos + |Varint(header)|;
            && ReadVarint(s.data, s.pos) == (header, pos) && pos <= |s.data|
            && s.data[pos..] == Pack(vals, s.width) + after
  {
    hide Varint, ReadVarint, Pack, Wire, WellFormed, Fit;
    PackedParts(vals, s.width);
    var head, body := Varint(2 * (|vals| / 8) + 1), Pack(vals, s.width);
    assert head + body + after == head + (body + after);
    VarintAt(s.data, s.pos, 2 * (|vals| / 8) + 1, body + after);
    assert s.data[s.pos + |head|..] == s.data[s.pos..][|head|..];
  }

  lemma PackedParts(vals: seq<nat>, width: nat)
    requires WellFormed(Packed(vals), width)
    ensures |vals| > 0 && |vals| % 8 == 0 && 2 * (|vals| / 8) + 1 < TWO64 && Fit(vals, width)
    ensures Wire(Packed(vals), width) == Varint(2 * (|vals| / 8) + 1) + Pack(vals, width)
    ensures |Pack(vals, width)| == |vals| / 8 * width
  {
    hide Varint, Pack, Fit;
  }

  lemma OpensPacked(s: Decoding, vals: seq<nat>, pos: nat, rest: seq<bv8>)
    requires |vals| > 0 && |vals| % 8 == 0 && Fit(vals, s.width) && s.width > 0
    requires pos <= |s.data| && s.data[pos..] == Pack(vals, s.width) + rest
    ensures var g := |vals| / 8;
            OpenPacked(s, g, pos) == if !Accepted(Packed(vals), s.width) then None
                                     else Some((vals[0], s.(pos := pos + g * s.width, pending := vals[1..])))
  {
    hide Pack, Unpack, Fit, Groups, WholeGroups;
    var g := |vals| / 8;
    AllGroups(g, s.width, |s.data| - pos);
    PackRoundTrip(vals, s.width, rest);
  }

  lemma AllGroups(g: nat, width: nat, avail: nat)
    requires g * width <= avail && width > 0
    ensures Groups(g, width, avail) == g && WholeGroups(g, width, avail) == g
  {
    if g > avail / width {
      MulMonotone(avail / width + 1, g, width);
    }
  }

  /** The runs still to be opened after a step. */
  function Unopened(s: Decoding, rs: seq<Run>): seq<Run> { if Buffered(s) == [] && rs != [] then rs[1..] else rs }

  /** One step: the front of the queue comes out, unless the run it opens is refused. */
  lemma GetStep(s: Decoding, rs: seq<Run>)
    requires Holds(s, rs)
    ensures Get(s).None? ==> Buffered(s) == [] && (rs == [] || !Accepted(rs[0], s.width))
    ensures Get(s).Some? ==>
              var (v, after) := Get(s).value; var left := Unopened(s, rs);
              && Buffered(s) + Expand(rs) == [v] + Buffered(after) + Expand(left)
              && Holds(after, left) && after.width == s.width
              && Buffered(s) + Expand(Usable(rs, s.width)) == [v] + Buffered(after) + Expand(Usable(left, s.width))
  {
    hide WireAll, Unpack, OpenPacked, OpenRepeat, ReadVarint, Accepted, At, Spelled;
    var left := Unopened(s, rs);
    if s.rleLeft > 0 {
      assert Copies(s.rleLeft, s.rleValue) == [s.rleValue] + Copies(s.rleLeft - 1, s.rleValue);
    } else if s.pending != [] {
      assert s.pending == [s.pending[0]] + s.pending[1..];
    } else if rs != [] {
      GetRun(s, rs);
      assert Buffered(s) == [] && Expand(rs) == Spelled(rs[0]) + Expand(left);
      assert [] + Expand(rs) == Expand(rs);
    } else {
      AtEnd(s.data, s.pos, s.width);
    }
  }

  /** A value that opens the next run. */
  lemma GetRun(s: Decoding, rs: seq<Run>)
    requires Holds(s, rs) && s.rleLeft == 0 && s.pending == [] && rs != []
    ensures match Get(s)
            case None => !Accepted(rs[0], s.width)
            case Some((v, after)) =>
              && Accepted(rs[0], s.width) && Spelled(rs[0]) == [v] + Buffered(after)
              && Holds(after, rs[1..]) && after.width == s.width
  {
    hide Wire, WireAll, Get, At, Accepted, Pow2;
    var _ := NextRun(s.data, s.pos, rs, s.width);
    if rs[0].Repeat? {
      GetRepeat(s, rs);
      assert Copies(rs[0].count, rs[0].v) == [rs[0].v] + Copies(rs[0].count - 1, rs[0].v);
    } else {
      GetPacked(s, rs);
      assert rs[0].vals == [rs[0].vals[0]] + rs[0].vals[1..];
    }
  }

  lemma AtEnd(data: seq<bv8>, pos: nat, width: nat)
    requires At(data, pos, [], width)
    ensures pos == |data|
  {
    assert |data[pos..]| == 0;
  }

  /** The runs before the first refused one. */
  function Usable(rs: seq<Run>, width: nat): seq<Run> {
    if rs == [] || !Accepted(rs[0], width) then [] else [rs[0]] + Usable(rs[1..], width)
  }

  /** At most n values, stopping where Get does. */
  function Take(s: Decoding, n: nat): seq<nat>
    requires s.pos <= |s.data|
    decreases n
  {
    if n == 0 then []
    else match Get(s)
      case None => []
      case Some((v, after)) => [v] + Take(after, n - 1)
  }

  /** Decoding gives the values of the usable runs, and no more than asked for. */
  lemma {:induction false} TakeUsable(s: Decoding, rs: seq<Run>, n: nat)
    requires Holds(s, rs)
    ensures s.pos <= |s.data|
    ensures Take(s, n) == Prefix(Buffered(s) + Expand(Usable(rs, s.width)), n)
    decreases n
  {
    hide Get, Holds, Expand, Usable, Buffered, Accepted, Prefix, Take;
    HoldsBounds(s, rs);
    TakeStep(s, n);
    PrefixStep(Buffered(s) + Expand(Usable(rs, s.width)), n);
    if n > 0 {
      GetStep(s, rs);
      var left := Unopened(s, rs);
      match Get(s)
      case None =>
        NoneUsable(rs, s.width);
      case Some((v, after)) =>
        TakeUsable(after, left, n - 1);
        var rest := Buffered(after) + Expand(Usable(left, s.width));
        assert Buffered(s) + Expand(Usable(rs, s.width)) == [v] + rest;
        assert ([v] + rest)[1..] == rest;
    }
  }

  function Prefix(all: seq<nat>, n: nat): seq<nat> { if n <= |all| then all[..n] else all }

  lemma PrefixStep(all: seq<nat>, n: nat)
    ensures n == 0 || all == [] ==> Prefix(all, n) == []
    ensures n > 0 && all != [] ==> Prefix(all, n) == [all[0]] + Prefix(all[1..], n - 1)
  {
  }

  lemma TakeStep(s: Decoding, n: nat)
    requires s.pos <= |s.data|
    ensures n == 0 ==> Take(s, n) == []
    ensures n > 0 ==> Take(s, n) == match Get(s)
                                    case None => []
                                    case Some((v, after)) => [v] + Take(after, n - 1)
  {
    hide Get;
  }

  lemma HoldsBounds(s: Decoding, rs: seq<Run>)
    requires Holds(s, rs)
    ensures s.pos <= |s.data|
  {
  }

  lemma NoneUsable(rs: seq<Run>, width: nat)
    requires rs == [] || !Accepted(rs[0], width)
    ensures Usable(rs, width) == [] && Expand([]) == []
  {
  }

  // ----- the encoder -----

  /** The bytes of these runs and nothing else. */
  ghost predicate Emitted(buffer: seq<bv8>, rs: seq<Run>, width: nat) {
    AllWellFormed(rs, width) && (WireDefined(rs, width); buffer == WireAll(rs, width))
  }

  lemma EmitRun(buffer: seq<bv8>, rs: seq<Run>, r: Run, width: nat)
    requires Emitted(buffer, rs, width) && WellFormed(r, width)
    ensures Emitted(buffer + Wire(r, width), rs + [r], width)
    ensures Expand(rs + [r]) == Expand(rs) + Spelled(r)
  {
    hide Wire, WireAll, WellFormed;
    WireAppend(rs, r, width);
    ExpandAppend(rs, r);
  }

  /** The encoder's choice so far: finished runs, closed groups of eight, the open group and the open
      run of equal values. */
  datatype Choice = Choice(runs: seq<Run>, groups: seq<nat>, open: seq<nat>, count: nat, value: nat)

  function Ended(runs: seq<Run>, groups: seq<nat>): seq<Run> { if groups == [] then runs else runs + [Packed(groups)] }

  function Grouped(s: Choice, open: seq<nat>): Choice {
    if |open| < 8 then s.(open := open, count := 0)
    else s.(groups := s.groups + open[..8], open := open[8..], count := 0)
  }

  function Chosen(s: Choice, v: nat): Choice {
    if s.count == 0 then s.(count := 1, value := v)
    else if v == s.value && s.open == [] then s.(count := s.count + 1)
    else if s.open == [] && s.count >= 8 then Choice(Ended(s.runs, s.groups) + [Repeat(s.count, s.value)], [], [], 1, v)
    else Grouped(s, s.open + Copies(s.count, s.value) + [v])
  }

  function Choices(vs: seq<nat>): Choice {
    if vs == [] then Choice([], [], [], 0, 0) else Chosen(Choices(vs[..|vs| - 1]), vs[|vs| - 1])
  }

  /** The group that is still open, with the open run, filled with zeros. */
  function Filled(s: Choice): seq<nat> {
    var all := s.open + Copies(s.count, s.value);
    all + Copies(if |all| < 8 then 8 - |all| else 0, 0)
  }

  function Finished(s: Choice): seq<Run> {
    if s.open != [] then s.runs + [Packed(s.groups + Filled(s))]
    else if s.count > 0 then Ended(s.runs, s.groups) + [Repeat(s.count, s.value)]
    else Ended(s.runs, s.groups)
  }

  /** The runs some values are written as. */
  function RunsOf(vs: seq<nat>): seq<Run> { Finished(Choices(vs)) }

  /** The closed groups and their packed bytes. */
  ghost predicate Closed(groups: seq<nat>, bytes: seq<bv8>, count: nat, width: nat) {
    |groups| == 8 * count && Fit(groups, width) && bytes == Pack(groups, width)
  }

  lemma CloseGroup(groups: seq<nat>, bytes: seq<bv8>, count: nat, bp: seq<nat>, width: nat)
    requires Closed(groups, bytes, count, width) && |bp| == 8 && Fit(bp, width)
    ensures Closed(groups + bp, bytes + Pack(bp, width), count + 1, width)
  {
    hide Pack;
    PackConcat(groups, bp, width);
  }

  /** The hybrid encoder: an open run of equal values, an open group of eight, closed groups waiting
      for their common header, and the bytes already emitted. */
  class RleEncoder {
    const width: nat
    var buffer: seq<bv8>
    var rleValue: nat
    var rleCount: nat
    var bp: seq<nat>
    var bpGroups: seq<bv8>
    var bpGroupCount: nat
    ghost var runs: seq<Run>
    ghost var groups: seq<nat>
    ghost var put: seq<nat>

    /** Everything put so far is, in order: the emitted runs, the closed groups, the open group and
        the open run. */
    ghost predicate Valid()
      reads this
    {
      && width <= 64 && |put| <= RUN_MAX
      && Emitted(buffer, runs, width)
      && Closed(groups, bpGroups, bpGroupCount, width) && bpGroupCount <= GROUPS_MAX
      && |bp| < 8 && Fit(bp, width)
      && (rleCount > 0 ==> rleValue < Pow2(width)) && (bp != [] ==> |bp| + rleCount <= 8)
      && Expand(runs) + groups + bp + Copies(rleCount, rleValue) == put
    }

    ghost function State(): Choice
      reads this
    {
      Choice(runs, groups, bp, rleCount, rleValue)
    }

    constructor (bitWidth: int)
      ensures Valid() && put == [] && State() == Choices([])
      ensures width == if 0 <= bitWidth <= 64 then bitWidth else 0
    {
      width := if 0 <= bitWidth <= 64 then bitWidth else 0;
      buffer, rleValue, rleCount, bp, bpGroups, bpGroupCount, runs, groups, put := [], 0, 0, [], [], 0, [], [], [];
    }

    /** Closed groups hold values that were put, beside those of the open group. */
    lemma GroupsBound()
      requires Valid()
      ensures 8 * bpGroupCount + |bp| <= |put|
    {
      hide Emitted, Expand, Fit, Pack, Copies;
    }

    /** Closes the full group of eight. */
    method FlushGroup()
      requires |bp| == 8 && Fit(bp, width) && Closed(groups, bpGroups, bpGroupCount, width) && bpGroupCount < GROUPS_MAX
      modifies this`bp, this`bpGroups, this`bpGroupCount, this`groups
      ensures bp == [] && Fit(bp, width) && groups == old(groups + bp) && Closed(groups, bpGroups, bpGroupCount, width)
      ensures bpGroupCount == old(bpGroupCount) + 1
    {
      NoGroups(width);
      hide Pack, Fit;
      CloseGroup(groups, bpGroups, bpGroupCount, bp, width);
      var packed := PackBits(bp, width);
      bpGroups := bpGroups + packed;
      bpGroupCount := bpGroupCount + 1;
      groups := groups + bp;
      bp := [];
    }

    /** Emits the closed groups under one header. */
    method FlushGroups()
      requires Emitted(buffer, runs, width)
      requires Closed(groups, bpGroups, bpGroupCount, width) && bpGroupCount <= GROUPS_MAX
      modifies this`buffer, this`bpGroups, this`bpGroupCount, this`groups, this`runs
      ensures groups == [] && bpGroupCount == 0 && Closed(groups, bpGroups, bpGroupCount, width)
      ensures Emitted(buffer, runs, width)
      ensures runs == if old(groups) == [] then old(runs) else old(runs) + [Packed(old(groups))]
      ensures Expand(runs) == old(Expand(runs) + groups)
    {
      hide Pack, WireAll, Expand, Fit;
      if bpGroupCount == 0 {
        return;
      }
      EmitRun(buffer, runs, Packed(groups), width);
      buffer := buffer + Varint(2 * bpGroupCount + 1) + bpGroups;
      assert buffer == old(buffer) + Wire(Packed(groups), width);
      runs := runs + [Packed(groups)];
      NoGroups(width);
      bpGroups, bpGroupCount, groups := [], 0, [];
    }

    /** Emits the open run; the closed groups come first. */
    method FlushRun()
      requires Valid() && rleCount > 0 && bp == []
      modifies this
      ensures Valid() && put == old(put) && rleCount == 0 && bp == [] && groups == [] && bpGroupCount == 0
      ensures runs == old(Ended(runs, groups) + [Repeat(rleCount, rleValue)]) && rleValue == old(rleValue)
    {
      hide Pack, WireAll, Expand, Fit;
      FlushGroups();
      EmitRun(buffer, runs, Repeat(rleCount, rleValue), width);
      ghost var before := buffer;
      buffer := buffer + Varint(2 * rleCount) + Literal(rleValue, ByteWidth(width));
      assert buffer == before + Wire(Repeat(rleCount, rleValue), width);
      runs := runs + [Repeat(rleCount, rleValue)];
      rleCount := 0;
    }

    /** Moves the open run, at most one value once a group is open, into the group. */
    method Spill()
      requires Valid() && |bp| + rleCount <= 8 && bpGroupCount < GROUPS_MAX
      modifies this
      ensures Valid() && put == old(put) && runs == old(runs) && rleCount == 0 && rleValue == old(rleValue)
      ensures bp != [] ==> bpGroupCount == old(bpGroupCount)
      ensures var all := old(bp + Copies(rleCount, rleValue));
              if |all| == 8 then bp == [] && groups == old(groups) + all else bp == all && groups == old(groups)
    {
      hide Closed, Emitted, Expand, Fit, Copies;
      ghost var all := bp + Copies(rleCount, rleValue);
      NoCopies(rleValue);
      while rleCount > 0
        invariant Valid() && put == old(put) && runs == old(runs) && rleValue == old(rleValue)
        invariant rleCount > 0 || bp != [] ==> bpGroupCount == old(bpGroupCount)
        invariant if |all| == 8 && rleCount == 0 && bp == [] then groups == old(groups) + all
                  else bp + Copies(rleCount, rleValue) == all && groups == old(groups) && (rleCount == 0 ==> |bp| < 8)
        decreases rleCount
      {
        NoCopies(rleValue);
        MoveAll(bp, rleCount, rleValue);
        MoveOne(Expand(runs), groups, bp, rleCount, rleValue);
        FitAppend(bp, rleValue, width);
        bp := bp + [rleValue];
        rleCount := rleCount - 1;
        if |bp| == 8 {
          FlushGroup();
        }
      }
    }

    /** Adds a value to the open group, which is not full. */
    method AddToGroup(v: nat)
      requires Valid() && rleCount == 0 && v < Pow2(width) && |put| < RUN_MAX
      requires (|bp| == 7 ==> bpGroupCount < GROUPS_MAX)
      modifies this
      ensures Valid() && put == old(put) + [v] && runs == old(runs) && rleCount == 0 && rleValue == old(rleValue)
      ensures if |old(bp)| == 7 then bp == [] && groups == old(groups + (bp + [v]))
              else bp == old(bp) + [v] && groups == old(groups)
    {
      hide Closed, Emitted, Expand, Fit, Copies;
      AppendOne(Expand(runs), groups, bp, rleValue, v);
      FitAppend(bp, v, width);
      bp := bp + [v];
      put := put + [v];
      if |bp| == 8 {
        FlushGroup();
      }
    }

    /** Accepts one value. A zero-width encoder ignores it: every value is then zero. */
    method Put(v: nat)
      requires Valid() && v < Pow2(width) && |put| < RUN_MAX && bpGroupCount < GROUPS_MAX
      modifies this
      ensures Valid() && put == if width == 0 then old(put) else old(put) + [v]
      ensures State() == if width == 0 then old(State()) else Chosen(old(State()), v)
    {
      hide Closed, Emitted, Expand, Fit;
      if width == 0 {
        return;
      }
      if rleCount == 0 {
        rleValue := v;
        rleCount := 1;
        put := put + [v];
      } else if v == rleValue && bp == [] {
        rleCount := rleCount + 1;
        put := put + [v];
      } else if bp == [] && rleCount >= 8 {
        FlushRun();
        rleValue := v;
        rleCount := 1;
        put := put + [v];
      } else {
        ghost var all := bp + Copies(rleCount, rleValue);
        Spill();
        AddToGroup(v);
        GroupedIs(old(State()), all, v);
      }
    }

    /** Ends the stream: a partial group is padded with zeros. Every run then emitted holds at least
        one value that was put. */
    method Flush()
      requires Valid() && (bp != [] ==> bpGroupCount < GROUPS_MAX)
      modifies this
      ensures Emitted(buffer, runs, width)
      ensures put == old(put) && Spells(runs, put)
      ensures runs == Finished(old(State()))
    {
      hide Closed, Emitted, Expand, Fit, Copies, Spells;
      FilledIs(State());
      if bp != [] && rleCount > 0 {
        Spill();
      }
      if rleCount > 0 {
        FlushRun();
      }
      NoCopies(rleValue);
      ClosedCount(groups, bpGroups, bpGroupCount, width);
      assert |groups| <= |put|;
      if bp != [] {
        ghost var open := bp;
        while |bp| < 8
          invariant |open| <= |bp| <= 8 && Fit(bp, width) && bp == open + Copies(|bp| - |open|, 0)
          modifies this`bp
        {
          PadOne(open, |bp| - |open|, width);
          bp := bp + [0];
        }
        SpellsPadded(runs, groups, open, 8 - |open|, put);
        FlushGroup();
        ClosedCount(groups, bpGroups, bpGroupCount, width);
        FlushGroups();
      } else {
        FlushGroups();
        SpellsExact(runs, buffer, width, put);
      }
    }
  }

  lemma ClosedCount(groups: seq<nat>, bytes: seq<bv8>, count: nat, width: nat)
    requires Closed(groups, bytes, count, width)
    ensures |groups| == 8 * count
  {
  }

  lemma NoCopies(v: nat)
    ensures Copies(0, v) == []
  {
  }

  lemma MoveAll(bp: seq<nat>, n: nat, v: nat)
    requires n > 0
    ensures bp + Copies(n, v) == bp + [v] + Copies(n - 1, v)
  {
    assert Copies(n, v) == [v] + Copies(n - 1, v);
  }

  lemma GroupedIs(s: Choice, all: seq<nat>, v: nat)
    requires all == s.open + Copies(s.count, s.value) && |all| <= 8
    ensures var g := Grouped(s, all + [v]);
            if |all| == 8 then g == s.(groups := s.groups + all, open := [v], count := 0)
            else if |all| == 7 then g == s.(groups := s.groups + (all + [v]), open := [], count := 0)
            else g == s.(open := all + [v], count := 0)
  {
  }

  lemma FilledIs(s: Choice)
    requires s.open != [] ==> |s.open| + s.count <= 8
    ensures s.open != [] ==>
              var all := s.open + Copies(s.count, s.value);
              if |all| == 8 then Finished(s) == s.runs + [Packed(s.groups + all)]
              else Finished(s) == s.runs + [Packed(s.groups + (all + Copies(8 - |all|, 0)))]
  {
    NoCopies(0);
    var all := s.open + Copies(s.count, s.value);
    assert |all| == 8 ==> all + Copies(0, 0) == all;
  }

  lemma PadOne(open: seq<nat>, n: nat, width: nat)
    requires Fit(open + Copies(n, 0), width)
    ensures open + Copies(n, 0) + [0] == open + Copies(n + 1, 0)
    ensures Fit(open + Copies(n, 0) + [0], width)
  {
  }

  lemma SpellsPadded(rs: seq<Run>, groups: seq<nat>, open: seq<nat>, pad: nat, vs: seq<nat>)
    requires Expand(rs) + groups + open == vs && open != [] && |open| + pad == 8
    ensures Spells(rs + [Packed(groups + (open + Copies(pad, 0)))], vs)
  {
    hide Expand;
    var last := Packed(groups + (open + Copies(pad, 0)));
    ExpandAppend(rs, last);
    assert Expand(rs) + (groups + (open + Copies(pad, 0))) == Expand(rs) + groups + open + Copies(pad, 0);
    assert Expand(rs + [last]) == vs + Copies(pad, 0);
    assert (rs + [last])[..|rs|] == rs;
  }

  lemma SpellsExact(rs: seq<Run>, buffer: seq<bv8>, width: nat, vs: seq<nat>)
    requires Emitted(buffer, rs, width) && Expand(rs) == vs
    ensures Spells(rs, vs)
  {
    hide Expand, Emitted, Fit;
    assert vs == vs + Copies(0, 0);
    if rs != [] {
      var init, last := rs[..|rs| - 1], rs[|rs| - 1];
      EmittedWellFormed(buffer, rs, width);
      assert rs == init + [last] && WellFormed(last, width);
      ExpandAppend(init, last);
    }
  }

  /** The runs spell the values and, in the last run only, fewer than eight zeros more. */
  ghost predicate Spells(rs: seq<Run>, vs: seq<nat>) {
    && |vs| <= |Expand(rs)| < |vs| + 8
    && Expand(rs) == vs + Copies(|Expand(rs)| - |vs|, 0)
    && (rs != [] ==> |Expand(rs[..|rs| - 1])| < |vs|)
  }

  lemma AppendOne(a: seq<nat>, g: seq<nat>, b: seq<nat>, r: nat, v: nat)
    ensures a + g + b + Copies(0, r) + [v] == a + g + (b + [v]) + Copies(0, r)
    ensures a + g + b + Copies(0, r) + [v] == a + (g + (b + [v])) + [] + Copies(0, r)
  {
  }

  lemma MoveOne(a: seq<nat>, g: seq<nat>, b: seq<nat>, n: nat, v: nat)
    requires n > 0
    ensures a + g + b + Copies(n, v) == a + g + (b + [v]) + Copies(n - 1, v)
    ensures a + g + b + Copies(n, v) == a + (g + (b + [v])) + [] + Copies(n - 1, v)
  {
    assert Copies(n, v) == [v] + Copies(n - 1, v);
  }

  lemma FitAppend(vs: seq<nat>, v: nat, width: nat)
    requires Fit(vs, width) && v < Pow2(width)
    ensures Fit(vs + [v], width)
  {
  }

  lemma NoGroups(width: nat)
    ensures Pack([], width) == [] && Fit([], width)
  {
  }

  // ----- whole streams -----

  /** The bytes of the runs the encoder chooses for some values, and the runs spell the values. */
  ghost predicate Encodes(data: seq<bv8>, vs: seq<nat>, width: nat) {
    if width == 0 then data == [] else Emitted(data, RunsOf(vs), width) && Spells(RunsOf(vs), vs)
  }

  /** Encodes a whole sequence. */
  method Encode(values: seq<nat>, bitWidth: nat) returns (data: seq<bv8>)
    requires bitWidth <= 64 && Fit(values, bitWidth) && |values| <= VALUES_MAX
    ensures Encodes(data, values, bitWidth)
  {
    hide Emitted, Spells, Fit, RleEncoder.Valid, Pow2, Chosen, Finished;
    if bitWidth == 0 {
      return [];
    }
    var encoder := new RleEncoder(bitWidth);
    var i := 0;
    while i < |values|
      invariant 0 <= i <= |values| && encoder.Valid() && fresh(encoder) && encoder.put == values[..i]
      invariant encoder.State() == Choices(values[..i])
    {
      FitAt(values, bitWidth, i);
      encoder.GroupsBound();
      assert values[..i + 1] == values[..i] + [values[i]];
      assert Choices(values[..i + 1]) == Chosen(Choices(values[..i]), values[i]);
      encoder.Put(values[i]);
      i := i + 1;
    }
    encoder.GroupsBound();
    encoder.Flush();
    assert values[..i] == values;
    return encoder.buffer;
  }

  lemma FitAt(vs: seq<nat>, width: nat, i: nat)
    requires Fit(vs, width) && i < |vs|
    ensures vs[i] < Pow2(width)
  {
  }

  /** What the decoder makes of a payload: up to n values, each cut to 32 bits. */
  function Decode(data: seq<bv8>, bitWidth: nat, n: nat): (vs: seq<nat>) {
    if bitWidth == 0 then (if data == [] then Copies(n, 0) else [])
    else if bitWidth > 64 then []
    else Cut(Take(Decoding(data, bitWidth, 0, 0, 0, []), n))
  }

  /** No more values than asked for. */
  lemma {:induction false} TakeAtMost(s: Decoding, n: nat)
    requires s.pos <= |s.data|
    ensures |Take(s, n)| <= n
    decreases n
  {
    hide Get;
    if n > 0 && Get(s).Some? {
      TakeAtMost(Get(s).value.1, n - 1);
    }
  }

  lemma DecodeAtMost(data: seq<bv8>, bitWidth: nat, n: nat)
    ensures |Decode(data, bitWidth, n)| <= n
  {
    hide Take;
    TakeAtMost(Decoding(data, bitWidth, 0, 0, 0, []), n);
  }

  function Cut(vs: seq<nat>): (out: seq<nat>)
    ensures |out| == |vs|
  {
    seq(|vs|, i requires 0 <= i < |vs| => vs[i] % TWO32)
  }

  /** The decoder: a position, the rest of an open repeated run and the rest of decoded groups. */
  class RleDecoder {
    const data: seq<bv8>
    const width: nat
    var pos: nat
    var rleLeft: nat
    var rleValue: nat
    var pending: seq<nat>

    ghost function State(): Decoding
      reads this
    {
      Decoding(data, width, pos, rleLeft, rleValue, pending)
    }

    constructor (data: seq<bv8>, bitWidth: nat)
      ensures State() == Decoding(data, if bitWidth <= 64 then bitWidth else 0, 0, 0, 0, [])
    {
      this.data, width := data, if bitWidth <= 64 then bitWidth else 0;
      pos, rleLeft, rleValue, pending := 0, 0, 0, [];
    }

    method Next() returns (r: Option<nat>)
      requires pos <= |data|
      modifies this
      ensures match Get(old(State()))
              case None => r == None && State() == Stopped(old(State()))
              case Some((v, after)) => r == Some(v) && State() == after
    {
      hide ReadVarint, OpenRepeat, OpenPacked, PastRepeat, PastPacked;
      if rleLeft > 0 {
        rleLeft := rleLeft - 1;
        return Some(rleValue);
      }
      if pending != [] {
        r := Some(pending[0]);
        pending := pending[1..];
        return;
      }
      if pos >= |data| {
        return None;
      }
      var (header, p) := ReadVarint(data, pos);
      if header % 2 == 0 {
        r := NextRepeat(header / 2, p);
      } else {
        r := NextPacked(header / 2, p);
      }
    }

    /** Opens a repeated run whose header ends at p. */
    method NextRepeat(count: nat, p: nat) returns (r: Option<nat>)
      requires p <= |data| && rleLeft == 0
      modifies this
      ensures match OpenRepeat(old(State()), count, p)
              case None => r == None && State() == PastRepeat(old(State()), count, p)
              case Some((v, after)) => r == Some(v) && State() == after
    {
      hide ReadLiteral;
      pos := p;
      if count == 0 || count > MAX_RLE_RUN {
        return None;
      }
      var end := p + ByteWidth(width);
      if end > |data| {
        pos := |data|;
        return None;
      }
      rleValue := ReadLiteral(data[p..end]);
      rleLeft, pos := count - 1, end;
      return Some(rleValue);
    }

    /** Opens bit-packed groups whose header ends at p. */
    method NextPacked(header: nat, p: nat) returns (r: Option<nat>)
      requires p <= |data| && rleLeft == 0 && pending == []
      modifies this
      ensures match OpenPacked(old(State()), header, p)
              case None => r == None && State() == PastPacked(old(State()), header, p)
              case Some((v, after)) => r == Some(v) && State() == after
    {
      hide Unpack, Groups, WholeGroups;
      var avail := |data| - p;
      var groups := Groups(header, width, avail);
      var whole := WholeGroups(groups, width, avail);
      pos := p;
      if groups == 0 || groups * 8 > MAX_BP_VALUES || groups * width > MAX_BP_BYTES {
        return None;
      }
      pos := p + Min(groups * width, avail);
      if whole == 0 {
        return None;
      }
      var vals := UnpackBits(data[p..], width, 8 * whole);
      pending := vals[1..];
      return Some(vals[0]);
    }
  }

  /** The decoding loop computes Decode. */
  method DecodeValues(data: seq<bv8>, bitWidth: nat, n: nat) returns (vs: seq<nat>)
    ensures vs == Decode(data, bitWidth, n)
  {
    hide Get, Take, Copies, Decode, Cut, Stopped;
    DecodeIs(data, bitWidth, n);
    CutAppend([], 0);
    if bitWidth == 0 {
      return if data == [] then Copies(n, 0) else [];
    }
    if bitWidth > 64 {
      return [];
    }
    var decoder := new RleDecoder(data, bitWidth);
    ghost var all := Take(decoder.State(), n);
    ghost var taken: seq<nat> := [];
    vs := [];
    while |vs| < n
      invariant |vs| <= n && decoder.State().data == data && decoder.pos <= |data| && fresh(decoder)
      invariant all == taken + Take(decoder.State(), n - |vs|) && vs == Cut(taken)
    {
      TakeStep(decoder.State(), n - |vs|);
      var r := decoder.Next();
      if r.None? {
        assert all == taken;
        return;
      }
      CutAppend(taken, r.value);
      taken := taken + [r.value];
      vs := vs + [r.value % TWO32];
    }
    TakeStep(decoder.State(), 0);
    assert all == taken;
  }

  lemma CutAppend(vs: seq<nat>, v: nat)
    ensures Cut([]) == [] && Cut(vs + [v]) == Cut(vs) + [v % TWO32]
  {
  }

  lemma DecodeIs(data: seq<bv8>, bitWidth: nat, n: nat)
    ensures Decode(data, bitWidth, n) ==
            if bitWidth == 0 then (if data == [] then Copies(n, 0) else [])
            else if bitWidth > 64 then []
            else Cut(Take(Decoding(data, bitWidth, 0, 0, 0, []), n))
  {
  }

  predicate AllAccepted(rs: seq<Run>, width: nat) {
    forall i :: 0 <= i < |rs| ==> Accepted(rs[i], width)
  }

  /** The decoder's guards accept every run these values are written as. */
  predicate Reads(vs: seq<nat>, width: nat) { width == 0 || AllAccepted(RunsOf(vs), width) }

  /** The zeros that fill the last group. */
  function Padding(vs: seq<nat>): nat { if |Expand(RunsOf(vs))| < |vs| then 0 else |Expand(RunsOf(vs))| - |vs| }

  /** Asked for at least as many values as were written, the decoder gives them back and then padding
      zeros, if its guards accept every run; otherwise it stops among the values. */
  lemma DecodeMore(data: seq<bv8>, vs: seq<nat>, width: nat, n: nat)
    requires width <= 32 && Fit(vs, width) && Encodes(data, vs, width) && n >= |vs|
    ensures Reads(vs, width) ==>
              Decode(data, width, n) == vs + Copies(if width == 0 then n - |vs| else Min(n - |vs|, Padding(vs)), 0)
    ensures !Reads(vs, width) ==> |Decode(data, width, n)| < |vs|
  {
    hide Take, Holds, Expand, Usable, Emitted, Accepted, RunsOf;
    var rs := RunsOf(vs);
    if width == 0 {
      assert Pow2(0) == 1;
      assert Copies(n, 0) == vs + Copies(n - |vs|, 0);
    } else {
      var s := Decoding(data, width, 0, 0, 0, []);
      HoldsAll(s, rs);
      TakeUsable(s, rs, n);
      assert Take(s, n) == Prefix(Expand(Usable(rs, width)), n);
      if AllAccepted(rs, width) {
        AllUsable(rs, width);
        var p := Min(n - |vs|, Padding(vs));
        assert Take(s, n) == vs + Copies(p, 0);
        PaddedFit(vs, p, width);
        CutSmall(vs + Copies(p, 0), width);
      } else {
        SomeRefused(rs, width);
      }
    }
  }

  lemma PaddedFit(vs: seq<nat>, n: nat, width: nat)
    requires Fit(vs, width)
    ensures Fit(vs + Copies(n, 0), width)
  {
  }

  /** A stream reads back exactly when the decoder accepts the length of every run the values form. */
  lemma DecodeEncoded(data: seq<bv8>, vs: seq<nat>, width: nat)
    requires width <= 32 && Fit(vs, width) && Encodes(data, vs, width)
    ensures Decode(data, width, |vs|) == vs <==> Reads(vs, width)
    ensures Decode(data, width, |vs|) == vs <==> |Decode(data, width, |vs|)| == |vs|
  {
    hide Encodes, Reads, Decode, Padding;
    DecodeMore(data, vs, width, |vs|);
    assert vs + Copies(0, 0) == vs;
  }

  lemma HoldsAll(s: Decoding, rs: seq<Run>)
    requires 0 < s.width <= 32 && s.pos == 0 && s.rleLeft == 0 && Emitted(s.data, rs, s.width)
    ensures Holds(s, rs)
  {
    assert s.data[0..] == s.data;
  }

  lemma CutSmall(vs: seq<nat>, width: nat)
    requires width <= 32 && Fit(vs, width)
    ensures Cut(vs) == vs
  {
    hide Pow2;
    Pow2Monotone(width, 32);
    Pow2At32();
  }

  lemma {:induction false} AllUsable(rs: seq<Run>, width: nat)
    requires AllAccepted(rs, width)
    ensures Usable(rs, width) == rs
  {
    hide Accepted;
    if rs != [] {
      AllUsable(rs[1..], width);
    }
  }

  /** A refused run hides itself and everything behind it, so at least the last run. */
  lemma {:induction false} SomeRefused(rs: seq<Run>, width: nat)
    requires !AllAccepted(rs, width)
    ensures rs != [] && |Expand(Usable(rs, width))| <= |Expand(rs[..|rs| - 1])|
  {
    hide Accepted, Spelled;
    if Accepted(rs[0], width) {
      assert exists i :: 1 <= i < |rs| && !Accepted(rs[i], width);
      assert forall i :: 1 <= i < |rs| ==> rs[i] == rs[1..][i - 1];
      SomeRefused(rs[1..], width);
      assert rs[..|rs| - 1][1..] == rs[1..][..|rs| - 2];
    }
  }

  /** Sequences of up to 32 * 1024 * 1024 narrow values always read back. */
  lemma ShortAccepted(data: seq<bv8>, vs: seq<nat>, width: nat)
    requires width <= 32 && Encodes(data, vs, width) && |vs| <= MAX_BP_VALUES
    ensures Reads(vs, width)
  {
    hide Emitted, Accepted, WellFormed, Expand, Spelled, RunsOf;
    var rs := RunsOf(vs);
    if rs != [] && width > 0 {
      EmittedWellFormed(data, rs, width);
      SpellsLength(rs, vs);
      forall i | 0 <= i < |rs| ensures Accepted(rs[i], width) {
        RunLength(rs, i);
        ShortRun(rs[i], width);
      }
    }
  }

  /** A group that is open with an odd number of values: values now enter it in pairs. */
  ghost predicate Stuck(s: Choice, vs: seq<nat>) {
    && s.runs == [] && |s.groups| % 8 == 0 && |s.open| < 8 && |s.open| % 2 == 1 && s.count <= 1
    && s.groups + s.open + Copies(s.count, s.value) == vs
  }

  lemma StuckStep(s: Choice, vs: seq<nat>, v: nat)
    requires Stuck(s, vs)
    ensures Stuck(Chosen(s, v), vs + [v])
  {
    NoCopies(s.value);
    var next := Chosen(s, v);
    if s.count == 0 {
      assert s.groups + s.open + [v] == vs + [v] && Copies(1, v) == [v];
    } else {
      var all := s.open + Copies(1, s.value) + [v];
      assert vs + [v] == s.groups + all;
      NoCopies(next.value);
      if |all| >= 8 {
        assert all == all[..8] + all[8..];
      }
      assert next.groups + next.open + Copies(0, next.value) == s.groups + all;
    }
  }

  lemma {:induction false} StaysStuck(vs: seq<nat>)
    requires |vs| >= 3 && vs[0] == vs[1] != vs[2]
    ensures Stuck(Choices(vs), vs)
    decreases |vs|
  {
    var init, last := vs[..|vs| - 1], vs[|vs| - 1];
    assert vs == init + [last];
    if |vs| == 3 {
      StartsStuck(vs[0], vs[2]);
      assert vs == [vs[0], vs[0], vs[2]];
    } else {
      StaysStuck(init);
      StuckStep(Choices(init), init, last);
    }
  }

  lemma StartsStuck(a: nat, b: nat)
    requires a != b
    ensures Stuck(Choices([a, a, b]), [a, a, b])
  {
    assert [a, a, b][..2] == [a, a] && [a, a][..1] == [a] && [a][..0] == [];
    assert Choices([a]) == Choice([], [], [], 1, a);
    assert Choices([a, a]) == Choice([], [], [], 2, a);
    assert Copies(2, a) == [a, a];
    NoCopies(a);
    assert Choices([a, a, b]) == Choice([], [], [a, a, b], 0, a);
    assert [] + [a, a, b] + Copies(0, a) == [a, a, b];
  }

  lemma StuckEnds(s: Choice, vs: seq<nat>)
    requires Stuck(s, vs)
    ensures vs <= s.groups + Filled(s) && |s.groups + Filled(s)| == (|vs| + 7) / 8 * 8
  {
    var n := |s.open| + s.count;
    assert |vs| == |s.groups| + n && 0 < n <= 8 && |Filled(s)| == 8;
    assert s.groups + Filled(s) == vs + Copies(8 - n, 0);
  }

  /** What was finished first is a packed run, or will be. */
  predicate PackedFirst(s: Choice) {
    if s.runs != [] then s.runs[0].Packed? else s.groups != [] || s.open != []
  }

  lemma StaysPacked(s: Choice, v: nat)
    requires PackedFirst(s)
    ensures PackedFirst(Chosen(s, v)) && Finished(s) != [] && Finished(s)[0].Packed?
  {
    hide Copies, Filled;
  }

  /** A value seen n times in a row and then others seen m times: after enough of the first, the second
      are counted as a run of their own; before, the encoder has begun to pack bits. */
  lemma {:induction false} TwoValues(n: nat, v: nat, m: nat, w: nat)
    requires n > 0 && v != w
    ensures var s := Choices(Copies(n, v) + Copies(m, w));
            if m == 0 then s == Choice([], [], [], n, v)
            else if n >= 8 then s == Choice([Repeat(n, v)], [], [], m, w)
            else PackedFirst(s)
    decreases n + m
  {
    var vs := Copies(n, v) + Copies(m, w);
    if m > 0 {
      TwoValues(n, v, m - 1, w);
      assert vs[..|vs| - 1] == Copies(n, v) + Copies(m - 1, w) && vs[|vs| - 1] == w;
      if m > 1 && n < 8 {
        StaysPacked(Choices(vs[..|vs| - 1]), w);
      }
    } else if n > 1 {
      TwoValues(n - 1, v, 0, w);
      assert vs[..|vs| - 1] == Copies(n - 1, v) + Copies(0, w) && vs[|vs| - 1] == v;
    } else {
      assert vs[..|vs| - 1] == [] && vs[|vs| - 1] == v;
    }
  }

  /** A repeated value is one repeated run. Followed by others it stays one exactly when it is seen at
      least eight times. */
  lemma Repeats(n: nat, v: nat, m: nat, w: nat)
    requires n > 0 && m > 0 && v != w
    ensures RunsOf(Copies(n, v)) == [Repeat(n, v)]
    ensures RunsOf(Copies(n, v) + Copies(m, w)) == [Repeat(n, v), Repeat(m, w)] <==> n >= 8
  {
    hide Choices, Copies;
    TwoValues(n, v, 0, w);
    TwoValues(n, v, m, w);
    assert Copies(n, v) + Copies(0, w) == Copies(n, v) by { NoCopies(w); }
    if n < 8 {
      StaysPacked(Choices(Copies(n, v) + Copies(m, w)), w);
    }
  }

  /** Two equal values before a different one keep the encoder packing bits to the end: the whole
      sequence becomes one packed run, however well the rest would repeat. */
  lemma OneRun(vs: seq<nat>)
    requires |vs| >= 3 && vs[0] == vs[1] != vs[2]
    ensures exists all: seq<nat> :: RunsOf(vs) == [Packed(all)] && vs <= all && |all| == (|vs| + 7) / 8 * 8
  {
    hide Choices, Filled;
    StaysStuck(vs);
    var s := Choices(vs);
    var all := s.groups + Filled(s);
    StuckEnds(s, vs);
    assert RunsOf(vs) == [] + [Packed(all)] == [Packed(all)];
  }

  /** Such a column reads back exactly when it has at most 32 * 1024 * 1024 values: the decoder takes
      a longer packed run for damage. */
  lemma OneRunAccepted(vs: seq<nat>, width: nat)
    requires |vs| >= 3 && vs[0] == vs[1] != vs[2] && 0 < width <= 32
    ensures Reads(vs, width) <==> |vs| <= 32 * 1024 * 1024
  {
    hide RunsOf;
    OneRun(vs);
    var all: seq<nat> :| RunsOf(vs) == [Packed(all)] && vs <= all && |all| == (|vs| + 7) / 8 * 8;
    var g := (|vs| + 7) / 8;
    if |vs| <= MAX_BP_VALUES {
      assert g <= 4 * 1024 * 1024;
      assert width * g <= 32 * g by { MulMonotone(width, 32, g); }
    }
    assert RunsOf(vs)[0] == Packed(all);
  }

  lemma SpellsLength(rs: seq<Run>, vs: seq<nat>)
    requires Spells(rs, vs)
    ensures |Expand(rs)| < |vs| + 8
  {
    hide Expand, Copies;
  }

  lemma ShortRun(r: Run, width: nat)
    requires width <= 32 && WellFormed(r, width) && |Spelled(r)| < MAX_BP_VALUES + 8
    ensures Accepted(r, width)
  {
    hide Fit, Pow2;
    if r.Packed? {
      var g := |r.vals| / 8;
      assert |r.vals| == 8 * g && g <= 4 * 1024 * 1024;
      assert width * g <= 32 * g by { MulMonotone(width, 32, g); }
    }
  }

  lemma EmittedWellFormed(data: seq<bv8>, rs: seq<Run>, width: nat)
    requires Emitted(data, rs, width)
    ensures AllWellFormed(rs, width)
  {
  }

  lemma {:induction false} RunLength(rs: seq<Run>, i: nat)
    requires i < |rs|
    ensures |Spelled(rs[i])| <= |Expand(rs)|
    decreases |rs|
  {
    hide Spelled;
    if i > 0 {
      RunLength(rs[1..], i - 1);
    }
  }

  /** One-bit streams take at most eleven bytes a value. */
  lemma {:induction false} StreamLength(rs: seq<Run>)
    requires AllWellFormed(rs, 1)
    ensures (WireDefined(rs, 1); |WireAll(rs, 1)| <= 11 * |Expand(rs)|)
  {
    hide Wire, WellFormed, Spelled;
    WireDefined(rs, 1);
    if rs != [] {
      RunBytes(rs[0]);
      StreamLength(rs[1..]);
    }
  }

  lemma RunBytes(r: Run)
    requires WellFormed(r, 1)
    ensures |Wire(r, 1)| <= 11 * |Spelled(r)|
  {
    hide Varint, Fit;
    Pow2At64();
    Pow2Add(63, 7);
    assert Pow2(7) == 128;
    match r
    case Repeat(count, v) => VarintLength(2 * count, 10);
    case Packed(vals) => VarintLength(2 * (|vals| / 8) + 1, 10);
  }

  /** Payloads of pages of up to a hundred million flags are far below the limit of the length prefix. */
  lemma PayloadLength(data: seq<bv8>, vs: seq<nat>)
    requires Encodes(data, vs, 1) && |vs| <= 100_000_000
    ensures |data| < TWO32
  {
    hide Expand, WireAll, Copies, WellFormed, RunsOf;
    StreamLength(RunsOf(vs));
  }
}
