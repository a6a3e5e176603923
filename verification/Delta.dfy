/** DELTA_BINARY_PACKED: a first value, then blocks of 128 consecutive differences, each stored above
    the block's minimum in the least width its miniblock of 32 needs. */
module Delta {
  import opened Bits
  import opened Packing
  import opened Words

  predicate Int64(v: int) { -TWO63 <= v < TWO63 }

  /** Two's-complement wrap-around. */
  function Wrap(x: int): (w: int)
    ensures Int64(w)
  {
    (x + TWO63) % TWO64 - TWO63
  }

  /** The three places a difference of two 64-bit numbers can wrap to. */
  lemma WrapDifference(a: int, b: int)
    requires Int64(a) && Int64(b)
    ensures Wrap(b - a) == if Int64(b - a) then b - a else if b > a then b - a - TWO64 else b - a + TWO64
  {
  }

  // ----- zigzag -----

  function Zigzag(n: int): (z: nat)
    requires Int64(n)
    ensures z < TWO64
  {
    if n >= 0 then 2 * n else -2 * n - 1
  }

  function Unzigzag(z: nat): (n: int) { if z % 2 == 0 then z / 2 else -(z / 2) - 1 }

  lemma ZigzagRoundTrip(n: int)
    requires Int64(n)
    ensures Unzigzag(Zigzag(n)) == n
  {
  }

  /** The formulas on words: the sign, shifted over the whole word, flips the doubled number. */
  function ZigzagWord(w: bv64): bv64 { (w << 1) ^ SignFill(w) }

  function SignFill(w: bv64): bv64 { if w & 0x8000_0000_0000_0000 != 0 then 0xFFFF_FFFF_FFFF_FFFF else 0 }

  function UnzigzagWord(v: bv64): bv64 { (v >> 1) ^ (!(v & 1) + 1) }

  function OddFill(v: bv64): bv64 { if v & 1 != 0 then 0xFFFF_FFFF_FFFF_FFFF else 0 }

  lemma RawFill(v: bv64)
    ensures !(v & 1) + 1 == OddFill(v)
  {
  }

  function HalfWord(v: bv64, fill: bv64): bv64 { (v >> 1) ^ fill }

  lemma UnzigzagForm(v: bv64)
    ensures UnzigzagWord(v) == HalfWord(v, OddFill(v))
  {
    RawFill(v);
    hide OddFill;
  }

  lemma RawUnzigzag(v: bv64)
    ensures ZigzagWord(HalfWord(v, OddFill(v))) == v
  {
  }

  lemma RawZigzag(w: bv64)
    ensures w & 0x8000_0000_0000_0000 == 0 ==> ZigzagWord(w) == w << 1
    ensures w & 0x8000_0000_0000_0000 != 0 ==> ZigzagWord(w) == (w << 1) ^ 0xFFFF_FFFF_FFFF_FFFF
  {
  }

  /** Encoding a word is zigzag coding the signed number it stands for. */
  lemma ZigzagIs(w: bv64)
    ensures Int64(S64(w)) && U64(ZigzagWord(w)) == Zigzag(S64(w))
  {
    hide U64, ZigzagWord;
    S64Range(w);
    RawZigzag(w);
    SignBit64(w);
    Shift64(w);
    FlipAll64(w << 1);
  }

  lemma ZigzagInverse(v: bv64)
    ensures ZigzagWord(UnzigzagWord(v)) == v
  {
    hide OddFill, HalfWord, UnzigzagWord, ZigzagWord;
    UnzigzagForm(v);
    RawUnzigzag(v);
  }

  /** Decoding a word gives the signed number that was zigzag coded. */
  lemma UnzigzagIs(v: bv64)
    ensures S64(UnzigzagWord(v)) == Unzigzag(U64(v))
  {
    hide U64, S64, ZigzagWord, UnzigzagWord, Zigzag, Unzigzag;
    var w := UnzigzagWord(v);
    ZigzagInverse(v);
    ZigzagIs(w);
    ZigzagRoundTrip(S64(w));
  }

  // ----- widths -----

  function BitWidth(v: nat): nat { if v == 0 then 0 else 1 + BitWidth(v / 2) }

  lemma {:induction false} BitWidthHolds(v: nat)
    ensures v < Pow2(BitWidth(v))
  {
    if v > 0 {
      BitWidthHolds(v / 2);
    }
  }

  lemma {:induction false} BitWidthLeast(v: nat, k: nat)
    requires v < Pow2(k)
    ensures BitWidth(v) <= k
  {
    if v > 0 {
      BitWidthLeast(v / 2, k - 1);
    }
  }

  function MaxOf(vs: seq<nat>): (m: nat)
    ensures forall i :: 0 <= i < |vs| ==> vs[i] <= m
    ensures m == 0 || m in vs
  {
    if vs == [] then 0
    else
      var rest := MaxOf(vs[..|vs| - 1]);
      if vs[|vs| - 1] > rest then vs[|vs| - 1] else rest
  }

  /** The least width that holds every value of a miniblock. */
  function WidthOf(vs: seq<nat>): nat { BitWidth(MaxOf(vs)) }

  lemma WidthFits(vs: seq<nat>)
    requires forall i :: 0 <= i < |vs| ==> vs[i] < TWO64
    ensures Fit(vs, WidthOf(vs)) && WidthOf(vs) <= 64
  {
    BitWidthHolds(MaxOf(vs));
    Pow2At64();
    BitWidthLeast(MaxOf(vs), 64);
  }

  // ----- the format -----

  const BLOCK: nat := 128
  const MINIBLOCKS: nat := 4
  const MINI: nat := 32

  function MinOf(ds: seq<int>): (m: int)
    requires ds != []
    ensures m in ds && forall i :: 0 <= i < |ds| ==> m <= ds[i]
  {
    if |ds| == 1 then ds[0]
    else
      var rest := MinOf(ds[..|ds| - 1]);
      if ds[|ds| - 1] < rest then ds[|ds| - 1] else rest
  }

  /** A block above its minimum, zero-padded. */
  function Adjusted(ds: seq<int>, m: int): (adj: seq<nat>)
    ensures |adj| == BLOCK && forall i :: 0 <= i < |adj| ==> adj[i] < TWO64
  {
    seq(BLOCK, i => if 0 <= i < |ds| then Wrap64(ds[i] - m) else 0)
  }

  function Widths(adj: seq<nat>): (ws: seq<nat>)
    requires |adj| % MINI == 0
    ensures |ws| == |adj| / MINI
  {
    if adj == [] then [] else [WidthOf(adj[..MINI])] + Widths(adj[MINI..])
  }

  function WidthBytes(ws: seq<nat>): (data: seq<bv8>)
    requires forall i :: 0 <= i < |ws| ==> ws[i] < 256
    ensures |data| == |ws| && forall i :: 0 <= i < |ws| ==> data[i] == Byte(ws[i])
  {
    seq(|ws|, i requires 0 <= i < |ws| => Byte(ws[i]))
  }

  function MiniBytes(adj: seq<nat>): seq<bv8>
    requires |adj| % MINI == 0
  {
    if adj == [] then [] else Pack(adj[..MINI], WidthOf(adj[..MINI])) + MiniBytes(adj[MINI..])
  }

  lemma {:induction false} WidthsAre(adj: seq<nat>)
    requires |adj| % MINI == 0 && forall i :: 0 <= i < |adj| ==> adj[i] < TWO64
    ensures forall i :: 0 <= i < |Widths(adj)| ==> Widths(adj)[i] <= 64
  {
    hide WidthOf;
    if adj != [] {
      WidthFits(adj[..MINI]);
      WidthsAre(adj[MINI..]);
    }
  }

  function Block(ds: seq<int>): (data: seq<bv8>)
    requires 0 < |ds| && forall i :: 0 <= i < |ds| ==> Int64(ds[i])
    ensures |data| > 0
  {
    var m := MinOf(ds);
    var adj := Adjusted(ds, m);
    WidthsAre(adj);
    Varint(Zigzag(m)) + WidthBytes(Widths(adj)) + MiniBytes(adj)
  }

  predicate AllInt64(vs: seq<int>) { forall i :: 0 <= i < |vs| ==> Int64(vs[i]) }

  function Blocks(ds: seq<int>): seq<bv8>
    requires AllInt64(ds)
  {
    if ds == [] then []
    else if |ds| <= BLOCK then Block(ds)
    else Block(ds[..BLOCK]) + Blocks(ds[BLOCK..])
  }

  /** The wrapped differences of neighbours. */
  function Deltas(vs: seq<int>): (ds: seq<int>)
    ensures |ds| == if vs == [] then 0 else |vs| - 1
    ensures AllInt64(ds)
  {
    seq(if vs == [] then 0 else |vs| - 1, i requires 0 <= i < |vs| - 1 => Wrap(vs[i + 1] - vs[i]))
  }

  function Encode(vs: seq<int>): seq<bv8>
    requires AllInt64(vs) && |vs| < TWO64
  {
    var first := if vs == [] then 0 else vs[0];
    Varint(BLOCK) + Varint(MINIBLOCKS) + Varint(|vs|) + Varint(Zigzag(first)) + Blocks(Deltas(vs))
  }

  // ----- the decoder -----

  datatype Progress = Progress(out: seq<int>, pos: nat, left: nat, stop: bool)

  /** Adds differences to the last value until the sum leaves 64 bits. */
  function Follow(out: seq<int>, ds: seq<int>): (r: (seq<int>, bool))
    requires out != []
    ensures r.0 != [] && |out| <= |r.0|
    decreases |ds|
  {
    if ds == [] then (out, false)
    else
      var next := out[|out| - 1] + ds[0];
      if !Int64(next) then (out, true) else Follow(out + [next], ds[1..])
  }

  function Restored(adj: seq<nat>, m: int): (ds: seq<int>)
    ensures |ds| == |adj|
  {
    seq(|adj|, i requires 0 <= i < |adj| => Wrap(adj[i] + m))
  }

  function MiniSize(n: nat, width: nat): nat { (n * width + 7) / 8 }

  /** The n stored values of a miniblock; bytes beyond the end of the data count as zero. */
  function Unpacked(data: seq<bv8>, pos: nat, n: nat, width: nat): (vs: seq<nat>)
    requires pos <= |data|
    ensures |vs| == n
  {
    if width == 0 then Copies(n, 0)
    else
      assert n * width <= 8 * MiniSize(n, width);
      Unpack(data[pos..] + Copies<bv8>(MiniSize(n, width), 0), width, n)
  }

  function MiniBlock(data: seq<bv8>, p: Progress, width: nat, n: nat, m: int): (r: Progress)
    requires p.pos <= |data| && p.out != []
    ensures r.pos <= |data| && p.pos <= r.pos && r.out != []
  {
    if width > 64 then p.(stop := true)
    else
      var adj := Unpacked(data, p.pos, n, width);
      var pos := if p.pos + MiniSize(n, width) > |data| then |data| else p.pos + MiniSize(n, width);
      var count := if n < p.left then n else p.left;
      var (out, stop) := Follow(p.out, Restored(adj[..count], m));
      Progress(out, pos, p.left - count, stop)
  }

  function MiniBlocks(data: seq<bv8>, p: Progress, widths: seq<nat>, n: nat, m: int): (r: Progress)
    requires p.pos <= |data| && p.out != []
    ensures r.pos <= |data| && p.pos <= r.pos && r.out != []
    decreases |widths|
  {
    if widths == [] || p.left == 0 || p.stop then p
    else MiniBlocks(data, MiniBlock(data, p, widths[0], n, m), widths[1..], n, m)
  }

  /** One width byte per miniblock, zero beyond the end of the data. */
  function ReadWidths(data: seq<bv8>, pos: nat, count: nat): (r: (seq<nat>, nat))
    requires pos <= |data|
    ensures pos <= r.1 <= |data| && (pos < |data| && count > 0 ==> pos < r.1)
    decreases count
  {
    if count == 0 then ([], pos)
    else if pos < |data| then
      var (rest, end) := ReadWidths(data, pos + 1, count - 1);
      ([U8(data[pos])] + rest, end)
    else
      var (rest, end) := ReadWidths(data, pos, count - 1);
      ([0] + rest, end)
  }

  function ReadBlocks(data: seq<bv8>, p: Progress, minis: nat, n: nat): (out: seq<int>)
    requires p.pos <= |data| && p.out != [] && minis > 0
    decreases |data| - p.pos
  {
    if p.stop || p.left == 0 || p.pos >= |data| then p.out
    else
      var (z, pos) := ReadVarint(data, p.pos);
      var (widths, start) := ReadWidths(data, pos, minis);
      var after := MiniBlocks(data, p.(pos := start), widths, n, Unzigzag(z));
      ReadBlocks(data, after, minis, n)
  }

  const MAX_VALUES: nat := 256 * 1024 * 1024
  const MAX_BLOCK: nat := 65536
  const MAX_MINIBLOCKS: nat := 256

  /** Up to n values; fewer when the data is malformed or a sum overflows. */
  function Decode(data: seq<bv8>, n: nat): seq<int> {
    if n == 0 || data == [] || n > MAX_VALUES then []
    else
      var (block, p1) := ReadVarint(data, 0);
      var (minis, p2) := ReadVarint(data, p1);
      var (_, p3) := ReadVarint(data, p2);
      var (first, p4) := ReadVarint(data, p3);
      if minis == 0 || block == 0 || block > MAX_BLOCK || minis > MAX_MINIBLOCKS || block % minis != 0 then []
      else ReadBlocks(data, Progress([Unzigzag(first)], p4, n - 1, false), minis, block / minis)
  }

  // ----- decoding what was encoded -----

  lemma {:induction false} FollowConcat(out: seq<int>, a: seq<int>, b: seq<int>)
    requires out != []
    ensures Follow(out, a + b) == if Follow(out, a).1 then Follow(out, a) else Follow(Follow(out, a).0, b)
    decreases |a|
  {
    if a == [] {
      assert a + b == b;
    } else {
      assert (a + b)[1..] == a[1..] + b;
      var next := out[|out| - 1] + a[0];
      if Int64(next) {
        FollowConcat(out + [next], a[1..], b);
      }
    }
  }

  lemma AdjustedRestores(d: int, m: int)
    requires Int64(d) && Int64(m)
    ensures Wrap(Wrap64(d - m) + m) == d
  {
  }

  /** Packed miniblocks: what is stored for the first |ds| places restores to ds. */
  ghost predicate Stores(adj: seq<nat>, ds: seq<int>, m: int) {
    && |ds| <= |adj| && Int64(m)
    && (forall i :: 0 <= i < |adj| ==> adj[i] < TWO64)
    && (forall i :: 0 <= i < |ds| ==> Int64(ds[i]) && adj[i] == Wrap64(ds[i] - m))
  }

  lemma RestoredIs(adj: seq<nat>, ds: seq<int>, m: int)
    requires Stores(adj, ds, m)
    ensures Restored(adj[..|ds|], m) == ds
  {
    forall i | 0 <= i < |ds| ensures Restored(adj[..|ds|], m)[i] == ds[i] {
      AdjustedRestores(ds[i], m);
    }
  }

  lemma MiniSizeIs(width: nat)
    ensures MiniSize(MINI, width) == 4 * width
  {
    assert MINI * width + 7 == 8 * (4 * width) + 7;
  }

  lemma UnpackedIs(data: seq<bv8>, pos: nat, vals: seq<nat>, rest: seq<bv8>)
    requires |vals| == MINI && forall i :: 0 <= i < |vals| ==> vals[i] < TWO64
    requires pos <= |data| && data[pos..] == Pack(vals, WidthOf(vals)) + rest
    ensures Unpacked(data, pos, MINI, WidthOf(vals)) == vals
    ensures pos + MiniSize(MINI, WidthOf(vals)) == pos + |Pack(vals, WidthOf(vals))| <= |data|
  {
    hide Pack, Unpack, WidthOf, Fit;
    var w := WidthOf(vals);
    WidthFits(vals);
    MiniSizeIs(w);
    if w == 0 {
      ZeroWidth(vals);
    } else {
      PackRoundTrip(vals, w, rest + Copies<bv8>(MiniSize(MINI, w), 0));
      assert data[pos..] + Copies<bv8>(MiniSize(MINI, w), 0) ==
             Pack(vals, w) + (rest + Copies<bv8>(MiniSize(MINI, w), 0));
    }
  }

  lemma ZeroWidth(vals: seq<nat>)
    requires Fit(vals, 0)
    ensures vals == Copies(|vals|, 0)
  {
    assert Pow2(0) == 1;
  }

  /** Decoding one miniblock of which the first |ds| values are wanted. */
  lemma MiniBlockReads(data: seq<bv8>, p: Progress, adj: seq<nat>, ds: seq<int>, m: int, rest: seq<bv8>)
    requires p.pos <= |data| && p.out != [] && |adj| == MINI && Stores(adj, ds, m)
    requires data[p.pos..] == Pack(adj, WidthOf(adj)) + rest
    requires |ds| == (if p.left < MINI then p.left else MINI)
    ensures MiniBlock(data, p, WidthOf(adj), MINI, m) ==
            Progress(Follow(p.out, ds).0, p.pos + |Pack(adj, WidthOf(adj))|, p.left - |ds|, Follow(p.out, ds).1)
    ensures p.pos + |Pack(adj, WidthOf(adj))| <= |data|
    ensures data[p.pos + |Pack(adj, WidthOf(adj))|..] == rest
  {
    hide Pack, WidthOf, Unpacked, MiniSize, Restored, Follow, Fit;
    UnpackedIs(data, p.pos, adj, rest);
    WidthFits(adj);
    RestoredIs(adj, ds, m);
    assert data[p.pos + |Pack(adj, WidthOf(adj))|..] == data[p.pos..][|Pack(adj, WidthOf(adj))|..];
  }

  lemma StoresParts(adj: seq<nat>, ds: seq<int>, m: int)
    requires Stores(adj, ds, m) && |adj| >= MINI
    ensures var k := if |ds| < MINI then |ds| else MINI;
            Stores(adj[..MINI], ds[..k], m) && Stores(adj[MINI..], ds[k..], m)
  {
  }

  /** Decoding a run of miniblocks of which the first |ds| values are wanted. */
  lemma {:induction false} MiniBlocksRead(data: seq<bv8>, p: Progress, adj: seq<nat>, ds: seq<int>, m: int,
          rest: seq<bv8>)
    requires p.pos <= |data| && p.out != [] && |adj| % MINI == 0 && Stores(adj, ds, m) && !p.stop
    requires data[p.pos..] == MiniBytes(adj) + rest
    requires |ds| == (if p.left < |adj| then p.left else |adj|)
    ensures var r := MiniBlocks(data, p, Widths(adj), MINI, m);
            && r.out == Follow(p.out, ds).0 && r.stop == Follow(p.out, ds).1
            && (!r.stop ==> r.left == p.left - |ds|)
            && (!r.stop && r.left > 0 ==> data[r.pos..] == rest)
    decreases |adj|
  {
    hide Pack, WidthOf, Follow, MiniBlock, Stores;
    FollowNone(p.out);
    if ds == [] {
      if adj == [] {
        assert MiniBytes(adj) + rest == rest;
      }
    } else {
      var k := if |ds| < MINI then |ds| else MINI;
      var tail := MiniBytes(adj[MINI..]) + rest;
      assert data[p.pos..] == Pack(adj[..MINI], WidthOf(adj[..MINI])) + tail;
      StoresParts(adj, ds, m);
      MiniBlockReads(data, p, adj[..MINI], ds[..k], m, tail);
      FollowConcat(p.out, ds[..k], ds[k..]);
      assert ds == ds[..k] + ds[k..];
      var after := MiniBlock(data, p, WidthOf(adj[..MINI]), MINI, m);
      MiniBlocksUnfold(data, p, adj, m);
      if !after.stop {
        MiniBlocksRead(data, after, adj[MINI..], ds[k..], m, rest);
      } else {
        MiniBlocksStop(data, after, Widths(adj[MINI..]), m);
      }
    }
  }

  lemma FollowNone(out: seq<int>)
    requires out != []
    ensures Follow(out, []) == (out, false)
  {
  }

  lemma MiniBlocksUnfold(data: seq<bv8>, p: Progress, adj: seq<nat>, m: int)
    requires p.pos <= |data| && p.out != [] && |adj| % MINI == 0 && adj != [] && p.left > 0 && !p.stop
    ensures MiniBlocks(data, p, Widths(adj), MINI, m) ==
            MiniBlocks(data, MiniBlock(data, p, WidthOf(adj[..MINI]), MINI, m), Widths(adj[MINI..]), MINI, m)
  {
    hide WidthOf, MiniBlock;
    assert Widths(adj)[1..] == Widths(adj[MINI..]);
  }

  lemma MiniBlocksStop(data: seq<bv8>, p: Progress, widths: seq<nat>, m: int)
    requires p.pos <= |data| && p.out != [] && p.stop
    ensures MiniBlocks(data, p, widths, MINI, m) == p
  {
  }

  lemma {:induction false} ReadsWidths(data: seq<bv8>, pos: nat, ws: seq<nat>, rest: seq<bv8>)
    requires pos <= |data| && forall i :: 0 <= i < |ws| ==> ws[i] < 256
    requires data[pos..] == WidthBytes(ws) + rest
    ensures ReadWidths(data, pos, |ws|) == (ws, pos + |ws|)
    ensures pos + |ws| <= |data| && data[pos + |ws|..] == rest
    decreases |ws|
  {
    hide Byte, U8;
    assert data[pos + |ws|..] == data[pos..][|ws|..] == rest;
    if ws != [] {
      ByteValue(ws[0]);
      assert data[pos] == data[pos..][0] == WidthBytes(ws)[0];
      assert WidthBytes(ws)[1..] == WidthBytes(ws[1..]);
      assert data[pos + 1..] == data[pos..][1..] == WidthBytes(ws[1..]) + rest;
      ReadsWidths(data, pos + 1, ws[1..], rest);
      assert ws == [ws[0]] + ws[1..];
    }
  }

  lemma AdjustedStores(ds: seq<int>)
    requires 0 < |ds| <= BLOCK && AllInt64(ds)
    ensures Stores(Adjusted(ds, MinOf(ds)), ds, MinOf(ds))
  {
    hide MinOf, Wrap64;
  }

  /** What one block decodes to. */
  function AfterBlock(data: seq<bv8>, p: Progress): (r: Progress)
    requires p.pos <= |data| && p.out != []
    ensures r.pos <= |data| && r.out != []
  {
    var (z, pos) := ReadVarint(data, p.pos);
    var (widths, start) := ReadWidths(data, pos, MINIBLOCKS);
    MiniBlocks(data, p.(pos := start), widths, MINI, Unzigzag(z))
  }

  lemma BlockReads(data: seq<bv8>, p: Progress, ds: seq<int>, rest: seq<bv8>)
    requires p.pos <= |data| && p.out != [] && 0 < |ds| <= BLOCK && AllInt64(ds) && !p.stop
    requires data[p.pos..] == Block(ds) + rest
    requires |ds| == (if p.left < BLOCK then p.left else BLOCK)
    ensures var r := AfterBlock(data, p);
            && r.out == Follow(p.out, ds).0 && r.stop == Follow(p.out, ds).1
            && (!r.stop ==> r.left == p.left - |ds|)
            && (!r.stop && r.left > 0 ==> data[r.pos..] == rest)
  {
    hide Varint, ReadVarint, WidthBytes, ReadWidths, Widths, MiniBytes, MiniBlocks, Follow, Zigzag, Unzigzag, MinOf,
      Adjusted,
      Stores, Block, AfterBlock, Int64;
    var m := MinOf(ds);
    var adj := Adjusted(ds, m);
    var ws := Widths(adj);
    WidthsAre(adj);
    AdjustedStores(ds);
    BlockParts(ds);
    var tail := MiniBytes(adj) + rest;
    assert data[p.pos..] == Varint(Zigzag(m)) + (WidthBytes(ws) + tail);
    HeaderOfBlock(data, p, m, ws, tail);
    MiniBlocksRead(data, p.(pos := p.pos + |Varint(Zigzag(m))| + |ws|), adj, ds, m, rest);
  }

  lemma BlockParts(ds: seq<int>)
    requires 0 < |ds| <= BLOCK && AllInt64(ds)
    ensures var m := MinOf(ds); var adj := Adjusted(ds, m);
            && Int64(m) && (forall i :: 0 <= i < |Widths(adj)| ==> Widths(adj)[i] < 256)
            && Block(ds) == Varint(Zigzag(m)) + WidthBytes(Widths(adj)) + MiniBytes(adj)
  {
    hide Varint, WidthBytes, MiniBytes, Zigzag, Adjusted;
    WidthsAre(Adjusted(ds, MinOf(ds)));
  }

  /** The minimum and the widths in front of a block's values. */
  lemma HeaderOfBlock(data: seq<bv8>, p: Progress, m: int, ws: seq<nat>, rest: seq<bv8>)
    requires p.pos <= |data| && p.out != [] && Int64(m) && |ws| == MINIBLOCKS && forall i :: 0 <= i < |ws| ==>
               ws[i] < 256
    requires data[p.pos..] == Varint(Zigzag(m)) + (WidthBytes(ws) + rest)
    ensures var start := p.pos + |Varint(Zigzag(m))| + |ws|;
            && start <= |data| && data[start..] == rest
            && AfterBlock(data, p) == MiniBlocks(data, p.(pos := start), ws, MINI, m)
  {
    hide Varint, ReadVarint, WidthBytes, ReadWidths, MiniBlocks, Zigzag, Unzigzag;
    ZigzagRoundTrip(m);
    VarintAt(data, p.pos, Zigzag(m), WidthBytes(ws) + rest);
    ReadsWidths(data, p.pos + |Varint(Zigzag(m))|, ws, rest);
  }

  lemma ReadBlocksUnfold(data: seq<bv8>, p: Progress)
    requires p.pos < |data| && p.out != [] && !p.stop && p.left > 0
    ensures ReadBlocks(data, p, MINIBLOCKS, MINI) == ReadBlocks(data, AfterBlock(data, p), MINIBLOCKS, MINI)
  {
    hide ReadVarint, ReadWidths, MiniBlocks;
  }

  lemma ReadBlocksDone(data: seq<bv8>, p: Progress)
    requires p.pos <= |data| && p.out != [] && (p.stop || p.left == 0)
    ensures ReadBlocks(data, p, MINIBLOCKS, MINI) == p.out
  {
  }

  /** Decoding all blocks. */
  lemma {:induction false} BlocksRead(data: seq<bv8>, p: Progress, ds: seq<int>)
    requires p.pos <= |data| && p.out != [] && AllInt64(ds) && !p.stop && p.left == |ds|
    requires data[p.pos..] == Blocks(ds)
    ensures ReadBlocks(data, p, MINIBLOCKS, MINI) == Follow(p.out, ds).0
    decreases |ds|
  {
    hide Follow, ReadBlocks, Block, AfterBlock;
    FollowNone(p.out);
    if ds == [] {
      ReadBlocksDone(data, p);
    } else {
      var k := if |ds| <= BLOCK then |ds| else BLOCK;
      var rest := if |ds| <= BLOCK then [] else Blocks(ds[BLOCK..]);
      assert ds[..k] + ds[k..] == ds;
      if |ds| <= BLOCK {
        assert ds[..k] == ds && Block(ds) == Block(ds) + [];
      }
      assert data[p.pos..] == Block(ds[..k]) + rest;
      BlockReads(data, p, ds[..k], rest);
      FollowConcat(p.out, ds[..k], ds[k..]);
      ReadBlocksUnfold(data, p);
      var after := AfterBlock(data, p);
      if after.stop || after.left == 0 {
        ReadBlocksDone(data, after);
        if !after.stop {
          assert ds[k..] == [];
          FollowNone(after.out);
        }
      } else {
        BlocksRead(data, after, ds[k..]);
      }
    }
  }

  /** Every difference of neighbours from place i on fits 64 bits. */
  predicate StepsFrom(vs: seq<int>, i: nat) { forall k :: i <= k < |vs| - 1 ==> Int64(vs[k + 1] - vs[k]) }

  lemma StepsNext(vs: seq<int>, i: nat)
    requires i < |vs|
    ensures StepsFrom(vs, i) <==> i == |vs| - 1 || (Int64(vs[i + 1] - vs[i]) && StepsFrom(vs, i + 1))
  {
  }

  lemma FollowOne(out: seq<int>, ds: seq<int>)
    requires out != [] && ds != []
    ensures var next := out[|out| - 1] + ds[0];
            Follow(out, ds) == if !Int64(next) then (out, true) else Follow(out + [next], ds[1..])
  {
    hide Int64;
  }

  lemma DeltasTail(vs: seq<int>, i: nat)
    requires i < |vs| - 1
    ensures Deltas(vs)[i..] != [] && Deltas(vs)[i..][0] == Wrap(vs[i + 1] - vs[i])
    ensures Deltas(vs)[i..][1..] == Deltas(vs)[i + 1..]
  {
    hide Wrap;
  }

  lemma {:induction false} FollowsBack(vs: seq<int>, i: nat)
    requires AllInt64(vs) && i < |vs|
    ensures Follow(vs[..i + 1], Deltas(vs)[i..]).1 <==> !StepsFrom(vs, i)
    ensures var out := Follow(vs[..i + 1], Deltas(vs)[i..]).0; if StepsFrom(vs, i) then out == vs else |out| < |vs|
    decreases |vs| - i
  {
    hide StepsFrom, Follow, Deltas, Wrap;
    var out := vs[..i + 1];
    StepsNext(vs, i);
    if i == |vs| - 1 {
      assert out == vs;
      FollowNone(out);
    } else {
      DeltasTail(vs, i);
      WrapDifference(vs[i], vs[i + 1]);
      FollowOne(out, Deltas(vs)[i..]);
      if Int64(vs[i + 1] - vs[i]) {
        FollowsBack(vs, i + 1);
        assert out + [vs[i + 1]] == vs[..i + 2];
      }
    }
  }

  lemma HeaderReads(vs: seq<int>)
    requires AllInt64(vs) && 0 < |vs| < TWO64
    ensures var data := Encode(vs); data != [] && exists p4: nat ::
              p4 <= |data| && data[p4..] == Blocks(Deltas(vs)) &&
              var (block, p1) := ReadVarint(data, 0);
              var (minis, p2) := ReadVarint(data, p1);
              var (_, p3) := ReadVarint(data, p2);
              block == BLOCK && minis == MINIBLOCKS && ReadVarint(data, p3) == (Zigzag(vs[0]), p4)
  {
    hide Varint, ReadVarint, Blocks, Deltas, Zigzag;
    var data := Encode(vs);
    var t3 := Varint(Zigzag(vs[0])) + Blocks(Deltas(vs));
    var t2 := Varint(|vs|) + t3;
    var t1 := Varint(MINIBLOCKS) + t2;
    assert data[0..] == Varint(BLOCK) + t1;
    VarintAt(data, 0, BLOCK, t1);
    var p1 := |Varint(BLOCK)|;
    VarintAt(data, p1, MINIBLOCKS, t2);
    var p2 := p1 + |Varint(MINIBLOCKS)|;
    VarintAt(data, p2, |vs|, t3);
    var p3 := p2 + |Varint(|vs|)|;
    VarintAt(data, p3, Zigzag(vs[0]), Blocks(Deltas(vs)));
  }

  lemma DecodeFollows(vs: seq<int>)
    requires AllInt64(vs) && 0 < |vs| <= MAX_VALUES
    ensures Decode(Encode(vs), |vs|) == Follow([vs[0]], Deltas(vs)).0
  {
    hide Encode, ReadVarint, Blocks, Deltas, Follow, ReadBlocks, Zigzag, Unzigzag;
    HeaderReads(vs);
    var data := Encode(vs);
    ZigzagRoundTrip(vs[0]);
    var p3 := ReadVarint(data, ReadVarint(data, ReadVarint(data, 0).1).1).1;
    var p4 := ReadVarint(data, p3).1;
    BlocksRead(data, Progress([vs[0]], p4, |vs| - 1, false), Deltas(vs));
  }

  /** Delta pages read back exactly when every consecutive difference fits 64 bits; otherwise the
      decoder stops early with fewer values. */
  lemma DecodeEncoded(vs: seq<int>)
    requires AllInt64(vs) && |vs| <= MAX_VALUES
    ensures Decode(Encode(vs), |vs|) == vs <==> StepsFrom(vs, 0)
    ensures Decode(Encode(vs), |vs|) == vs <==> |Decode(Encode(vs), |vs|)| == |vs|
  {
    hide Encode, Decode, Deltas, Follow, StepsFrom, AllInt64;
    if vs == [] {
      NothingToDecode(vs);
    } else {
      DecodeFollows(vs);
      FollowsBack(vs, 0);
      assert vs[..1] == [vs[0]] && Deltas(vs)[0..] == Deltas(vs);
    }
  }

  lemma NothingToDecode(vs: seq<int>)
    requires vs == []
    ensures Decode(Encode(vs), 0) == [] && StepsFrom(vs, 0)
  {
    hide Encode;
  }
}
