/** The bump allocator: every region handed out between resets is inside its block, aligned, and apart
    from every other. */
module Arena {
  import opened Alignment
  import opened Bits
  import opened Values

  datatype Block = Block(size: nat, used: nat)

  /** What an allocation returns: a block and an offset in it. */
  datatype Region = Region(block: nat, offset: nat, size: nat, alignment: nat)

  ghost predicate PowerOfTwo(a: nat) { exists k: nat :: a == Pow2(k) }

  /** The fit test adds without a guard, so the sum is taken modulo the word size. */
  function End(b: Block, size: nat, alignment: nat): nat
    requires alignment > 0
  {
    (AlignUp(b.used, alignment) + size) % (SIZE_MAX + 1)
  }

  /** The unguarded sum passes the end of the address space. */
  predicate Wraps(b: Block, size: nat, alignment: nat)
    requires alignment > 0
  {
    AlignUp(b.used, alignment) + size > SIZE_MAX
  }

  /** The offset of the region in the block, if it seems to fit. */
  function TryOffset(b: Block, size: nat, alignment: nat): Option<nat>
    requires alignment > 0
  {
    if End(b, size, alignment) > b.size then None else Some(AlignUp(b.used, alignment))
  }

  /** A region is handed out inside its block exactly when the sum does not wrap. */
  lemma FitIsSound(b: Block, size: nat, alignment: nat)
    requires PowerOfTwo(alignment) && 0 < size <= SIZE_MAX && b.used <= b.size <= SIZE_MAX
    requires TryOffset(b, size, alignment).Some?
    ensures var at := TryOffset(b, size, alignment).value;
            b.used <= at && at + size <= b.size && at % alignment == 0 <==> !Wraps(b, size, alignment)
  {
    hide AlignUp, Pow2;
    var k: nat :| alignment == Pow2(k);
    AlignUpIsLeast(b.used, k, 0);
  }

  /** A wrapping request really is handed a region outside its block. */
  lemma WrappingEscapes()
    ensures var b := Block(65536, 1);
            TryOffset(b, 0x8000_0000_0000_0009, 0x8000_0000_0000_0000) == Some(0x8000_0000_0000_0000)
  {
    hide AlignUp;
    AlignOne(0x8000_0000_0000_0000);
  }

  lemma AlignOne(a: nat)
    requires a == 0x8000_0000_0000_0000
    ensures AlignUp(1, a) == a
  {
    hide AlignUp, RoundUp, Pow2;
    Pow2At64();
    AlignUpIsLeast(1, 63, a);
    RoundUpBounds(1, a);
    NoSmaller(RoundUp(1, a), a);
  }

  lemma NoSmaller(r: nat, a: nat)
    requires 1 <= r < 1 + a && a > 0 && r % a == 0
    ensures r == a
  {
  }

  predicate Disjoint(a: Region, b: Region) {
    a.block != b.block || a.offset + a.size <= b.offset || b.offset + b.size <= a.offset
  }

  function TotalSize(rs: seq<Region>): nat { if rs == [] then 0 else TotalSize(rs[..|rs| - 1]) + rs[|rs| - 1].size }

  /** A region inside the used part of its block, at an aligned offset. */
  predicate Placed(r: Region, blocks: seq<Block>) {
    && r.alignment > 0 && r.block < |blocks|
    && r.offset + r.size <= blocks[r.block].used <= blocks[r.block].size && r.offset % r.alignment == 0
  }

  ghost predicate Apart(live: seq<Region>) {
    forall i, j :: 0 <= i < j < |live| ==> Disjoint(live[i], live[j])
  }

  class Arena {
    const blockSize: nat
    var blocks: seq<Block>
    var totalUsed: nat
    ghost var live: seq<Region>

    /** Since the last reset: regions lie in their blocks, aligned and disjoint, and their sizes add up. */
    ghost predicate Valid()
      reads this
    {
      && (forall i :: 0 <= i < |blocks| ==> blocks[i].used <= blocks[i].size <= SIZE_MAX)
      && (forall i :: 0 <= i < |live| ==> Placed(live[i], blocks))
      && Apart(live) && totalUsed == TotalSize(live)
    }

    constructor (blockSize: nat)
      requires blockSize <= SIZE_MAX
      ensures Valid() && live == [] && this.blockSize == blockSize
    {
      this.blockSize, blocks, totalUsed, live := blockSize, [], 0, [];
    }

    /** A request fits the last block as it stands, or the sum in the fit test wraps. */
    ghost predicate CurrentWraps(size: nat, alignment: nat)
      requires alignment > 0
      reads this
    {
      blocks != [] && Wraps(blocks[|blocks| - 1], size, alignment)
    }

    /** Takes a region from the last block. */
    method TakeFromLast(size: nat, alignment: nat) returns (r: Option<Region>)
      requires Valid() && blocks != [] && PowerOfTwo(alignment) && 0 < size <= SIZE_MAX
      requires !CurrentWraps(size, alignment)
      requires blockSize <= SIZE_MAX
      modifies this
      ensures Valid() && |blocks| == |old(blocks)|
      ensures r.None? <==> TryOffset(old(blocks)[|old(blocks)| - 1], size, alignment).None?
      ensures r.None? ==> blocks == old(blocks) && live == old(live)
      ensures r.Some? ==> live == old(live) + [r.value] && r.value.size == size && r.value.alignment == alignment
    {
      hide AlignUp;
      var n := |blocks| - 1;
      var b := blocks[n];
      var at := TryOffset(b, size, alignment);
      if at.None? {
        return None;
      }
      FitIsSound(b, size, alignment);
      ghost var region := Region(n, at.value, size, alignment);
      AppendRegion(live, region, blocks, n, Block(b.size, at.value + size));
      blocks := blocks[n := Block(b.size, at.value + size)];
      totalUsed := totalUsed + size;
      live := live + [region];
      return Some(Region(n, at.value, size, alignment));
    }

    /** Allocates from the last block or, if that is full, from a new one; memory says whether the system
        can provide it. */
    method Allocate(size: nat, alignment: nat, memory: bool) returns (r: Option<Region>)
      requires Valid() && blockSize <= SIZE_MAX && size <= SIZE_MAX && alignment <= SIZE_MAX && PowerOfTwo(alignment)
      requires !CurrentWraps(size, alignment)
      modifies this
      ensures Valid()
      ensures r.None? ==> live == old(live)
      ensures r.Some? ==> live == old(live) + [r.value] && r.value.size == size && r.value.alignment == alignment
      ensures size > 0 && memory && size + alignment <= SIZE_MAX ==> r.Some?
    {
      hide AlignUp, Placed, TryOffset, Disjoint;
      if size == 0 {
        return None;
      }
      if blocks != [] {
        r := TakeFromLast(size, alignment);
        if r.Some? {
          return;
        }
      }
      if size > SIZE_MAX - alignment {
        return None;
      }
      var newSize := if size + alignment > blockSize then size + alignment else blockSize;
      MoreBlocks(live, blocks, Block(if memory then newSize else 0, 0));
      blocks := blocks + [Block(if memory then newSize else 0, 0)];
      FreshBlock(blocks[|blocks| - 1], size, alignment);
      r := TakeFromLast(size, alignment);
    }

    method BytesUsed() returns (n: nat)
      requires Valid()
      ensures n == TotalSize(live)
    {
      return totalUsed;
    }

    /** Empties every block and keeps it. */
    method Reset()
      requires Valid()
      modifies this
      ensures Valid() && live == [] && |blocks| == |old(blocks)|
    {
      hide Placed;
      var i := 0;
      while i < |blocks|
        invariant 0 <= i <= |blocks| == |old(blocks)|
        invariant forall j :: 0 <= j < |blocks| ==> blocks[j].size == old(blocks)[j].size <= SIZE_MAX
        invariant forall j :: 0 <= j < |blocks| ==> blocks[j].used <= blocks[j].size
        modifies this`blocks
      {
        blocks := blocks[i := Block(blocks[i].size, 0)];
        i := i + 1;
      }
      totalUsed := 0;
      live := [];
    }
  }

  /** A region behind everything used so far keeps all regions placed and apart. */
  lemma AppendRegion(live: seq<Region>, r: Region, blocks: seq<Block>, n: nat, after: Block)
    requires n < |blocks| && (forall i :: 0 <= i < |live| ==> Placed(live[i], blocks)) && Apart(live)
    requires r.block == n && blocks[n].used <= r.offset
    requires r.offset + r.size == after.used <= after.size == blocks[n].size
    requires r.alignment > 0 && r.offset % r.alignment == 0
    ensures var bs := blocks[n := after];
            (forall i :: 0 <= i < |live + [r]| ==> Placed((live + [r])[i], bs)) && Apart(live + [r])
    ensures TotalSize(live + [r]) == TotalSize(live) + r.size
  {
    assert (live + [r])[..|live|] == live;
    forall i | 0 <= i < |live| ensures Placed(live[i], blocks[n := after]) && Disjoint(live[i], r) {
      assert Placed(live[i], blocks);
    }
  }

  lemma MoreBlocks(live: seq<Region>, blocks: seq<Block>, b: Block)
    requires forall i :: 0 <= i < |live| ==> Placed(live[i], blocks)
    ensures forall i :: 0 <= i < |live| ==> Placed(live[i], blocks + [b])
  {
    forall i | 0 <= i < |live| ensures Placed(live[i], blocks + [b]) {
      assert Placed(live[i], blocks);
    }
  }

  /** An empty block starts at offset zero, so the sum cannot wrap, and one made for the request holds it. */
  lemma FreshBlock(b: Block, size: nat, alignment: nat)
    requires b.used == 0 && PowerOfTwo(alignment) && alignment <= SIZE_MAX && size <= SIZE_MAX
    ensures !Wraps(b, size, alignment)
    ensures TryOffset(b, size, alignment).Some? <==> size <= b.size
  {
    hide AlignUp, Pow2, RoundUp;
    var k: nat :| alignment == Pow2(k);
    AlignUpIsLeast(0, k, 0);
  }
}
