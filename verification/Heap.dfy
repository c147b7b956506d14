/** The two layered bump allocators: sbrk over the heap region, and the profiler's slab
    allocator over sbrk. Addresses are 32-bit; the heap limit lies in the lower half, where
    an aligned end plus a positive int cannot wrap. */
module Heap {
  const WORD: nat := 4
  const SLAB: nat := 1020
  const FAILED: nat := 0xFFFF_FFFF

  datatype Block = Block(addr: nat, size: nat)

  function End(b: Block): nat { b.addr + b.size }

  predicate Inside(b: Block, outer: Block) { outer.addr <= b.addr && End(b) <= End(outer) }

  predicate Apart(a: Block, b: Block) { End(a) <= b.addr || End(b) <= a.addr }

  predicate Aligned(x: int) { x % WORD == 0 }

  /** 32-bit address arithmetic. */
  function Wrap(x: nat): nat { x % 0x1_0000_0000 }

  lemma WrapSmall(x: nat)
    requires x < 0x1_0000_0000
    ensures Wrap(x) == x
  {
  }

  lemma FailedStaysOdd(size: nat)
    requires 0 < size <= SLAB && Aligned(size)
    ensures !Aligned(Wrap(FAILED + size))
  {
  }

  /** The next multiple of the word size, as the mask computes it. */
  function Align(addr: nat): (r: nat)
    ensures addr <= r < addr + WORD && Aligned(r)
  {
    (addr + 3) / WORD * WORD
  }

  ghost predicate AllApart(bs: seq<Block>)
  {
    forall i, j :: 0 <= i < j < |bs| ==> Apart(bs[i], bs[j])
  }

  ghost predicate AllIn(bs: seq<Block>, lo: nat, hi: nat)
  {
    forall i :: 0 <= i < |bs| ==> Aligned(bs[i].addr) && lo <= bs[i].addr && End(bs[i]) <= hi
  }

  lemma AlignBelow(addr: nat, limit: nat)
    ensures addr <= limit ==> addr <= Align(limit)
    ensures addr <= Align(limit) ==> Align(addr) <= Align(limit) < limit + WORD
    ensures Aligned(Align(addr)) && addr <= Align(addr)
  {
  }

  /** A new block past everything handed out so far. */
  lemma AppendBlock(bs: seq<Block>, start: nat, end: nat, addr: nat, size: nat, limit: nat)
    requires AllIn(bs, start, end) && AllIn(bs, start, limit) && AllApart(bs)
    requires start <= end <= addr && Aligned(addr) && addr + size <= limit
    ensures var bs' := bs + [Block(addr, size)];
            AllIn(bs', start, addr + size) && AllIn(bs', start, limit) && AllApart(bs')
  {
  }

  lemma AlignedParts(a: int, b: int, size: int)
    requires Aligned(a) && Aligned(b) && Aligned(size)
    ensures Aligned(a + size) && Aligned(b - size)
  {
  }

  lemma AppendApart(bs: seq<Block>, b: Block)
    requires AllApart(bs) && forall p | p in bs :: Apart(p, b)
    ensures AllApart(bs + [b])
  {
  }

  class Allocator {
    const start: nat          // __alt_heap_start
    const limit: nat          // __alt_heap_limit
    var heapEnd: nat
    var slabPtr: nat          // mcount_slab_ptr
    var slabSize: nat         // mcount_slab_size
    ghost var blocks: seq<Block>    // what sbrk handed out, slabs included
    ghost var slabs: seq<Block>     // the slabs among them
    ghost var pieces: seq<Block>    // what mcount_allocate handed out

    /** The piece is word aligned and lies in a slab. */
    ghost predicate InSlab(p: Block)
      reads this`slabs
    {
      Aligned(p.addr) && exists s | s in slabs :: Inside(p, s)
    }

    /** Blocks are word aligned, in the region and pairwise apart; each piece lies in a slab,
        apart from the other pieces and from the unused rest of the current slab. */
    ghost predicate Valid()
      reads this
    {
      && start <= heapEnd <= Align(limit) && limit < 0x8000_0000
      && AllIn(blocks, start, heapEnd) && AllIn(blocks, start, limit) && AllApart(blocks)
      && (forall s | s in slabs :: s in blocks)
      && (forall p | p in pieces :: InSlab(p))
      && AllApart(pieces)
      && Aligned(slabPtr) && Aligned(slabSize)
      && (slabSize > 0 ==> InSlab(Block(slabPtr, slabSize)))
      && (forall p | p in pieces :: Apart(p, Block(slabPtr, slabSize)))
    }

    constructor (heapStart: nat, heapLimit: nat)
      requires heapStart <= heapLimit < 0x8000_0000
      ensures Valid() && heapEnd == start == heapStart && limit == heapLimit
      ensures blocks == slabs == pieces == []
    {
      start, limit, heapEnd := heapStart, heapLimit, heapStart;
      slabPtr, slabSize := 0, 0;
      blocks, slabs, pieces := [], [], [];
    }

    /** Whether a call of sbrk would be granted: something a caller can work out first. */
    predicate Room(incr: int)
      reads this
    {
      Align(heapEnd) + incr <= limit
    }

    /** ALT_SBRK for a non-negative increment. Even a refusal aligns the end of the heap. */
    method Sbrk(incr: int) returns (r: nat)
      requires Valid() && 0 <= incr < 0x8000_0000
      modifies this`heapEnd, this`blocks
      ensures Valid()
      ensures if old(Room(incr)) then r == Align(old(heapEnd)) && blocks == old(blocks) + [Block(r, incr)]
              else r == FAILED && blocks == old(blocks)
      ensures heapEnd == Align(old(heapEnd)) + if old(Room(incr)) then incr else 0
      ensures r == FAILED <==> Align(old(heapEnd)) + incr > limit
    {
      ghost var end := heapEnd;
      heapEnd := Align(heapEnd);
      AlignBelow(end, limit);
      assert AllIn(blocks, start, heapEnd);
      WrapSmall(heapEnd + incr);
      hide Align, Aligned, AllIn, AllApart, InSlab, Wrap;
      if Wrap(heapEnd + incr) > limit {
        return FAILED;
      }
      r := heapEnd;
      AppendBlock(blocks, start, end, r, incr, limit);
      AlignBelow(r + incr, limit);
      heapEnd := heapEnd + incr;
      blocks := blocks + [Block(r, incr)];
    }

    /** Get a new slab from sbrk; a refusal is not noticed. */
    method NewSlab()
      requires Valid()
      modifies this
      ensures heapEnd >= old(heapEnd) && pieces == old(pieces) && slabSize == SLAB
      ensures if old(Room(SLAB)) then
                Valid() && slabs == old(slabs) + [Block(slabPtr, SLAB)] && slabPtr == Align(old(heapEnd))
              else slabPtr == FAILED
    {
      ghost var room := Room(SLAB);
      ghost var before := blocks;
      slabPtr := Sbrk(SLAB);
      if room {
        ghost var slab := Block(slabPtr, SLAB);
        assert forall i :: 0 <= i < |before| ==> blocks[i] == before[i];
        assert blocks[|before|] == slab;
        assert forall b | b in before :: Apart(b, slab);
        assert forall p | p in pieces :: exists s | s in slabs :: Inside(p, s) && s in before;
        slabs := slabs + [slab];
        assert Inside(slab, slab) && slab in slabs;
      }
      slabSize := SLAB;
    }

    /** A piece cut off the front of the slab and what is left of it: both lie in the same
        slab, apart from each other and from all earlier pieces. */
    lemma CutFits(size: nat)
      requires Valid() && 0 < size <= slabSize && Aligned(size)
      ensures var piece, rest := Block(slabPtr, size), Block(slabPtr + size, slabSize - size);
              && InSlab(piece) && InSlab(rest)
              && AllApart(pieces + [piece]) && (forall p | p in pieces + [piece] :: Apart(p, rest))
      ensures slabPtr + slabSize <= limit
      ensures Aligned(slabPtr + size) && Aligned(slabSize - size)
    {
      AlignedParts(slabPtr, slabSize, size);
      hide Aligned;
      var s :| s in slabs && Inside(Block(slabPtr, slabSize), s);
      assert s in blocks;
      assert Inside(Block(slabPtr, size), s) && Inside(Block(slabPtr + size, slabSize - size), s);
      AppendApart(pieces, Block(slabPtr, size));
    }

    /** Pieces and the blocks sbrk gave to others never overlap. */
    lemma PiecesApartFromBlocks(p: Block, b: Block)
      requires Valid() && p in pieces && b in blocks && b !in slabs
      ensures Apart(p, b) && Aligned(p.addr) && Aligned(b.addr)
      ensures start <= p.addr && End(p) <= limit && start <= b.addr && End(b) <= limit
    {
      assert InSlab(p);
      var s :| s in slabs && Inside(p, s);
      var i :| 0 <= i < |blocks| && blocks[i] == s;
      var j :| 0 <= j < |blocks| && blocks[j] == b;
      assert Apart(blocks[if i < j then i else j], blocks[if i < j then j else i]);
    }

    /** mcount_allocate for a word-multiple size that a slab can hold. The allocator stays
        sound exactly when the size is left in the slab or sbrk grants a new one; otherwise the
        caller gets the failure value as an address. */
    method McountAllocate(size: nat) returns (data: nat)
      requires Valid() && 0 < size <= SLAB && Aligned(size)
      modifies this
      ensures Valid() <==> size <= old(slabSize) || old(Room(SLAB))
      ensures if size <= old(slabSize) || old(Room(SLAB)) then
                && pieces == old(pieces) + [Block(data, size)]
                && data == (if size <= old(slabSize) then old(slabPtr) else Align(old(heapEnd)))
                && slabPtr == data + size
                && slabSize == (if size <= old(slabSize) then old(slabSize) else SLAB) - size
              else data == FAILED
    {
      ghost var sound := size <= slabSize || Room(SLAB);
      if size > slabSize {
        NewSlab();
      }
      data := Cut(size, sound);
    }

    /** Take a piece off the front of the slab, which is a real one if `sound`. */
    method Cut(size: nat, ghost sound: bool) returns (data: nat)
      requires 0 < size <= slabSize && size <= SLAB && Aligned(size)
      requires if sound then Valid() else slabPtr == FAILED
      modifies this`slabPtr, this`slabSize, this`pieces
      ensures Valid() <==> sound
      ensures sound ==> slabPtr == data + size
      ensures slabSize == old(slabSize) - size
      ensures data == old(slabPtr) && pieces == if sound then old(pieces) + [Block(data, size)] else old(pieces)
    {
      data := slabPtr;
      if sound {
        CutFits(size);
        WrapSmall(slabPtr + size);
      } else {
        FailedStaysOdd(size);
      }
      hide Aligned, Wrap, AllApart, AllIn, Align, InSlab, Inside, Apart;
      slabPtr := Wrap(slabPtr + size);
      slabSize := slabSize - size;
      if sound {
        pieces := pieces + [Block(data, size)];
      }
    }
  }

  /** With a heap too small for a slab, the first call of mcount_allocate hands out the failure
      value as an address and leaves an allocator that is not sound. */
  method RefusedSlab() returns (a: Allocator, data: nat)
    ensures data == FAILED && !a.Valid()
  {
    a := new Allocator(0x1000, 0x1100);
    data := a.McountAllocate(4);
  }
}
