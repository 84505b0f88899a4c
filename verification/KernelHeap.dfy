/** The kernel heap as it runs: headers and payloads in one byte array, linked in both
    directions, updated in place. */
module KernelHeap {
  import opened Machine
  import opened HeapBlocks
  import opened HeapMemory
  import opened HeapTheorems
  import opened HeapHeaders
  import opened HeapRuns

  datatype Stats = Stats(total: nat, used: nat, free: nat, allocatedBlocks: nat, freeBlocks: nat)

  class Heap {
    const mem: array<Byte>
    var heapStart: nat
    var heapEnd: nat
    var totalHeapSize: nat
    var initialized: bool
    /** The block list that the headers in memory spell out. */
    ghost var blocks: seq<Block>

    ghost predicate Valid()
      reads this, mem
    {
      && mem.Length == HEAP_SIZE
      && (initialized ==>
            && heapStart == HEAP_START
            && totalHeapSize == HEAP_SIZE
            && WellFormed(blocks)
            && Represents(mem[..], blocks)
            && heapEnd == blocks[|blocks| - 1].addr)
      && (!initialized ==> blocks == [])
    }

    /** Valid, except that two neighbours may both be free. */
    ghost predicate Valid0()
      reads this, mem
    {
      && mem.Length == HEAP_SIZE
      && initialized
      && heapStart == HEAP_START
      && totalHeapSize == HEAP_SIZE
      && Tiles(blocks)
      && Represents(mem[..], blocks)
      && blocks != []
      && heapEnd == blocks[|blocks| - 1].addr
    }

    ghost function Snapshot(): HeapState
      reads this, mem
    {
      HeapState(blocks, mem[..])
    }

    constructor ()
      ensures Valid() && !initialized
      ensures fresh(mem)
    {
      mem := new Byte[HEAP_SIZE];
      heapStart, heapEnd, totalHeapSize, initialized := 0, 0, 0, false;
      blocks := [];
    }

    method MemoryInit()
      requires Valid()
      modifies this, mem
      ensures Valid() && initialized
      ensures blocks == Initial()
    {
      hide HeaderAt;
      InitialShape();
      heapStart := HEAP_START;
      totalHeapSize := HEAP_SIZE;
      SetHeader(mem, heapStart, HEAP_SIZE - HEADER, 1, 0, 0);
      heapEnd := heapStart;
      initialized := true;
      blocks := Initial();
    }

    method FindFreeBlock(size: nat) returns (current: nat, ghost i: nat)
      requires Valid() && initialized
      ensures i == FirstFit(blocks, size)
      ensures current == if FirstFit(blocks, size) == |blocks| then 0 else blocks[FirstFit(blocks, size)].addr
    {
      current := heapStart;
      i := 0;
      while current != 0
        invariant i <= |blocks|
        invariant current == if i == |blocks| then 0 else blocks[i].addr
        invariant forall k :: 0 <= k < i ==> !(blocks[k].free && size <= blocks[k].size)
        decreases |blocks| - i
      {
        var header := HeaderAt(mem[..], current);
        if header.isFree != 0 && size <= header.size {
          FirstFitIs(blocks, size, i);
          return;
        }
        current := header.next;
        i := i + 1;
      }
      Layout(blocks);
      FirstFitIs(blocks, size, i);
    }

    method SplitBlock(block: nat, size: nat, ghost i: nat)
      requires Valid() && initialized
      requires i < |blocks| && blocks[i].addr == block && blocks[i].free
      requires size <= blocks[i].size && size % 4 == 0
      modifies `heapEnd, `blocks, mem
      ensures blocks == Split(old(blocks), i, size) && Tiles(blocks)
      ensures Represents(mem[..], blocks) && heapEnd == blocks[|blocks| - 1].addr
      ensures Kept(Live(old(blocks)), old(mem[..]), mem[..])
    {
      hide HeaderAt, Split, Live, Kept, Represents, Tiles, NoAdjacentFree;
      ReadHeader(mem[..], blocks, i);
      BlockInside(blocks, i);
      var header := HeaderAt(mem[..], block);
      if header.size <= size + HEADER {
        SplitNothing(blocks, i, size, mem[..]);
        return;
      }
      SplitTiles(blocks, i, size);
      SplitLast(blocks, i, size);
      CutBlock(mem, block, size, blocks, i);
      if header.next == 0 {
        heapEnd := block + HEADER + size;
      }
      blocks := Split(blocks, i, size);
    }

    /** Merge block i, which is free, with its free neighbours. */
    method MergeFreeBlocks(block: nat, ghost i: nat)
      requires Valid0() && i < |blocks| && blocks[i].addr == block && blocks[i].free
      modifies `heapEnd, `blocks, mem
      ensures Valid0()
      ensures blocks == GluePrev(GlueNext(old(blocks), i), i)
      ensures Kept(Live(old(blocks)), old(mem[..]), mem[..])
    {
      hide HeaderAt, Glue, Live, Kept, Represents, Tiles;
      ghost var bs, m0 := blocks, mem[..];
      var header := HeaderAt(mem[..], block);
      ReadHeader(m0, bs, i);
      ReadNeighbours(m0, bs, i);
      KeptSame(Live(bs), m0);
      if header.next != 0 && HeaderAt(mem[..], header.next).isFree != 0 {
        GlueTiles(bs, i);
        GlueLast(bs, i);
        GlueLive(bs, i);
        if HeaderAt(mem[..], header.next).next == 0 {
          heapEnd := block;
        }
        GlueBlocks(mem, block, header.next, bs, i);
        blocks := Glue(bs, i);
      }
      ghost var g, m1 := blocks, mem[..];
      assert g == GlueNext(bs, i);
      header := HeaderAt(mem[..], block);
      ReadHeader(m1, g, i);
      ReadNeighbours(m1, g, i);
      if header.prev != 0 && HeaderAt(mem[..], header.prev).isFree != 0 {
        GlueTiles(g, i - 1);
        GlueLast(g, i - 1);
        if header.next == 0 {
          heapEnd := header.prev;
        }
        GlueBlocks(mem, header.prev, block, g, i - 1);
        blocks := Glue(g, i - 1);
        KeptThen(Live(bs), Live(bs), Live(g), m0, m1, mem[..]);
      }
    }

    method Kmalloc(request: Word32) returns (p: nat)
      requires Valid()
      modifies `heapEnd, `blocks, mem
      ensures Valid()
      ensures !initialized ==> p == 0 && blocks == old(blocks)
      ensures initialized ==> blocks == Malloc(old(blocks), request).0 && p == Malloc(old(blocks), request).1
      ensures initialized ==> Step(old(Snapshot()), HeapOp.Kmalloc(request), Snapshot())
      ensures Kept(Live(old(blocks)), old(mem[..]), mem[..])
      ensures p == 0 ==> mem[..] == old(mem[..])
    {
      hide HeaderAt, Split, SetFree, Live, Kept, Represents, Tiles, NoAdjacentFree, AlignUp;
      ghost var bs, m0 := blocks, mem[..];
      KeptSame(Live(bs), m0);
      if !initialized || request == 0 {
        return 0;
      }
      var size := AlignUp(request);
      AlignUpCovers(request);
      TakeShape(bs, size);
      var block;
      ghost var i;
      block, i := FindFreeBlock(size);
      if block == 0 {
        FoundNothing(bs, i);
        return 0;
      }
      FoundBlock(bs, i, size);
      SplitBlock(block, size, i);
      ghost var m1 := mem[..];
      ChangeState(mem, block, false, blocks, i);
      SplitLive(bs, i, size);
      KeptThen(Live(bs), Live(bs), Live(bs), m0, m1, mem[..]);
      blocks := SetFree(blocks, i, false);
      p := block + HEADER;
    }

    /** Is the 32-bit address ptr - 16 inside the heap region? */
    predicate HeaderInHeap(ptr: Word32)
      reads this
    {
      var block := (ptr - HEADER) % WORD_LIMIT;
      heapStart <= block < heapStart + totalHeapSize
    }

    method Kfree(ptr: Word32)
      requires Valid()
      requires ptr != 0 && initialized && HeaderInHeap(ptr) ==> IsBlock(blocks, ptr)
      modifies `heapEnd, `blocks, mem
      ensures Valid()
      ensures blocks ==
              if ptr != 0 && initialized && HeaderInHeap(ptr) then ReleasePtr(old(blocks), ptr) else old(blocks)
      ensures Kept(Live(blocks), old(mem[..]), mem[..])
      ensures initialized && (ptr == 0 || HeaderInHeap(ptr)) ==> Step(old(Snapshot()), HeapOp.Kfree(ptr), Snapshot())
      ensures ptr == 0 || !initialized || !HeaderInHeap(ptr) ==> mem[..] == old(mem[..])
    {
      hide HeaderAt, Glue, SetFree, Live, Kept, Represents, Tiles, NoAdjacentFree;
      KeptSame(Live(blocks), mem[..]);
      if ptr == 0 || !initialized {
        ReleaseNull(blocks);
        return;
      }
      var block := (ptr - HEADER) % WORD_LIMIT;
      if block < heapStart || heapStart + totalHeapSize <= block {
        return;
      }
      ghost var bs, m0 := blocks, mem[..];
      ghost var i := IndexOf(bs, ptr - HEADER);
      ReleaseShape(bs, i);
      ReleaseLive(bs, i);
      SetFreeTiles(bs, i, true);
      SetFreeLast(bs, i, true);
      SetFreeLive(bs, i);
      ChangeState(mem, block, true, bs, i);
      ghost var m1 := mem[..];
      blocks := SetFree(bs, i, true);
      MergeFreeBlocks(block, i);
      KeptThen(Live(blocks), Live(bs), Live(bs) - {bs[i]}, m0, m1, mem[..]);
    }

    /** The last part of a resize: copy the payload over and release the old block.  The
        list and the memory before the request for the new block were bs and m0. */
    method MovePayload(ptr: Word32, newPtr: nat, newSize: Word32, ghost bs: seq<Block>, ghost m0: seq<Byte>)
      requires Valid() && initialized
      requires WellFormed(bs) && ptr != 0 && IsLive(bs, ptr) && LiveSize(bs, ptr) < newSize
               && ResizeFits(bs, ptr, newSize)
      requires newPtr == Malloc(bs, newSize).1 != 0 && blocks == Malloc(bs, newSize).0
      requires Kept(Live(bs), m0, mem[..])
      modifies `heapEnd, `blocks, mem
      ensures Valid() && blocks == ReleasePtr(old(blocks), ptr)
      ensures Step(HeapState(bs, m0), HeapOp.Krealloc(ptr, newSize), Snapshot())
      ensures newPtr != ptr && MovedBytes(m0, mem[..], ptr, newPtr, LiveSize(bs, ptr))
    {
      hide HeaderAt, Live, Kept, Represents, WellFormed, AlignUp, Malloc, SameOutside, SameBytes, MovedBytes;
      hide ReleasePtr, IsLive, IsBlock, LiveSize, IndexOf, Step, Copied, ResizeFits, WrappedSize;
      ghost var t, m1 := blocks, mem[..];
      ghost var b, c := MovePlan(bs, ptr, newSize);
      LiveInHeap(bs, ptr);
      LiveHeader(m1, t, ptr);
      var size := HeaderAt(mem[..], ptr - HEADER).size;
      Memcpy(mem, newPtr, ptr, if size < newSize then size else newSize);
      ghost var m2 := mem[..];
      PayloadWrite(m1, m2, t, c, newPtr, b.size);
      CopiedBytes(m1, m2, ptr, newPtr, b.size);
      LiveIsBlock(t, ptr);
      Kfree(ptr);
      MoveDone(bs, ptr, newSize, b, c, m0, m1, m2, mem[..]);
    }

    method Krealloc(ptr: Word32, newSize: Word32) returns (r: nat)
      requires Valid()
      requires ptr != 0 ==> initialized && IsLive(blocks, ptr) && ResizeFits(blocks, ptr, newSize)
      modifies `heapEnd, `blocks, mem
      ensures Valid()
      ensures !initialized ==> r == 0 && blocks == old(blocks) && mem[..] == old(mem[..])
      ensures initialized ==>
                blocks == Realloc(old(blocks), ptr, newSize).0 && r == Realloc(old(blocks), ptr, newSize).1
      ensures initialized ==> Step(old(Snapshot()), HeapOp.Krealloc(ptr, newSize), Snapshot())
      ensures ptr != 0 && r == 0 && newSize != 0 ==> mem[..] == old(mem[..])
      ensures ptr != 0 && r == ptr && newSize != 0 ==> mem[..] == old(mem[..])
      ensures ptr != 0 && r != 0 && r != ptr ==> MovedBytes(old(mem[..]), mem[..], ptr, r, LiveSize(old(blocks), ptr))
    {
      hide HeaderAt, Live, Kept, Represents, WellFormed, AlignUp, Malloc;
      hide Take, TakePtr, SameOutside, SameBytes, MovedBytes;
      hide Realloc, ReleasePtr, IsLive, LiveSize, IndexOf, NextBlocks, Step;
      ghost var bs, m0 := blocks, mem[..];
      ghost var op := HeapOp.Krealloc(ptr, newSize);
      if initialized {
        ReallocCases(bs, ptr, newSize);
      }
      KeptSame(Live(bs), m0);
      if ptr == 0 {
        r := Kmalloc(newSize);
        if initialized {
          StepKept(HeapState(bs, m0), op, HeapState(blocks, mem[..]));
        }
        return;
      }
      LiveInHeap(bs, ptr);
      if newSize == 0 {
        LiveIsBlock(bs, ptr);
        Kfree(ptr);
        StepKept(HeapState(bs, m0), op, HeapState(blocks, mem[..]));
        return 0;
      }
      var block := ptr - HEADER;
      LiveHeader(m0, bs, ptr);
      if newSize <= HeaderAt(mem[..], block).size {
        StepKept(HeapState(bs, m0), op, HeapState(blocks, mem[..]));
        return ptr;
      }
      var newPtr := Kmalloc(newSize);
      if newPtr == 0 {
        StepKept(HeapState(bs, m0), op, HeapState(blocks, mem[..]));
        return 0;
      }
      MovePayload(ptr, newPtr, newSize, bs, m0);
      r := newPtr;
    }

    method Kcalloc(num: Word32, size: Word32) returns (p: nat)
      requires Valid()
      requires CallocFits(blocks, CallocBytes(num, size))
      modifies `heapEnd, `blocks, mem
      ensures Valid()
      ensures !initialized ==> p == 0 && blocks == old(blocks) && mem[..] == old(mem[..])
      ensures initialized ==> (blocks, p) == Malloc(old(blocks), CallocBytes(num, size))
      ensures initialized ==> Step(old(Snapshot()), HeapOp.Kcalloc(num, size), Snapshot())
      ensures p != 0 ==>
                && HEAP_START <= p && p + CallocBytes(num, size) <= HEAP_LIMIT
                && forall k :: p - HEAP_START <= k < p - HEAP_START + CallocBytes(num, size) ==> mem[k] == 0
    {
      hide HeaderAt, Live, Kept, Represents, Tiles, NoAdjacentFree, AlignUp, Take, TakePtr, SameOutside, SameBytes;
      ghost var bs, m0 := blocks, mem[..];
      var totalSize := CallocBytes(num, size);
      p := Kmalloc(totalSize);
      if p == 0 {
        if initialized {
          StepKept(HeapState(bs, m0), HeapOp.Kcalloc(num, size), HeapState(blocks, mem[..]));
        }
      } else {
        ghost var m1 := mem[..];
        ghost var c := CallocRoom(bs, num, size);
        Memset(mem, p, 0, totalSize);
        PayloadWrite(m1, mem[..], blocks, c, p, totalSize);
        KeptThen(Live(bs), Live(bs), Live(blocks) - {c}, m0, m1, mem[..]);
        StepKept(HeapState(bs, m0), HeapOp.Kcalloc(num, size), HeapState(blocks, mem[..]));
      }
    }

    /** A client stores a byte in the payload it holds at p. */
    method ClientWrite(p: Word32, a: nat, value: Byte)
      requires Valid() && initialized
      requires Allowed(blocks, HeapOp.Write(p, a))
      modifies mem
      ensures Valid()
      ensures Step(old(Snapshot()), HeapOp.Write(p, a), Snapshot())
      ensures HEAP_START <= a < HEAP_LIMIT && mem[a - HEAP_START] == value && SameOutside(old(mem[..]), mem[..], a, 1)
    {
      hide HeaderAt, Represents, WellFormed, Allowed, Step, Live, SameOutside;
      ghost var m0 := mem[..];
      ghost var b := WriteTarget(blocks, p, a);
      StoreByte(mem, a, value);
      PayloadWrite(m0, mem[..], blocks, b, a, 1);
      WriteDone(m0, mem[..], blocks, b, p, a);
    }

    /** Walk the list and add up sizes and counts. */
    method GetStats(stats: Stats) returns (s: Stats)
      requires Valid()
      ensures !initialized ==> s == stats
      ensures initialized ==>
                s == Stats(HEAP_SIZE, Bytes(blocks, false), Bytes(blocks, true), Count(blocks, false),
                  Count(blocks, true))
      ensures initialized ==> s.used + s.free + 16 * (s.allocatedBlocks + s.freeBlocks) == 0x400000 == s.total
    {
      hide HeaderAt, Represents, Tiles, NoAdjacentFree, Bytes, Count;
      if !initialized {
        return stats;
      }
      s := Stats(totalHeapSize, 0, 0, 0, 0);
      var current := heapStart;
      ghost var i := 0;
      FirstBlock(blocks);
      while current != 0
        invariant 0 <= i <= |blocks|
        invariant current == if i == |blocks| then 0 else blocks[i].addr
        invariant s == Stats(HEAP_SIZE, Bytes(blocks[..i], false), Bytes(blocks[..i], true),
                  Count(blocks[..i], false), Count(blocks[..i], true))
        decreases |blocks| - i
      {
        CurrentBlock(mem[..], blocks, i);
        var header := HeaderAt(mem[..], current);
        if header.isFree != 0 {
          s := s.(free := s.free + header.size, freeBlocks := s.freeBlocks + 1);
        } else {
          s := s.(used := s.used + header.size, allocatedBlocks := s.allocatedBlocks + 1);
        }
        current := header.next;
        i := i + 1;
      }
      WalkedAll(blocks, i);
      Accounts(blocks);
    }
  }

  lemma FirstBlock(bs: seq<Block>)
    requires Tiles(bs)
    ensures bs != [] && bs[0].addr == HEAP_START
    ensures forall free :: Bytes(bs[..0], free) == Count(bs[..0], free) == 0
  {
  }

  lemma CurrentBlock(m: seq<Byte>, bs: seq<Block>, i: nat)
    requires Represents(m, bs) && i < |bs|
    ensures HeaderAt(m, bs[i].addr) == HeaderOf(bs, i)
    ensures forall free ::
              Bytes(bs[..i + 1], free) == Bytes(bs[..i], free) + (if bs[i].free == free then bs[i].size else 0)
    ensures forall free :: Count(bs[..i + 1], free) == Count(bs[..i], free) + (if bs[i].free == free then 1 else 0)
  {
    hide HeaderAt, HeaderOf, Bytes, Count;
    assert bs[..i + 1] == bs[..i] + [bs[i]];
    forall free: bool {
      BytesSnoc(bs[..i], bs[i], free);
    }
  }

  lemma WalkedAll(bs: seq<Block>, i: nat)
    requires Tiles(bs) && i <= |bs| && (i < |bs| ==> bs[i].addr == 0)
    ensures i == |bs| && bs[..i] == bs
  {
    FoundNothing(bs, i);
  }

  lemma FirstFitIs(bs: seq<Block>, n: nat, i: nat)
    requires i <= |bs|
    requires i < |bs| ==> bs[i].free && n <= bs[i].size
    requires forall k :: 0 <= k < i ==> !(bs[k].free && n <= bs[k].size)
    ensures FirstFit(bs, n) == i
  {
  }

  lemma SplitNothing(bs: seq<Block>, i: nat, n: nat, m: seq<Byte>)
    requires i < |bs| && bs[i].size <= n + HEADER
    ensures Split(bs, i, n) == bs && Kept(Live(bs), m, m)
  {
  }

  lemma SplitLast(bs: seq<Block>, i: nat, n: nat)
    requires i < |bs| && n + HEADER < bs[i].size
    ensures var r := Split(bs, i, n);
            r != [] && r[|r| - 1].addr == if i + 1 == |bs| then bs[i].Payload() + n else bs[|bs| - 1].addr
  {
  }

  lemma SetFreeLast(bs: seq<Block>, i: nat, free: bool)
    requires i < |bs|
    ensures var r := SetFree(bs, i, free);
            |r| == |bs| && r[i] == bs[i].(free := free) && r[|r| - 1].addr == bs[|bs| - 1].addr
  {
  }

  lemma GlueLast(bs: seq<Block>, j: nat)
    requires j + 1 < |bs|
    ensures var r := Glue(bs, j);
            |r| == |bs| - 1 && r[j].free == bs[j].free && r[j].addr == bs[j].addr &&
            r[|r| - 1].addr == if j + 2 == |bs| then bs[j].addr else bs[|bs| - 1].addr
  {
  }

  /** What the links of block i lead to. */
  lemma ReadNeighbours(m: seq<Byte>, bs: seq<Block>, i: nat)
    requires Tiles(bs) && Represents(m, bs) && i < |bs|
    ensures NextOf(bs, i) != 0 <==> i + 1 < |bs|
    ensures PrevOf(bs, i) != 0 <==> 0 < i
    ensures i + 1 < |bs| ==> HeaderAt(m, bs[i + 1].addr) == HeaderOf(bs, i + 1)
    ensures i + 2 < |bs| ==> bs[i + 2].addr != 0
    ensures 0 < i ==> HeaderAt(m, bs[i - 1].addr) == HeaderOf(bs, i - 1)
  {
    hide HeaderAt;
    Layout(bs);
  }

  lemma FoundBlock(bs: seq<Block>, i: nat, n: nat)
    requires i < |bs| && bs[i].free && n <= bs[i].size
    ensures var r := Split(bs, i, n);
            i < |r| && r[i].addr == bs[i].addr
            && var t := SetFree(r, i, false); |t| == |r| && t[|t| - 1].addr == r[|r| - 1].addr
  {
  }

  lemma FoundNothing(bs: seq<Block>, i: nat)
    requires Tiles(bs) && i <= |bs| && (i < |bs| ==> bs[i].addr == 0)
    ensures i == |bs|
  {
    if i < |bs| {
      Bounds(bs, i);
    }
  }
}
