/** Whole runs of the allocator, with client writes in between. */
module HeapRuns {
  import opened Machine
  import opened HeapBlocks
  import opened HeapMemory
  import opened HeapTheorems
  import opened HeapHeaders

  datatype HeapState = HeapState(bs: seq<Block>, m: seq<Byte>)

  /** One step of a run.  Write is a client storing a byte at address a, inside the
      payload of the live block at p. */
  datatype HeapOp =
    | Kmalloc(n: Word32)
    | Kcalloc(num: Word32, size: Word32)
    | Kfree(p: Word32)
    | Krealloc(p: Word32, n: Word32)
    | Write(p: Word32, a: nat)

  /** What the client owes: pointers to blocks (live ones to resize or write to), writes
      inside payloads, and no request that leaves krealloc or kcalloc without room for what
      they then write. */
  ghost predicate Allowed(bs: seq<Block>, op: HeapOp) {
    match op
    case Kmalloc(_) => true
    case Kcalloc(num, size) => CallocFits(bs, CallocBytes(num, size))
    case Kfree(p) => p == 0 || IsBlock(bs, p)
    case Krealloc(p, n) => p == 0 || (IsLive(bs, p) && ResizeFits(bs, p, n))
    case Write(p, a) => IsLive(bs, p) && p <= a < p + LiveSize(bs, p)
  }

  /** The payload size of the block that a request which wrapped to 0 gets: the first free
      block, whole if it is too small to be split, else nothing. */
  function WrappedSize(bs: seq<Block>): nat {
    var i := FirstFit(bs, 0);
    if i < |bs| && bs[i].size <= HEADER then bs[i].size else 0
  }

  /** A resize that moves has room for the old bytes: the request does not wrap, or no block
      is free at all, or the old payload fits what a wrapped request gets. */
  ghost predicate ResizeFits(bs: seq<Block>, p: int, n: Word32)
    requires IsLive(bs, p)
  {
    n <= 0xFFFF_FFFC || FirstFit(bs, 0) == |bs| || LiveSize(bs, p) <= WrappedSize(bs)
  }

  ghost predicate CallocFits(bs: seq<Block>, total: Word32) {
    total <= 0xFFFF_FFFC || FirstFit(bs, 0) == |bs|
  }

  function CallocBytes(num: Word32, size: Word32): Word32 {
    num * size % WORD_LIMIT
  }

  function NextBlocks(bs: seq<Block>, op: HeapOp): seq<Block> {
    match op
    case Kmalloc(n) => Malloc(bs, n).0
    case Kcalloc(num, size) => Malloc(bs, CallocBytes(num, size)).0
    case Kfree(p) => ReleasePtr(bs, p)
    case Krealloc(p, n) => Realloc(bs, p, n).0
    case Write(_, _) => bs
  }

  /** The block whose payload the client itself writes. */
  ghost function Written(op: HeapOp, b: Block): bool {
    op.Write? && op.p == b.Payload()
  }

  /** Memory m' holds at q the n bytes that memory m holds at p. */
  ghost predicate MovedBytes(m: seq<Byte>, m': seq<Byte>, p: int, q: int, n: nat) {
    && 0 <= p - HEAP_START && p - HEAP_START + n <= |m|
    && 0 <= q - HEAP_START && q - HEAP_START + n <= |m'|
    && m'[q - HEAP_START..q - HEAP_START + n] == m[p - HEAP_START..p - HEAP_START + n]
  }

  /** Is this a resize that gives the client another pointer? */
  ghost predicate Moves(bs: seq<Block>, op: HeapOp) {
    && op.Krealloc? && op.p != 0 && IsLive(bs, op.p)
    && Realloc(bs, op.p, op.n).1 != 0 && Realloc(bs, op.p, op.n).1 != op.p
  }

  /** One step: the headers spell out the next block list; every block live before and after
      keeps its bytes unless the client wrote to it; and a resize that moves delivers the old
      payload. */
  ghost predicate Step(s: HeapState, op: HeapOp, s': HeapState) {
    && s'.bs == NextBlocks(s.bs, op)
    && Represents(s'.m, s'.bs)
    && |s'.m| == |s.m|
    && (forall b :: b in Live(s.bs) && b in Live(s'.bs) && !Written(op, b) ==>
          SameBytes(s.m, s'.m, b.Payload(), b.size))
    && (Moves(s.bs, op) ==>
          MovedBytes(s.m, s'.m, op.p, Realloc(s.bs, op.p, op.n).1, LiveSize(s.bs, op.p)))
  }

  /** A run from just after memory_init. */
  ghost predicate IsRun(ss: seq<HeapState>, ops: seq<HeapOp>) {
    && |ss| == |ops| + 1
    && ss[0].bs == Initial()
    && Represents(ss[0].m, ss[0].bs)
    && (forall i, j :: 0 <= i < |ops| && j == i + 1 ==> Allowed(ss[i].bs, ops[i]) && Step(ss[i], ops[i], ss[j]))
  }

  lemma LivePtr(bs: seq<Block>, p: nat) returns (b: Block)
    requires Tiles(bs) && IsLive(bs, p)
    ensures b in Live(bs) && b.Payload() == p && b == bs[IndexOf(bs, p - HEADER)] && b.size == LiveSize(bs, p)
  {
    b := bs[IndexOf(bs, p - HEADER)];
  }

  lemma LiveIndex(bs: seq<Block>, b: Block)
    requires Tiles(bs) && b in Live(bs)
    ensures IsLive(bs, b.Payload()) && bs[IndexOf(bs, b.addr)] == b
  {
    var i :| 0 <= i < |bs| && bs[i] == b;
    IndexIsUnique(bs, i);
  }

  /** A request keeps the list well formed, keeps every live block, and on success adds
      one block of at least the rounded size at the pointer returned. */
  lemma MallocEffect(bs: seq<Block>, n: Word32)
    requires WellFormed(bs)
    ensures WellFormed(Malloc(bs, n).0)
    ensures Malloc(bs, n).1 == 0 ==> Malloc(bs, n).0 == bs
    ensures Malloc(bs, n).1 != 0 ==>
              exists b :: b !in Live(bs) && Live(Malloc(bs, n).0) == Live(bs) + {b}
                          && b.Payload() == Malloc(bs, n).1 && AlignUp(n) <= b.size <= AlignUp(n) + HEADER
  {
    AlignUpCovers(n);
    if n != 0 {
      TakeShape(bs, AlignUp(n));
      if FirstFit(bs, AlignUp(n)) < |bs| {
        TakeLive(bs, AlignUp(n));
      }
    }
  }

  /** A request returns NULL exactly if it asks for nothing or no gap takes the rounded size
      behind a header of 16 bytes; otherwise the payload of the lowest such gap. */
  lemma MallocOutcome(bs: seq<Block>, n: Word32)
    requires WellFormed(bs)
    ensures Malloc(bs, n).1 == 0 <==> n == 0 || forall x: nat :: !Gap(bs, x, AlignUp(n))
    ensures Malloc(bs, n).1 != 0 ==>
              && Gap(bs, Malloc(bs, n).1 - 16, AlignUp(n))
              && forall x: nat :: Gap(bs, x, AlignUp(n)) ==> Malloc(bs, n).1 - 16 <= x
  {
    hide Take, TakePtr, AlignUp, Gap;
    TakeLowestGap(bs, AlignUp(n));
  }

  /** The heap starts as one free block at 2 MB, four megabytes with its header. */
  lemma InitialHeap()
    ensures Initial() == [Block(0x20_0000, 0x3F_FFF0, true)]
  {
  }

  lemma ReallocShape(bs: seq<Block>, p: nat, n: Word32)
    requires WellFormed(bs) && (p == 0 || IsLive(bs, p))
    ensures WellFormed(Realloc(bs, p, n).0)
  {
    hide Take, TakePtr, AlignUp, Release, Tiles, NoAdjacentFree;
    MallocEffect(bs, n);
    if p != 0 {
      MoveKeepsOld(bs, p, n);
      ReleasePtrLive(bs, p);
      var t := Malloc(bs, n).0;
      ReleasePtrLive(t, p);
    }
  }

  /** The block being resized is still live after the request for its successor. */
  lemma MoveKeepsOld(bs: seq<Block>, p: nat, n: Word32)
    requires WellFormed(bs) && IsLive(bs, p)
    ensures var t := Malloc(bs, n).0;
            IsLive(t, p) && t[IndexOf(t, p - HEADER)] == bs[IndexOf(bs, p - HEADER)]
  {
    hide Malloc;
    MallocEffect(bs, n);
    var b := LivePtr(bs, p);
    LiveIndex(Malloc(bs, n).0, b);
  }

  /** Releasing NULL does nothing. */
  lemma ReleaseNull(bs: seq<Block>)
    ensures ReleasePtr(bs, 0) == bs
  {
  }

  /** Every operation keeps the list well formed. */
  lemma StepShape(bs: seq<Block>, op: HeapOp)
    requires WellFormed(bs) && Allowed(bs, op)
    ensures WellFormed(NextBlocks(bs, op))
  {
    hide Malloc, Realloc, Tiles, NoAdjacentFree, Release;
    match op
    case Kmalloc(n) => MallocEffect(bs, n);
    case Kcalloc(num, size) => MallocEffect(bs, CallocBytes(num, size));
    case Kfree(p) =>
      if p == 0 {
        ReleaseNull(bs);
      } else {
        ReleasePtrLive(bs, p);
      }
    case Krealloc(p, n) => ReallocShape(bs, p, n);
    case Write(_, _) =>
  }

  /** In every state of every run the headers found in memory tile the heap, link both
      ways, and leave no two free neighbours. */
  lemma {:induction false} RunShape(ss: seq<HeapState>, ops: seq<HeapOp>, k: nat)
    requires IsRun(ss, ops) && k < |ss|
    ensures WellFormed(ss[k].bs) && Represents(ss[k].m, ss[k].bs)
  {
    hide Represents, Tiles, NoAdjacentFree, Allowed, NextBlocks;
    if k == 0 {
      InitialShape();
    } else {
      RunShape(ss, ops, k - 1);
      assert Step(ss[k - 1], ops[k - 1], ss[k]);
      StepShape(ss[k - 1].bs, ops[k - 1]);
    }
  }

  /** Between states i and j of a run, a block that stays live and that its owner does not
      write to keeps every byte of its payload. */
  lemma {:induction false} RunKeepsPayload(ss: seq<HeapState>, ops: seq<HeapOp>, i: nat, j: nat, b: Block)
    requires IsRun(ss, ops) && i <= j < |ss|
    requires forall k :: i <= k <= j ==> b in Live(ss[k].bs)
    requires forall k :: i <= k < j ==> !Written(ops[k], b)
    ensures SameBytes(ss[i].m, ss[j].m, b.Payload(), b.size)
    decreases j
  {
    hide Represents, Allowed, NextBlocks, Live;
    if i < j {
      RunKeepsPayload(ss, ops, i, j - 1, b);
      assert Step(ss[j - 1], ops[j - 1], ss[j]);
    }
  }

  /** No request of the step wraps around in the round-up. */
  predicate NoWrap(op: HeapOp) {
    match op
    case Kmalloc(n) => n <= 0xFFFF_FFFC
    case Kcalloc(num, size) => CallocBytes(num, size) <= 0xFFFF_FFFC
    case Krealloc(_, n) => n <= 0xFFFF_FFFC
    case _ => true
  }

  lemma MallocPositive(bs: seq<Block>, n: Word32)
    requires WellFormed(bs) && AllPositive(bs) && n <= 0xFFFF_FFFC
    ensures AllPositive(Malloc(bs, n).0)
  {
    hide Take, TakePtr;
    if n != 0 {
      AlignUpCovers(n);
      TakeKeepsPositive(bs, AlignUp(n));
    }
  }

  lemma ReleasePtrPositive(bs: seq<Block>, p: int)
    requires AllPositive(bs)
    ensures AllPositive(ReleasePtr(bs, p))
  {
    hide Release;
    if IndexOf(bs, p - HEADER) < |bs| {
      ReleaseKeepsPositive(bs, IndexOf(bs, p - HEADER));
    }
  }

  lemma StepPositive(bs: seq<Block>, op: HeapOp)
    requires WellFormed(bs) && AllPositive(bs) && Allowed(bs, op) && NoWrap(op)
    ensures AllPositive(NextBlocks(bs, op))
  {
    hide Malloc, AllPositive, ReleasePtr, WellFormed;
    match op
    case Kmalloc(n) => MallocPositive(bs, n);
    case Kcalloc(num, size) => MallocPositive(bs, CallocBytes(num, size));
    case Kfree(p) => ReleasePtrPositive(bs, p);
    case Krealloc(p, n) =>
      MallocPositive(bs, n);
      ReleasePtrPositive(bs, p);
      ReleasePtrPositive(Malloc(bs, n).0, p);
    case Write(_, _) =>
  }

  lemma InitialPositive()
    ensures AllPositive(Initial())
  {
  }

  /** As long as no request wraps, no block is ever empty. */
  lemma {:induction false} RunPositive(ss: seq<HeapState>, ops: seq<HeapOp>, k: nat)
    requires IsRun(ss, ops) && k < |ss| && forall i :: 0 <= i < k ==> NoWrap(ops[i])
    ensures AllPositive(ss[k].bs)
  {
    hide Represents, Tiles, NoAdjacentFree, Allowed, NextBlocks, NoWrap, AllPositive;
    if k == 0 {
      InitialPositive();
    } else {
      RunPositive(ss, ops, k - 1);
      RunShape(ss, ops, k - 1);
      assert Step(ss[k - 1], ops[k - 1], ss[k]);
      StepPositive(ss[k - 1].bs, ops[k - 1]);
    }
  }

  /** One wrapped request on the fresh heap is enough for an empty block. */
  lemma WrapLeavesEmptyBlock()
    ensures !AllPositive(NextBlocks(Initial(), Kmalloc(0xFFFF_FFFF)))
  {
    AlignUpCovers(0xFFFF_FFFF);
    InitialShape();
    TakeKeepsPositive(Initial(), 0);
  }

  // ---------------------------------------------------------------- room for what is written

  lemma TakeSize(bs: seq<Block>, n: nat)
    requires FirstFit(bs, n) < |bs|
    ensures var i := FirstFit(bs, n);
            i < |Take(bs, n)| && Take(bs, n)[i].size == if bs[i].size <= n + HEADER then bs[i].size else n
  {
  }

  /** The block a successful request adds.  It is as large as asked for, unless the request
      wrapped. */
  lemma NewBlock(bs: seq<Block>, n: Word32) returns (c: Block)
    requires WellFormed(bs) && Malloc(bs, n).1 != 0
    ensures var t := Malloc(bs, n).0;
            && WellFormed(t) && c !in Live(bs) && Live(t) == Live(bs) + {c}
            && c.Payload() == Malloc(bs, n).1
            && HEAP_START + HEADER <= c.Payload() && c.End() <= HEAP_LIMIT
    ensures n <= 0xFFFF_FFFC ==> n <= c.size
    ensures 0xFFFF_FFFC < n ==> FirstFit(bs, 0) < |bs| && c.size == WrappedSize(bs)
  {
    hide Take, TakePtr, AlignUp, FirstFit, WellFormed;
    AlignUpCovers(n);
    var a := AlignUp(n);
    c := TakenBlock(bs, a);
  }

  lemma TakenBlock(bs: seq<Block>, a: nat) returns (c: Block)
    requires WellFormed(bs) && a % 4 == 0 && TakePtr(bs, a) != 0
    ensures var t := Take(bs, a);
            && WellFormed(t) && c !in Live(bs) && Live(t) == Live(bs) + {c} && c.Payload() == TakePtr(bs, a)
            && HEAP_START + HEADER <= c.Payload() && c.End() <= HEAP_LIMIT
    ensures a <= c.size
    ensures a == 0 ==> FirstFit(bs, 0) < |bs| && c.size == WrappedSize(bs)
  {
    hide Take, Tiles, NoAdjacentFree, FirstFit;
    TakeShape(bs, a);
    TakeLive(bs, a);
    TakeSize(bs, a);
    c := Take(bs, a)[FirstFit(bs, a)];
    LiveIndex(Take(bs, a), c);
    LiveInHeap(Take(bs, a), c.Payload());
  }

  /** The new block of a resize has room for the bytes krealloc copies exactly if the request
      does not wrap, or the old payload fits the first free block and that is too small to be
      split. */
  lemma ResizeRoom(bs: seq<Block>, p: nat, n: Word32) returns (c: Block)
    requires WellFormed(bs) && IsLive(bs, p) && LiveSize(bs, p) < n && Malloc(bs, n).1 != 0
    ensures c !in Live(bs) && Live(Malloc(bs, n).0) == Live(bs) + {c} && c.Payload() == Malloc(bs, n).1
    ensures LiveSize(bs, p) <= c.size <==> n <= 0xFFFF_FFFC || LiveSize(bs, p) <= WrappedSize(bs)
    ensures LiveSize(bs, p) <= c.size <==> ResizeFits(bs, p, n)
  {
    hide Malloc, WellFormed, IsLive, LiveSize, WrappedSize;
    c := NewBlock(bs, n);
  }

  /** The block kcalloc gets has room for the bytes it clears exactly if the size it computes
      is at most 0xFFFFFFFC, and for num * size bytes exactly if the true product is. */
  lemma CallocRoom(bs: seq<Block>, num: Word32, size: Word32) returns (c: Block)
    requires WellFormed(bs) && Malloc(bs, CallocBytes(num, size)).1 != 0
    ensures var t := Malloc(bs, CallocBytes(num, size)).0;
            && c !in Live(bs) && Live(t) == Live(bs) + {c} && c.Payload() == Malloc(bs, CallocBytes(num, size)).1
            && HEAP_START + HEADER <= c.Payload() && c.End() <= HEAP_LIMIT
    ensures CallocBytes(num, size) <= c.size <==> CallocBytes(num, size) <= 0xFFFF_FFFC
    ensures CallocBytes(num, size) <= c.size <==> CallocFits(bs, CallocBytes(num, size))
    ensures num * size <= c.size <==> num * size <= 0xFFFF_FFFC
  {
    hide Malloc, WellFormed;
    c := NewBlock(bs, CallocBytes(num, size));
    ProductWraps(num, size);
  }

  lemma ProductWraps(num: Word32, size: Word32)
    ensures num * size < WORD_LIMIT ==> CallocBytes(num, size) == num * size
  {
  }

  /** kcalloc(1, 0xFFFFFFFF) on the fresh heap gets an empty block, and clears 0xFFFFFFFF
      bytes. */
  lemma CallocOverruns()
    ensures Malloc(Initial(), CallocBytes(1, 0xFFFF_FFFF)) == (SetFree(Split(Initial(), 0, 0), 0, false), 0x20_0010)
    ensures SetFree(Split(Initial(), 0, 0), 0, false)[0] == Block(HEAP_START, 0, false)
    ensures !CallocFits(Initial(), CallocBytes(1, 0xFFFF_FFFF))
  {
    var n: Word32 := 0xFFFF_FFFF;
    assert CallocBytes(1, n) == n && AlignUp(n) == 0;
    assert FirstFit(Initial(), 0) == 0;
  }

  /** kmalloc(4), then krealloc of it to 0xFFFFFFFF: the new block, at 0x200024, is empty, and
      four bytes are copied into it. */
  lemma ResizeOverruns()
    ensures var bs := [Block(0x20_0000, 4, false), Block(0x20_0014, 0x3F_FFDC, true)];
            && Malloc(Initial(), 4) == (bs, 0x20_0010)
            && IsLive(bs, 0x20_0010) && LiveSize(bs, 0x20_0010) == 4
            && Malloc(bs, 0xFFFF_FFFF).1 == 0x20_0024 && Malloc(bs, 0xFFFF_FFFF).0[1] == Block(0x20_0014, 0, false)
            && !ResizeFits(bs, 0x20_0010, 0xFFFF_FFFF)
  {
    var n: Word32 := 0xFFFF_FFFF;
    assert AlignUp(n) == 0 && AlignUp(4) == 4;
    var bs := [Block(0x20_0000, 4, false), Block(0x20_0014, 0x3F_FFDC, true)];
    assert FirstFit(Initial(), 4) == 0;
    assert Take(Initial(), 4) == bs;
    assert IndexOf(bs, 0x20_0000) == 0;
    assert bs[1..][0] == bs[1];
    assert FirstFit(bs, 0) == 1;
  }

  /** What a resize of a live block b to n bytes means: the pointer is kept exactly if the
      block is large enough; NULL is returned exactly if it is not and no gap is; otherwise a
      new block takes the place of b among the live ones.  The list changes in the last case
      only. */
  lemma ResizeOutcome(bs: seq<Block>, p: Word32, n: Word32)
    requires WellFormed(bs) && p != 0 && IsLive(bs, p) && n != 0
    ensures var (t, r) := Realloc(bs, p, n);
            var b := bs[IndexOf(bs, p - HEADER)];
            && (r == p <==> n <= b.size)
            && (r == 0 <==> b.size < n && forall x: nat :: !Gap(bs, x, AlignUp(n)))
            && (r == p || r == 0 ==> t == bs)
            && (r != p && r != 0 ==>
                  exists c :: c !in Live(bs) && c.Payload() == r && Live(t) == Live(bs) - {b} + {c}
                              && (n <= 0xFFFF_FFFC ==> n <= c.size))
  {
    hide Take, TakePtr, AlignUp, Release, Tiles, NoAdjacentFree, Gap;
    ReallocCases(bs, p, n);
    TakeLowestGap(bs, AlignUp(n));
    var b := LivePtr(bs, p);
    if b.size < n && Malloc(bs, n).1 != 0 {
      var c := NewBlock(bs, n);
      MoveKeepsOld(bs, p, n);
      ReleasePtrLive(Malloc(bs, n).0, p);
      LiveIndex(bs, b);
      NewPointer(bs, n, b);
    }
  }

  lemma NewPointer(bs: seq<Block>, n: Word32, b: Block)
    requires WellFormed(bs) && Malloc(bs, n).1 != 0 && b in Live(bs)
    ensures Malloc(bs, n).1 != b.Payload()
  {
    AlignUpCovers(n);
    TakeLive(bs, AlignUp(n));
  }

  // ---------------------------------------------------------------- steps from frames

  lemma StepKept(s: HeapState, op: HeapOp, s': HeapState)
    requires s'.bs == NextBlocks(s.bs, op) && Represents(s'.m, s'.bs)
    requires (Kept(Live(s.bs), s.m, s'.m) || Kept(Live(s'.bs), s.m, s'.m)) && !Moves(s.bs, op)
    ensures Step(s, op, s')
  {
    hide Represents, NextBlocks, Live, Moves;
  }

  lemma LiveInHeap(bs: seq<Block>, p: nat)
    requires WellFormed(bs) && IsLive(bs, p)
    ensures HEAP_START + HEADER <= p && p + LiveSize(bs, p) <= HEAP_LIMIT
  {
    Bounds(bs, IndexOf(bs, p - HEADER));
  }

  lemma SameMoved(m: seq<Byte>, m': seq<Byte>, p: int, n: nat)
    requires SameBytes(m, m', p, n) && 0 <= p - HEAP_START && p - HEAP_START + n <= |m|
    ensures MovedBytes(m, m', p, p, n)
  {
    assert forall k :: p - HEAP_START <= k < p - HEAP_START + n ==> m[k] == m'[k];
  }

  /** The old block b and the new block c of a resize that moves. */
  lemma MovePlan(bs: seq<Block>, p: nat, n: Word32) returns (b: Block, c: Block)
    requires WellFormed(bs) && IsLive(bs, p) && LiveSize(bs, p) < n && ResizeFits(bs, p, n) && Malloc(bs, n).1 != 0
    ensures var t := Malloc(bs, n).0;
            && WellFormed(t) && IsLive(t, p) && t[IndexOf(t, p - HEADER)] == b
            && b in Live(bs) && b in Live(t) && b.Payload() == p && b.size == LiveSize(bs, p) == LiveSize(t, p)
            && c !in Live(bs) && Live(t) == Live(bs) + {c} && c.Payload() == Malloc(bs, n).1
            && b.size <= c.size
            && (b.End() <= c.addr || c.End() <= b.addr)
            && HEAP_START + HEADER <= c.Payload() && c.End() <= HEAP_LIMIT
  {
    hide Malloc, AlignUp, WellFormed, WrappedSize;
    c := NewBlock(bs, n);
    var t := Malloc(bs, n).0;
    assert Tiles(bs) && Tiles(t) by {
      ShapeTiles(bs);
      ShapeTiles(t);
    }
    b := LivePtr(bs, p);
    MoveKeepsOld(bs, p, n);
    LiveDisjoint(t, b, c);
  }

  /** The block a client writes to. */
  lemma WriteTarget(bs: seq<Block>, p: Word32, a: nat) returns (b: Block)
    requires WellFormed(bs) && Allowed(bs, Write(p, a))
    ensures b in Live(bs) && b.Payload() == p <= a < b.End()
    ensures HEAP_START <= a < HEAP_LIMIT
  {
    b := LivePtr(bs, p);
    LiveInHeap(bs, p);
  }

  lemma WriteDone(m: seq<Byte>, m': seq<Byte>, bs: seq<Block>, b: Block, p: Word32, a: nat)
    requires Represents(m', bs) && Kept(Live(bs) - {b}, m, m') && b.Payload() == p
    ensures Step(HeapState(bs, m), Write(p, a), HeapState(bs, m'))
  {
    hide Represents, Live, SameBytes;
  }

  lemma ReallocCases(bs: seq<Block>, p: Word32, n: Word32)
    requires WellFormed(bs) && (p == 0 || IsLive(bs, p))
    ensures NextBlocks(bs, Krealloc(p, n)) == Realloc(bs, p, n).0
    ensures p == 0 ==> Realloc(bs, p, n) == Malloc(bs, n)
    ensures p != 0 && n == 0 ==> Realloc(bs, p, n) == (ReleasePtr(bs, p), 0)
    ensures p != 0 && n != 0 && n <= LiveSize(bs, p) ==> Realloc(bs, p, n) == (bs, p)
    ensures p != 0 && n != 0 && LiveSize(bs, p) < n && Malloc(bs, n).1 == 0 ==>
              Realloc(bs, p, n) == (bs, 0) && Malloc(bs, n).0 == bs
    ensures p != 0 && n != 0 && LiveSize(bs, p) < n && Malloc(bs, n).1 != 0 ==>
              Realloc(bs, p, n) == (ReleasePtr(Malloc(bs, n).0, p), Malloc(bs, n).1)
  {
    hide Malloc, ReleasePtr;
    MallocEffect(bs, n);
  }

  lemma LiveHeader(m: seq<Byte>, bs: seq<Block>, p: nat)
    requires Represents(m, bs) && IsLive(bs, p)
    ensures HeaderAt(m, p - HEADER).size == LiveSize(bs, p)
  {
  }

  lemma CopiedBytes(m: seq<Byte>, m': seq<Byte>, p: int, q: int, n: nat)
    requires 0 <= p - HEAP_START && p - HEAP_START + n <= |m|
    requires 0 <= q - HEAP_START && q - HEAP_START + n <= |m'|
    requires m'[q - HEAP_START..q - HEAP_START + n] == m[p - HEAP_START..p - HEAP_START + n]
    ensures MovedBytes(m, m', p, q, n)
  {
  }

  lemma ShapeTiles(bs: seq<Block>)
    requires WellFormed(bs)
    ensures Tiles(bs)
  {
  }

  /** A resize that moves copies the old payload and touches no other live block.  The
      memories are those before, after the request, after the copy, after the release. */
  lemma MoveDone(bs: seq<Block>, p: Word32, n: Word32, b: Block, c: Block, m0: seq<Byte>, m1: seq<Byte>,
                 m2: seq<Byte>, m3: seq<Byte>)
    requires WellFormed(bs) && IsLive(bs, p) && p != 0 && n != 0 && LiveSize(bs, p) < n && Malloc(bs, n).1 != 0
    requires var t := Malloc(bs, n).0;
             && WellFormed(t) && IsLive(t, p) && t[IndexOf(t, p - HEADER)] == b
             && b in Live(bs) && b.Payload() == p && b.size == LiveSize(bs, p)
             && c !in Live(bs) && Live(t) == Live(bs) + {c} && b.size <= c.size && c.Payload() == Malloc(bs, n).1
             && HEAP_START + HEADER <= p && b.End() <= HEAP_LIMIT
             && HEAP_START + HEADER <= c.Payload() && c.End() <= HEAP_LIMIT
             && Kept(Live(bs), m0, m1) && Kept(Live(t) - {c}, m1, m2) && Kept(Live(ReleasePtr(t, p)), m2, m3)
             && MovedBytes(m1, m2, p, c.Payload(), b.size)
             && Represents(m3, ReleasePtr(t, p))
    ensures Step(HeapState(bs, m0), Krealloc(p, n), HeapState(ReleasePtr(Malloc(bs, n).0, p), m3))
    ensures MovedBytes(m0, m3, p, c.Payload(), b.size)
  {
    hide WellFormed, Malloc, ReleasePtr, Represents, IsLive, LiveSize, IndexOf;
    hide NextBlocks, Live, Realloc, SameBytes, Step, MovedBytes;
    var t := Malloc(bs, n).0;
    var r := ReleasePtr(t, p);
    LiveIsBlock(t, p);
    ReleasePtrLive(t, p);
    ReallocCases(bs, p, n);
    var s := Live(bs) * Live(r);
    KeptThen(s, Live(bs), Live(t) - {c}, m0, m1, m2);
    KeptThen(s, s, Live(r), m0, m2, m3);
    SameFewer(m2, m3, c.Payload(), c.size, b.size);
    MovedThrough(m0, m1, m2, m3, p, c.Payload(), b.size);
    StepKeptBoth(HeapState(bs, m0), Krealloc(p, n), HeapState(r, m3));
  }

  lemma SameFewer(m: seq<Byte>, m': seq<Byte>, a: int, n: nat, k: nat)
    requires SameBytes(m, m', a, n) && k <= n
    ensures SameBytes(m, m', a, k)
  {
  }

  lemma StepKeptBoth(s: HeapState, op: HeapOp, s': HeapState)
    requires s'.bs == NextBlocks(s.bs, op) && Represents(s'.m, s'.bs)
    requires Kept(Live(s.bs) * Live(s'.bs), s.m, s'.m)
    requires Moves(s.bs, op) ==>
               MovedBytes(s.m, s'.m, op.p, Realloc(s.bs, op.p, op.n).1, LiveSize(s.bs, op.p))
    ensures Step(s, op, s')
  {
    hide Represents, NextBlocks, Live, Moves, Realloc, LiveSize, MovedBytes;
  }

  /** Bytes that stay where they are, are copied, and stay where they went. */
  lemma MovedThrough(m0: seq<Byte>, m1: seq<Byte>, m2: seq<Byte>, m3: seq<Byte>, p: int, q: int, n: nat)
    requires SameBytes(m0, m1, p, n) && MovedBytes(m1, m2, p, q, n) && SameBytes(m2, m3, q, n)
    ensures MovedBytes(m0, m3, p, q, n)
  {
    SameMoved(m0, m1, p, n);
    SameMoved(m2, m3, q, n);
  }

  // ---------------------------------------------------------------- following a client's bytes

  /** The pointer a client holds after a step, if it held p before: a resize may move it. */
  ghost function Follow(bs: seq<Block>, op: HeapOp, p: nat): nat {
    if op.Krealloc? && op.p == p && Realloc(bs, p, op.n).1 != 0 then Realloc(bs, p, op.n).1 else p
  }

  /** The step neither releases nor writes to the block at p. */
  predicate Spares(op: HeapOp, p: nat) {
    match op
    case Kfree(q) => q != p
    case Krealloc(q, n) => q != p || n != 0
    case Write(q, _) => q != p
    case _ => true
  }

  lemma OtherBlock(bs: seq<Block>, q: nat, b: Block)
    requires Tiles(bs) && b in Live(bs) && IsBlock(bs, q) && q != b.Payload()
    ensures bs[IndexOf(bs, q - HEADER)] != b
  {
  }

  lemma BlockStays(bs: seq<Block>, op: HeapOp, b: Block)
    requires WellFormed(bs) && Allowed(bs, op) && b in Live(bs) && Spares(op, b.Payload()) && b.Payload() != 0
    requires Follow(bs, op, b.Payload()) == b.Payload()
    ensures b in Live(NextBlocks(bs, op))
  {
    hide Malloc, Realloc, ReleasePtr, Live, IsLive, IsBlock, IndexOf;
    hide NoAdjacentFree, Tiles, ResizeFits, CallocFits, AlignUp;
    ShapeTiles(bs);
    match op
    case Kmalloc(n) => MallocEffect(bs, n);
    case Kcalloc(num, size) => MallocEffect(bs, CallocBytes(num, size));
    case Kfree(q) =>
      if q == 0 {
        ReleaseNull(bs);
      } else {
        ReleasePtrLive(bs, q);
        OtherBlock(bs, q, b);
      }
    case Krealloc(q, n) =>
      ReallocCases(bs, q, n);
      MallocEffect(bs, n);
      if q != 0 {
        LiveIsBlock(bs, q);
        if n == 0 {
          ReleasePtrLive(bs, q);
          OtherBlock(bs, q, b);
        } else {
          ResizeOutcome(bs, q, n);
          if q != b.Payload() {
            OtherBlock(bs, q, b);
          }
        }
      }
    case Write(_, _) =>
  }

  lemma StaysFollowed(s: HeapState, op: HeapOp, s': HeapState, p: Word32)
    requires WellFormed(s.bs) && WellFormed(s'.bs) && Allowed(s.bs, op) && Step(s, op, s') && |s.m| == HEAP_SIZE
    requires p != 0 && IsLive(s.bs, p) && Spares(op, p) && Follow(s.bs, op, p) == p
    ensures IsLive(s'.bs, p) && LiveSize(s'.bs, p) == LiveSize(s.bs, p)
    ensures MovedBytes(s.m, s'.m, p, p, LiveSize(s.bs, p))
  {
    hide NextBlocks, Represents, Allowed, Live, SameBytes, MovedBytes, Moves, Follow, NoAdjacentFree;
    var b := LivePtr(s.bs, p);
    LiveInHeap(s.bs, p);
    BlockStays(s.bs, op, b);
    LiveIndex(s'.bs, b);
    SameMoved(s.m, s'.m, p, b.size);
  }

  lemma MoveFollowed(bs: seq<Block>, p: Word32, n: Word32)
    requires WellFormed(bs) && Allowed(bs, Krealloc(p, n)) && Moves(bs, Krealloc(p, n))
    ensures var (t, r) := Realloc(bs, p, n);
            IsLive(t, r) && LiveSize(bs, p) <= LiveSize(t, r)
  {
    hide Malloc, Realloc, ReleasePtr, Live, IsBlock, IndexOf, ResizeFits, LiveSize, NoAdjacentFree, Tiles;
    ReallocCases(bs, p, n);
    ResizeOutcome(bs, p, n);
    LivePtrSize(bs, p);
    var b, c := MovePlan(bs, p, n);
    var t := Malloc(bs, n).0;
    LiveIsBlock(t, p);
    ReleasePtrLive(t, p);
    var r := ReleasePtr(t, p);
    ShapeTiles(r);
    LiveIndex(r, c);
    LivePtrSize(r, c.Payload());
  }

  lemma LivePtrSize(bs: seq<Block>, p: nat)
    requires IsLive(bs, p)
    ensures LiveSize(bs, p) == bs[IndexOf(bs, p - HEADER)].size
  {
  }

  /** In one step the bytes a client holds at p end up where its pointer leads then, in a
      block at least as large. */
  lemma StepFollows(s: HeapState, op: HeapOp, s': HeapState, p: Word32)
    requires WellFormed(s.bs) && WellFormed(s'.bs) && Allowed(s.bs, op) && Step(s, op, s') && |s.m| == HEAP_SIZE
    requires p != 0 && IsLive(s.bs, p) && Spares(op, p)
    ensures var q := Follow(s.bs, op, p);
            && IsLive(s'.bs, q) && LiveSize(s.bs, p) <= LiveSize(s'.bs, q)
            && MovedBytes(s.m, s'.m, p, q, LiveSize(s.bs, p))
  {
    hide Represents, Allowed, Live, SameBytes, MovedBytes, NoAdjacentFree, Realloc, IsLive, LiveSize;
    if Follow(s.bs, op, p) == p {
      StaysFollowed(s, op, s', p);
    } else {
      MoveFollowed(s.bs, p, op.n);
    }
  }

  /** The pointer to which p, held in state i of a run, has led in state j. */
  ghost function Pointer(ss: seq<HeapState>, ops: seq<HeapOp>, p: nat, i: nat, j: nat): nat
    requires i <= j < |ss| && |ss| == |ops| + 1
    decreases j
  {
    if i == j then p else Follow(ss[j - 1].bs, ops[j - 1], Pointer(ss, ops, p, i, j - 1))
  }

  lemma MovedChain(m0: seq<Byte>, m1: seq<Byte>, m2: seq<Byte>, p: int, q: int, r: int, n: nat, k: nat)
    requires MovedBytes(m0, m1, p, q, n) && MovedBytes(m1, m2, q, r, k) && n <= k
    ensures MovedBytes(m0, m2, p, r, n)
  {
    var a, b, c := p - HEAP_START, q - HEAP_START, r - HEAP_START;
    assert m2[c..c + n] == m2[c..c + k][..n];
    assert m1[b..b + n] == m1[b..b + k][..n];
  }

  lemma LivePointer(bs: seq<Block>, p: nat)
    requires WellFormed(bs) && IsLive(bs, p)
    ensures 0 < p < WORD_LIMIT
  {
    LiveInHeap(bs, p);
  }

  /** The bytes of the live block at p in state s are in state t at the start of the live block
      at q. */
  ghost predicate Carried(s: HeapState, p: nat, t: HeapState, q: nat) {
    && IsLive(s.bs, p) && IsLive(t.bs, q)
    && LiveSize(s.bs, p) <= LiveSize(t.bs, q)
    && MovedBytes(s.m, t.m, p, q, LiveSize(s.bs, p))
  }

  lemma CarriedOn(s0: HeapState, p: nat, s: HeapState, q: nat, op: HeapOp, s': HeapState)
    requires Carried(s0, p, s, q) && Spares(op, q)
    requires WellFormed(s.bs) && WellFormed(s'.bs) && Allowed(s.bs, op) && Step(s, op, s') && |s.m| == HEAP_SIZE
    ensures Carried(s0, p, s', Follow(s.bs, op, q))
  {
    hide WellFormed, Allowed, Step, IsLive, LiveSize, MovedBytes, Follow;
    LivePointer(s.bs, q);
    StepFollows(s, op, s', q);
    MovedChain(s0.m, s.m, s'.m, p, q, Follow(s.bs, op, q), LiveSize(s0.bs, p), LiveSize(s.bs, q));
  }

  /** A client's bytes survive any run in which nobody writes to its block and it is not
      released: however often the block is resized, the bytes it held at p in state i are in
      state j where the pointer has led. */
  lemma {:induction false} RunFollowsBytes(ss: seq<HeapState>, ops: seq<HeapOp>, p: nat, i: nat, j: nat)
    requires IsRun(ss, ops) && |ss| == |ops| + 1 && i <= j < |ss| && IsLive(ss[i].bs, p)
    requires forall k :: i <= k < j ==> Spares(ops[k], Pointer(ss, ops, p, i, k))
    ensures Carried(ss[i], p, ss[j], Pointer(ss, ops, p, i, j))
    decreases j
  {
    hide IsRun, Represents, Allowed, WellFormed, Step, IsLive, LiveSize, Carried, Follow, Spares;
    if i == j {
      RunSize(ss, ops, i);
      StaysPut(ss[i], p);
    } else {
      RunFollowsBytes(ss, ops, p, i, j - 1);
      RunSize(ss, ops, j - 1);
      RunSize(ss, ops, j);
      RunStep(ss, ops, j - 1);
      CarriedOn(ss[i], p, ss[j - 1], Pointer(ss, ops, p, i, j - 1), ops[j - 1], ss[j]);
    }
  }

  lemma RunStep(ss: seq<HeapState>, ops: seq<HeapOp>, i: nat)
    requires IsRun(ss, ops) && i < |ops|
    ensures |ss| == |ops| + 1 && Allowed(ss[i].bs, ops[i]) && Step(ss[i], ops[i], ss[i + 1])
  {
    hide Allowed, Step;
    var j := i + 1;
    assert Step(ss[i], ops[i], ss[j]);
  }

  lemma RunSize(ss: seq<HeapState>, ops: seq<HeapOp>, k: nat)
    requires IsRun(ss, ops) && k < |ss|
    ensures WellFormed(ss[k].bs) && |ss[k].m| == HEAP_SIZE
  {
    RunShape(ss, ops, k);
  }

  lemma StaysPut(s: HeapState, p: nat)
    requires WellFormed(s.bs) && |s.m| == HEAP_SIZE && IsLive(s.bs, p)
    ensures Carried(s, p, s, p)
  {
    LiveInHeap(s.bs, p);
  }
}
