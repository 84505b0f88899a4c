/** The block list of the kernel heap, as a value.

    The allocator keeps its headers inside the memory it hands out; `KernelHeap`
    models that.  Here the same list is a sequence of blocks, and the effect of every
    allocator operation is a function on such sequences. */
module HeapBlocks {
  import opened Machine

  const HEAP_START: nat := 0x200000
  const HEAP_SIZE: nat := 0x400000
  const HEAP_LIMIT: nat := 0x600000
  const HEADER: nat := 16

  /** One block: the address of its header, the size of its payload, its state. */
  datatype Block = Block(addr: nat, size: nat, free: bool) {
    function Payload(): nat { addr + HEADER }

    function End(): nat { addr + HEADER + size }
  }

  /** The blocks lie end to end and cover exactly the heap region. */
  ghost predicate Tiles(bs: seq<Block>) {
    && 0 < |bs|
    && bs[0].addr == HEAP_START
    && bs[|bs| - 1].End() == HEAP_LIMIT
    && (forall i, j :: 0 <= i < |bs| && j == i + 1 && j < |bs| ==> bs[i].End() == bs[j].addr)
    && (forall i :: 0 <= i < |bs| ==> bs[i].size % 4 == 0)
  }

  ghost predicate NoAdjacentFree(bs: seq<Block>) {
    forall i, j :: 0 <= i < |bs| && j == i + 1 && j < |bs| ==> !(bs[i].free && bs[j].free)
  }

  ghost predicate WellFormed(bs: seq<Block>) {
    Tiles(bs) && NoAdjacentFree(bs)
  }

  ghost predicate AllPositive(bs: seq<Block>) {
    forall i :: 0 <= i < |bs| ==> 0 < bs[i].size
  }

  /** The allocated blocks. */
  ghost function Live(bs: seq<Block>): set<Block> {
    set b | b in bs && !b.free
  }

  lemma {:induction false} Ordered(bs: seq<Block>, i: nat, j: nat)
    requires Tiles(bs) && i < j < |bs|
    ensures bs[i].End() <= bs[j].addr
    decreases j
  {
    if i + 1 < j {
      Ordered(bs, i, j - 1);
    }
    assert bs[j - 1].End() == bs[j].addr;
  }

  lemma {:induction false} Bounds(bs: seq<Block>, i: nat)
    requires Tiles(bs) && i < |bs|
    ensures HEAP_START <= bs[i].addr && bs[i].End() <= HEAP_LIMIT
  {
    if 0 < i {
      Ordered(bs, 0, i);
    }
    if i < |bs| - 1 {
      Ordered(bs, i, |bs| - 1);
    }
  }

  /** Blocks with different indices occupy disjoint ranges, in index order. */
  lemma Layout(bs: seq<Block>)
    requires Tiles(bs)
    ensures forall i :: 0 <= i < |bs| ==> HEAP_START <= bs[i].addr && bs[i].End() <= HEAP_LIMIT
    ensures forall i, j :: 0 <= i < j < |bs| ==> bs[i].End() <= bs[j].addr
  {
    forall i | 0 <= i < |bs|
      ensures HEAP_START <= bs[i].addr && bs[i].End() <= HEAP_LIMIT
    {
      Bounds(bs, i);
    }
    forall i, j | 0 <= i < j < |bs|
      ensures bs[i].End() <= bs[j].addr
    {
      Ordered(bs, i, j);
    }
  }

  // ---------------------------------------------------------------- operations

  /** The initial list: one free block. */
  function Initial(): seq<Block> {
    [Block(HEAP_START, HEAP_SIZE - HEADER, true)]
  }

  /** The request rounded up to a multiple of four, in 32-bit arithmetic. */
  function AlignUp(n: nat): nat {
    (n + 3) % WORD_LIMIT / 4 * 4
  }

  function FirstFit(bs: seq<Block>, n: nat): (i: nat)
    ensures i <= |bs|
    ensures i < |bs| ==> bs[i].free && n <= bs[i].size
    ensures forall k :: 0 <= k < i ==> !(bs[k].free && n <= bs[k].size)
  {
    if bs == [] then 0
    else if bs[0].free && n <= bs[0].size then 0
    else 1 + FirstFit(bs[1..], n)
  }

  function Split(bs: seq<Block>, i: nat, n: nat): seq<Block>
    requires i < |bs|
  {
    var b := bs[i];
    if b.size <= n + HEADER then bs
    else bs[..i] + [Block(b.addr, n, b.free), Block(b.addr + HEADER + n, b.size - n - HEADER, true)] + bs[i + 1..]
  }

  function SetFree(bs: seq<Block>, i: nat, free: bool): seq<Block>
    requires i < |bs|
  {
    bs[i := bs[i].(free := free)]
  }

  /** Take the first free block that fits, cutting off what is not needed. */
  function Take(bs: seq<Block>, n: nat): seq<Block> {
    var i := FirstFit(bs, n);
    if i == |bs| then bs else SetFree(Split(bs, i, n), i, false)
  }

  function TakePtr(bs: seq<Block>, n: nat): nat {
    var i := FirstFit(bs, n);
    if i == |bs| then 0 else bs[i].Payload()
  }

  /** Glue block i and its right neighbour together. */
  function Glue(bs: seq<Block>, i: nat): seq<Block>
    requires i + 1 < |bs|
  {
    bs[..i] + [Block(bs[i].addr, bs[i].size + HEADER + bs[i + 1].size, bs[i].free)] + bs[i + 2..]
  }

  function GlueNext(bs: seq<Block>, i: nat): (r: seq<Block>)
    requires i < |bs|
    ensures i < |r| && r[i].addr == bs[i].addr && r[..i] == bs[..i] && r[i].free == bs[i].free
  {
    if i + 1 < |bs| && bs[i + 1].free then Glue(bs, i) else bs
  }

  function GluePrev(bs: seq<Block>, i: nat): seq<Block>
    requires i < |bs|
  {
    if 0 < i && bs[i - 1].free then Glue(bs, i - 1) else bs
  }

  /** Release block i and merge it with its free neighbours. */
  function Release(bs: seq<Block>, i: nat): seq<Block>
    requires i < |bs|
  {
    GluePrev(GlueNext(SetFree(bs, i, true), i), i)
  }

  /** The index of the block whose header is at address a, or |bs|. */
  function IndexOf(bs: seq<Block>, a: int): (i: nat)
    ensures i <= |bs|
    ensures i < |bs| ==> bs[i].addr == a
    ensures forall k :: 0 <= k < i ==> bs[k].addr != a
  {
    if bs == [] then 0 else if bs[0].addr == a then 0 else 1 + IndexOf(bs[1..], a)
  }

  /** Does p point to the payload of some block, live or free? */
  ghost predicate IsBlock(bs: seq<Block>, p: int) {
    IndexOf(bs, p - HEADER) < |bs|
  }

  ghost predicate IsLive(bs: seq<Block>, p: int) {
    var i := IndexOf(bs, p - HEADER);
    i < |bs| && !bs[i].free
  }

  lemma LiveIsBlock(bs: seq<Block>, p: int)
    requires IsLive(bs, p)
    ensures IsBlock(bs, p)
  {
  }

  /** The payload size of the live block at p. */
  ghost function LiveSize(bs: seq<Block>, p: int): nat
    requires IsLive(bs, p)
  {
    bs[IndexOf(bs, p - HEADER)].size
  }

  function ReleasePtr(bs: seq<Block>, p: int): seq<Block> {
    var i := IndexOf(bs, p - HEADER);
    if i < |bs| then Release(bs, i) else bs
  }

  /** The list and the pointer after a request for n bytes. */
  function Malloc(bs: seq<Block>, n: nat): (seq<Block>, nat) {
    if n == 0 then (bs, 0) else (Take(bs, AlignUp(n)), TakePtr(bs, AlignUp(n)))
  }

  /** The list and the pointer after a request to resize the block at p to n bytes. */
  function Realloc(bs: seq<Block>, p: nat, n: nat): (seq<Block>, nat) {
    var i := IndexOf(bs, p - HEADER);
    if p == 0 then Malloc(bs, n)
    else if n == 0 then (ReleasePtr(bs, p), 0)
    else if i < |bs| && n <= bs[i].size then (bs, p)
    else
      var (t, q) := Malloc(bs, n);
      if q == 0 then (bs, 0) else (ReleasePtr(t, p), q)
  }

  // ---------------------------------------------------------------- shape

  lemma InitialShape()
    ensures WellFormed(Initial())
  {
  }

  lemma SetFreeTiles(bs: seq<Block>, i: nat, free: bool)
    requires Tiles(bs) && i < |bs|
    ensures Tiles(SetFree(bs, i, free))
  {
  }

  lemma SplitCells(bs: seq<Block>, i: nat, n: nat)
    requires i < |bs| && n + HEADER < bs[i].size
    ensures var r := Split(bs, i, n);
            && |r| == |bs| + 1
            && r[i] == Block(bs[i].addr, n, bs[i].free)
            && r[i + 1] == Block(bs[i].Payload() + n, bs[i].size - n - HEADER, true)
            && (forall j :: 0 <= j < i ==> r[j] == bs[j])
            && (forall j :: i + 1 < j < |r| ==> r[j] == bs[j - 1])
  {
  }

  lemma SplitTiles(bs: seq<Block>, i: nat, n: nat)
    requires Tiles(bs) && i < |bs| && n <= bs[i].size && n % 4 == 0
    ensures Tiles(Split(bs, i, n))
  {
    if n + HEADER < bs[i].size {
      SplitCells(bs, i, n);
      CutTiles(bs, Split(bs, i, n), i, n);
    } else {
      assert Split(bs, i, n) == bs;
    }
  }

  lemma CutTiles(bs: seq<Block>, r: seq<Block>, i: nat, n: nat)
    requires Tiles(bs) && i < |bs| && n % 4 == 0 && n + HEADER < bs[i].size && |r| == |bs| + 1
    requires r[i] == Block(bs[i].addr, n, bs[i].free)
    requires r[i + 1] == Block(bs[i].Payload() + n, bs[i].size - n - HEADER, true)
    requires forall j :: 0 <= j < i ==> r[j] == bs[j]
    requires forall j :: i + 1 < j < |r| ==> r[j] == bs[j - 1]
    ensures Tiles(r)
  {
    forall k, l | 0 <= k < |r| && l == k + 1 && l < |r|
      ensures r[k].End() == r[l].addr
    {
      if k < i {
        assert bs[k].End() == bs[l].addr;
      } else if i < k {
        assert k == i + 1 || r[k] == bs[k - 1];
        assert bs[k - 1].End() == bs[k].addr;
      }
    }
  }

  lemma GlueTiles(bs: seq<Block>, i: nat)
    requires Tiles(bs) && i + 1 < |bs|
    ensures Tiles(Glue(bs, i))
  {
  }

  lemma SplitTakenAdjacency(bs: seq<Block>, i: nat, n: nat)
    requires NoAdjacentFree(bs) && i < |bs| && bs[i].free
    ensures NoAdjacentFree(SetFree(Split(bs, i, n), i, false))
  {
    var r := SetFree(Split(bs, i, n), i, false);
    if bs[i].size <= n + HEADER {
      assert r == bs[i := bs[i].(free := false)];
    } else {
      assert |r| == |bs| + 1;
      assert forall k :: 0 <= k < i ==> r[k] == bs[k];
      assert !r[i].free;
      assert forall k :: i + 1 < k < |r| ==> r[k] == bs[k - 1];
      forall k, l | 0 <= k < |r| && l == k + 1 && l < |r|
        ensures !(r[k].free && r[l].free)
      {
        if k == i + 1 {
          assert r[l] == bs[i + 1];
        } else if i + 1 < k {
          assert r[k] == bs[k - 1] && r[l] == bs[k];
        }
      }
    }
  }

  /** An allocation keeps the list well formed. */
  lemma TakeShape(bs: seq<Block>, n: nat)
    requires WellFormed(bs) && n % 4 == 0
    ensures WellFormed(Take(bs, n))
  {
    var i := FirstFit(bs, n);
    if i < |bs| {
      SplitTiles(bs, i, n);
      SetFreeTiles(Split(bs, i, n), i, false);
      SplitTakenAdjacency(bs, i, n);
    }
  }

  /** Only block i may have a free neighbour. */
  ghost predicate NoAdjacentFreeBut(bs: seq<Block>, i: nat) {
    forall k, l :: 0 <= k < |bs| && l == k + 1 && l < |bs| && k != i && l != i ==> !(bs[k].free && bs[l].free)
  }

  lemma GlueNextAdjacency(bs: seq<Block>, i: nat)
    requires i < |bs| && NoAdjacentFreeBut(bs, i)
    requires i + 2 < |bs| ==> !(bs[i + 1].free && bs[i + 2].free)
    ensures var g := GlueNext(bs, i);
            NoAdjacentFreeBut(g, i) && (i + 1 < |g| ==> !g[i + 1].free)
  {
  }

  lemma GluePrevAdjacency(bs: seq<Block>, i: nat)
    requires i < |bs| && NoAdjacentFreeBut(bs, i) && (i + 1 < |bs| ==> !bs[i + 1].free)
    requires 1 < i ==> !(bs[i - 2].free && bs[i - 1].free)
    ensures NoAdjacentFree(GluePrev(bs, i))
  {
  }

  lemma ReleaseAdjacency(bs: seq<Block>, i: nat)
    requires NoAdjacentFree(bs) && i < |bs|
    ensures NoAdjacentFree(Release(bs, i))
  {
    var f := SetFree(bs, i, true);
    GlueNextAdjacency(f, i);
    var g := GlueNext(f, i);
    assert forall k :: 0 <= k < i ==> g[k] == g[..i][k] == f[..i][k] == bs[k];
    GluePrevAdjacency(g, i);
  }

  /** A release keeps the list well formed: merging on both sides leaves no two free
      neighbours. */
  lemma ReleaseShape(bs: seq<Block>, i: nat)
    requires WellFormed(bs) && i < |bs|
    ensures WellFormed(Release(bs, i))
  {
    SetFreeTiles(bs, i, true);
    var f := SetFree(bs, i, true);
    if i + 1 < |f| && f[i + 1].free {
      GlueTiles(f, i);
    }
    var g := GlueNext(f, i);
    if 0 < i && g[i - 1].free {
      GlueTiles(g, i - 1);
    }
    ReleaseAdjacency(bs, i);
  }
}
