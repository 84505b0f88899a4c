/** How a few stores into headers turn the memory of one block list into the memory of
    another: cutting a block in two, gluing two blocks together, changing a state. */
module HeapHeaders {
  import opened Machine
  import opened HeapBlocks
  import opened HeapMemory
  import opened HeapTheorems

  /** The header of any block, and the whole of a free one, is clear of the live payloads. */
  lemma ClearOfLive(bs: seq<Block>, i: nat)
    requires Tiles(bs) && i < |bs|
    ensures Clear(Live(bs), bs[i].addr, HEADER)
    ensures bs[i].free ==> Clear(Live(bs), bs[i].addr, HEADER + bs[i].size)
  {
    Layout(bs);
  }

  /** The headers of a split list, in terms of the old ones. */
  lemma SplitHeader(bs: seq<Block>, i: nat, n: nat, k: nat)
    requires i < |bs| && bs[i].free && n + HEADER < bs[i].size && k < |Split(bs, i, n)|
    ensures var r, cut := Split(bs, i, n), bs[i].Payload() + n;
            && (k < i ==> r[k].addr == bs[k].addr && HeaderOf(r, k) == HeaderOf(bs, k))
            && (k == i ==> r[k].addr == bs[i].addr && HeaderOf(r, k) == Header(n, 1, cut, PrevOf(bs, i)))
            && (k == i + 1 ==>
                  r[k].addr == cut && HeaderOf(r, k) == Header(bs[i].size - n - HEADER, 1, NextOf(bs, i), bs[i].addr))
            && (k == i + 2 ==>
                  k <= |bs| && r[k].addr == bs[i + 1].addr && HeaderOf(r, k) == HeaderOf(bs, i + 1).(prev := cut))
            && (i + 2 < k ==> k <= |bs| && r[k].addr == bs[k - 1].addr && HeaderOf(r, k) == HeaderOf(bs, k - 1))
  {
    SplitCells(bs, i, n);
    hide Split;
  }

  /** The headers after a split: the block, the piece cut off, and the back link of the
      old right neighbour. */
  lemma SplitRepresents(m: seq<Byte>, bs: seq<Block>, i: nat, n: nat)
    requires Tiles(bs) && i < |bs| && bs[i].free && n + HEADER < bs[i].size && |m| == HEAP_SIZE
    requires var cut := bs[i].Payload() + n;
             && HeaderAt(m, bs[i].addr) == Header(n, 1, cut, PrevOf(bs, i))
             && HeaderAt(m, cut) == Header(bs[i].size - n - HEADER, 1, NextOf(bs, i), bs[i].addr)
             && (i + 1 < |bs| ==> HeaderAt(m, bs[i + 1].addr) == HeaderOf(bs, i + 1).(prev := cut))
    requires forall k :: 0 <= k < |bs| && k != i && k != i + 1 ==> HeaderAt(m, bs[k].addr) == HeaderOf(bs, k)
    ensures Represents(m, Split(bs, i, n))
  {
    hide HeaderAt, HeaderOf, Split, Tiles;
    var r := Split(bs, i, n);
    forall k | 0 <= k < |r|
      ensures HeaderAt(m, r[k].addr) == HeaderOf(r, k)
    {
      SplitHeader(bs, i, n, k);
      if k < i {
        assert HeaderAt(m, bs[k].addr) == HeaderOf(bs, k);
      } else if i + 2 < k {
        var j := k - 1;
        assert HeaderAt(m, bs[j].addr) == HeaderOf(bs, j);
      }
    }
  }

  /** The four stores of a split touch no live payload. */
  lemma SplitKept(bs: seq<Block>, i: nat, n: nat, m0: seq<Byte>, m1: seq<Byte>, m2: seq<Byte>, m3: seq<Byte>,
                  m4: seq<Byte>)
    requires Tiles(bs) && i < |bs| && bs[i].free && n + HEADER < bs[i].size
    requires SameOutside(m0, m1, bs[i].Payload() + n, HEADER)
    requires if i + 1 < |bs| then SameOutside(m1, m2, bs[i + 1].addr, HEADER) else m1 == m2
    requires SameOutside(m2, m3, bs[i].addr, HEADER) && SameOutside(m3, m4, bs[i].addr, HEADER)
    ensures Kept(Live(bs), m0, m4)
  {
    var live := Live(bs);
    ClearOfLive(bs, i);
    if i + 1 < |bs| {
      ClearOfLive(bs, i + 1);
    }
    KeptAfter(live, m0, m0, m1, bs[i].Payload() + n, HEADER);
    if i + 1 < |bs| {
      KeptAfter(live, m0, m1, m2, bs[i + 1].addr, HEADER);
    }
    KeptAfter(live, m0, m2, m3, bs[i].addr, HEADER);
    KeptAfter(live, m0, m3, m4, bs[i].addr, HEADER);
  }

  /** Write the header of the piece cut off block i, link it in, and shrink block i. */
  method CutBlock(mem: array<Byte>, block: nat, size: nat, ghost bs: seq<Block>, ghost i: nat)
    requires mem.Length == HEAP_SIZE && Tiles(bs) && Represents(mem[..], bs)
    requires i < |bs| && bs[i].addr == block && bs[i].free && size + HEADER < bs[i].size
    modifies mem
    ensures Represents(mem[..], Split(bs, i, size))
    ensures Kept(Live(bs), old(mem[..]), mem[..])
  {
    hide HeaderAt, Split, Live, Kept, SameOutside, Tiles, Represents;
    ghost var m0 := mem[..];
    ReadHeader(m0, bs, i);
    BlockInside(bs, i);
    var header := HeaderAt(mem[..], block);
    var newBlock := block + HEADER + size;
    SetHeader(mem, newBlock, header.size - size - HEADER, 1, header.next, block);
    ghost var m1 := mem[..];
    if header.next != 0 {
      SetPrev(mem, header.next, newBlock);
    }
    ghost var m2 := mem[..];
    SetNext(mem, block, newBlock);
    ghost var m3 := mem[..];
    SetSize(mem, block, size);
    CutEffect(bs, i, size, [m0, m1, m2, m3, mem[..]]);
  }

  lemma ReadHeader(m: seq<Byte>, bs: seq<Block>, i: nat)
    requires Represents(m, bs) && i < |bs|
    ensures HeaderAt(m, bs[i].addr) == HeaderOf(bs, i)
  {
  }

  lemma BlockInside(bs: seq<Block>, i: nat)
    requires Tiles(bs) && i < |bs|
    ensures HEAP_START <= bs[i].addr && bs[i].End() <= HEAP_LIMIT
    ensures i + 1 < |bs| ==> bs[i + 1].addr == bs[i].End() && bs[i + 1].End() <= HEAP_LIMIT
    ensures NextOf(bs, i) != 0 <==> i + 1 < |bs|
  {
    Layout(bs);
  }

  /** m' is m after a store into the header at h, which now reads as given. */
  ghost predicate Wrote(m: seq<Byte>, m': seq<Byte>, h: int, header: Header) {
    SameOutside(m, m', h, HEADER) && HeaderAt(m', h) == header
  }

  /** Memories m0 to m4 are the states around the stores that cut n bytes off block i. */
  ghost predicate CutStores(bs: seq<Block>, i: nat, n: nat, ms: seq<seq<Byte>>)
    requires i < |bs|
  {
    && |ms| == 5
    && n + HEADER < bs[i].size
    && var cut := bs[i].Payload() + n;
    && Wrote(ms[0], ms[1], cut, Header(bs[i].size - n - HEADER, 1, NextOf(bs, i), bs[i].addr))
    && (if i + 1 < |bs| then Wrote(ms[1], ms[2], bs[i + 1].addr, HeaderAt(ms[1], bs[i + 1].addr).(prev := cut))
       else ms[1] == ms[2])
    && Wrote(ms[2], ms[3], bs[i].addr, HeaderAt(ms[2], bs[i].addr).(next := cut))
    && Wrote(ms[3], ms[4], bs[i].addr, HeaderAt(ms[3], bs[i].addr).(size := n))
  }

  lemma CutOther(bs: seq<Block>, i: nat, n: nat, ms: seq<seq<Byte>>, k: nat)
    requires Tiles(bs) && i < |bs| && CutStores(bs, i, n, ms)
    requires k < |bs| && k != i && k != i + 1
    ensures HeaderAt(ms[4], bs[k].addr) == HeaderAt(ms[0], bs[k].addr)
  {
    hide HeaderAt, SameOutside;
    if k < i {
      Ordered(bs, k, i);
    } else {
      Ordered(bs, i, k);
      Ordered(bs, i + 1, k);
    }
    var h := bs[k].addr;
    if i + 1 < |bs| {
      BlockInside(bs, i);
      HeaderApart(ms[1], ms[2], bs[i + 1].addr, HEADER, h);
    }
    HeaderApart(ms[0], ms[1], bs[i].Payload() + n, HEADER, h);
    HeaderApart(ms[2], ms[3], bs[i].addr, HEADER, h);
    HeaderApart(ms[3], ms[4], bs[i].addr, HEADER, h);
  }

  lemma CutTouched(bs: seq<Block>, i: nat, n: nat, ms: seq<seq<Byte>>)
    requires Tiles(bs) && i < |bs| && CutStores(bs, i, n, ms)
    ensures var cut := bs[i].Payload() + n;
            && HeaderAt(ms[4], bs[i].addr) == HeaderAt(ms[0], bs[i].addr).(size := n, next := cut)
            && HeaderAt(ms[4], cut) == Header(bs[i].size - n - HEADER, 1, NextOf(bs, i), bs[i].addr)
            && (i + 1 < |bs| ==> HeaderAt(ms[4], bs[i + 1].addr) == HeaderAt(ms[0], bs[i + 1].addr).(prev := cut))
  {
    hide HeaderAt, SameOutside;
    BlockInside(bs, i);
    var a, cut := bs[i].addr, bs[i].Payload() + n;
    HeaderApart(ms[0], ms[1], cut, HEADER, a);
    HeaderApart(ms[2], ms[3], a, HEADER, cut);
    HeaderApart(ms[3], ms[4], a, HEADER, cut);
    if i + 1 < |bs| {
      var b := bs[i + 1].addr;
      HeaderApart(ms[1], ms[2], b, HEADER, a);
      HeaderApart(ms[1], ms[2], b, HEADER, cut);
      HeaderApart(ms[0], ms[1], cut, HEADER, b);
      HeaderApart(ms[2], ms[3], a, HEADER, b);
      HeaderApart(ms[3], ms[4], a, HEADER, b);
    }
  }

  /** The stores of a split spell out the split list and touch no live payload. */
  lemma CutEffect(bs: seq<Block>, i: nat, n: nat, ms: seq<seq<Byte>>)
    requires Tiles(bs) && i < |bs| && bs[i].free && CutStores(bs, i, n, ms) && Represents(ms[0], bs)
    ensures Represents(ms[4], Split(bs, i, n))
    ensures Kept(Live(bs), ms[0], ms[4])
  {
    hide HeaderAt, Split, Kept;
    assert |ms[4]| == HEAP_SIZE && Kept(Live(bs), ms[0], ms[4]) by {
      hide Represents;
      SplitKept(bs, i, n, ms[0], ms[1], ms[2], ms[3], ms[4]);
    }
    CutTouched(bs, i, n, ms);
    forall k | 0 <= k < |bs| && k != i && k != i + 1
      ensures HeaderAt(ms[4], bs[k].addr) == HeaderOf(bs, k)
    {
      CutOther(bs, i, n, ms, k);
    }
    SplitRepresents(ms[4], bs, i, n);
  }

  // ---------------------------------------------------------------- gluing

  lemma GlueCells(bs: seq<Block>, j: nat)
    requires j + 1 < |bs|
    ensures var r := Glue(bs, j);
            && |r| == |bs| - 1
            && r[j] == Block(bs[j].addr, bs[j].size + HEADER + bs[j + 1].size, bs[j].free)
            && (forall k :: 0 <= k < j ==> r[k] == bs[k])
            && (forall k :: j < k < |r| ==> r[k] == bs[k + 1])
  {
  }

  lemma GlueHeader(bs: seq<Block>, j: nat, k: nat)
    requires j + 1 < |bs| && k < |Glue(bs, j)|
    ensures var r := Glue(bs, j);
            && (k < j ==> r[k].addr == bs[k].addr && HeaderOf(r, k) == HeaderOf(bs, k))
            && (k == j ==> r[k].addr == bs[j].addr &&
                           HeaderOf(r, k) ==
                             HeaderOf(bs, j).(size := bs[j].size + HEADER + bs[j + 1].size, next := NextOf(bs, j + 1)))
            && (k == j + 1 ==>
                  j + 2 < |bs| && r[k].addr == bs[j + 2].addr &&
                  HeaderOf(r, k) == HeaderOf(bs, j + 2).(prev := bs[j].addr))
            && (j + 1 < k ==> k + 1 < |bs| && r[k].addr == bs[k + 1].addr && HeaderOf(r, k) == HeaderOf(bs, k + 1))
  {
    GlueCells(bs, j);
    hide Glue;
  }

  lemma GlueRepresents(m: seq<Byte>, bs: seq<Block>, j: nat)
    requires j + 1 < |bs| && |m| == HEAP_SIZE
    requires HeaderAt(m, bs[j].addr) ==
             HeaderOf(bs, j).(size := bs[j].size + HEADER + bs[j + 1].size, next := NextOf(bs, j + 1))
    requires j + 2 < |bs| ==> HeaderAt(m, bs[j + 2].addr) == HeaderOf(bs, j + 2).(prev := bs[j].addr)
    requires forall k :: 0 <= k < |bs| && !(j <= k <= j + 2) ==> HeaderAt(m, bs[k].addr) == HeaderOf(bs, k)
    ensures Represents(m, Glue(bs, j))
  {
    GlueCells(bs, j);
    hide HeaderAt, HeaderOf, Glue;
    var r := Glue(bs, j);
    forall k | 0 <= k < |r|
      ensures HeaderAt(m, r[k].addr) == HeaderOf(r, k)
    {
      GlueHeader(bs, j, k);
    }
  }

  /** Memories ms[0] to ms[3] are the states around the stores that glue block j + 1 to
      block j. */
  ghost predicate GlueStores(bs: seq<Block>, j: nat, ms: seq<seq<Byte>>)
    requires j + 1 < |bs|
  {
    && |ms| == 4
    && Wrote(ms[0], ms[1], bs[j].addr, HeaderAt(ms[0], bs[j].addr).(size := bs[j].size + HEADER + bs[j + 1].size))
    && (if j + 2 < |bs| then Wrote(ms[1], ms[2], bs[j + 2].addr, HeaderAt(ms[1], bs[j + 2].addr).(prev := bs[j].addr))
       else ms[1] == ms[2])
    && Wrote(ms[2], ms[3], bs[j].addr, HeaderAt(ms[2], bs[j].addr).(next := NextOf(bs, j + 1)))
  }

  lemma GlueOther(bs: seq<Block>, j: nat, ms: seq<seq<Byte>>, k: nat)
    requires Tiles(bs) && j + 1 < |bs| && GlueStores(bs, j, ms)
    requires k < |bs| && !(j <= k <= j + 2)
    ensures HeaderAt(ms[3], bs[k].addr) == HeaderAt(ms[0], bs[k].addr)
  {
    hide HeaderAt, SameOutside;
    if k < j {
      Ordered(bs, k, j);
    } else {
      Ordered(bs, j, k);
    }
    var h := bs[k].addr;
    if j + 2 < |bs| {
      if k < j {
        Ordered(bs, k, j + 2);
      } else {
        Ordered(bs, j + 2, k);
      }
      HeaderApart(ms[1], ms[2], bs[j + 2].addr, HEADER, h);
    }
    HeaderApart(ms[0], ms[1], bs[j].addr, HEADER, h);
    HeaderApart(ms[2], ms[3], bs[j].addr, HEADER, h);
  }

  lemma GlueTouched(bs: seq<Block>, j: nat, ms: seq<seq<Byte>>)
    requires Tiles(bs) && j + 1 < |bs| && GlueStores(bs, j, ms)
    ensures HeaderAt(ms[3], bs[j].addr) ==
            HeaderAt(ms[0], bs[j].addr).(size := bs[j].size + HEADER + bs[j + 1].size, next := NextOf(bs, j + 1))
    ensures j + 2 < |bs| ==> HeaderAt(ms[3], bs[j + 2].addr) == HeaderAt(ms[0], bs[j + 2].addr).(prev := bs[j].addr)
  {
    hide HeaderAt, SameOutside;
    if j + 2 < |bs| {
      Ordered(bs, j, j + 2);
      var a, b := bs[j].addr, bs[j + 2].addr;
      HeaderApart(ms[1], ms[2], b, HEADER, a);
      HeaderApart(ms[0], ms[1], a, HEADER, b);
      HeaderApart(ms[2], ms[3], a, HEADER, b);
    }
  }

  lemma GlueKept(bs: seq<Block>, j: nat, ms: seq<seq<Byte>>)
    requires Tiles(bs) && j + 1 < |bs| && GlueStores(bs, j, ms)
    ensures Kept(Live(bs), ms[0], ms[3])
  {
    hide HeaderAt;
    var live := Live(bs);
    ClearOfLive(bs, j);
    KeptAfter(live, ms[0], ms[0], ms[1], bs[j].addr, HEADER);
    if j + 2 < |bs| {
      ClearOfLive(bs, j + 2);
      KeptAfter(live, ms[0], ms[1], ms[2], bs[j + 2].addr, HEADER);
    }
    KeptAfter(live, ms[0], ms[2], ms[3], bs[j].addr, HEADER);
  }

  lemma GlueEffect(bs: seq<Block>, j: nat, ms: seq<seq<Byte>>)
    requires Tiles(bs) && j + 1 < |bs| && GlueStores(bs, j, ms) && Represents(ms[0], bs)
    ensures Represents(ms[3], Glue(bs, j))
    ensures Kept(Live(bs), ms[0], ms[3])
  {
    hide HeaderAt, Glue, Live;
    GlueKept(bs, j, ms);
    GlueTouched(bs, j, ms);
    forall k | 0 <= k < |bs| && !(j <= k <= j + 2)
      ensures HeaderAt(ms[3], bs[k].addr) == HeaderOf(bs, k)
    {
      GlueOther(bs, j, ms, k);
    }
    GlueRepresents(ms[3], bs, j);
  }

  /** Enlarge the left block by its right neighbour and unlink the neighbour. */
  method GlueBlocks(mem: array<Byte>, left: nat, right: nat, ghost bs: seq<Block>, ghost j: nat)
    requires mem.Length == HEAP_SIZE && Tiles(bs) && Represents(mem[..], bs)
    requires j + 1 < |bs| && bs[j].addr == left && bs[j + 1].addr == right
    modifies mem
    ensures Represents(mem[..], Glue(bs, j))
    ensures Kept(Live(bs), old(mem[..]), mem[..])
  {
    hide HeaderAt, Glue, Live, Kept, SameOutside, Tiles, Represents;
    ghost var m0 := mem[..];
    ReadHeader(m0, bs, j);
    ReadHeader(m0, bs, j + 1);
    BlockInside(bs, j);
    BlockInside(bs, j + 1);
    var l, r := HeaderAt(mem[..], left), HeaderAt(mem[..], right);
    SetSize(mem, left, l.size + HEADER + r.size);
    ghost var m1 := mem[..];
    if r.next != 0 {
      SetPrev(mem, r.next, left);
    }
    ghost var m2 := mem[..];
    SetNext(mem, left, r.next);
    GlueEffect(bs, j, [m0, m1, m2, mem[..]]);
  }

  // ---------------------------------------------------------------- changing a state

  lemma StateOther(m: seq<Byte>, m': seq<Byte>, bs: seq<Block>, i: nat, k: nat)
    requires Tiles(bs) && i < |bs| && k < |bs| && k != i && SameOutside(m, m', bs[i].addr, HEADER)
    ensures HeaderAt(m', bs[k].addr) == HeaderAt(m, bs[k].addr)
  {
    hide HeaderAt;
    if k < i {
      Ordered(bs, k, i);
    } else {
      Ordered(bs, i, k);
    }
    HeaderApart(m, m', bs[i].addr, HEADER, bs[k].addr);
  }

  lemma StateHeader(bs: seq<Block>, i: nat, free: bool, k: nat)
    requires i < |bs| && k < |bs|
    ensures var r := SetFree(bs, i, free);
            r[k].addr == bs[k].addr
              && HeaderOf(r, k) == if k == i then HeaderOf(bs, i).(isFree := if free then 1 else 0) else HeaderOf(bs, k)
  {
  }

  lemma SetFreeLength(bs: seq<Block>, i: nat, free: bool)
    requires i < |bs|
    ensures |SetFree(bs, i, free)| == |bs|
  {
  }

  lemma StateEffect(m: seq<Byte>, m': seq<Byte>, bs: seq<Block>, i: nat, free: bool)
    requires Tiles(bs) && Represents(m, bs) && i < |bs|
    requires Wrote(m, m', bs[i].addr, HeaderAt(m, bs[i].addr).(isFree := if free then 1 else 0))
    ensures Represents(m', SetFree(bs, i, free))
    ensures Kept(Live(bs), m, m')
  {
    hide HeaderAt, SetFree, HeaderOf, Tiles;
    ClearOfLive(bs, i);
    KeptAfter(Live(bs), m, m, m', bs[i].addr, HEADER);
    var r := SetFree(bs, i, free);
    SetFreeLength(bs, i, free);
    forall k | 0 <= k < |r|
      ensures HeaderAt(m', r[k].addr) == HeaderOf(r, k)
    {
      StateHeader(bs, i, free, k);
      if k != i {
        StateOther(m, m', bs, i, k);
      }
    }
  }

  /** Store a state in the header of block i. */
  method ChangeState(mem: array<Byte>, block: nat, free: bool, ghost bs: seq<Block>, ghost i: nat)
    requires mem.Length == HEAP_SIZE && Tiles(bs) && Represents(mem[..], bs)
    requires i < |bs| && bs[i].addr == block
    modifies mem
    ensures Represents(mem[..], SetFree(bs, i, free))
    ensures Kept(Live(bs), old(mem[..]), mem[..])
  {
    hide HeaderAt, SetFree, Live, Kept, SameOutside, Tiles, Represents;
    ghost var m0 := mem[..];
    BlockInside(bs, i);
    SetIsFree(mem, block, if free then 1 else 0);
    StateEffect(m0, mem[..], bs, i, free);
  }

  // ---------------------------------------------------------------- writing a payload

  /** A write inside the payload of one live block leaves all headers and all other live
      payloads alone. */
  lemma PayloadWrite(m: seq<Byte>, m': seq<Byte>, bs: seq<Block>, b: Block, a: int, n: nat)
    requires WellFormed(bs) && Represents(m, bs) && b in Live(bs)
    requires b.Payload() <= a && a + n <= b.End() && SameOutside(m, m', a, n)
    ensures Represents(m', bs)
    ensures Kept(Live(bs) - {b}, m, m')
  {
    hide HeaderAt, HeaderOf, NoAdjacentFree, Tiles;
    forall k | 0 <= k < |bs|
      ensures HeaderAt(m', bs[k].addr) == HeaderOf(bs, k)
    {
      if bs[k] != b {
        LiveDisjoint(bs, b, bs[k]);
      }
      HeaderApart(m, m', a, n, bs[k].addr);
    }
    forall c | c in Live(bs) - {b}
      ensures c.End() <= a || a + n <= c.Payload()
    {
      LiveDisjoint(bs, b, c);
    }
    KeptSame(Live(bs) - {b}, m);
    KeptAfter(Live(bs) - {b}, m, m, m', a, n);
  }
}
