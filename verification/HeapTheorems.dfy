/** What the allocator promises, stated on block lists. */
module HeapTheorems {
  import opened Machine
  import opened HeapBlocks

  // ---------------------------------------------------------------- who is live

  lemma IndexIsUnique(bs: seq<Block>, i: nat)
    requires Tiles(bs) && i < |bs|
    ensures IndexOf(bs, bs[i].addr) == i
  {
    Layout(bs);
  }

  lemma LiveConcat(xs: seq<Block>, ys: seq<Block>)
    ensures Live(xs + ys) == Live(xs) + Live(ys)
  {
  }

  lemma LiveAround(xs: seq<Block>, mid: seq<Block>, ys: seq<Block>)
    ensures Live(xs + mid + ys) == Live(xs) + Live(mid) + Live(ys)
  {
    LiveConcat(xs + mid, ys);
    LiveConcat(xs, mid);
  }

  lemma Around(bs: seq<Block>, i: nat)
    requires i < |bs|
    ensures bs == bs[..i] + [bs[i]] + bs[i + 1..]
  {
  }

  lemma LiveCell(b: Block)
    ensures Live([b]) == if b.free then {} else {b}
  {
    assert [b][0] == b;
  }

  lemma LiveSet(xs: seq<Block>, b: Block, ys: seq<Block>)
    ensures Live(xs + [b] + ys) == Live(xs) + (if b.free then {} else {b}) + Live(ys)
  {
    LiveAround(xs, [b], ys);
    LiveCell(b);
  }

  lemma NewAddress(bs: seq<Block>, i: nat)
    requires Tiles(bs) && i < |bs| && bs[i].free
    ensures forall c :: c in Live(bs) ==> c.addr != bs[i].addr
  {
    Layout(bs);
  }

  lemma SplitLive(bs: seq<Block>, i: nat, n: nat)
    requires i < |bs| && bs[i].free
    ensures Live(Split(bs, i, n)) == Live(bs)
  {
    if n + HEADER < bs[i].size {
      var l, r := bs[..i], bs[i + 1..];
      var b := Block(bs[i].addr, n, true);
      var rest := Block(b.End(), bs[i].size - n - HEADER, true);
      Around(bs, i);
      LiveSet(l, bs[i], r);
      LiveSet(l, b, [rest] + r);
      LiveSet([], rest, r);
      assert [] + [rest] + r == [rest] + r;
      assert Split(bs, i, n) == l + [b] + ([rest] + r);
    }
  }

  lemma AllocateLive(bs: seq<Block>, i: nat)
    requires i < |bs| && bs[i].free
    ensures Live(SetFree(bs, i, false)) == Live(bs) + {bs[i].(free := false)}
  {
    Around(bs, i);
    var l, r, b := bs[..i], bs[i + 1..], bs[i].(free := false);
    LiveSet(l, bs[i], r);
    assert SetFree(bs, i, false) == l + [b] + r;
    LiveSet(l, b, r);
  }

  /** A successful allocation adds one live block, at least as large as asked for and at
      most one header larger, and leaves every other live block alone. */
  lemma TakeLive(bs: seq<Block>, n: nat)
    requires WellFormed(bs) && FirstFit(bs, n) < |bs|
    ensures var i := FirstFit(bs, n);
            var b := Take(bs, n)[i];
            && !b.free && b.Payload() == TakePtr(bs, n) && n <= b.size <= n + HEADER
            && (forall c :: c in Live(bs) ==> c.addr != b.addr)
            && Live(Take(bs, n)) == Live(bs) + {b}
  {
    var i := FirstFit(bs, n);
    NewAddress(bs, i);
    SplitLive(bs, i, n);
    AllocateLive(Split(bs, i, n), i);
  }

  lemma GlueLive(bs: seq<Block>, i: nat)
    requires i + 1 < |bs| && bs[i].free && bs[i + 1].free
    ensures Live(Glue(bs, i)) == Live(bs)
  {
    var l, r := bs[..i], bs[i + 2..];
    var g := Block(bs[i].addr, bs[i].size + HEADER + bs[i + 1].size, true);
    assert bs == l + [bs[i]] + ([bs[i + 1]] + r);
    LiveSet(l, bs[i], [bs[i + 1]] + r);
    LiveSet([], bs[i + 1], r);
    assert [] + [bs[i + 1]] + r == [bs[i + 1]] + r;
    LiveSet(l, g, r);
  }

  lemma SetFreeLive(bs: seq<Block>, i: nat)
    requires Tiles(bs) && i < |bs|
    ensures Live(SetFree(bs, i, true)) == Live(bs) - {bs[i]}
  {
    var l, r, b := bs[..i], bs[i + 1..], bs[i].(free := true);
    assert bs[i] !in l && bs[i] !in r by {
      Layout(bs);
    }
    Around(bs, i);
    LiveSet(l, bs[i], r);
    assert SetFree(bs, i, true) == l + [b] + r;
    LiveSet(l, b, r);
  }

  /** A release removes exactly the block released from the live ones; a free block was not
      among them. */
  lemma ReleaseLive(bs: seq<Block>, i: nat)
    requires WellFormed(bs) && i < |bs|
    ensures Live(Release(bs, i)) == Live(bs) - {bs[i]}
  {
    SetFreeLive(bs, i);
    var f := SetFree(bs, i, true);
    if i + 1 < |bs| && bs[i + 1].free {
      GlueLive(f, i);
    }
    var g := GlueNext(f, i);
    if 0 < i && g[i - 1].free {
      GlueLive(g, i - 1);
    }
  }

  /** Releasing a block that is free already changes nothing: its neighbours are not free. */
  lemma ReleaseTwice(bs: seq<Block>, i: nat)
    requires WellFormed(bs) && i < |bs| && bs[i].free
    ensures Release(bs, i) == bs
  {
    assert SetFree(bs, i, true) == bs;
  }

  /** Live payloads are disjoint from each other and from every header, and lie inside
      the heap. */
  lemma LiveDisjoint(bs: seq<Block>, b: Block, c: Block)
    requires WellFormed(bs) && b in Live(bs) && c in bs && b != c
    ensures b.End() <= c.addr || c.End() <= b.addr
    ensures HEAP_START + HEADER <= b.Payload() && b.End() <= HEAP_LIMIT
  {
    Layout(bs);
    var i :| 0 <= i < |bs| && bs[i] == b;
    var j :| 0 <= j < |bs| && bs[j] == c;
    assert i < j || j < i;
  }

  // ---------------------------------------------------------------- first fit

  /** Room for a header and n bytes at address x, clear of every live block. */
  ghost predicate Gap(bs: seq<Block>, x: nat, n: nat) {
    && HEAP_START <= x
    && x + HEADER + n <= HEAP_LIMIT
    && (forall b :: b in Live(bs) ==> b.End() <= x || x + HEADER + n <= b.addr)
  }

  lemma {:induction false} Locate(bs: seq<Block>, x: nat, hi: nat) returns (j: nat)
    requires Tiles(bs) && 0 < hi <= |bs|
    requires HEAP_START <= x < bs[hi - 1].End()
    ensures j < hi && bs[j].addr <= x < bs[j].End()
    decreases hi
  {
    j := hi - 1;
    if x < bs[j].addr {
      assert bs[j - 1].End() == bs[j].addr;
      j := Locate(bs, x, hi - 1);
    }
  }

  /** Any gap lies inside a single free block. */
  lemma GapInFreeBlock(bs: seq<Block>, x: nat, n: nat) returns (j: nat)
    requires WellFormed(bs) && Gap(bs, x, n)
    ensures j < |bs| && bs[j].free && bs[j].addr <= x && x + HEADER + n <= bs[j].End()
  {
    j := Locate(bs, x, |bs|);
    assert bs[j] in Live(bs) <==> !bs[j].free;
    if j < |bs| - 1 {
      assert bs[j].End() == bs[j + 1].addr;
      assert bs[j + 1] in Live(bs) <==> !bs[j + 1].free;
    }
  }

  lemma FreeBlockIsGap(bs: seq<Block>, i: nat, n: nat)
    requires WellFormed(bs) && i < |bs| && bs[i].free && n <= bs[i].size
    ensures Gap(bs, bs[i].addr, n)
  {
    Layout(bs);
    forall b | b in Live(bs)
      ensures b.End() <= bs[i].addr || bs[i].addr + HEADER + n <= b.addr
    {
      var k :| 0 <= k < |bs| && bs[k] == b;
      assert k < i || i < k;
    }
  }

  /** The search returns NULL exactly when no gap is large enough; otherwise it takes the
      gap with the lowest address in the whole heap. */
  lemma TakeLowestGap(bs: seq<Block>, n: nat)
    requires WellFormed(bs)
    ensures TakePtr(bs, n) == 0 <==> forall x: nat :: !Gap(bs, x, n)
    ensures TakePtr(bs, n) != 0 ==> Gap(bs, TakePtr(bs, n) - HEADER, n)
    ensures TakePtr(bs, n) != 0 ==> forall x: nat :: Gap(bs, x, n) ==> TakePtr(bs, n) - HEADER <= x
  {
    Layout(bs);
    var i := FirstFit(bs, n);
    forall x: nat | Gap(bs, x, n)
      ensures i < |bs| && bs[i].addr <= x
    {
      var j := GapInFreeBlock(bs, x, n);
      assert i <= j;
    }
    if i < |bs| {
      FreeBlockIsGap(bs, i, n);
    }
  }

  // ---------------------------------------------------------------- undoing

  lemma TakePrefix(bs: seq<Block>, n: nat)
    requires FirstFit(bs, n) < |bs|
    ensures var i, t := FirstFit(bs, n), Take(bs, n);
            |bs| <= |t| && t[i].addr == bs[i].addr && forall k :: 0 <= k < i ==> t[k] == bs[k]
  {
  }

  lemma IndexAfterPrefix(bs: seq<Block>, t: seq<Block>, i: nat)
    requires Tiles(bs) && i < |bs| <= |t| && t[i].addr == bs[i].addr && forall k :: 0 <= k < i ==> t[k] == bs[k]
    ensures IndexOf(t, bs[i].addr) == i
  {
    forall k | 0 <= k < i
      ensures t[k].addr != bs[i].addr
    {
      Ordered(bs, k, i);
    }
  }

  lemma TakeIndex(bs: seq<Block>, n: nat)
    requires Tiles(bs) && FirstFit(bs, n) < |bs|
    ensures IndexOf(Take(bs, n), TakePtr(bs, n) - HEADER) == FirstFit(bs, n)
  {
    TakePrefix(bs, n);
    IndexAfterPrefix(bs, Take(bs, n), FirstFit(bs, n));
  }

  /** Releasing a block right after allocating it restores the previous list. */
  lemma ReleaseUndoesTake(bs: seq<Block>, n: nat)
    requires WellFormed(bs) && FirstFit(bs, n) < |bs|
    ensures ReleasePtr(Take(bs, n), TakePtr(bs, n)) == bs
  {
    hide Split, Release, TakePtr, FirstFit, IndexOf;
    var i := FirstFit(bs, n);
    TakeIndex(bs, n);
    GlueUndoesSplit(bs, i, n);
    assert Take(bs, n) == SetFree(Split(bs, i, n), i, false);
  }

  lemma GlueUndoesSplit(bs: seq<Block>, i: nat, n: nat)
    requires WellFormed(bs) && i < |bs| && bs[i].free
    ensures i < |Split(bs, i, n)| && Release(SetFree(Split(bs, i, n), i, false), i) == bs
  {
    hide Tiles;
    var f := SetFree(SetFree(Split(bs, i, n), i, false), i, true);
    assert f == Split(bs, i, n);
    assert 0 < i ==> f[i - 1] == bs[i - 1];
    assert GlueNext(f, i) == bs;
  }

  /** Release the blocks at the given pointers one after the other. */
  ghost function ReleaseAll(bs: seq<Block>, ps: seq<nat>): seq<Block>
    decreases |ps|
  {
    if ps == [] then bs else ReleaseAll(ReleasePtr(bs, ps[0]), ps[1..])
  }

  /** The pointers listed are exactly those of the live blocks, each once. */
  ghost predicate Lists(live: set<Block>, ps: seq<nat>) {
    && (forall i, j :: 0 <= i < j < |ps| ==> ps[i] != ps[j])
    && (forall p :: p in ps <==> exists b :: b in live && b.Payload() == p)
  }

  lemma FirstTwo(bs: seq<Block>)
    requires NoAdjacentFree(bs) && 1 < |bs|
    ensures !(bs[0].free && bs[1].free)
  {
  }

  lemma NothingLive(bs: seq<Block>)
    requires WellFormed(bs) && Live(bs) == {}
    ensures bs == Initial()
  {
    if 1 < |bs| {
      FirstTwo(bs);
    }
    assert forall i :: 0 <= i < |bs| ==> (bs[i] in Live(bs) <==> !bs[i].free);
  }

  lemma PayloadNamesBlock(bs: seq<Block>, b: Block, c: Block)
    requires Tiles(bs) && b in Live(bs) && c in Live(bs) && b.Payload() == c.Payload()
    ensures b == c
  {
    Layout(bs);
  }

  lemma ListedPtr(bs: seq<Block>, ps: seq<nat>) returns (i: nat)
    requires Tiles(bs) && Lists(Live(bs), ps) && ps != []
    ensures IndexOf(bs, ps[0] - HEADER) == i < |bs| && !bs[i].free
    ensures bs[i] in Live(bs) && bs[i].Payload() == ps[0]
  {
    assert ps[0] in ps;
    var b :| b in Live(bs) && b.Payload() == ps[0];
    i :| 0 <= i < |bs| && bs[i] == b;
    IndexIsUnique(bs, i);
  }

  lemma LivePayloads(bs: seq<Block>, d: Block, p: nat)
    requires Tiles(bs) && d in Live(bs)
    ensures (exists c :: c in Live(bs) - {d} && c.Payload() == p) <==>
            p != d.Payload() && exists c :: c in Live(bs) && c.Payload() == p
  {
    forall c | c in Live(bs) && c.Payload() == d.Payload()
      ensures c == d
    {
      PayloadNamesBlock(bs, c, d);
    }
    if c :| c in Live(bs) && c.Payload() == p && p != d.Payload() {
      assert c in Live(bs) - {d};
    }
  }

  lemma DropFirst(bs: seq<Block>, ps: seq<nat>, d: Block)
    requires Tiles(bs) && Lists(Live(bs), ps) && ps != [] && d in Live(bs) && d.Payload() == ps[0]
    ensures Lists(Live(bs) - {d}, ps[1..])
  {
    var qs := ps[1..];
    assert ps == [ps[0]] + qs;
    forall q: nat
      ensures q in qs <==> exists c :: c in Live(bs) - {d} && c.Payload() == q
    {
      LivePayloads(bs, d, q);
      assert q in ps <==> q == ps[0] || q in qs;
    }
  }

  /** A release through a pointer to a block keeps the list well formed and removes exactly
      the block of that pointer from the live ones. */
  lemma ReleasePtrLive(bs: seq<Block>, p: nat)
    requires WellFormed(bs) && IsBlock(bs, p)
    ensures var r := ReleasePtr(bs, p);
            WellFormed(r) && Live(r) == Live(bs) - {bs[IndexOf(bs, p - HEADER)]}
    ensures !IsLive(bs, p) ==> ReleasePtr(bs, p) == bs
  {
    var i := IndexOf(bs, p - HEADER);
    ReleaseShape(bs, i);
    ReleaseLive(bs, i);
    if bs[i].free {
      ReleaseTwice(bs, i);
    }
  }

  lemma ReleaseListed(bs: seq<Block>, ps: seq<nat>)
    requires WellFormed(bs) && Lists(Live(bs), ps) && ps != []
    ensures IsLive(bs, ps[0])
    ensures WellFormed(ReleasePtr(bs, ps[0])) && Lists(Live(ReleasePtr(bs, ps[0])), ps[1..])
  {
    hide Lists, Live, ReleasePtr, Tiles, NoAdjacentFree;
    var i := ListedPtr(bs, ps);
    ReleasePtrLive(bs, ps[0]);
    DropFirst(bs, ps, bs[i]);
  }

  /** Releasing all live blocks, in whatever order, gives back the single free block of
      0x400000 - 16 bytes. */
  lemma {:induction false} ReleaseAllRestores(bs: seq<Block>, ps: seq<nat>)
    requires WellFormed(bs) && Lists(Live(bs), ps)
    ensures ReleaseAll(bs, ps) == Initial()
    decreases |ps|
  {
    if ps == [] {
      assert forall b :: b in Live(bs) ==> b.Payload() in ps;
      NothingLive(bs);
    } else {
      ReleaseListed(bs, ps);
      ReleaseAllRestores(ReleasePtr(bs, ps[0]), ps[1..]);
    }
  }

  // ---------------------------------------------------------------- accounting

  function Bytes(bs: seq<Block>, free: bool): nat {
    if bs == [] then 0 else (if bs[0].free == free then bs[0].size else 0) + Bytes(bs[1..], free)
  }

  function Count(bs: seq<Block>, free: bool): nat {
    if bs == [] then 0 else (if bs[0].free == free then 1 else 0) + Count(bs[1..], free)
  }

  lemma {:induction false} BytesSnoc(bs: seq<Block>, b: Block, free: bool)
    ensures Bytes(bs + [b], free) == Bytes(bs, free) + (if b.free == free then b.size else 0)
    ensures Count(bs + [b], free) == Count(bs, free) + (if b.free == free then 1 else 0)
  {
    if bs == [] {
      assert bs + [b] == [b];
      assert [b][1..] == [];
    } else {
      assert (bs + [b])[1..] == bs[1..] + [b];
      BytesSnoc(bs[1..], b, free);
    }
  }

  lemma {:induction false} PrefixAccounts(bs: seq<Block>, k: nat)
    requires Tiles(bs) && 0 < k <= |bs|
    ensures Bytes(bs[..k], true) + Bytes(bs[..k], false) + HEADER * (Count(bs[..k], true) + Count(bs[..k], false))
            == bs[k - 1].End() - HEAP_START
  {
    assert bs[..k] == bs[..k - 1] + [bs[k - 1]];
    BytesSnoc(bs[..k - 1], bs[k - 1], true);
    BytesSnoc(bs[..k - 1], bs[k - 1], false);
    if 1 < k {
      PrefixAccounts(bs, k - 1);
      assert bs[k - 2].End() == bs[k - 1].addr;
    } else {
      assert bs[..0] == [];
    }
  }

  /** Used bytes, free bytes and headers add up to the whole heap. */
  lemma Accounts(bs: seq<Block>)
    requires Tiles(bs)
    ensures Bytes(bs, false) + Bytes(bs, true) + 16 * (Count(bs, false) + Count(bs, true)) == 0x400000
  {
    PrefixAccounts(bs, |bs|);
    assert bs[..|bs|] == bs;
  }

  // ---------------------------------------------------------------- the 32-bit round-up

  /** The round-up covers the request exactly when the request is at most 0xFFFFFFFC. */
  lemma AlignUpCovers(n: Word32)
    ensures AlignUp(n) % 4 == 0
    ensures n <= AlignUp(n) <==> n <= 0xFFFF_FFFC
    ensures n <= 0xFFFF_FFFC ==> AlignUp(n) < n + 4
    ensures 0xFFFF_FFFC < n ==> AlignUp(n) == 0
  {
  }

  lemma SplitKeepsPositive(bs: seq<Block>, i: nat, n: nat)
    requires i < |bs| && AllPositive(bs)
    ensures AllPositive(Split(bs, i, n)) <==> (n != 0 || bs[i].size <= HEADER)
  {
    var s := Split(bs, i, n);
    if n + HEADER < bs[i].size {
      assert s[i].size == n;
      forall k | 0 <= k < |s| && k != i
        ensures 0 < s[k].size
      {
        assert k < i ==> s[k] == bs[k];
        assert i + 1 < k ==> s[k] == bs[k - 1];
      }
    }
  }

  /** An allocation keeps all payloads non-empty exactly when it fails, or the rounded
      size is not zero (the request did not wrap), or the block found is too small to split. */
  lemma TakeKeepsPositive(bs: seq<Block>, n: nat)
    requires AllPositive(bs)
    ensures AllPositive(Take(bs, n)) <==> (n != 0 || FirstFit(bs, n) == |bs| || bs[FirstFit(bs, n)].size <= HEADER)
  {
    var i := FirstFit(bs, n);
    if i < |bs| {
      SplitKeepsPositive(bs, i, n);
      var s, t := Split(bs, i, n), Take(bs, n);
      assert forall k :: 0 <= k < |s| ==> t[k].size == s[k].size;
      assert AllPositive(t) <==> AllPositive(s);
    }
  }

  lemma ReleaseKeepsPositive(bs: seq<Block>, i: nat)
    requires AllPositive(bs) && i < |bs|
    ensures AllPositive(Release(bs, i))
  {
    var g := GlueNext(SetFree(bs, i, true), i);
    assert AllPositive(g);
  }
}
