/** Heap code on memory whose headers may be spoilt: what it reads and writes, word by word,
    whether or not the headers still spell out a block list. */
module RawMemory {
  import opened Machine
  import opened HeapBlocks
  import opened HeapMemory

  // ---------------------------------------------------------------- what stays

  lemma LoadKept(m: seq<Byte>, m': seq<Byte>, lo: int, n: nat, a: int)
    requires SameBytes(m, m', lo, n) && lo <= a && a + 4 <= lo + n
    ensures Load(m', a) == Load(m, a)
  {
  }

  lemma LoadApart(m: seq<Byte>, m': seq<Byte>, a: int, n: nat, b: int)
    requires SameOutside(m, m', a, n) && (b + 4 <= a || a + n <= b)
    ensures Load(m', b) == Load(m, b)
  {
  }

  lemma KeptApart(m: seq<Byte>, m': seq<Byte>, a: int, n: nat, lo: int, k: nat)
    requires SameOutside(m, m', a, n) && (lo + k <= a || a + n <= lo)
    ensures SameBytes(m, m', lo, k)
  {
  }

  lemma KeptOn(m0: seq<Byte>, m: seq<Byte>, m': seq<Byte>, lo: int, k: nat)
    requires SameBytes(m0, m, lo, k) && SameBytes(m, m', lo, k)
    ensures SameBytes(m0, m', lo, k)
  {
  }

  lemma KeptThenApart(m0: seq<Byte>, m: seq<Byte>, m': seq<Byte>, a: int, n: nat, lo: int, k: nat)
    requires SameBytes(m0, m, lo, k) && SameOutside(m, m', a, n) && (lo + k <= a || a + n <= lo)
    ensures SameBytes(m0, m', lo, k)
  {
    hide SameBytes, SameOutside;
    KeptApart(m, m', a, n, lo, k);
    KeptOn(m0, m, m', lo, k);
  }

  /** Store a word anywhere; memory outside the heap region is not part of this model. */
  method StoreAnywhere(mem: array<Byte>, a: nat, v: Word32)
    requires mem.Length == HEAP_SIZE
    modifies mem
    ensures SameOutside(old(mem[..]), mem[..], a, 4)
    ensures HEAP_START <= a && a + 4 <= HEAP_LIMIT ==> Load(mem[..], a) == v
  {
    if HEAP_START <= a && a + 4 <= HEAP_LIMIT {
      Store(mem, a, v);
    }
  }

  // ---------------------------------------------------------------- kmalloc

  /** The walk along next that starts at the first header stops at the last address of path:
      the blocks before it are taken or too small. */
  ghost predicate StopsAt(m: seq<Byte>, size: nat, path: seq<nat>) {
    && path != []
    && path[0] == HEAP_START
    && (forall k :: 0 <= k < |path| ==> path[k] != 0)
    && (forall k, l :: 0 <= k && l == k + 1 && l < |path| ==>
          && HeaderAt(m, path[k]).next == path[l]
          && !(HeaderAt(m, path[k]).isFree != 0 && size <= HeaderAt(m, path[k]).size))
    && HeaderAt(m, path[|path| - 1]).isFree != 0
    && size <= HeaderAt(m, path[|path| - 1]).size
  }

  /** find_free_block, on any memory in which the walk ends. */
  method FindBlock(mem: array<Byte>, size: nat, ghost path: seq<nat>) returns (current: nat)
    requires StopsAt(mem[..], size, path)
    ensures current == path[|path| - 1]
  {
    hide HeaderAt;
    current := HEAP_START;
    ghost var k := 0;
    while current != 0
      invariant 0 <= k < |path| && current == path[k]
      decreases |path| - k
    {
      var header := HeaderAt(mem[..], current);
      ghost var l := k + 1;
      assert l < |path| ==> header.next == path[l] && !(header.isFree != 0 && size <= header.size);
      if header.isFree != 0 && size <= header.size {
        return;
      }
      current := header.next;
      k := l;
    }
  }

  /** Are the n bytes at lo clear of everything that cutting size bytes off the block writes:
      the two headers, and the back link of what the block's next points to? */
  ghost predicate CutSpares(m: seq<Byte>, block: nat, size: nat, lo: nat, n: nat) {
    && (lo + n <= block || block + HEADER <= lo)
    && (lo + n <= block + HEADER + size || block + HEADER + size + HEADER <= lo)
    && (HeaderAt(m, block).next == 0
        || lo + n <= HeaderAt(m, block).next + 12 || HeaderAt(m, block).next + HEADER <= lo)
  }

  /** split_block, on any memory. */
  method CutAnyway(mem: array<Byte>, block: nat, size: nat, ghost lo: nat, ghost n: nat)
    requires mem.Length == HEAP_SIZE && HEAP_START <= block && block + HEADER + size + HEADER <= HEAP_LIMIT
    requires CutSpares(mem[..], block, size, lo, n)
    modifies mem
    ensures SameBytes(old(mem[..]), mem[..], lo, n)
    ensures var h := old(HeaderAt(mem[..], block));
            h.next == 0 && size + HEADER < h.size ==>
              && HeaderAt(mem[..], block) == h.(size := size, next := block + HEADER + size)
              && HeaderAt(mem[..], block + HEADER + size) == Header(h.size - size - HEADER, 1, 0, block)
  {
    hide HeaderAt, SameBytes, SameOutside;
    ghost var m0 := mem[..];
    SameSelf(m0, lo, n);
    var header := HeaderAt(mem[..], block);
    if header.size <= size + HEADER {
      return;
    }
    HeaderWords(m0, block);
    var newBlock := block + HEADER + size;
    SetHeader(mem, newBlock, header.size - size - HEADER, 1, header.next, block);
    ghost var m1 := mem[..];
    KeptThenApart(m0, m0, m1, newBlock, HEADER, lo, n);
    HeaderApart(m0, m1, newBlock, HEADER, block);
    if header.next != 0 {
      StoreAnywhere(mem, header.next + 12, newBlock);
      KeptThenApart(m0, m1, mem[..], header.next + 12, 4, lo, n);
    }
    ghost var m2 := mem[..];
    SetNext(mem, block, newBlock);
    ghost var m3 := mem[..];
    KeptThenApart(m0, m2, m3, block, HEADER, lo, n);
    HeaderApart(m2, m3, block, HEADER, newBlock);
    SetSize(mem, block, size);
    KeptThenApart(m0, m3, mem[..], block, HEADER, lo, n);
    HeaderApart(m3, mem[..], block, HEADER, newBlock);
  }

  lemma SameSelf(m: seq<Byte>, lo: int, n: nat)
    ensures SameBytes(m, m, lo, n)
  {
  }

  lemma HeaderWords(m: seq<Byte>, h: int)
    ensures HeaderAt(m, h).size < WORD_LIMIT && HeaderAt(m, h).next < WORD_LIMIT
  {
  }

  /** kmalloc of a multiple of four, on any memory in which the walk ends inside the heap. */
  method KmallocAnyway(mem: array<Byte>, size: nat, ghost path: seq<nat>, ghost lo: nat, ghost n: nat) returns (p: nat)
    requires mem.Length == HEAP_SIZE && StopsAt(mem[..], size, path)
    requires var block := path[|path| - 1];
             && HEAP_START <= block && block + HEADER + size + HEADER <= HEAP_LIMIT
             && CutSpares(mem[..], block, size, lo, n)
    modifies mem
    ensures p == path[|path| - 1] + HEADER
    ensures SameBytes(old(mem[..]), mem[..], lo, n)
    ensures var block := path[|path| - 1];
            var h := old(HeaderAt(mem[..], block));
            h.next == 0 && size + HEADER < h.size ==>
              && HeaderAt(mem[..], block) == Header(size, 0, block + HEADER + size, h.prev)
              && HeaderAt(mem[..], block + HEADER + size) == Header(h.size - size - HEADER, 1, 0, block)
  {
    hide HeaderAt, SameBytes, SameOutside, StopsAt;
    ghost var m0 := mem[..];
    var block := FindBlock(mem, size, path);
    CutAnyway(mem, block, size, lo, n);
    ghost var m1 := mem[..];
    SetIsFree(mem, block, 0);
    KeptThenApart(m0, m1, mem[..], block, HEADER, lo, n);
    HeaderApart(m1, mem[..], block, HEADER, block + HEADER + size);
    p := block + HEADER;
  }

  /** Word j of the page at p. */
  function Entry(m: seq<Byte>, p: nat, j: nat): Word32 {
    Load(m, p + 4 * j)
  }

  lemma EntriesApart(m: seq<Byte>, m': seq<Byte>, p: nat, i: nat)
    requires SameOutside(m, m', p + 4 * i, 4)
    ensures forall j: nat :: j != i ==> Entry(m', p, j) == Entry(m, p, j)
  {
    forall j: nat | j != i
      ensures Entry(m', p, j) == Entry(m, p, j)
    {
      LoadApart(m, m', p + 4 * i, 4, p + 4 * j);
    }
  }

  lemma OutsideMore(m0: seq<Byte>, m: seq<Byte>, m': seq<Byte>, p: nat, n: nat, a: nat, k: nat)
    requires SameOutside(m0, m, p, n) && SameOutside(m, m', a, k) && p <= a && a + k <= p + n
    ensures SameOutside(m0, m', p, n)
  {
  }

  lemma NothingWritten(m: seq<Byte>, p: nat, n: nat)
    ensures SameOutside(m, m, p, n)
  {
  }

  /** Clear the 1024 words of a page. */
  method ClearPage(mem: array<Byte>, p: nat)
    requires mem.Length == HEAP_SIZE && HEAP_START <= p && p + 4096 <= HEAP_LIMIT
    modifies mem
    ensures SameOutside(old(mem[..]), mem[..], p, 4096)
    ensures forall j :: 0 <= j < 1024 ==> Entry(mem[..], p, j) == 0
  {
    hide Load, SameOutside, Entry;
    ghost var m0 := mem[..];
    NothingWritten(m0, p, 4096);
    for i := 0 to 1024
      invariant SameOutside(m0, mem[..], p, 4096)
      invariant forall j :: 0 <= j < i ==> Entry(mem[..], p, j) == 0
    {
      ghost var m := mem[..];
      Store(mem, p + 4 * i, 0);
      EntriesApart(m, mem[..], p, i);
      EntryIs(mem[..], p, i);
      OutsideMore(m0, m, mem[..], p, 4096, p + 4 * i, 4);
    }
  }

  lemma EntryIs(m: seq<Byte>, p: nat, j: nat)
    ensures Entry(m, p, j) == Load(m, p + 4 * j)
  {
  }
}
