/** The bytes of the heap region, and the block headers stored in them.

    A header is four little-endian 32-bit words: size, is_free, next and prev. */
module HeapMemory {
  import opened Machine
  import opened HeapBlocks

  datatype Header = Header(size: nat, isFree: nat, next: nat, prev: nat)

  function WordOf(b0: Byte, b1: Byte, b2: Byte, b3: Byte): (v: Word32) {
    b0 as int + 0x100 * b1 as int + 0x1_0000 * b2 as int + 0x100_0000 * b3 as int
  }

  /** The 32-bit word at address a; 0 outside the region. */
  function Load(m: seq<Byte>, a: int): Word32 {
    var k := a - HEAP_START;
    if 0 <= k && k + 4 <= |m| then WordOf(m[k], m[k + 1], m[k + 2], m[k + 3]) else 0
  }

  function HeaderAt(m: seq<Byte>, a: int): Header {
    Header(Load(m, a), Load(m, a + 4), Load(m, a + 8), Load(m, a + 12))
  }

  function NextOf(bs: seq<Block>, i: nat): nat {
    if i + 1 < |bs| then bs[i + 1].addr else 0
  }

  function PrevOf(bs: seq<Block>, i: nat): nat
    requires i <= |bs|
  {
    if 0 < i then bs[i - 1].addr else 0
  }

  /** The header that block i of the list must have in memory: prev mirrors next. */
  function HeaderOf(bs: seq<Block>, i: nat): Header
    requires i < |bs|
  {
    Header(bs[i].size, if bs[i].free then 1 else 0, NextOf(bs, i), PrevOf(bs, i))
  }

  ghost predicate Represents(m: seq<Byte>, bs: seq<Block>) {
    && |m| == HEAP_SIZE
    && (forall i :: 0 <= i < |bs| ==> HeaderAt(m, bs[i].addr) == HeaderOf(bs, i))
  }

  /** Memories m and m' hold the same n bytes from address a on. */
  ghost predicate SameBytes(m: seq<Byte>, m': seq<Byte>, a: int, n: nat) {
    && |m| == |m'|
    && (forall k :: 0 <= k < |m| && a - HEAP_START <= k < a - HEAP_START + n ==> m[k] == m'[k])
  }

  ghost predicate SameOutside(m: seq<Byte>, m': seq<Byte>, a: int, n: nat) {
    && |m| == |m'|
    && (forall k :: 0 <= k < |m| && !(a - HEAP_START <= k < a - HEAP_START + n) ==> m[k] == m'[k])
  }

  /** The little-endian bytes of a word make up the word. */
  lemma BytesOfWord(v: nat)
    requires v < WORD_LIMIT
    ensures v == v % 0x100 + 0x100 * (v / 0x100 % 0x100) + 0x1_0000 * (v / 0x1_0000 % 0x100)
                 + 0x100_0000 * (v / 0x100_0000)
    ensures v / 0x100_0000 < 0x100
  {
  }

  lemma HeaderApart(m: seq<Byte>, m': seq<Byte>, a: int, n: nat, h: int)
    requires SameOutside(m, m', a, n) && (h + HEADER <= a || a + n <= h)
    ensures HeaderAt(m', h) == HeaderAt(m, h)
  {
    assert Load(m', h) == Load(m, h);
    assert Load(m', h + 4) == Load(m, h + 4);
    assert Load(m', h + 8) == Load(m, h + 8);
    assert Load(m', h + 12) == Load(m, h + 12);
  }

  /** Store a 32-bit word, byte by byte. */
  method Store(mem: array<Byte>, a: nat, v: Word32)
    requires mem.Length == HEAP_SIZE && HEAP_START <= a && a + 4 <= HEAP_LIMIT
    modifies mem
    ensures Load(mem[..], a) == v
    ensures SameOutside(old(mem[..]), mem[..], a, 4)
  {
    var k := a - HEAP_START;
    BytesOfWord(v);
    mem[k] := v % 0x100;
    mem[k + 1] := v / 0x100 % 0x100;
    mem[k + 2] := v / 0x1_0000 % 0x100;
    mem[k + 3] := v / 0x100_0000;
  }

  method StoreByte(mem: array<Byte>, a: nat, v: Byte)
    requires mem.Length == HEAP_SIZE && HEAP_START <= a < HEAP_LIMIT
    modifies mem
    ensures mem[a - HEAP_START] == v
    ensures SameOutside(old(mem[..]), mem[..], a, 1)
  {
    mem[a - HEAP_START] := v;
  }

  // ---------------------------------------------------------------- field assignments

  method SetSize(mem: array<Byte>, h: nat, v: Word32)
    requires mem.Length == HEAP_SIZE && HEAP_START <= h && h + HEADER <= HEAP_LIMIT
    modifies mem
    ensures HeaderAt(mem[..], h) == old(HeaderAt(mem[..], h)).(size := v)
    ensures SameOutside(old(mem[..]), mem[..], h, HEADER)
  {
    Store(mem, h, v);
  }

  method SetIsFree(mem: array<Byte>, h: nat, v: Word32)
    requires mem.Length == HEAP_SIZE && HEAP_START <= h && h + HEADER <= HEAP_LIMIT
    modifies mem
    ensures HeaderAt(mem[..], h) == old(HeaderAt(mem[..], h)).(isFree := v)
    ensures SameOutside(old(mem[..]), mem[..], h, HEADER)
  {
    Store(mem, h + 4, v);
  }

  method SetNext(mem: array<Byte>, h: nat, v: Word32)
    requires mem.Length == HEAP_SIZE && HEAP_START <= h && h + HEADER <= HEAP_LIMIT
    modifies mem
    ensures HeaderAt(mem[..], h) == old(HeaderAt(mem[..], h)).(next := v)
    ensures SameOutside(old(mem[..]), mem[..], h, HEADER)
  {
    Store(mem, h + 8, v);
  }

  method SetPrev(mem: array<Byte>, h: nat, v: Word32)
    requires mem.Length == HEAP_SIZE && HEAP_START <= h && h + HEADER <= HEAP_LIMIT
    modifies mem
    ensures HeaderAt(mem[..], h) == old(HeaderAt(mem[..], h)).(prev := v)
    ensures SameOutside(old(mem[..]), mem[..], h, HEADER)
  {
    Store(mem, h + 12, v);
  }

  /** Fill in all four fields of a header. */
  method SetHeader(mem: array<Byte>, h: nat, size: Word32, isFree: Word32, next: Word32, prev: Word32)
    requires mem.Length == HEAP_SIZE && HEAP_START <= h && h + HEADER <= HEAP_LIMIT
    modifies mem
    ensures HeaderAt(mem[..], h) == Header(size, isFree, next, prev)
    ensures SameOutside(old(mem[..]), mem[..], h, HEADER)
  {
    SetSize(mem, h, size);
    SetIsFree(mem, h, isFree);
    SetNext(mem, h, next);
    SetPrev(mem, h, prev);
  }

  // ---------------------------------------------------------------- what a store leaves alone

  /** The payloads of the given blocks hold the same bytes in m and m'. */
  ghost predicate Kept(live: set<Block>, m: seq<Byte>, m': seq<Byte>) {
    |m| == |m'| && forall b :: b in live ==> SameBytes(m, m', b.Payload(), b.size)
  }

  /** The n bytes at a meet no payload of the given blocks. */
  ghost predicate Clear(live: set<Block>, a: int, n: nat) {
    forall b :: b in live ==> b.End() <= a || a + n <= b.Payload()
  }

  lemma KeptAfter(live: set<Block>, m0: seq<Byte>, m: seq<Byte>, m': seq<Byte>, a: int, n: nat)
    requires Kept(live, m0, m) && SameOutside(m, m', a, n) && Clear(live, a, n)
    ensures Kept(live, m0, m')
  {
  }

  lemma KeptThen(s: set<Block>, live: set<Block>, live': set<Block>, m0: seq<Byte>, m: seq<Byte>, m': seq<Byte>)
    requires Kept(live, m0, m) && Kept(live', m, m') && s <= live && s <= live'
    ensures Kept(s, m0, m')
  {
  }

  lemma KeptSame(live: set<Block>, m: seq<Byte>)
    ensures Kept(live, m, m)
  {
  }

  /** Fill size bytes at ptr with the low byte of value. */
  method Memset(mem: array<Byte>, ptr: nat, value: int, size: nat)
    requires mem.Length == HEAP_SIZE && HEAP_START <= ptr && ptr + size <= HEAP_LIMIT
    modifies mem
    ensures SameOutside(old(mem[..]), mem[..], ptr, size)
    ensures forall k :: ptr - HEAP_START <= k < ptr - HEAP_START + size ==> mem[k] == value % 256
  {
    var p, n := ptr, size;
    while n != 0
      invariant 0 <= n <= size && p == ptr + (size - n)
      invariant forall k :: ptr - HEAP_START <= k < p - HEAP_START ==> mem[k] == value % 256
      invariant forall k :: 0 <= k < HEAP_SIZE && !(ptr - HEAP_START <= k < p - HEAP_START) ==> mem[k] == old(mem[k])
    {
      n := n - 1;
      mem[p - HEAP_START] := value % 256;
      p := p + 1;
    }
  }

  /** The offset in the old source of the byte that ends up at offset k of a copy to an
      address that lies ahead bytes higher: within that distance the copy reads old bytes,
      beyond it what it has itself written. */
  function Origin(ahead: int, k: nat): (o: nat)
    ensures o <= k
    ensures ahead <= 0 || k < ahead ==> o == k
    decreases k
  {
    if ahead <= 0 || k < ahead then k else Origin(ahead, k - ahead)
  }

  lemma OriginBack(ahead: int, k: nat)
    requires 0 < ahead <= k
    ensures Origin(ahead, k) == Origin(ahead, k - ahead)
  {
  }

  /** Memory m after copying n bytes from offset j to offset i, lowest first. */
  function Copied(m: seq<Byte>, i: nat, j: nat, n: nat): (r: seq<Byte>)
    requires i + n <= |m| && j + n <= |m|
    ensures |r| == |m|
    ensures forall t :: 0 <= t < |m| ==> r[t] == if i <= t < i + n then m[j + Origin(i - j, t - i)] else m[t]
  {
    seq(|m|, t requires 0 <= t < |m| => if i <= t < i + n then m[j + Origin(i - j, t - i)] else m[t])
  }

  lemma CopyOne(m: seq<Byte>, i: nat, j: nat, n: nat)
    requires i + n < |m| && j + n < |m|
    ensures Copied(m, i, j, n)[i + n := Copied(m, i, j, n)[j + n]] == Copied(m, i, j, n + 1)
  {
    NextOrigin(m, i, j, n);
    hide Copied, Origin;
    var r, next := Copied(m, i, j, n), Copied(m, i, j, n + 1);
    forall t | 0 <= t < |m|
      ensures r[i + n := r[j + n]][t] == next[t]
    {
    }
  }

  /** The byte at offset n of the source, as the copy finds it. */
  lemma NextOrigin(m: seq<Byte>, i: nat, j: nat, n: nat)
    requires i + n < |m| && j + n < |m|
    ensures Copied(m, i, j, n)[j + n] == m[j + Origin(i - j, n)]
  {
    if j < i <= j + n {
      OriginBack(i - j, n);
    }
  }

  lemma CopiedOutside(m: seq<Byte>, dest: nat, src: nat, n: nat)
    requires HEAP_START <= dest && HEAP_START <= src && dest - HEAP_START + n <= |m| && src - HEAP_START + n <= |m|
    ensures SameOutside(m, Copied(m, dest - HEAP_START, src - HEAP_START, n), dest, n)
  {
  }

  /** The old bytes arrive unless the destination begins inside the source range. */
  lemma CopiedArrives(m: seq<Byte>, i: nat, j: nat, n: nat)
    requires i + n <= |m| && j + n <= |m| && (i <= j || j + n <= i)
    ensures Copied(m, i, j, n)[i..i + n] == m[j..j + n]
  {
    var r, copied, copy := Copied(m, i, j, n), m[j..j + n], Copied(m, i, j, n)[i..i + n];
    forall k | 0 <= k < n
      ensures copy[k] == copied[k]
    {
      assert copy[k] == r[i + k];
    }
  }

  /** Copy size bytes from src to dest, lowest first. */
  method Memcpy(mem: array<Byte>, dest: nat, src: nat, size: nat)
    requires mem.Length == HEAP_SIZE
    requires HEAP_START <= dest && dest + size <= HEAP_LIMIT
    requires HEAP_START <= src && src + size <= HEAP_LIMIT
    modifies mem
    ensures mem[..] == Copied(old(mem[..]), dest - HEAP_START, src - HEAP_START, size)
    ensures SameOutside(old(mem[..]), mem[..], dest, size)
    ensures dest <= src || src + size <= dest ==>
              mem[dest - HEAP_START..dest - HEAP_START + size] == old(mem[src - HEAP_START..src - HEAP_START + size])
  {
    hide Copied, SameOutside;
    var d, s, n := dest, src, size;
    ghost var i, j, was := dest - HEAP_START, src - HEAP_START, mem[..];
    CopyNone(was, i, j);
    while n != 0
      invariant 0 <= n <= size && d == dest + (size - n) && s == src + (size - n)
      invariant mem[..] == Copied(was, i, j, size - n)
    {
      CopyOne(was, i, j, size - n);
      n := n - 1;
      mem[d - HEAP_START] := mem[s - HEAP_START];
      d, s := d + 1, s + 1;
    }
    CopiedOutside(was, dest, src, size);
    if dest <= src || src + size <= dest {
      CopiedArrives(was, i, j, size);
    }
  }

  lemma CopyNone(m: seq<Byte>, i: nat, j: nat)
    requires i <= |m| && j <= |m|
    ensures Copied(m, i, j, 0) == m
  {
  }
}
