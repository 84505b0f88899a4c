/** The process table as it lies in memory: control blocks in an array, the ready queue
    threaded through them by next and prev links. */
module KernelTable {
  import opened Processes
  import opened SlotLists
  import opened SchedulerTheorems

  /** A process control block.  Entries of children past numChildren are never read. */
  datatype Pcb = Pcb(
    state: State,
    quantum: nat,
    kernelStack: nat,
    esp: nat,
    parent: Ptr,
    children: seq<Slot>,
    numChildren: nat,
    next: Ptr,
    prev: Ptr,
    timeRunning: nat,
    contextSwitches: nat,
    exitCode: int)

  const NO_CHILDREN: seq<Slot> := [0, 0, 0, 0, 0, 0, 0, 0, 0, 0, 0, 0, 0, 0, 0, 0]
  const ZERO_PCB := Pcb(New, 0, 0, 0, NIL, NO_CHILDREN, 0, NIL, NIL, 0, 0, 0)

  function ChildrenOf(b: Pcb): seq<Slot> {
    if b.numChildren <= |b.children| then b.children[..b.numChildren] else []
  }

  function View(b: Pcb): Proc {
    Proc(b.state, b.quantum, b.kernelStack, b.esp, b.parent, ChildrenOf(b), b.timeRunning, b.contextSwitches,
      b.exitCode)
  }

  function Views(t: seq<Pcb>): (r: seq<Proc>)
    ensures |r| == |t|
    ensures forall i :: 0 <= i < |t| ==> r[i] == View(t[i])
  {
    seq(|t|, i requires 0 <= i < |t| => View(t[i]))
  }

  ghost predicate Roomy(t: seq<Pcb>) {
    && |t| == MAX_PROCESSES
    && (forall p :: 0 <= p < MAX_PROCESSES ==>
          |t[p].children| == MAX_CHILDREN && t[p].numChildren <= MAX_CHILDREN)
  }

  function At(q: seq<Slot>, i: int): Ptr {
    if 0 <= i < |q| then q[i] else NIL
  }

  /** Head, tail and links spell out the queue q in both directions. */
  ghost predicate Linked(t: seq<Pcb>, q: seq<Slot>, head: Ptr, tail: Ptr) {
    && |t| == MAX_PROCESSES
    && head == At(q, 0)
    && tail == At(q, |q| - 1)
    && Distinct(q)
    && (forall i :: 0 <= i < |q| ==> t[q[i]].next == At(q, i + 1) && t[q[i]].prev == At(q, i - 1))
  }

  lemma ViewsUpdate(t: seq<Pcb>, p: Slot, b: Pcb)
    requires |t| == MAX_PROCESSES
    ensures Views(t[p := b]) == Views(t)[p := View(b)]
  {
  }

  /** A change of one block that keeps its links keeps the queue. */
  lemma LinkedUpdate(t: seq<Pcb>, q: seq<Slot>, head: Ptr, tail: Ptr, p: Slot, b: Pcb)
    requires Linked(t, q, head, tail) && (p in q ==> b.next == t[p].next && b.prev == t[p].prev)
    ensures Linked(t[p := b], q, head, tail)
  {
    forall i | 0 <= i < |q|
      ensures t[p := b][q[i]].next == At(q, i + 1) && t[p := b][q[i]].prev == At(q, i - 1)
    {
      assert q[i] in q;
    }
  }

  // ---------------------------------------------------------------- queue links

  /** The table after p has been linked in behind the tail. */
  function Appended(t: seq<Pcb>, p: Slot, tail: Ptr): seq<Pcb>
    requires |t| == MAX_PROCESSES
  {
    var u := t[p := t[p].(state := Ready, next := NIL, prev := tail)];
    if tail != NIL then u[tail := u[tail].(next := p)] else u
  }

  lemma AppendedFields(t: seq<Pcb>, p: Slot, tail: Ptr, x: Slot)
    requires |t| == MAX_PROCESSES && tail != p
    ensures var r := Appended(t, p, tail);
            && |r| == MAX_PROCESSES
            && r[x].next == (if x == tail then p else if x == p then NIL else t[x].next)
            && r[x].prev == (if x == p then tail else t[x].prev)
  {
  }

  lemma AppendViews(t: seq<Pcb>, p: Slot, tail: Ptr)
    requires |t| == MAX_PROCESSES && tail != p
    ensures Views(Appended(t, p, tail)) == Views(t)[p := View(t[p]).(state := Ready)]
    ensures Roomy(t) ==> Roomy(Appended(t, p, tail))
  {
  }

  lemma SnocDistinct(q: seq<Slot>, p: Slot)
    requires Distinct(q) && p !in q
    ensures Distinct(q + [p])
  {
  }

  lemma TailIn(t: seq<Pcb>, q: seq<Slot>, head: Ptr, tail: Ptr)
    requires Linked(t, q, head, tail)
    ensures tail != NIL ==> tail in q
  {
  }

  lemma WhereTail(t: seq<Pcb>, q: seq<Slot>, head: Ptr, tail: Ptr, i: nat)
    requires Linked(t, q, head, tail) && i < |q|
    ensures q[i] == tail <==> i == |q| - 1
  {
  }

  /** Linking in at the tail refines appending to the queue. */
  lemma AppendLinks(t: seq<Pcb>, q: seq<Slot>, head: Ptr, tail: Ptr, p: Slot)
    requires Linked(t, q, head, tail) && p !in q
    ensures Linked(Appended(t, p, tail), q + [p], if tail == NIL then p else head, p)
  {
    TailIn(t, q, head, tail);
    SnocDistinct(q, p);
    var r, q' := Appended(t, p, tail), q + [p];
    AppendedFields(t, p, tail, p);
    hide Appended, Distinct;
    forall i | 0 <= i < |q'|
      ensures r[q'[i]].next == At(q', i + 1) && r[q'[i]].prev == At(q', i - 1)
    {
      if i < |q| {
        assert q[i] in q && q'[i] == q[i];
        AppendedFields(t, p, tail, q[i]);
        WhereTail(t, q, head, tail, i);
      }
    }
  }

  /** The table after p has been unlinked. */
  function Unlinked(t: seq<Pcb>, p: Slot): seq<Pcb>
    requires |t| == MAX_PROCESSES
  {
    var n, v := t[p].next, t[p].prev;
    var u := if v != NIL then t[v := t[v].(next := n)] else t;
    var w := if n != NIL then u[n := u[n].(prev := v)] else u;
    w[p := w[p].(next := NIL, prev := NIL)]
  }

  function Cut(q: seq<Slot>, k: nat): seq<Slot>
    requires k < |q|
  {
    q[..k] + q[k + 1..]
  }

  lemma CutAt(q: seq<Slot>, k: nat, i: nat)
    requires k < |q| && i < |q| - 1
    ensures |Cut(q, k)| == |q| - 1 && Cut(q, k)[i] == if i < k then q[i] else q[i + 1]
  {
  }

  lemma CutDistinct(q: seq<Slot>, k: nat)
    requires k < |q| && Distinct(q)
    ensures Distinct(Cut(q, k)) && q[k] !in Cut(q, k)
  {
    forall i | 0 <= i < |q| - 1
      ensures Cut(q, k)[i] == if i < k then q[i] else q[i + 1]
    {
      CutAt(q, k, i);
    }
  }

  lemma UnlinkedFields(t: seq<Pcb>, p: Slot, x: Slot)
    requires |t| == MAX_PROCESSES && x != p
    ensures var r := Unlinked(t, p);
            && |r| == MAX_PROCESSES
            && r[x].next == (if x == t[p].prev then t[p].next else t[x].next)
            && r[x].prev == (if x == t[p].next then t[p].prev else t[x].prev)
  {
  }

  lemma WhereNeighbours(q: seq<Slot>, k: nat, i: nat)
    requires Distinct(q) && k < |q| && i < |q|
    ensures q[i] == At(q, k + 1) <==> i == k + 1
    ensures q[i] == At(q, k - 1) <==> i == k - 1
    ensures q[i] == q[k] <==> i == k
  {
  }

  lemma UnlinkAt(t: seq<Pcb>, q: seq<Slot>, head: Ptr, tail: Ptr, k: nat, i: nat)
    requires Linked(t, q, head, tail) && k < |q| && i < |q| && i != k
    ensures var r := Unlinked(t, q[k]);
            && |r| == MAX_PROCESSES
            && r[q[i]].next == (if i + 1 == k then At(q, k + 1) else At(q, i + 1))
            && r[q[i]].prev == (if i == k + 1 then At(q, k - 1) else At(q, i - 1))
  {
    hide Distinct, Unlinked;
    WhereNeighbours(q, k, i);
    UnlinkedFields(t, q[k], q[i]);
  }

  /** Unlinking refines deletion from the queue, at any position. */
  lemma UnlinkLinks(t: seq<Pcb>, q: seq<Slot>, head: Ptr, tail: Ptr, k: nat)
    requires Linked(t, q, head, tail) && k < |q|
    ensures var p := q[k];
            Linked(Unlinked(t, p), Cut(q, k),
                   if t[p].prev == NIL then t[p].next else head,
                   if t[p].next == NIL then t[p].prev else tail)
  {
    hide Unlinked, Distinct, Cut, At;
    var r, c := Unlinked(t, q[k]), Cut(q, k);
    LinksAt(t, q, head, tail, k);
    CutDistinct(q, k);
    CutEnds(q, k);
    UnlinkedSize(t, q[k]);
    forall i | 0 <= i < |c|
      ensures r[c[i]].next == At(c, i + 1) && r[c[i]].prev == At(c, i - 1)
    {
      CutAround(q, k, i);
      UnlinkAt(t, q, head, tail, k, if i < k then i else i + 1);
    }
  }

  lemma LinksAt(t: seq<Pcb>, q: seq<Slot>, head: Ptr, tail: Ptr, k: nat)
    requires Linked(t, q, head, tail) && k < |q|
    ensures t[q[k]].prev == At(q, k - 1) && (t[q[k]].prev == NIL <==> k == 0)
    ensures t[q[k]].next == At(q, k + 1) && (t[q[k]].next == NIL <==> k == |q| - 1)
  {
  }

  lemma UnlinkedSize(t: seq<Pcb>, p: Slot)
    requires |t| == MAX_PROCESSES
    ensures |Unlinked(t, p)| == MAX_PROCESSES
  {
  }

  lemma CutEnds(q: seq<Slot>, k: nat)
    requires k < |q|
    ensures |Cut(q, k)| == |q| - 1
    ensures At(Cut(q, k), 0) == if k == 0 then At(q, 1) else At(q, 0)
    ensures At(Cut(q, k), |q| - 2) == if k == |q| - 1 then At(q, |q| - 2) else At(q, |q| - 1)
  {
  }

  lemma CutAround(q: seq<Slot>, k: nat, i: nat)
    requires k < |q| && i < |q| - 1
    ensures var c, j := Cut(q, k), if i < k then i else i + 1;
            && |c| == |q| - 1 && c[i] == q[j]
            && At(c, i + 1) == (if j + 1 == k then At(q, k + 1) else At(q, j + 1))
            && At(c, i - 1) == (if j == k + 1 then At(q, k - 1) else At(q, j - 1))
  {
  }

  lemma ViewsRelink(t: seq<Pcb>, p: Slot, n: Ptr, v: Ptr)
    requires |t| == MAX_PROCESSES
    ensures Views(t[p := t[p].(next := n, prev := v)]) == Views(t)
    ensures Roomy(t) ==> Roomy(t[p := t[p].(next := n, prev := v)])
  {
  }

  lemma UnlinkViews(t: seq<Pcb>, p: Slot)
    requires |t| == MAX_PROCESSES
    ensures Views(Unlinked(t, p)) == Views(t)
    ensures Roomy(t) ==> Roomy(Unlinked(t, p))
  {
    hide Views, Roomy;
    var n, v := t[p].next, t[p].prev;
    var u := if v != NIL then t[v := t[v].(next := n)] else t;
    var w := if n != NIL then u[n := u[n].(prev := v)] else u;
    if v != NIL {
      ViewsRelink(t, v, n, t[v].prev);
    }
    if n != NIL {
      ViewsRelink(u, n, u[n].next, v);
    }
    ViewsRelink(w, p, NIL, NIL);
  }

  // ---------------------------------------------------------------- blocks

  /** One block changed, its links kept: the view changes in one place. */
  lemma BlockUpdate(t: seq<Pcb>, q: seq<Slot>, head: Ptr, tail: Ptr, p: Slot, b: Pcb)
    requires Linked(t, q, head, tail) && Roomy(t)
    requires b.next == t[p].next && b.prev == t[p].prev && |b.children| == MAX_CHILDREN && b.numChildren <= MAX_CHILDREN
    ensures Linked(t[p := b], q, head, tail) && Roomy(t[p := b])
    ensures Views(t[p := b]) == Views(t)[p := View(b)]
  {
    hide At, Distinct, ChildrenOf;
    ViewsUpdate(t, p, b);
    LinkedUpdate(t, q, head, tail, p, b);
  }

  /** One block changed outside its links and its child list. */
  lemma BlockTouch(t: seq<Pcb>, q: seq<Slot>, head: Ptr, tail: Ptr, p: Slot, b: Pcb)
    requires Linked(t, q, head, tail) && Roomy(t)
    requires b.next == t[p].next && b.prev == t[p].prev && b.children == t[p].children
             && b.numChildren == t[p].numChildren
    ensures Linked(t[p := b], q, head, tail) && Roomy(t[p := b])
    ensures Views(t[p := b]) == Views(t)[p := View(b)]
    ensures ChildrenOf(b) == ChildrenOf(t[p])
  {
    BlockUpdate(t, q, head, tail, p, b);
  }

  /** A block outside the queue may be rewritten altogether. */
  lemma BlockReset(t: seq<Pcb>, q: seq<Slot>, head: Ptr, tail: Ptr, p: Slot, b: Pcb)
    requires Linked(t, q, head, tail) && Roomy(t) && p !in q
    requires |b.children| == MAX_CHILDREN && b.numChildren <= MAX_CHILDREN
    ensures Linked(t[p := b], q, head, tail) && Roomy(t[p := b])
    ensures Views(t[p := b]) == Views(t)[p := View(b)]
  {
    hide At, Distinct, ChildrenOf;
    ViewsUpdate(t, p, b);
    LinkedUpdate(t, q, head, tail, p, b);
  }

  lemma AppendChild(b: Pcb, c: Slot)
    requires |b.children| == MAX_CHILDREN && b.numChildren < MAX_CHILDREN
    ensures View(b.(children := b.children[b.numChildren := c], numChildren := b.numChildren + 1)) ==
            View(b).(children := ChildrenOf(b) + [c])
    ensures |ChildrenOf(b)| == b.numChildren
  {
  }

  /** The block b with child c listed, if there is room. */
  function AdoptPcb(b: Pcb, c: Slot): Pcb {
    if b.numChildren < |b.children| && b.numChildren < MAX_CHILDREN
    then b.(children := b.children[b.numChildren := c], numChildren := b.numChildren + 1)
    else b
  }

  lemma AdoptBlock(t: seq<Pcb>, q: seq<Slot>, head: Ptr, tail: Ptr, parent: Slot, c: Slot)
    requires Linked(t, q, head, tail) && Roomy(t)
    ensures var u := t[parent := AdoptPcb(t[parent], c)];
            Linked(u, q, head, tail) && Roomy(u) && Views(u) == Adopt(Views(t), parent, c)
  {
    hide Linked, Views;
    SameView(t, parent);
    BlockUpdate(t, q, head, tail, parent, AdoptPcb(t[parent], c));
    if t[parent].numChildren < MAX_CHILDREN {
      AppendChild(t[parent], c);
    }
  }

  lemma SameView(t: seq<Pcb>, p: Slot)
    requires |t| == MAX_PROCESSES
    ensures Views(t)[p := View(t[p])] == Views(t) && Views(t)[p] == View(t[p])
  {
  }

  lemma SizedViews(s: Sys, t: seq<Pcb>)
    requires Roomy(t) && s.procs == Views(t) && |s.stacks| == MAX_PROCESSES && 1 <= s.nextPid <= MAX_PROCESSES
    ensures Sized(s)
  {
  }

  lemma RoomyAt(t: seq<Pcb>, p: Slot)
    requires Roomy(t)
    ensures |t[p].children| == MAX_CHILDREN && t[p].numChildren <= MAX_CHILDREN
            && |ChildrenOf(t[p])| == t[p].numChildren
    ensures forall i :: 0 <= i < t[p].numChildren ==> ChildrenOf(t[p])[i] == t[p].children[i]
  {
  }

  /** The child list of b with the entry at i closed over by the entries behind it. */
  lemma ShiftedList(b: Pcb, ch: seq<Slot>, i: nat)
    requires |b.children| == |ch| == MAX_CHILDREN && i < b.numChildren <= MAX_CHILDREN
    requires b.children[i] !in b.children[..i]
    requires forall m :: 0 <= m < i ==> ch[m] == b.children[m]
    requires forall m :: i <= m < b.numChildren - 1 ==> ch[m] == b.children[m + 1]
    ensures View(b.(children := ch, numChildren := b.numChildren - 1)) ==
            View(b).(children := RemoveFirst(ChildrenOf(b), b.children[i]))
  {
    var l, r := ChildrenOf(b), ch[..b.numChildren - 1];
    assert forall m :: 0 <= m < i ==> l[m] == b.children[..i][m];
    RemoveFirstCuts(l, b.children[i]);
    IndexIs(l, b.children[i], i);
    assert r == l[..i] + l[i + 1..];
  }
}
