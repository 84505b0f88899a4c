/** Parents and children: what creation, exit and destruction do to the child lists. */
module ProcessFamilies {
  import opened Processes
  import opened SlotLists
  import opened SchedulerTheorems
  import opened ProcessSlots

  // ---------------------------------------------------------------- the law

  /** Is slot p taken?  The idle process has slot 0 for good; any other slot is held from a
      successful creation to the destruction, also after its process has exited. */
  ghost predicate Held(stacks: seq<bool>, p: int) {
    p == 0 || (0 < p < |stacks| && stacks[p])
  }

  /** The child list of slot x: no duplicates, held slots only, all with parent x. */
  ghost predicate GoodList(procs: seq<Proc>, stacks: seq<bool>, x: Slot)
    requires |procs| == MAX_PROCESSES
  {
    && Distinct(procs[x].children)
    && (forall c :: c in procs[x].children ==> Held(stacks, c) && procs[c].parent == x)
  }

  ghost predicate GoodLists(procs: seq<Proc>, stacks: seq<bool>)
    requires |procs| == MAX_PROCESSES
  {
    forall x: Slot :: Held(stacks, x) ==> GoodList(procs, stacks, x)
  }

  /** Families are in order; slot 1 is held once anything has been created. */
  ghost predicate FamilyInv(s: Sys) {
    && Inv(s)
    && GoodLists(s.procs, s.stacks)
    && (s.nextPid == 1 ==> forall p: Slot :: 1 <= p ==> !s.stacks[p])
    && (1 < s.nextPid ==> s.stacks[1])
    && (forall p: Slot :: p != 1 && Held(s.stacks, p) ==> s.procs[p].parent != p)
  }

  /** A creation that reaches the slot of an exited process still listed by another one: it
      fails, but has cleared the block and with it the parent. */
  ghost predicate Orphans(s: Sys) {
    && Sized(s)
    && AllocatePid(s) != NIL && s.stacks[AllocatePid(s)]
    && exists x: Slot :: x != AllocatePid(s) && Held(s.stacks, x) && AllocatePid(s) in s.procs[x].children
  }

  /** Slots are released by destroying held ones other than 1, and no creation orphans. */
  ghost predicate FamilyAllowed(s: Sys, op: Op) {
    && Sized(s)
    && Allowed(s, op)
    && (op.OpCreate? ==> !Orphans(s))
    && (Destroys(op) ==> op.p != 1 && s.stacks[op.p])
  }

  lemma InitialFamily(esp0: nat, area: nat)
    ensures FamilyInv(Initial(esp0, area))
  {
    InitialInv(esp0, area);
  }

  // ---------------------------------------------------------------- creating

  lemma AdoptLists(procs: seq<Proc>, stacks: seq<bool>, parent: Slot, child: Slot)
    requires |procs| == MAX_PROCESSES && GoodLists(procs, stacks)
    requires Held(stacks, child) && procs[child].parent == parent && child !in procs[parent].children
    ensures GoodLists(Adopt(procs, parent, child), stacks)
  {
    var r := Adopt(procs, parent, child);
    forall x: Slot | Held(stacks, x)
      ensures GoodList(r, stacks, x)
    {
      assert GoodList(procs, stacks, x);
      forall c | c in r[x].children
        ensures Held(stacks, c) && r[c].parent == x
      {
        assert c in procs[x].children || c == child;
      }
    }
  }

  lemma AllocatedIsFree(s: Sys)
    requires Inv(s) && AllocatePid(s) != NIL
    ensures 1 <= AllocatePid(s) && s.procs[AllocatePid(s)].state.Terminated?
    ensures s.nextPid == 1 && !s.stacks[1] ==> AllocatePid(s) == 1
  {
  }

  lemma FreshList(s: Sys, p: Slot)
    requires FamilyInv(s) && !Held(s.stacks, p)
    ensures var procs, stacks := s.procs[p := NewProc(s.stackArea, p, s.current)], s.stacks[p := true];
            GoodLists(procs, stacks) && p !in procs[s.current].children
  {
    var procs, stacks := s.procs[p := NewProc(s.stackArea, p, s.current)], s.stacks[p := true];
    forall x: Slot | Held(stacks, x)
      ensures GoodList(procs, stacks, x) && p !in procs[x].children
    {
      if x != p {
        assert GoodList(s.procs, s.stacks, x);
      }
    }
    assert Held(stacks, s.current);
  }

  lemma CreateSucceeds(s: Sys)
    requires FamilyInv(s) && Created(s) != NIL
    ensures FamilyInv(Create(s))
  {
    hide GoodLists, QueueOk, FirstFree;
    CreateInv(s);
    var p := AllocatePid(s);
    AllocatedIsFree(s);
    var procs := s.procs[p := NewProc(s.stackArea, p, s.current)];
    AdoptFamily(procs, s.current, p);
    FreshList(s, p);
    AdoptLists(procs, s.stacks[p := true], s.current, p);
  }

  /** A failed creation in a held slot keeps the lists exactly if nobody else lists it. */
  lemma ClearedLists(procs: seq<Proc>, stacks: seq<bool>, p: Slot, b: Proc)
    requires |procs| == MAX_PROCESSES && GoodLists(procs, stacks) && Held(stacks, p)
    requires b.children == [] && b.parent == NIL
    ensures GoodLists(procs[p := b], stacks) <==>
            forall x: Slot :: x != p && Held(stacks, x) ==> p !in procs[x].children
  {
    var r := procs[p := b];
    forall x: Slot | Held(stacks, x)
      ensures GoodList(r, stacks, x) <==> x == p || p !in procs[x].children
    {
      assert GoodList(procs, stacks, x);
      if x != p && p !in procs[x].children {
        assert forall c :: c in r[x].children ==> r[c] == procs[c];
      }
    }
  }

  /** Creation keeps families in order exactly if it does not orphan. */
  lemma CreateFamily(s: Sys)
    requires FamilyInv(s)
    ensures FamilyInv(Create(s)) <==> !Orphans(s)
  {
    hide GoodLists, QueueOk, FirstFree;
    if Created(s) != NIL {
      CreateSucceeds(s);
    } else if AllocatePid(s) != NIL {
      var p := AllocatePid(s);
      CreateInv(s);
      AllocatedIsFree(s);
      ClearedLists(s.procs, s.stacks, p, FREE_PROC.(quantum := QUANTUM));
    }
  }

  // ---------------------------------------------------------------- destroying

  /** The state of the table while the children of p, from the i-th on, still have to move:
      all other held lists are good and free of p. */
  ghost predicate Moving(procs: seq<Proc>, stacks: seq<bool>, p: Slot, i: nat)
    requires |procs| == MAX_PROCESSES
  {
    && (forall x: Slot :: x != p && Held(stacks, x) ==> GoodList(procs, stacks, x) && p !in procs[x].children)
    && Distinct(procs[p].children)
    && (forall j :: i <= j < |procs[p].children| ==>
          Held(stacks, procs[p].children[j]) && procs[procs[p].children[j]].parent == p && procs[p].children[j] != p)
  }

  lemma DisownMoving(procs: seq<Proc>, stacks: seq<bool>, p: Slot)
    requires |procs| == MAX_PROCESSES && GoodLists(procs, stacks) && Held(stacks, p) && procs[p].parent != p
    ensures Moving(Disown(procs, procs[p].parent, p), stacks, p, 0)
  {
    var par := procs[p].parent;
    var r := Disown(procs, par, p);
    assert GoodList(procs, stacks, p);
    forall x: Slot | x != p && Held(stacks, x)
      ensures GoodList(r, stacks, x) && p !in r[x].children
    {
      assert GoodList(procs, stacks, x);
      if x == par {
        RemoveFirstDistinct(procs[x].children, p);
      }
    }
  }

  lemma MoveOne(procs: seq<Proc>, stacks: seq<bool>, p: Slot, np: Slot, i: nat)
    requires |procs| == MAX_PROCESSES && Moving(procs, stacks, p, i) && np != p && Held(stacks, np)
             && i < |procs[p].children|
    ensures var c := procs[p].children[i];
            var r := Adopt(procs[c := procs[c].(parent := np)], np, c);
            Moving(r, stacks, p, i + 1) && r[p].children == procs[p].children
  {
    var c := procs[p].children[i];
    var r := Adopt(procs[c := procs[c].(parent := np)], np, c);
    forall x: Slot | x != p && Held(stacks, x)
      ensures GoodList(r, stacks, x) && p !in r[x].children
    {
      MovedList(procs, stacks, p, np, c, x);
    }
  }

  lemma MovedList(procs: seq<Proc>, stacks: seq<bool>, p: Slot, np: Slot, c: Slot, x: Slot)
    requires |procs| == MAX_PROCESSES && np != p && x != p && c != p
    requires GoodList(procs, stacks, x) && p !in procs[x].children && Held(stacks, c) && procs[c].parent == p
    ensures var r := Adopt(procs[c := procs[c].(parent := np)], np, c);
            GoodList(r, stacks, x) && p !in r[x].children
  {
    assert c !in procs[x].children;
  }

  lemma {:induction false} ReparentMoves(procs: seq<Proc>, stacks: seq<bool>, p: Slot, np: Slot, i: nat)
    requires |procs| == MAX_PROCESSES && Moving(procs, stacks, p, i) && np != p && Held(stacks, np)
             && i <= |procs[p].children|
    requires forall q :: 0 <= q < MAX_PROCESSES ==> |procs[q].children| <= MAX_CHILDREN
    ensures var r := Reparent(procs, p, np, i);
            Moving(r, stacks, p, |procs[p].children|) && r[p].children == procs[p].children
    decreases MAX_CHILDREN - i
  {
    hide Moving, Held;
    if i < |procs[p].children| {
      MoveOne(procs, stacks, p, np, i);
      var c := procs[p].children[i];
      ReparentMoves(Adopt(procs[c := procs[c].(parent := np)], np, c), stacks, p, np, i + 1);
    }
  }

  lemma KillMoved(procs: seq<Proc>, stacks: seq<bool>, p: Slot)
    requires |procs| == |stacks| == MAX_PROCESSES && Moving(procs, stacks, p, |procs[p].children|) && p != 0
    ensures GoodLists(Kill(procs, p), stacks[p := false])
  {
    var r, t := Kill(procs, p), stacks[p := false];
    forall x: Slot | Held(t, x)
      ensures GoodList(r, t, x)
    {
      assert GoodList(procs, stacks, x) && p !in procs[x].children;
    }
  }

  /** The list xs with as much of ys behind it as fits in a child list. */
  function FillUp(xs: seq<Slot>, ys: seq<Slot>): seq<Slot> {
    xs + ys[..if |xs| + |ys| <= MAX_CHILDREN then |ys| else if |xs| <= MAX_CHILDREN then MAX_CHILDREN - |xs| else 0]
  }

  lemma FillUpOne(xs: seq<Slot>, y: Slot, ys: seq<Slot>)
    requires |xs| <= MAX_CHILDREN
    ensures FillUp(xs, [y] + ys) == FillUp(if |xs| < MAX_CHILDREN then xs + [y] else xs, ys)
  {
  }

  /** The table r has the children l added to the list of np, as far as there is room, and
      np as the parent of each. */
  ghost predicate Moved(procs: seq<Proc>, r: seq<Proc>, np: Slot, l: seq<Slot>)
    requires |procs| == |r| == MAX_PROCESSES
  {
    && r[np].children == FillUp(procs[np].children, l)
    && (forall q: Slot :: q != np ==> r[q].children == procs[q].children)
    && (forall q: Slot :: r[q].parent == if q in l then np else procs[q].parent)
  }

  lemma MovedOne(procs: seq<Proc>, np: Slot, c: Slot)
    requires |procs| == MAX_PROCESSES
    requires forall q :: 0 <= q < MAX_PROCESSES ==> |procs[q].children| <= MAX_CHILDREN
    ensures var r := Adopt(procs[c := procs[c].(parent := np)], np, c);
            Moved(procs, r, np, [c]) && forall q :: 0 <= q < MAX_PROCESSES ==> |r[q].children| <= MAX_CHILDREN
  {
    FillUpOne(procs[np].children, c, []);
  }

  lemma MovedThen(a: seq<Proc>, b: seq<Proc>, r: seq<Proc>, np: Slot, c: Slot, l: seq<Slot>)
    requires |a| == |b| == |r| == MAX_PROCESSES && Moved(a, b, np, [c]) && Moved(b, r, np, l)
    requires |a[np].children| <= MAX_CHILDREN
    ensures Moved(a, r, np, [c] + l)
  {
    FillUpOne(a[np].children, c, l);
    FillUpOne(a[np].children, c, []);
    hide FillUp;
    assert [c] + [] == [c];
    FillUpNone(if |a[np].children| < MAX_CHILDREN then a[np].children + [c] else a[np].children);
  }

  lemma FillUpNone(xs: seq<Slot>)
    ensures FillUp(xs, []) == xs
  {
  }

  /** Reparenting fills the new parent's list in order, gives every child the new parent,
      and changes nobody else. */
  lemma {:induction false} ReparentEffect(procs: seq<Proc>, p: Slot, np: Slot, i: nat)
    requires |procs| == MAX_PROCESSES && np != p && i <= |procs[p].children|
    requires forall q :: 0 <= q < MAX_PROCESSES ==> |procs[q].children| <= MAX_CHILDREN
    ensures Moved(procs, Reparent(procs, p, np, i), np, procs[p].children[i..])
    decreases MAX_CHILDREN - i
  {
    hide Moved, Adopt, FillUp;
    if i < |procs[p].children| {
      var c := procs[p].children[i];
      var l := procs[p].children[i + 1..];
      assert procs[p].children[i..] == [c] + l;
      var a := Adopt(procs[c := procs[c].(parent := np)], np, c);
      MovedOne(procs, np, c);
      MovedOther(procs, a, np, [c], p);
      ReparentEffect(a, p, np, i + 1);
      MovedThen(procs, a, Reparent(a, p, np, i + 1), np, c, l);
    } else {
      MovedNone(procs, np);
    }
  }

  lemma MovedOther(procs: seq<Proc>, r: seq<Proc>, np: Slot, l: seq<Slot>, p: Slot)
    requires |procs| == |r| == MAX_PROCESSES && Moved(procs, r, np, l) && p != np
    ensures r[p].children == procs[p].children
  {
  }

  lemma MovedNone(procs: seq<Proc>, np: Slot)
    requires |procs| == MAX_PROCESSES
    ensures Moved(procs, procs, np, [])
  {
    FillUpNone(procs[np].children);
  }

  lemma HeldPast(s: Sys, p: Slot)
    requires FamilyInv(s) && 2 <= p && s.stacks[p]
    ensures 1 < s.nextPid && s.stacks[1] && s.procs[p].parent != p
  {
  }

  lemma DestroyLists(s: Sys, p: Slot)
    requires FamilyInv(s) && 2 <= p && s.stacks[p]
    ensures Sized(s) && GoodLists(Destroy(s, p).procs, Destroy(s, p).stacks)
  {
    HeldPast(s, p);
    var a := Disown(s.procs, s.procs[p].parent, p);
    DisownFamily(s.procs, s.procs[p].parent, p);
    DisownMoving(s.procs, s.stacks, p);
    ReparentMoves(a, s.stacks, p, 1, 0);
    KillMoved(Reparent(a, p, 1, 0), s.stacks, p);
  }

  lemma DestroyParents(s: Sys, p: Slot)
    requires FamilyInv(s) && 2 <= p && s.stacks[p]
    ensures Sized(s)
    ensures forall q: Slot :: q != 1 && Held(s.stacks, q) ==> Destroy(s, p).procs[q].parent != q
  {
    hide QueueOk, StacksOk, CurrentOk, GoodLists, Reparent, RemoveFirst, FillUp;
    HeldPast(s, p);
    DisownFamily(s.procs, s.procs[p].parent, p);
    var a := Disown(s.procs, s.procs[p].parent, p);
    assert forall q: Slot :: a[q].parent == s.procs[q].parent;
    ReparentEffect(a, p, 1, 0);
  }

  /** Destroying a held slot keeps families in order, whether its process has exited or not. */
  lemma DestroyFamilies(s: Sys, p: Slot)
    requires FamilyInv(s) && Allowed(s, OpDestroy(p)) && 2 <= p && s.stacks[p]
    ensures FamilyInv(Destroy(s, p))
  {
    DestroyInv(s, p);
    DestroyLists(s, p);
    DestroyParents(s, p);
    HeldPast(s, p);
    hide GoodLists, QueueOk, CurrentOk, Disown, Reparent;
  }

  /** The process that inherits the children of a destroyed one: process 1 if anything has
      ever been created, else the idle process. */
  function Heir(s: Sys): Slot {
    if s.nextPid > 1 then 1 else 0
  }

  /** The children that p hands on: those listed, without p itself if it is its own parent. */
  function Legacy(s: Sys, p: Slot): seq<Slot>
    requires Sized(s)
  {
    if s.procs[p].parent == p then RemoveFirst(s.procs[p].children, p) else s.procs[p].children
  }

  /** NULL and the idle process are not destroyed; for any other process the call clears its
      stack flag, terminates it, and apart from parents and child lists changes nothing. */
  lemma DestroyRest(s: Sys, p: Ptr)
    requires Sized(s)
    ensures p == -1 || p == 0 ==> Destroy(s, p) == s
    ensures 1 <= p ==>
              var t := Destroy(s, p);
              && |t.procs| == 256 && t.stacks == s.stacks[p := false]
              && t.queue == s.queue && t.current == s.current && t.enabled == s.enabled
              && t.nextPid == s.nextPid && t.esp0 == s.esp0 && t.stackArea == s.stackArea
              && SameButFamily(s.procs[p].(state := Terminated), t.procs[p])
              && forall q: Slot :: q != p ==> SameButFamily(s.procs[q], t.procs[q])
  {
    if 1 <= p {
      DestroyFamily(s, p);
      hide Reparent, Disown;
    }
  }

  /** Destroying takes the process out of its parent's list, in order; hands its children to
      the heir as far as that list has room; and makes the heir the parent of all of them. */
  lemma DestroyEffect(s: Sys, p: Slot)
    requires Sized(s) && 1 <= p && p != Heir(s)
    ensures var t, par, h, mine := Destroy(s, p).procs, s.procs[p].parent, Heir(s), Legacy(s, p);
            && t[p].state.Terminated?
            && (forall q: Slot :: q != p ==> t[q].state == s.procs[q].state)
            && var heirs := if par == h then RemoveFirst(s.procs[h].children, p) else s.procs[h].children;
            && t[h].children == FillUp(heirs, mine)
            && (forall c :: c in mine ==> t[c].parent == h)
            && (forall q: Slot :: q !in mine ==> t[q].parent == s.procs[q].parent)
            && (par != NIL && par != h ==> t[par].children == RemoveFirst(s.procs[par].children, p))
            && (forall q: Slot :: q != h && q != par ==> t[q].children == s.procs[q].children)
  {
    hide Reparent, RemoveFirst, FillUp;
    DisownFamily(s.procs, s.procs[p].parent, p);
    DestroyFamily(s, p);
    var a := Disown(s.procs, s.procs[p].parent, p);
    assert a[p].children[0..] == a[p].children;
    ReparentEffect(a, p, Heir(s), 0);
  }

  /** The list l begins with its first n entries over and over. */
  ghost predicate Repeats(l: seq<Slot>, n: nat) {
    n <= |l| && forall j :: n <= j < |l| ==> l[j] == l[j - n]
  }

  /** One round of a process inheriting from itself. */
  lemma SelfOnce(procs: seq<Proc>, p: Slot, i: nat, n: nat)
    requires |procs| == MAX_PROCESSES
    requires var c := procs[p].children;
             && 0 < n && Repeats(c, n) && i < |c| && |c| == (if n + i <= 16 then n + i else 16)
             && forall j :: 0 <= j < i ==> procs[c[j]].parent == p
    ensures var c := procs[p].children;
            var a := Adopt(procs[c[i] := procs[c[i]].(parent := p)], p, c[i]);
            var d := a[p].children;
            && Repeats(d, n) && d[..n] == c[..n] && i + 1 <= |d| && |d| == (if n + i + 1 <= 16 then n + i + 1 else 16)
            && (forall q: Slot :: q in d <==> q in c)
            && (forall j :: 0 <= j < i + 1 ==> a[d[j]].parent == p)
            && (forall q: Slot :: q != p ==> a[q].children == procs[q].children)
            && (forall q: Slot :: a[q].parent == if q == c[i] then p else procs[q].parent)
  {
    var c := procs[p].children;
    var a := Adopt(procs[c[i] := procs[c[i]].(parent := p)], p, c[i]);
    var d := a[p].children;
    assert d == c || d == c + [c[i]];
    assert forall j :: 0 <= j < |c| ==> d[j] == c[j];
  }

  /** A process that inherits from itself: its list grows under the loop until it is full. */
  lemma {:induction false} ReparentSelf(procs: seq<Proc>, p: Slot, i: nat, n: nat)
    requires |procs| == MAX_PROCESSES
    requires forall q :: 0 <= q < MAX_PROCESSES ==> |procs[q].children| <= MAX_CHILDREN
    requires var c := procs[p].children;
             && 0 < n && Repeats(c, n) && i <= |c| && |c| == (if n + i <= 16 then n + i else 16)
             && forall j :: 0 <= j < i ==> procs[c[j]].parent == p
    ensures var c, r := procs[p].children, Reparent(procs, p, p, i);
            && |r[p].children| == 16 && r[p].children[..n] == c[..n] && Repeats(r[p].children, n)
            && (forall q: Slot :: q != p ==> r[q].children == procs[q].children)
            && (forall q: Slot :: r[q].parent == if q in c then p else procs[q].parent)
    decreases MAX_CHILDREN - i
  {
    var c := procs[p].children;
    if i < |c| {
      var a := Adopt(procs[c[i] := procs[c[i]].(parent := p)], p, c[i]);
      SelfOnce(procs, p, i, n);
      ReparentSelf(a, p, i + 1, n);
      hide Repeats;
    } else {
      assert forall q: Slot :: q in c ==> procs[q].parent == p;
    }
  }

  /** Destroying the heir itself, process 1: its children stay its own, and its list, unless
      it is empty, is filled up to 16 with copies of itself. */
  lemma DestroyHeir(s: Sys)
    requires Sized(s) && s.nextPid > 1
    ensures var t, par, mine := Destroy(s, 1).procs, s.procs[1].parent, Legacy(s, 1);
            && (mine == [] ==> t[1].children == [])
            && (mine != [] ==>
                  |t[1].children| == 16 && t[1].children[..|mine|] == mine && Repeats(t[1].children, |mine|))
            && (forall q: Slot :: t[q].parent == if q in mine then 1 else s.procs[q].parent)
            && (forall q: Slot :: q != 1 ==>
                  t[q].children == if q == par then RemoveFirst(s.procs[q].children, 1) else s.procs[q].children)
  {
    hide RemoveFirst, Repeats;
    DisownFamily(s.procs, s.procs[1].parent, 1);
    var a := Disown(s.procs, s.procs[1].parent, 1);
    if Legacy(s, 1) != [] {
      RepeatsNothing(a[1].children);
      ReparentSelf(a, 1, 0, |a[1].children|);
      hide Reparent;
    }
  }

  lemma RepeatsNothing(l: seq<Slot>)
    ensures Repeats(l, |l|) && l[..|l|] == l
  {
  }

  // ---------------------------------------------------------------- every run

  /** The tables a and b agree on families. */
  ghost predicate SameFamilies(a: seq<Proc>, b: seq<Proc>) {
    && |a| == |b| == MAX_PROCESSES
    && (forall p :: 0 <= p < MAX_PROCESSES ==> a[p].parent == b[p].parent && a[p].children == b[p].children)
  }

  lemma SameFamiliesGood(s: Sys, t: Sys)
    requires FamilyInv(s) && Inv(t) && SameFamilies(s.procs, t.procs) && t.stacks == s.stacks && t.nextPid == s.nextPid
    ensures FamilyInv(t)
  {
    forall x: Slot | Held(t.stacks, x)
      ensures GoodList(t.procs, t.stacks, x)
    {
      assert GoodList(s.procs, s.stacks, x);
    }
  }

  lemma SwitchFamilies(s: Sys)
    requires Sized(s) && s.queue != [] && QueueOk(s)
    ensures SameFamilies(s.procs, Switch(s).procs) && Switch(s).stacks == s.stacks && Switch(s).nextPid == s.nextPid
    ensures forall p :: 0 <= p < MAX_PROCESSES ==> Switch(s).procs[p].state.Terminated? == s.procs[p].state.Terminated?
  {
  }

  /** Scheduling steps and exits touch no family; only exits end a process. */
  lemma SchedulingFamilies(s: Sys, op: Op)
    requires Inv(s) && Allowed(s, op) && !op.OpCreate? && !op.OpDestroy?
    ensures SameFamilies(s.procs, Step(s, op).procs) && Step(s, op).stacks == s.stacks
            && Step(s, op).nextPid == s.nextPid
    ensures !op.OpExit? ==>
              forall p :: 0 <= p < MAX_PROCESSES ==>
                Step(s, op).procs[p].state.Terminated? == s.procs[p].state.Terminated?
  {
    match op
    case OpTick =>
      if s.enabled && s.queue != [] && s.procs[s.current].quantum == 1 {
        SwitchFamilies(Charge(s));
      }
    case OpYield =>
      if s.enabled && s.queue != [] {
        SwitchFamilies(if s.procs[s.current].state.Running? then SetQuantum(s, s.current, QUANTUM) else s);
      }
    case _ =>
  }

  lemma StepFamily(s: Sys, op: Op)
    requires FamilyInv(s) && FamilyAllowed(s, op)
    ensures FamilyInv(Step(s, op))
  {
    hide GoodLists, QueueOk, CurrentOk, StacksOk, Orphans;
    match op
    case OpCreate => CreateFamily(s);
    case OpDestroy(p) =>
      if Destroys(op) {
        DestroyFamilies(s, p);
      }
    case _ =>
      StepInv(s, op);
      SchedulingFamilies(s, op);
      SameFamiliesGood(s, Step(s, op));
  }

  /** In every run from the boot state, exits included, whose slots are released only by
      destroying held slots other than 1 and whose creations do not orphan: the child list
      of every held slot is duplicate-free, at most 16 long, and holds only held slots whose
      parent it is. */
  lemma {:induction false} RunFamily(ss: seq<Sys>, ops: seq<Op>, k: nat, esp0: nat, area: nat)
    requires IsRun(ss, ops) && ss[0] == Initial(esp0, area) && k < |ss|
    requires forall i :: 0 <= i < k ==> FamilyAllowed(ss[i], ops[i])
    ensures FamilyInv(ss[k])
    ensures forall x: Slot :: Held(ss[k].stacks, x) ==>
              GoodList(ss[k].procs, ss[k].stacks, x) && |ss[k].procs[x].children| <= 16
  {
    hide Step, FamilyAllowed, GoodList, QueueOk, CurrentOk, StacksOk;
    if k == 0 {
      InitialFamily(esp0, area);
    } else {
      RunFamily(ss, ops, k - 1, esp0, area);
      NextState(ss, ops, k - 1);
      StepFamily(ss[k - 1], ops[k - 1]);
    }
  }

  // ---------------------------------------------------------------- dead children

  /** Process x lists live processes only. */
  ghost predicate LiveList(procs: seq<Proc>, x: Slot)
    requires |procs| == MAX_PROCESSES
  {
    forall c :: c in procs[x].children ==> !procs[c].state.Terminated?
  }

  /** Live processes list live processes only. */
  ghost predicate LiveLists(s: Sys)
    requires Sized(s)
  {
    forall x: Slot :: !s.procs[x].state.Terminated? ==> LiveList(s.procs, x)
  }

  /** Does no other live process list the current one? */
  ghost predicate ExitUnlisted(s: Sys)
    requires Sized(s)
  {
    forall x: Slot :: x != s.current && !s.procs[x].state.Terminated? ==> s.current !in s.procs[x].children
  }

  /** The child list of process 1 without p. */
  function Heirs(s: Sys, p: Slot): seq<Slot>
    requires Sized(s)
  {
    if s.procs[p].parent == 1 then RemoveFirst(s.procs[1].children, p) else s.procs[1].children
  }

  /** Has process 1 exited, or are those children of p alive for which its list has room? */
  ghost predicate HeirsLive(s: Sys, p: Slot)
    requires Sized(s)
  {
    || s.procs[1].state.Terminated?
    || forall j :: 0 <= j < |s.procs[p].children| && j < MAX_CHILDREN - |Heirs(s, p)| ==>
         !s.procs[s.procs[p].children[j]].state.Terminated?
  }

  /** An exit keeps the lists live exactly if no other live process lists the one that exits:
      the dead child stays in the list until it is destroyed. */
  lemma ExitKeepsLive(s: Sys, code: int)
    requires Sized(s) && LiveLists(s)
    ensures LiveLists(Exit(s, code)) <==> ExitUnlisted(s)
  {
    var t := Exit(s, code);
    forall x: Slot | x != s.current && !s.procs[x].state.Terminated?
      ensures LiveList(t.procs, x) <==> s.current !in s.procs[x].children
    {
      assert t.procs[x] == s.procs[x] && LiveList(s.procs, x);
    }
  }

  /** A creation always keeps them live. */
  lemma CreateKeepsLive(s: Sys)
    requires Inv(s) && LiveLists(s)
    ensures Sized(Create(s)) && LiveLists(Create(s))
  {
    CreateInv(s);
    hide QueueOk, CurrentOk, StacksOk, FirstFree;
    var p := AllocatePid(s);
    if p != NIL {
      AllocatedIsFree(s);
      var t := Create(s).procs;
      forall x: Slot | !t[x].state.Terminated?
        ensures LiveList(t, x)
      {
        assert x == p || LiveList(s.procs, x);
      }
    }
  }

  /** What is in the list of a live process after a destruction, other than process 1. */
  lemma DestroyedList(s: Sys, p: Slot, x: Slot)
    requires FamilyInv(s) && LiveLists(s) && 2 <= p && s.stacks[p]
    requires x != p && !s.procs[x].state.Terminated?
    ensures forall c ::
              c in (if s.procs[p].parent == x then RemoveFirst(s.procs[x].children, p) else s.procs[x].children) ==>
              c != p && !s.procs[c].state.Terminated?
  {
    assert Held(s.stacks, x) && GoodList(s.procs, s.stacks, x) && LiveList(s.procs, x);
    RemoveFirstDistinct(s.procs[x].children, p);
  }

  /** Destroying a held slot hands its children to process 1, dead ones too.  It keeps the
      lists live exactly if process 1 has exited itself, or those of the children are alive
      for which its list has room. */
  lemma DestroyKeepsLive(s: Sys, p: Slot)
    requires FamilyInv(s) && LiveLists(s) && Allowed(s, OpDestroy(p)) && 2 <= p && s.stacks[p]
    ensures Sized(Destroy(s, p)) && (LiveLists(Destroy(s, p)) <==> HeirsLive(s, p))
  {
    DestroyInv(s, p);
    HeldPast(s, p);
    DestroyEffect(s, p);
    assert GoodList(s.procs, s.stacks, p);
    hide GoodLists, QueueOk, CurrentOk, StacksOk, Destroy, RemoveFirst, FillUp;
    var t := Destroy(s, p).procs;
    forall x: Slot | x != 1 && !t[x].state.Terminated?
      ensures LiveList(t, x)
    {
      DestroyedList(s, p, x);
    }
    if !s.procs[1].state.Terminated? {
      DestroyedList(s, p, 1);
      FilledLive(s, t, p);
    }
  }

  lemma FilledLive(s: Sys, t: seq<Proc>, p: Slot)
    requires Sized(s) && |t| == MAX_PROCESSES && t[1].children == FillUp(Heirs(s, p), s.procs[p].children)
    requires !s.procs[1].state.Terminated? && |Heirs(s, p)| <= MAX_CHILDREN && p !in s.procs[p].children
    requires forall q: Slot :: q != p ==> t[q].state == s.procs[q].state
    requires forall c :: c in Heirs(s, p) ==> c != p && !s.procs[c].state.Terminated?
    ensures LiveList(t, 1) <==> HeirsLive(s, p)
  {
    hide Heirs;
    var h, mine, all := Heirs(s, p), s.procs[p].children, t[1].children;
    var room := MAX_CHILDREN - |h|;
    var k := if |mine| <= room then |mine| else room;
    assert all == h + mine[..k];
    forall j | 0 <= j < k
      ensures all[|h| + j] == mine[j] && mine[j] in all && mine[j] != p
    {
      assert all[|h| + j] == mine[j];
    }
    if HeirsLive(s, p) {
      forall c | c in all
        ensures !t[c].state.Terminated?
      {
        if c !in h {
          var j :| 0 <= j < k && mine[j] == c;
        }
      }
    }
  }

  /** What keeps the lists live, step by step. */
  ghost predicate LiveAllowed(s: Sys, op: Op)
    requires Sized(s)
  {
    match op
    case OpExit(_) => ExitUnlisted(s)
    case OpDestroy(p) => Destroys(op) ==> HeirsLive(s, p)
    case _ => true
  }

  lemma StepLive(s: Sys, op: Op)
    requires FamilyInv(s) && LiveLists(s) && FamilyAllowed(s, op)
    ensures Sized(Step(s, op)) && (LiveLists(Step(s, op)) <==> LiveAllowed(s, op))
  {
    hide GoodLists, QueueOk, CurrentOk, StacksOk, Orphans, ExitUnlisted, HeirsLive;
    StepInv(s, op);
    match op
    case OpCreate => CreateKeepsLive(s);
    case OpExit(code) => ExitKeepsLive(s, code);
    case OpDestroy(p) =>
      if Destroys(op) {
        DestroyKeepsLive(s, p);
      }
    case _ =>
      SchedulingFamilies(s, op);
      SameLive(s, Step(s, op));
  }

  lemma SameLive(s: Sys, t: Sys)
    requires Sized(s) && Sized(t) && SameFamilies(s.procs, t.procs) && LiveLists(s)
    requires forall p :: 0 <= p < MAX_PROCESSES ==> t.procs[p].state.Terminated? == s.procs[p].state.Terminated?
    ensures LiveLists(t)
  {
    forall x: Slot | !t.procs[x].state.Terminated?
      ensures LiveList(t.procs, x)
    {
      assert LiveList(s.procs, x);
    }
  }

  lemma InitialLive(esp0: nat, area: nat)
    ensures Sized(Initial(esp0, area)) && LiveLists(Initial(esp0, area))
  {
  }

  /** Over a run from the boot state that keeps families in order, live processes list live
      processes in all of the first k + 1 states exactly if each of the first k steps is of
      the kind that keeps it so. */
  lemma {:induction false} RunLive(ss: seq<Sys>, ops: seq<Op>, k: nat, esp0: nat, area: nat)
    requires IsRun(ss, ops) && ss[0] == Initial(esp0, area) && k < |ss|
    requires forall i :: 0 <= i < k ==> FamilyAllowed(ss[i], ops[i])
    ensures forall i :: 0 <= i <= k ==> Sized(ss[i])
    ensures (forall i :: 0 <= i <= k ==> LiveLists(ss[i])) <==> (forall i :: 0 <= i < k ==> LiveAllowed(ss[i], ops[i]))
  {
    hide Step, FamilyAllowed, FamilyInv, Inv, Sized, LiveLists, LiveAllowed, Initial, Allowed;
    if k == 0 {
      InitialLive(esp0, area);
    } else {
      RunLive(ss, ops, k - 1, esp0, area);
      RunFamily(ss, ops, k - 1, esp0, area);
      NextState(ss, ops, k - 1);
      if LiveLists(ss[k - 1]) {
        StepLive(ss[k - 1], ops[k - 1]);
      }
      RunInv(ss, ops, k);
      InvIsSized(ss[k]);
    }
  }

  lemma InvIsSized(s: Sys)
    requires Inv(s)
    ensures Sized(s)
  {
  }

  /** No process has exited without being destroyed. */
  ghost predicate NoZombies(s: Sys)
    requires Sized(s)
  {
    !s.procs[0].state.Terminated? && forall p: Slot :: 1 <= p && s.stacks[p] ==> !s.procs[p].state.Terminated?
  }

  lemma StepNoZombies(s: Sys, op: Op)
    requires Inv(s) && Allowed(s, op) && !op.OpExit? && NoZombies(s)
    ensures Sized(Step(s, op)) && NoZombies(Step(s, op))
  {
    hide QueueOk, CurrentOk, StacksOk, Reparent, Disown;
    StepInv(s, op);
    match op
    case OpCreate =>
      var p := Created(s);
      if p != NIL {
        AdoptFamily(s.procs[p := NewProc(s.stackArea, p, s.current)], s.current, p);
      }
    case OpDestroy(p) =>
      if Destroys(op) {
        DestroyFamily(s, p);
      }
    case _ => SchedulingFamilies(s, op);
  }

  /** So in runs in which nobody exits, live processes do list live processes only. */
  lemma {:induction false} RunWithoutExits(ss: seq<Sys>, ops: seq<Op>, k: nat, esp0: nat, area: nat)
    requires IsRun(ss, ops) && ss[0] == Initial(esp0, area) && k < |ss|
    requires forall i :: 0 <= i < k ==> FamilyAllowed(ss[i], ops[i]) && !ops[i].OpExit?
    ensures FamilyInv(ss[k]) && NoZombies(ss[k]) && LiveLists(ss[k])
  {
    RunFamily(ss, ops, k, esp0, area);
    hide Step, FamilyAllowed, QueueOk, CurrentOk, StacksOk;
    if 0 < k {
      RunWithoutExits(ss, ops, k - 1, esp0, area);
      NextState(ss, ops, k - 1);
      StepNoZombies(ss[k - 1], ops[k - 1]);
    }
  }
}
