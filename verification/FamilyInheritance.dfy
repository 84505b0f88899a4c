/** A run from the boot state in which only a destruction puts a dead process into the list of
    a live one. */
module FamilyInheritance {
  import opened Processes
  import opened SlotLists
  import opened SchedulerTheorems
  import opened SchedulerFairness
  import opened ProcessFamilies

  /** What matters of a state in which at most slots 0 to 3 are in use. */
  datatype Cast = Cast(next: nat, current: Slot, queue: seq<Slot>, on: bool,
                       s0: State, s1: State, s2: State, s3: State, kids0: seq<Slot>, kids2: seq<Slot>)

  ghost predicate Shows(s: Sys, c: Cast) {
    && Inv(s)
    && s.nextPid == c.next <= 4
    && s.current == c.current && s.queue == c.queue && s.enabled == c.on
    && s.procs[0].state == c.s0 && s.procs[1].state == c.s1 && s.procs[2].state == c.s2 && s.procs[3].state == c.s3
    && s.procs[0].children == c.kids0 && s.procs[1].children == [] && s.procs[2].children == c.kids2
    && s.procs[3].children == []
    && (c.current == 0 ==> s.procs[0].quantum == 1)
    && (2 < c.next ==> s.procs[2].parent == 0)
    && (forall p :: c.next <= p < MAX_PROCESSES ==> s.procs[p].state.Terminated? && !s.stacks[p])
  }

  lemma ShowsLive(s: Sys, c: Cast)
    requires Shows(s, c)
    requires c.s0.Terminated? || c.kids0 == [] || (c.kids0 == [1] && !c.s1.Terminated?)
             || (c.kids0 == [1, 2] && !c.s1.Terminated? && !c.s2.Terminated?)
    requires c.s2.Terminated? || c.kids2 == [] || (c.kids2 == [3] && !c.s3.Terminated?)
    ensures Sized(s) && LiveLists(s)
  {
    hide QueueOk, CurrentOk, StacksOk;
    forall x: Slot | !s.procs[x].state.Terminated?
      ensures LiveList(s.procs, x)
    {
      assert x < 4;
    }
  }

  lemma ShowsInitial(esp0: nat, area: nat)
    ensures Shows(Initial(esp0, area), Cast(1, 0, [], false, Running, Terminated, Terminated, Terminated, [], []))
  {
    InitialInv(esp0, area);
  }

  lemma FirstIsNext(s: Sys, c: Cast)
    requires Shows(s, c) && c.next < 4
    ensures AllocatePid(s) == c.next
  {
  }

  /** Process c.next is created by the current one. */
  lemma ShowsCreate(s: Sys, c: Cast)
    requires Shows(s, c) && c.next < 4 && c.current < c.next && |c.kids0| < 3 && |c.kids2| < 3
    requires c.current == 0 || (c.current == 2 && c.next == 3)
    ensures var n := c.next;
            Shows(Create(s), c.(next := n + 1,
                                s1 := if n == 1 then Ready else c.s1, s2 := if n == 2 then Ready else c.s2,
                                s3 := if n == 3 then Ready else c.s3,
                                kids0 := if c.current == 0 then c.kids0 + [n] else c.kids0,
                                kids2 := if n == 2 then [] else if c.current == 2 then c.kids2 + [n] else c.kids2))
  {
    FirstIsNext(s, c);
    CreateInv(s);
    hide QueueOk, CurrentOk, StacksOk, AllocatePid;
  }

  lemma ShowsAdd(s: Sys, c: Cast, p: Slot)
    requires Shows(s, c) && c.queue == [] && c.current != p && ((p == 2 && c.s2 == Ready) || (p == 3 && c.s3 == Ready))
    ensures Sized(s) && Allowed(s, OpAdd(p)) && Shows(Add(s, p), c.(queue := [p]))
  {
    AddInv(s, p);
    hide QueueOk, CurrentOk, StacksOk;
  }

  lemma ShowsEnable(s: Sys, c: Cast)
    requires Shows(s, c)
    ensures Sized(s) && Shows(Step(s, OpEnable), c.(on := true))
  {
    StepInv(s, OpEnable);
    hide QueueOk, CurrentOk, StacksOk;
  }

  lemma ShowsExit(s: Sys, c: Cast)
    requires Shows(s, c) && c.current != 1 && c.current < 4
    ensures Sized(s) && Shows(Exit(s, 0), c.(s0 := if c.current == 0 then Terminated else c.s0,
                                             s2 := if c.current == 2 then Terminated else c.s2,
                                             s3 := if c.current == 3 then Terminated else c.s3))
  {
    StepInv(s, OpExit(0));
    hide QueueOk, CurrentOk, StacksOk;
  }

  /** The only tick of the run takes the turn from the exited idle process. */
  lemma ShowsTick(s: Sys, c: Cast)
    requires Shows(s, c) && c.on && c.queue == [2] && c.current == 0 && c.s0.Terminated?
    ensures Sized(s) && Shows(Tick(s), c.(current := 2, queue := [], s2 := Running))
  {
    TickInv(s);
    SwitchGoesToHead(Charge(s));
    hide QueueOk, CurrentOk, StacksOk;
  }

  lemma ShowsYield(s: Sys, c: Cast)
    requires Shows(s, c) && c.on && c.queue == [3] && c.current == 2 && c.s2.Terminated?
    ensures Sized(s) && Shows(Yield(s), c.(current := 3, queue := [], s3 := Running))
  {
    YieldInv(s);
    SwitchGoesToHead(s);
    hide QueueOk, CurrentOk, StacksOk;
  }

  /** Process 1 is alive; 0, 2 and 3 have exited; 2 lists 3 and is destroyed. */
  lemma DestroyInherits(s: Sys, c: Cast)
    requires Shows(s, c) && c.next == 4 && c.current == 3 && c.queue == []
    requires c.s1 == Ready && c.s3 == Terminated && c.kids2 == [3]
    ensures Sized(s) && Allowed(s, OpDestroy(2))
    ensures Sized(Destroy(s, 2)) && !LiveLists(Destroy(s, 2))
  {
    DestroyInv(s, 2);
    DestroyEffect(s, 2);
    hide QueueOk, CurrentOk, StacksOk, Destroy, RemoveFirst;
    var t := Destroy(s, 2).procs;
    assert t[1].children == [] + s.procs[2].children[..1];
    assert t[1].children[0] == 3;
    assert !LiveList(t, 1);
  }

  /** All states of a run so far have live lists. */
  ghost predicate SoFarLive(ss: seq<Sys>) {
    forall i :: 0 <= i < |ss| ==> Sized(ss[i]) && LiveLists(ss[i])
  }

  lemma Go(ss: seq<Sys>, ops: seq<Op>, op: Op) returns (ss': seq<Sys>, ops': seq<Op>)
    requires IsRun(ss, ops) && SoFarLive(ss) && Sized(ss[|ops|]) && Allowed(ss[|ops|], op)
    requires var t := Step(ss[|ops|], op); Sized(t) && LiveLists(t)
    ensures IsRun(ss', ops') && |ss'| == |ops'| + 1 && ops' == ops + [op]
    ensures ss'[0] == ss[0] && ss'[|ops'|] == Step(ss[|ops|], op) && SoFarLive(ss')
  {
    hide Inv, Sized, Allowed, Step, LiveLists;
    ss', ops' := Extend(ss, ops, op);
    forall i | 0 <= i < |ss'|
      ensures Sized(ss'[i]) && LiveLists(ss'[i])
    {
      if i < |ops| + 1 {
        assert ss'[i] == ss'[..|ops| + 1][i] == ss[i];
      }
    }
  }

  /** Two creations, process 2 queued, the idle process exits and the tick passes the turn. */
  lemma FirstHalf(esp0: nat, area: nat) returns (ss: seq<Sys>, ops: seq<Op>)
    ensures IsRun(ss, ops) && |ss| == |ops| + 1 && ss[0] == Initial(esp0, area) && SoFarLive(ss)
    ensures Shows(ss[|ops|], Cast(3, 2, [], true, Terminated, Ready, Running, Terminated, [1, 2], []))
  {
    hide Shows, IsRun, Inv, Sized, Create, Add, Exit, Tick, Initial, LiveLists, SoFarLive;
    var c := Cast(1, 0, [], false, Running, Terminated, Terminated, Terminated, [], []);
    ShowsInitial(esp0, area);
    ss, ops := Start(Initial(esp0, area), c);
    var s := ss[0];
    ShowsCreate(s, c);
    assert c.kids0 + [1] == [1];
    c, s := c.(next := 2, s1 := Ready, kids0 := [1]), Create(s);
    ShowsLive(s, c);
    ss, ops := Go(ss, ops, OpCreate);
    ShowsCreate(s, c);
    assert c.kids0 + [2] == [1, 2];
    c, s := c.(next := 3, s2 := Ready, kids0 := [1, 2]), Create(s);
    ShowsLive(s, c);
    ss, ops := Go(ss, ops, OpCreate);
    ShowsAdd(s, c, 2);
    c, s := c.(queue := [2]), Add(s, 2);
    ShowsLive(s, c);
    ss, ops := Go(ss, ops, OpAdd(2));
    ShowsEnable(s, c);
    c, s := c.(on := true), Step(s, OpEnable);
    ShowsLive(s, c);
    ss, ops := Go(ss, ops, OpEnable);
    ShowsExit(s, c);
    c, s := c.(s0 := Terminated), Exit(s, 0);
    ShowsLive(s, c);
    ss, ops := Go(ss, ops, OpExit(0));
    ShowsTick(s, c);
    c, s := c.(current := 2, queue := [], s2 := Running), Tick(s);
    ShowsLive(s, c);
    ss, ops := Go(ss, ops, OpTick);
  }

  /** Process 2 creates process 3 and exits, then process 3 runs and exits. */
  lemma SecondHalf(ss0: seq<Sys>, ops0: seq<Op>) returns (ss: seq<Sys>, ops: seq<Op>)
    requires IsRun(ss0, ops0) && |ss0| == |ops0| + 1 && SoFarLive(ss0)
    requires Shows(ss0[|ops0|], Cast(3, 2, [], true, Terminated, Ready, Running, Terminated, [1, 2], []))
    ensures IsRun(ss, ops) && |ss| == |ops| + 1 && ss[0] == ss0[0] && SoFarLive(ss)
    ensures Shows(ss[|ops|], Cast(4, 3, [], true, Terminated, Ready, Terminated, Terminated, [1, 2], [3]))
  {
    hide Shows, IsRun, Inv, Sized, Create, Add, Exit, Yield, LiveLists, SoFarLive;
    var c := Cast(3, 2, [], true, Terminated, Ready, Running, Terminated, [1, 2], []);
    ss, ops := ss0, ops0;
    var s := ss[|ops|];
    ShowsLive(s, c);
    ShowsCreate(s, c);
    assert c.kids2 + [3] == [3];
    c, s := c.(next := 4, s3 := Ready, kids2 := [3]), Create(s);
    ShowsLive(s, c);
    ss, ops := Go(ss, ops, OpCreate);
    ShowsAdd(s, c, 3);
    c, s := c.(queue := [3]), Add(s, 3);
    ShowsLive(s, c);
    ss, ops := Go(ss, ops, OpAdd(3));
    ShowsExit(s, c);
    c, s := c.(s2 := Terminated), Exit(s, 0);
    ShowsLive(s, c);
    ss, ops := Go(ss, ops, OpExit(0));
    ShowsYield(s, c);
    c, s := c.(current := 3, queue := [], s3 := Running), Yield(s);
    ShowsLive(s, c);
    ss, ops := Go(ss, ops, OpYield);
    ShowsExit(s, c);
    c, s := c.(s3 := Terminated), Exit(s, 0);
    ShowsLive(s, c);
    ss, ops := Go(ss, ops, OpExit(0));
  }

  lemma Start(s: Sys, c: Cast) returns (ss: seq<Sys>, ops: seq<Op>)
    requires Shows(s, c) && c.kids0 == [] && c.kids2 == []
    ensures IsRun(ss, ops) && |ss| == |ops| + 1 && ss == [s] && Sized(s) && SoFarLive(ss)
  {
    ShowsLive(s, c);
    ss, ops := [s], [];
  }

  /** In every state before the last, live processes list live processes, and each exit was
      of a process that no live one lists.  The destruction at the end hands the dead child
      of an exited process to process 1, which is alive. */
  lemma InheritingIsReachable(esp0: nat, area: nat) returns (ss: seq<Sys>, ops: seq<Op>)
    ensures IsRun(ss, ops) && |ss| == |ops| + 1 && 1 <= |ops| && ss[0] == Initial(esp0, area)
    ensures SoFarLive(ss[..|ops|]) && ops[|ops| - 1] == OpDestroy(2)
    ensures Sized(ss[|ops|]) && !LiveLists(ss[|ops|])
  {
    hide Shows, IsRun, Inv, Sized, Destroy, Initial, LiveLists, SoFarLive;
    ss, ops := FirstHalf(esp0, area);
    ss, ops := SecondHalf(ss, ops);
    DestroyInherits(ss[|ops|], Cast(4, 3, [], true, Terminated, Ready, Terminated, Terminated, [1, 2], [3]));
    ss, ops := Extend(ss, ops, OpDestroy(2));
  }
}
