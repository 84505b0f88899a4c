/** The process table and the scheduler as they run: arrays and links updated in place.
    Every method is tied to a step of the state machine in `Processes`. */
module Kernel {
  import opened Processes
  import opened SlotLists
  import opened SchedulerTheorems
  import opened KernelTable

  const NO_PID: nat := 0xFFFF_FFFF

  class System {
    const table: array<Pcb>
    const stackAllocated: array<bool>
    const stackArea: nat
    var head: Ptr
    var tail: Ptr
    var count: nat
    var enabled: bool
    var current: Slot
    var nextPid: nat
    var esp0: nat
    /** The ready queue that the links spell out. */
    ghost var queue: seq<Slot>

    ghost function Abs(): Sys
      reads this, table, stackAllocated
    {
      Sys(Views(table[..]), queue, current, enabled, nextPid, stackAllocated[..], esp0, stackArea)
    }

    /** Well-formed as a data structure. */
    ghost predicate Shape()
      reads this, table, stackAllocated
    {
      && table.Length == MAX_PROCESSES
      && stackAllocated.Length == MAX_PROCESSES
      && Roomy(table[..])
      && Linked(table[..], queue, head, tail)
      && count == |queue|
      && 1 <= nextPid <= MAX_PROCESSES
    }

    ghost predicate Valid()
      reads this, table, stackAllocated
    {
      Shape() && Inv(Abs())
    }

    lemma ShapeSized()
      requires Shape()
      ensures Sized(Abs())
    {
      SizedViews(Abs(), table[..]);
    }

    /** process_init and scheduler_init. */
    constructor (esp0: nat, stackArea: nat)
      ensures Valid() && Abs() == Initial(esp0, stackArea)
      ensures fresh(table) && fresh(stackAllocated)
    {
      table := new Pcb[MAX_PROCESSES](i => ZERO_PCB.(state := Terminated));
      stackAllocated := new bool[MAX_PROCESSES](i => false);
      this.stackArea := stackArea;
      head, tail, count, enabled := NIL, NIL, 0, false;
      current, nextPid := 0, 1;
      this.esp0 := esp0;
      queue := [];
      new;
      table[0] := table[0].(state := Running, quantum := 1);
      InitialInv(esp0, stackArea);
      assert Abs().procs == Initial(esp0, stackArea).procs;
      assert Abs().stacks == Initial(esp0, stackArea).stacks;
    }

    // -------------------------------------------------------------- ready queue

    method AddProcess(process: Ptr)
      requires Shape()
      requires process != NIL && !table[process].state.Terminated? ==> process !in queue
      modifies `head, `tail, `count, `queue, table
      ensures Shape() && Sized(old(Abs())) && Abs() == Add(old(Abs()), process)
      ensures old(Valid() && Sized(Abs()) && Allowed(Abs(), OpAdd(process))) ==> Valid()
    {
      hide Linked, Roomy, Views, Sized, Appended, Inv, Allowed;
      ShapeSized();
      if Valid() && Allowed(Abs(), OpAdd(process)) {
        AddInv(Abs(), process);
      }
      if process == NIL || table[process].state.Terminated? {
        return;
      }
      ghost var t := table[..];
      TailIn(t, queue, head, tail);
      AppendLinks(t, queue, head, tail, process);
      AppendViews(t, process, tail);
      table[process] := table[process].(state := Ready, next := NIL, prev := tail);
      if tail != NIL {
        table[tail] := table[tail].(next := process);
      } else {
        head := process;
      }
      AppendedIs(t, table[..], process, tail);
      tail := process;
      count := count + 1;
      queue := queue + [process];
    }

    /** Unlink a queued process, at any position k. */
    method RemoveProcess(process: Ptr, ghost k: nat)
      requires Shape()
      requires process != NIL ==> k < |queue| && queue[k] == process
      modifies `head, `tail, `count, `queue, table
      ensures Shape()
      ensures process == NIL ==> Abs() == old(Abs())
      ensures process != NIL ==> Abs() == old(Abs()).(queue := Cut(old(queue), k))
    {
      hide Linked, Roomy, Views, Unlinked, Cut;
      if process == NIL {
        return;
      }
      ghost var t := table[..];
      LinksAt(t, queue, head, tail, k);
      NeighboursApart(t, queue, head, tail, k);
      UnlinkLinks(t, queue, head, tail, k);
      UnlinkViews(t, process);
      CutEnds(queue, k);
      var next, prev := table[process].next, table[process].prev;
      if prev != NIL {
        table[prev] := table[prev].(next := next);
      } else {
        head := next;
      }
      if next != NIL {
        table[next] := table[next].(prev := prev);
      } else {
        tail := prev;
      }
      table[process] := table[process].(next := NIL, prev := NIL);
      UnlinkedIs(t, table[..], process);
      if count > 0 {
        count := count - 1;
      }
      queue := Cut(queue, k);
    }

    /** Pick the next process to run: the head of the queue, or the idle process. */
    method Schedule() returns (next: Slot)
      requires Shape()
      modifies `head, `tail, `count, `queue, table
      ensures Shape() && Sized(old(Abs()))
      ensures old(queue) == [] ==> next == 0 && Abs() == old(Abs())
      ensures old(queue) != [] ==>
                && next == old(queue)[0]
                && var s := old(Abs());
                Abs() == s.(queue := s.queue[1..],
                  procs := s.procs[next := s.procs[next].(state := Running, quantum := QUANTUM)])
    {
      hide Roomy, Views, Sized, Cut, Distinct;
      ShapeSized();
      if head == NIL {
        return 0;
      }
      next := head;
      CutFirst(queue);
      RemoveProcess(next, 0);
      BlockTouch(table[..], queue, head, tail, next, table[next].(state := Running, quantum := QUANTUM));
      table[next] := table[next].(state := Running, quantum := QUANTUM);
    }

    // -------------------------------------------------------------- switching

    /** Queue the current process again unless it has exited, take the next one, and switch
        to it if it is another one. */
    method SwitchProcess()
      requires Shape() && current !in queue && queue != []
      modifies `head, `tail, `count, `queue, `current, `esp0, table
      ensures Shape() && Sized(old(Abs())) && Abs() == Switch(old(Abs()))
    {
      hide Roomy, Views, Linked, Sized, ChildrenOf, Dispatch;
      ShapeSized();
      if table[current].state.Running? {
        AddProcess(current);
      }
      SwitchToNext();
    }

    /** Take the next process and switch to it if it is another one. */
    method SwitchToNext()
      requires Shape() && queue != []
      modifies `head, `tail, `count, `queue, `current, `esp0, table
      ensures Shape() && Sized(old(Abs())) && Abs() == Dispatch(old(Abs()))
    {
      hide Roomy, Views, Linked, Sized, ChildrenOf;
      var oldProcess := current;
      var nextProcess := Schedule();
      if nextProcess != oldProcess {
        esp0 := table[nextProcess].kernelStack + STACK_SIZE;
        current := nextProcess;
        CountSwitch(oldProcess);
        CountSwitch(nextProcess);
      }
    }

    /** context_switches++ */
    method CountSwitch(p: Slot)
      requires Shape()
      modifies table
      ensures Shape()
      ensures var s := old(Abs());
              Abs() == s.(procs := s.procs[p := s.procs[p].(contextSwitches := s.procs[p].contextSwitches + 1)])
    {
      hide Roomy, Linked, ChildrenOf;
      BlockTouch(table[..], queue, head, tail, p, table[p].(contextSwitches := table[p].contextSwitches + 1));
      table[p] := table[p].(contextSwitches := table[p].contextSwitches + 1);
    }

    /** The timer interrupt. */
    method SchedulerTick()
      requires Valid()
      modifies `head, `tail, `count, `queue, `current, `esp0, table
      ensures Valid() && Abs() == Tick(old(Abs()))
    {
      hide Roomy, Linked, ChildrenOf, QueueOk, CurrentOk, StacksOk, Switch;
      ShapeSized();
      TickInv(Abs());
      if !enabled {
        return;
      }
      ghost var s, t, b := Abs(), table[..], table[current];
      CurrentNotQueued(s);
      b := b.(timeRunning := b.timeRunning + 1, quantum := if b.quantum > 0 then b.quantum - 1 else 0);
      BlockTouch(t, queue, head, tail, current, b);
      table[current] := table[current].(timeRunning := table[current].timeRunning + 1);
      if table[current].quantum > 0 {
        table[current] := table[current].(quantum := table[current].quantum - 1);
      }
      assert table[..] == t[current := b];
      assert Abs() == Charge(s);
      if table[current].quantum == 0 && count > 0 {
        SwitchProcess();
      } else if table[current].quantum == 0 {
        BlockTouch(table[..], queue, head, tail, current, table[current].(quantum := QUANTUM));
        table[current] := table[current].(quantum := QUANTUM);
      }
    }

    method SchedulerYield()
      requires Valid()
      modifies `head, `tail, `count, `queue, `current, `esp0, table
      ensures Valid() && Abs() == Yield(old(Abs()))
    {
      hide Roomy, Linked, ChildrenOf, QueueOk, CurrentOk, StacksOk, Switch;
      ShapeSized();
      YieldInv(Abs());
      if !enabled {
        return;
      }
      if count > 0 {
        ghost var s := Abs();
        CurrentNotQueued(s);
        if table[current].state.Running? {
          BlockTouch(table[..], queue, head, tail, current, table[current].(quantum := QUANTUM));
          table[current] := table[current].(quantum := QUANTUM);
          assert Abs() == SetQuantum(s, s.current, QUANTUM);
        }
        SwitchProcess();
      }
    }

    method SchedulerEnable()
      requires Valid()
      modifies `enabled
      ensures Valid() && Abs() == Step(old(Abs()), OpEnable)
    {
      hide Roomy, Linked, Views, QueueOk, CurrentOk, StacksOk, Sized;
      ShapeSized();
      StepInv(Abs(), OpEnable);
      if enabled {
        return;
      }
      enabled := true;
    }

    method SchedulerDisable()
      requires Valid()
      modifies `enabled
      ensures Valid() && Abs() == Step(old(Abs()), OpDisable)
    {
      hide Roomy, Linked, Views, QueueOk, CurrentOk, StacksOk, Sized;
      ShapeSized();
      StepInv(Abs(), OpDisable);
      enabled := false;
    }

    // -------------------------------------------------------------- processes

    method ProcessExit(code: int)
      requires Valid()
      modifies table
      ensures Valid() && Abs() == Exit(old(Abs()), code)
    {
      hide Roomy, Linked, ChildrenOf, QueueOk, CurrentOk, StacksOk;
      ShapeSized();
      StepInv(Abs(), OpExit(code));
      ghost var t, b := table[..], table[current].(exitCode := code, state := Terminated);
      BlockTouch(t, queue, head, tail, current, b);
      table[current] := table[current].(exitCode := code);
      table[current] := table[current].(state := Terminated);
      assert table[..] == t[current := b];
    }

    method GetByPid(pid: nat) returns (p: Ptr)
      requires Shape()
      ensures p == if pid < MAX_PROCESSES && !Abs().procs[pid].state.Terminated? then pid else NIL
    {
      hide Roomy, Linked, ChildrenOf;
      if pid >= MAX_PROCESSES {
        return NIL;
      }
      if table[pid].state.Terminated? {
        return NIL;
      }
      p := pid;
    }

    /** Search for a free slot, from the hint to the end and then from 1 to the hint. */
    method ProcessAllocatePid() returns (pid: nat)
      requires Shape()
      modifies `nextPid
      ensures Shape() && Sized(old(Abs()))
      ensures var a := AllocatePid(old(Abs()));
              && (a == NIL ==> pid == NO_PID && Abs() == old(Abs()))
              && (a != NIL ==> pid == a && Abs() == old(Abs()).(nextPid := a + 1))
    {
      hide Roomy, Linked, ChildrenOf;
      ShapeSized();
      ghost var s := Abs();
      var i := nextPid;
      while i < MAX_PROCESSES
        invariant nextPid == s.nextPid && nextPid <= i <= MAX_PROCESSES
        invariant forall k :: nextPid <= k < i ==> !s.procs[k].state.Terminated?
      {
        if table[i].state.Terminated? {
          FirstFreeIs(s.procs, nextPid, MAX_PROCESSES, i);
          nextPid := i + 1;
          return i;
        }
        i := i + 1;
      }
      FirstFreeIs(s.procs, nextPid, MAX_PROCESSES, MAX_PROCESSES);
      i := 1;
      while i < nextPid
        invariant nextPid == s.nextPid && 1 <= i <= nextPid
        invariant forall k :: 1 <= k < i ==> !s.procs[k].state.Terminated?
      {
        if table[i].state.Terminated? {
          FirstFreeIs(s.procs, 1, nextPid, i);
          nextPid := i + 1;
          return i;
        }
        i := i + 1;
      }
      FirstFreeIs(s.procs, 1, nextPid, nextPid);
      pid := NO_PID;
    }

    /** Create a process in a free slot; NIL when there is no slot or its stack is taken. */
    method ProcessCreate() returns (p: Ptr)
      requires Valid()
      modifies `nextPid, table, stackAllocated
      ensures Valid() && Sized(old(Abs())) && Abs() == Create(old(Abs())) && p == Created(old(Abs()))
    {
      hide Roomy, Linked, Views, ChildrenOf, Inv, FirstFree, Adopt, AllocatePid;
      ghost var s, t := Abs(), table[..];
      ShapeSized();
      CreateInv(s);
      AllocatedSlot(s);
      var pid := ProcessAllocatePid();
      if pid == NO_PID {
        return NIL;
      }
      ZeroBlock(pid, stackArea, current);
      BlockReset(t, queue, head, tail, pid, ZERO_PCB.(state := Terminated, quantum := QUANTUM));
      BlockReset(t, queue, head, tail, pid, ZERO_PCB.(quantum := QUANTUM));
      table[pid] := ZERO_PCB;
      table[pid] := table[pid].(state := New, quantum := QUANTUM);
      if stackAllocated[pid] {
        table[pid] := table[pid].(state := Terminated);
        assert table[..] == t[pid := ZERO_PCB.(state := Terminated, quantum := QUANTUM)];
        return NIL;
      }
      assert table[..] == t[pid := ZERO_PCB.(quantum := QUANTUM)];
      stackAllocated[pid] := true;
      ResetTwice(s.procs, pid, View(table[pid]), NewProc(stackArea, pid, current));
      SetUpProcess(pid);
      p := pid;
    }

    /** Fill in the block of a new process: stack, parent, counters, state. */
    method SetUpProcess(pid: Slot)
      requires Shape() && pid !in queue && pid != current && table[pid] == ZERO_PCB.(quantum := QUANTUM)
      modifies table
      ensures Shape() && Sized(old(Abs()))
      ensures Abs() ==
              old(Abs()).(procs := Adopt(old(Abs()).procs[pid := NewProc(stackArea, pid, current)], current, pid))
    {
      hide Roomy, Linked, Views, ChildrenOf, Adopt;
      ghost var t := table[..];
      ShapeSized();
      ZeroBlock(pid, stackArea, current);
      RoomyAt(t, current);
      BlockReset(t, queue, head, tail, pid, NewPcb(stackArea, pid, current));
      ghost var u := t[pid := NewPcb(stackArea, pid, current)];
      AdoptBlock(u, queue, head, tail, current, pid);
      table[pid] := table[pid].(kernelStack := stackArea + pid * STACK_SIZE);
      table[pid] := table[pid].(esp := table[pid].kernelStack + STACK_SIZE - 16, parent := current);
      if table[current].numChildren < MAX_CHILDREN {
        table[current] := table[current].(children := table[current].children[table[current].numChildren := pid],
                                          numChildren := table[current].numChildren + 1);
      }
      table[pid] := table[pid].(numChildren := 0, next := NIL, prev := NIL, timeRunning := 0, contextSwitches := 0,
        exitCode := 0);
      table[pid] := table[pid].(state := Ready);
      assert table[..] == u[current := AdoptPcb(u[current], pid)];
    }

    /** Move the entries after entry i of a child list down by one. */
    method CloseGap(parent: Slot, i: nat)
      requires table.Length == MAX_PROCESSES && Roomy(table[..]) && i < table[parent].numChildren
      modifies table
      ensures |table[parent].children| == MAX_CHILDREN
      ensures table[..] == old(table[..])[parent := old(table[parent]).(children := table[parent].children)]
      ensures forall m :: 0 <= m < i ==> table[parent].children[m] == old(table[parent].children)[m]
      ensures forall m :: i <= m < old(table[parent].numChildren) - 1 ==>
                table[parent].children[m] == old(table[parent].children)[m + 1]
    {
      hide Roomy;
      ghost var t, b := table[..], table[parent];
      RoomyAt(t, parent);
      var j := i;
      while j < table[parent].numChildren - 1
        invariant i <= j <= b.numChildren - 1
        invariant table[parent] == b.(children := table[parent].children) && |table[parent].children| == MAX_CHILDREN
        invariant table[..] == t[parent := table[parent]]
        invariant forall m :: 0 <= m < MAX_CHILDREN && !(i <= m < j) ==> table[parent].children[m] == b.children[m]
        invariant forall m :: i <= m < j ==> table[parent].children[m] == b.children[m + 1]
      {
        table[parent] := table[parent].(children := table[parent].children[j := table[parent].children[j + 1]]);
        j := j + 1;
      }
    }

    /** Take a process out of its parent's child list, closing the gap. */
    method RemoveChild(parent: Slot, child: Slot)
      requires Shape()
      modifies table
      ensures Shape() && Sized(old(Abs()))
      ensures Abs() == old(Abs()).(procs := Disown(old(Abs()).procs, parent, child))
    {
      hide Linked, Views, Roomy, ChildrenOf, RemoveFirst;
      ShapeSized();
      ghost var t, b := table[..], table[parent];
      RoomyAt(t, parent);
      SameView(t, parent);
      var i := 0;
      while i < table[parent].numChildren
        invariant table[..] == t && 0 <= i <= b.numChildren
        invariant child !in b.children[..i]
      {
        if table[parent].children[i] == child {
          CloseGap(parent, i);
          ghost var c := table[parent];
          table[parent] := table[parent].(numChildren := table[parent].numChildren - 1);
          ShiftedList(b, c.children, i);
          BlockUpdate(t, queue, head, tail, parent, table[parent]);
          assert table[..] == t[parent := table[parent]];
          return;
        }
        assert b.children[..i + 1] == b.children[..i] + [b.children[i]];
        i := i + 1;
      }
      NotAChild(b, child);
    }

    /** Hand all children of a process to newParent; the list is read afresh each round. */
    method ReparentChildren(process: Slot, newParent: Slot)
      requires Shape()
      modifies table
      ensures Shape() && Sized(old(Abs()))
      ensures Abs() == old(Abs()).(procs := Reparent(old(Abs()).procs, process, newParent, 0))
    {
      hide Linked, Views, ChildrenOf, Adopt, Roomy, Reparent;
      ShapeSized();
      ghost var s := Abs();
      var i := 0;
      while i < table[process].numChildren
        invariant 0 <= i <= MAX_CHILDREN && Shape() && Sized(Abs())
        invariant Abs() == s.(procs := Abs().procs)
        invariant Reparent(Abs().procs, process, newParent, i) == Reparent(s.procs, process, newParent, 0)
        decreases MAX_CHILDREN - i
      {
        ghost var t := table[..];
        RoomyAt(t, process);
        ReparentRound(Views(t), process, newParent, i);
        SameView(t, process);
        var c := table[process].children[i];
        SameView(t, c);
        BlockTouch(t, queue, head, tail, c, table[c].(parent := newParent));
        table[c] := table[c].(parent := newParent);
        ghost var u := table[..];
        assert u == t[c := t[c].(parent := newParent)];
        AdoptBlock(u, queue, head, tail, newParent, c);
        RoomyAt(u, newParent);
        if table[newParent].numChildren < MAX_CHILDREN {
          table[newParent] := table[newParent].(children :=
                                                  table[newParent].children[table[newParent].numChildren := c],
                                                  numChildren := table[newParent].numChildren + 1);
        }
        assert table[..] == u[newParent := AdoptPcb(u[newParent], c)];
        ShapeSized();
        i := i + 1;
      }
      ghost var t := table[..];
      RoomyAt(t, process);
      SameView(t, process);
      ReparentDone(Views(t), process, newParent, i);
    }

    method ProcessDestroy(process: Ptr)
      requires Valid() && Sized(Abs()) && Allowed(Abs(), OpDestroy(process))
      modifies table, stackAllocated
      ensures Valid() && Abs() == Destroy(old(Abs()), process)
    {
      hide Linked, Views, ChildrenOf, Roomy, Disown, Reparent, QueueOk, CurrentOk, StacksOk, RemoveFirst;
      DestroyInv(Abs(), process);
      if process == NIL || process == 0 {
        return;
      }
      ghost var s := Abs();
      SameView(table[..], process);
      DisownNothing(s.procs, process);
      if table[process].parent != NIL {
        RemoveChild(table[process].parent, process);
      }
      var newParent: Slot := if nextPid > 1 then 1 else 0;
      ReparentChildren(process, newParent);
      stackAllocated[process] := false;
      ghost var t := table[..];
      SameView(t, process);
      BlockTouch(t, queue, head, tail, process, table[process].(state := Terminated));
      table[process] := table[process].(state := Terminated);
    }
  }

  lemma NotAChild(b: Pcb, child: Slot)
    requires |b.children| == MAX_CHILDREN && b.numChildren <= MAX_CHILDREN && child !in b.children[..b.numChildren]
    ensures View(b).(children := RemoveFirst(ChildrenOf(b), child)) == View(b)
  {
    RemoveFirstCuts(ChildrenOf(b), child);
  }

  lemma DisownNothing(procs: seq<Proc>, p: Slot)
    requires |procs| == MAX_PROCESSES
    ensures Disown(procs, NIL, p) == procs
  {
  }

  lemma ReparentRound(procs: seq<Proc>, p: Slot, np: Slot, i: nat)
    requires |procs| == MAX_PROCESSES && i < |procs[p].children|
    requires forall q :: 0 <= q < MAX_PROCESSES ==> |procs[q].children| <= MAX_CHILDREN
    ensures var c := procs[p].children[i];
            var a := Adopt(procs[c := procs[c].(parent := np)], np, c);
            && (forall q :: 0 <= q < MAX_PROCESSES ==> |a[q].children| <= MAX_CHILDREN)
            && Reparent(procs, p, np, i) == Reparent(a, p, np, i + 1)
  {
  }

  lemma ReparentDone(procs: seq<Proc>, p: Slot, np: Slot, i: nat)
    requires |procs| == MAX_PROCESSES && i >= |procs[p].children|
    requires forall q :: 0 <= q < MAX_PROCESSES ==> |procs[q].children| <= MAX_CHILDREN
    ensures Reparent(procs, p, np, i) == procs
  {
  }

  /** The block that a successful creation fills in. */
  function NewPcb(area: nat, p: Slot, parent: Slot): Pcb {
    Pcb(Ready, QUANTUM, StackOf(area, p), StackOf(area, p) + STACK_SIZE - 16, parent, ZERO_PCB.children, 0, NIL, NIL,
      0, 0, 0)
  }

  lemma ZeroBlock(p: Slot, area: nat, parent: Slot)
    ensures |ZERO_PCB.children| == MAX_CHILDREN
    ensures View(ZERO_PCB.(state := Terminated, quantum := QUANTUM)) == FREE_PROC.(quantum := QUANTUM)
    ensures View(NewPcb(area, p, parent)) == NewProc(area, p, parent)
  {
  }

  lemma ResetTwice(procs: seq<Proc>, p: Slot, x: Proc, y: Proc)
    requires |procs| == MAX_PROCESSES
    ensures procs[p := x][p := y] == procs[p := y]
  {
  }

  lemma AllocatedSlot(s: Sys)
    requires Inv(s)
    ensures AllocatePid(s) != NIL ==>
              var p := AllocatePid(s);
              p != 0 && p !in s.queue && (!s.stacks[p] ==> p != s.current)
  {
  }

  lemma FirstFreeIs(procs: seq<Proc>, lo: nat, hi: nat, i: nat)
    requires lo <= i <= hi <= |procs|
    requires forall k :: lo <= k < i ==> !procs[k].state.Terminated?
    requires i < hi ==> procs[i].state.Terminated?
    ensures FirstFree(procs, lo, hi) == i
  {
  }

  lemma CurrentNotQueued(s: Sys)
    requires Inv(s)
    ensures s.current !in s.queue
  {
  }

  lemma AppendedIs(t: seq<Pcb>, u: seq<Pcb>, p: Slot, tail: Ptr)
    requires |t| == |u| == MAX_PROCESSES && tail != p
    requires forall x :: 0 <= x < MAX_PROCESSES && x != p && x != tail ==> u[x] == t[x]
    requires u[p] == t[p].(state := Ready, next := NIL, prev := tail)
    requires tail != NIL ==> u[tail] == t[tail].(next := p)
    ensures u == Appended(t, p, tail)
  {
  }

  lemma UnlinkedIs(t: seq<Pcb>, u: seq<Pcb>, p: Slot)
    requires |t| == |u| == MAX_PROCESSES
    requires var n, v := t[p].next, t[p].prev;
             && n != p && v != p && (n == v ==> n == NIL)
             && (forall x :: 0 <= x < MAX_PROCESSES && x != p && x != n && x != v ==> u[x] == t[x])
             && (v != NIL ==> u[v] == t[v].(next := n))
             && (n != NIL ==> u[n] == t[n].(prev := v))
             && u[p] == t[p].(next := NIL, prev := NIL)
    ensures u == Unlinked(t, p)
  {
  }

  lemma NeighboursApart(t: seq<Pcb>, q: seq<Slot>, head: Ptr, tail: Ptr, k: nat)
    requires Linked(t, q, head, tail) && k < |q|
    ensures var n, v := t[q[k]].next, t[q[k]].prev;
            n != q[k] && v != q[k] && (n == v ==> n == NIL)
  {
  }

  lemma CutFirst(q: seq<Slot>)
    requires q != []
    ensures Cut(q, 0) == q[1..]
  {
  }
}
