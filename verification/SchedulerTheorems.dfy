/** What every run of the process table and the scheduler keeps. */
module SchedulerTheorems {
  import opened Processes
  import opened SlotLists

  // ---------------------------------------------------------------- the invariant

  /** Distinct READY processes are queued, and the current process is not. */
  ghost predicate QueueOk(s: Sys)
    requires Sized(s)
  {
    && Distinct(s.queue)
    && (forall i :: 0 <= i < |s.queue| ==> s.procs[s.queue[i]].state.Ready? && s.queue[i] != s.current)
  }

  /** The current process runs or has exited, with 1 to 10 ticks left; nothing else runs. */
  ghost predicate CurrentOk(s: Sys)
    requires Sized(s)
  {
    && (s.procs[s.current].state.Running? || s.procs[s.current].state.Terminated?)
    && 1 <= s.procs[s.current].quantum <= QUANTUM
    && (forall p :: 0 <= p < MAX_PROCESSES && p != s.current ==> !s.procs[p].state.Running?)
  }

  /** Every process in a slot from 1 on owns that slot's stack, and starts inside it; the
      current process owns its stack even after it has exited. */
  ghost predicate StacksOk(s: Sys)
    requires Sized(s)
  {
    && !s.stacks[0]
    && (s.current != 0 ==> s.stacks[s.current])
    && (forall p :: 1 <= p < MAX_PROCESSES && !s.procs[p].state.Terminated? ==> OwnsStack(s, p))
  }

  ghost predicate OwnsStack(s: Sys, p: Slot)
    requires Sized(s)
  {
    && s.stacks[p]
    && s.procs[p].kernelStack == StackOf(s.stackArea, p)
    && StackOf(s.stackArea, p) <= s.procs[p].esp < StackOf(s.stackArea, p) + STACK_SIZE
  }

  ghost predicate Inv(s: Sys) {
    Sized(s) && QueueOk(s) && CurrentOk(s) && StacksOk(s)
  }

  /** The scheduling fields of process p are the same in both tables. */
  ghost predicate SameButFamily(x: Proc, y: Proc) {
    x == y.(parent := x.parent, children := x.children)
  }

  ghost predicate FamilyOnly(a: seq<Proc>, b: seq<Proc>) {
    && |a| == |b| == MAX_PROCESSES
    && (forall p :: 0 <= p < MAX_PROCESSES ==> SameButFamily(a[p], b[p]))
    && (forall p :: 0 <= p < MAX_PROCESSES && |a[p].children| <= MAX_CHILDREN ==> |b[p].children| <= MAX_CHILDREN)
  }

  lemma AdoptFamily(procs: seq<Proc>, parent: Slot, child: Slot)
    requires |procs| == MAX_PROCESSES
    ensures FamilyOnly(procs, Adopt(procs, parent, child))
  {
  }

  lemma DisownFamily(procs: seq<Proc>, parent: Ptr, child: Slot)
    requires |procs| == MAX_PROCESSES
    ensures FamilyOnly(procs, Disown(procs, parent, child))
  {
  }

  lemma FamilyTrans(a: seq<Proc>, b: seq<Proc>, c: seq<Proc>)
    requires FamilyOnly(a, b) && FamilyOnly(b, c)
    ensures FamilyOnly(a, c)
  {
  }

  lemma {:induction false} ReparentFamily(procs: seq<Proc>, p: Slot, np: Slot, i: nat)
    requires |procs| == MAX_PROCESSES
    requires forall q :: 0 <= q < MAX_PROCESSES ==> |procs[q].children| <= MAX_CHILDREN
    ensures FamilyOnly(procs, Reparent(procs, p, np, i))
    decreases MAX_CHILDREN - i
  {
    if i < |procs[p].children| {
      var c := procs[p].children[i];
      var a := procs[c := procs[c].(parent := np)];
      var b := Adopt(a, np, c);
      AdoptFamily(a, np, c);
      assert FamilyOnly(procs, a);
      FamilyTrans(procs, a, b);
      ReparentFamily(b, p, np, i + 1);
      FamilyTrans(procs, b, Reparent(b, p, np, i + 1));
    }
  }

  // ---------------------------------------------------------------- every step

  lemma InitialInv(esp0: nat, area: nat)
    ensures Inv(Initial(esp0, area))
  {
  }

  lemma CreateInv(s: Sys)
    requires Inv(s)
    ensures Inv(Create(s))
  {
    var p := AllocatePid(s);
    if p != NIL && !s.stacks[p] {
      var procs := s.procs[p := NewProc(s.stackArea, p, s.current)];
      AdoptFamily(procs, s.current, p);
    }
  }

  lemma FamilyKeepsInv(s: Sys, procs: seq<Proc>)
    requires Inv(s) && FamilyOnly(s.procs, procs)
    ensures Inv(s.(procs := procs))
  {
  }

  lemma KillInv(s: Sys, p: Slot)
    requires Inv(s) && p !in s.queue && p != s.current && p != 0
    ensures Inv(s.(procs := Kill(s.procs, p), stacks := s.stacks[p := false]))
  {
  }

  lemma DestroyFamily(s: Sys, p: Slot)
    requires Sized(s) && p != 0
    ensures var np := if s.nextPid > 1 then 1 else 0;
            FamilyOnly(s.procs, Reparent(Disown(s.procs, s.procs[p].parent, p), p, np, 0))
  {
    var a := Disown(s.procs, s.procs[p].parent, p);
    DisownFamily(s.procs, s.procs[p].parent, p);
    var np := if s.nextPid > 1 then 1 else 0;
    ReparentFamily(a, p, np, 0);
    FamilyTrans(s.procs, a, Reparent(a, p, np, 0));
  }

  lemma DestroyInv(s: Sys, p: Ptr)
    requires Inv(s) && Allowed(s, OpDestroy(p))
    ensures Inv(Destroy(s, p))
  {
    if p != NIL && p != 0 {
      DestroyFamily(s, p);
      hide Inv, Disown, Reparent, Kill;
      var np := if s.nextPid > 1 then 1 else 0;
      var procs := Reparent(Disown(s.procs, s.procs[p].parent, p), p, np, 0);
      FamilyKeepsInv(s, procs);
      KillInv(s.(procs := procs), p);
    }
  }

  lemma AddInv(s: Sys, p: Ptr)
    requires Inv(s) && Allowed(s, OpAdd(p))
    ensures Inv(Add(s, p))
  {
  }

  lemma SwitchInv(s: Sys)
    requires Sized(s) && QueueOk(s) && StacksOk(s) && s.queue != []
    requires s.procs[s.current].state.Running? || s.procs[s.current].state.Terminated?
    requires forall p :: 0 <= p < MAX_PROCESSES && p != s.current ==> !s.procs[p].state.Running?
    ensures Inv(Switch(s))
  {
    if s.procs[s.current].state.Running? {
      RequeueOk(s);
      DispatchInv(Add(s, s.current));
    } else {
      DispatchInv(s);
    }
  }

  /** The invariant between queueing the current process and taking the next one: nothing
      runs, and the current process may be the last in the queue. */
  ghost predicate Between(s: Sys) {
    && Sized(s) && StacksOk(s) && s.queue != [] && s.queue[0] != s.current
    && Distinct(s.queue)
    && (forall i :: 0 <= i < |s.queue| ==> s.procs[s.queue[i]].state.Ready?)
    && (forall p :: 0 <= p < MAX_PROCESSES ==> !s.procs[p].state.Running?)
  }

  lemma RequeueOk(s: Sys)
    requires Sized(s) && QueueOk(s) && StacksOk(s) && s.queue != [] && s.procs[s.current].state.Running?
    requires forall p :: 0 <= p < MAX_PROCESSES && p != s.current ==> !s.procs[p].state.Running?
    ensures Between(Add(s, s.current))
  {
  }

  lemma DispatchInv(s: Sys)
    requires Between(s)
    ensures Inv(Dispatch(s))
  {
  }

  lemma TickInv(s: Sys)
    requires Inv(s)
    ensures Inv(Tick(s))
  {
    if s.enabled && s.procs[s.current].quantum == 1 && s.queue != [] {
      SwitchInv(Charge(s));
    }
  }

  lemma YieldInv(s: Sys)
    requires Inv(s)
    ensures Inv(Yield(s))
  {
    if s.enabled && s.queue != [] {
      SwitchInv(if s.procs[s.current].state.Running? then SetQuantum(s, s.current, QUANTUM) else s);
    }
  }

  lemma StepInv(s: Sys, op: Op)
    requires Inv(s) && Allowed(s, op)
    ensures Inv(Step(s, op))
  {
    match op
    case OpCreate => CreateInv(s);
    case OpAdd(p) => AddInv(s, p);
    case OpTick => TickInv(s);
    case OpYield => YieldInv(s);
    case OpExit(_) =>
    case OpDestroy(p) => DestroyInv(s, p);
    case OpEnable =>
    case OpDisable =>
  }

  // ---------------------------------------------------------------- runs

  ghost predicate Goes(s: Sys, op: Op, s': Sys) {
    Sized(s) && Allowed(s, op) && s' == Step(s, op)
  }

  /** A run: allowed steps from a state that satisfies the invariant. */
  ghost predicate IsRun(ss: seq<Sys>, ops: seq<Op>) {
    && |ss| == |ops| + 1
    && Inv(ss[0])
    && (forall i, j :: 0 <= i < |ops| && j == i + 1 ==> Goes(ss[i], ops[i], ss[j]))
  }

  /** The invariant holds in every state of every run. */
  lemma {:induction false} RunInv(ss: seq<Sys>, ops: seq<Op>, k: nat)
    requires IsRun(ss, ops) && k < |ss|
    ensures Inv(ss[k])
  {
    hide Inv, Step, Allowed, Sized;
    if 0 < k {
      RunInv(ss, ops, k - 1);
      NextState(ss, ops, k - 1);
      StepInv(ss[k - 1], ops[k - 1]);
    }
  }

  lemma NextState(ss: seq<Sys>, ops: seq<Op>, i: nat)
    requires IsRun(ss, ops) && i < |ops|
    ensures Sized(ss[i]) && Allowed(ss[i], ops[i]) && ss[i + 1] == Step(ss[i], ops[i])
  {
    assert Goes(ss[i], ops[i], ss[i + 1]);
  }

  // ---------------------------------------------------------------- switching

  /** A switch always goes to another process, the head of the queue; it points the TSS at
      the top of that process's own stack. */
  lemma SwitchGoesToHead(s: Sys)
    requires Sized(s) && QueueOk(s) && StacksOk(s) && s.queue != []
    ensures var t := Switch(s);
            && t.current == s.queue[0] != s.current
            && t.esp0 == t.procs[t.current].kernelStack + STACK_SIZE
            && (t.current != 0 ==> t.esp0 == StackOf(s.stackArea, t.current) + STACK_SIZE)
            && t.queue == s.queue[1..] + (if s.procs[s.current].state.Running? then [s.current] else [])
            && t.procs[t.current].quantum == 10
  {
  }

  /** Whenever a step changes the current process, the TSS ends up at the top of the new
      one's own stack. */
  lemma StepSetsStack(s: Sys, op: Op)
    requires Inv(s) && Allowed(s, op) && Step(s, op).current != s.current
    ensures var t := Step(s, op);
            t.esp0 == t.procs[t.current].kernelStack + STACK_SIZE
              && (t.current != 0 ==> t.esp0 == StackOf(t.stackArea, t.current) + STACK_SIZE)
  {
    if op.OpTick? {
      SwitchGoesToHead(Charge(s));
    } else {
      SwitchGoesToHead(if s.procs[s.current].state.Running? then SetQuantum(s, s.current, QUANTUM) else s);
    }
  }

  // ---------------------------------------------------------------- bounded waiting

  /** An upper bound on the ticks that a queued process still waits: ten for each process
      ahead of it, and what the current process has left. */
  ghost function Rank(s: Sys, p: Slot): nat
    requires Sized(s) && p in s.queue
  {
    QUANTUM * IndexIn(s.queue, p) + s.procs[s.current].quantum
  }

  lemma SwitchRank(s: Sys, p: Slot)
    requires Sized(s) && QueueOk(s) && StacksOk(s) && p in s.queue && Sized(Switch(s))
    ensures var t := Switch(s);
            t.current == p || (p in t.queue && Rank(t, p) == QUANTUM * IndexIn(s.queue, p))
  {
    SwitchGoesToHead(s);
    var k, t := IndexIn(s.queue, p), Switch(s);
    if 0 < k {
      assert t.queue[k - 1] == p;
      assert forall i :: 0 <= i < |s.queue| - 1 ==> t.queue[i] == s.queue[i + 1];
      var j := IndexIn(t.queue, p);
      assert j == k - 1;
    }
  }

  /** A tick dispatches a waiting process or brings it one tick nearer. */
  lemma TickRank(s: Sys, p: Slot)
    requires Inv(s) && s.enabled && p in s.queue
    ensures var t := Tick(s);
            Inv(t) && (t.current == p || (p in t.queue && Rank(t, p) == Rank(s, p) - 1))
  {
    TickInv(s);
    if s.procs[s.current].quantum == 1 {
      SwitchRank(Charge(s), p);
    }
  }

  /** A creation that reaches the slot of the current process, which has exited but not
      been destroyed, fails and gives that process a full quantum again. */
  ghost predicate HitsCurrent(s: Sys) {
    Sized(s) && AllocatePid(s) == s.current
  }

  /** It does so when part of the quantum was already used up. */
  ghost predicate Refills(s: Sys) {
    HitsCurrent(s) && s.procs[s.current].quantum < QUANTUM
  }

  lemma HitsOnlyExited(s: Sys)
    requires Inv(s) && HitsCurrent(s)
    ensures s.procs[s.current].state.Terminated? && Created(s) == NIL
  {
  }

  /** A creation leaves a waiting process its place, and delays its turn exactly if it
      refills the quantum of the exited current process. */
  lemma CreateRank(s: Sys, p: Slot)
    requires Inv(s) && p in s.queue
    ensures Inv(Create(s)) && p in Create(s).queue
    ensures Rank(Create(s), p) <= Rank(s, p) <==> !Refills(s)
  {
    CreateInv(s);
    var c := AllocatePid(s);
    if c != NIL && !s.stacks[c] {
      AdoptFamily(s.procs[c := NewProc(s.stackArea, c, s.current)], s.current, c);
    }
  }

  lemma DestroyRank(s: Sys, p: Slot, v: Ptr)
    requires Inv(s) && Allowed(s, OpDestroy(v)) && p in s.queue
    ensures var t := Destroy(s, v);
            Inv(t) && p in t.queue && Rank(t, p) == Rank(s, p)
  {
    DestroyInv(s, v);
    if v != NIL && v != 0 {
      DestroyFamily(s, v);
    }
  }

  lemma AddRank(s: Sys, p: Slot, v: Ptr)
    requires Inv(s) && Allowed(s, OpAdd(v)) && p in s.queue
    ensures var t := Add(s, v);
            Inv(t) && p in t.queue && Rank(t, p) == Rank(s, p)
  {
    AddInv(s, v);
    var t := Add(s, v);
    IndexIs(t.queue, p, IndexIn(s.queue, p));
  }

  lemma YieldRank(s: Sys, p: Slot)
    requires Inv(s) && p in s.queue
    ensures var t := Yield(s);
            Inv(t) && (t.current == p || (p in t.queue && Rank(t, p) <= Rank(s, p)))
  {
    YieldInv(s);
    if s.enabled {
      SwitchRank(if s.procs[s.current].state.Running? then SetQuantum(s, s.current, QUANTUM) else s, p);
    }
  }

  /** No step lengthens the wait of a queued process, except a creation that refills the
      quantum of the exited current process. */
  lemma StepRank(s: Sys, op: Op, p: Slot)
    requires Inv(s) && Allowed(s, op) && p in s.queue && !(op.OpCreate? && Refills(s))
    ensures var t := Step(s, op);
            && Inv(t)
            && (t.current == p
               || (p in t.queue && Rank(t, p) <= Rank(s, p) - (if op.OpTick? && s.enabled then 1 else 0)))
  {
    match op
    case OpCreate => CreateRank(s, p);
    case OpAdd(v) => AddRank(s, p, v);
    case OpTick =>
      if s.enabled {
        TickRank(s, p);
      }
    case OpYield => YieldRank(s, p);
    case OpExit(_) =>
    case OpDestroy(v) => DestroyRank(s, p, v);
    case OpEnable =>
    case OpDisable =>
  }

  function One(b: bool): nat {
    if b then 1 else 0
  }

  /** The ticks of the first k steps that find the scheduler enabled. */
  ghost function EnabledTicks(ss: seq<Sys>, ops: seq<Op>, k: nat): nat
    requires k <= |ops| && k < |ss|
  {
    if k == 0 then 0 else EnabledTicks(ss, ops, k - 1) + (if ops[k - 1].OpTick? && ss[k - 1].enabled then 1 else 0)
  }

  lemma {:induction false} WaitingRank(ss: seq<Sys>, ops: seq<Op>, p: Slot, k: nat)
    requires IsRun(ss, ops) && k <= |ops| && p in ss[0].queue
    requires forall i :: 0 <= i < |ops| ==> !(ops[i].OpCreate? && Refills(ss[i]))
    requires forall i :: 0 < i <= k ==> ss[i].current != p
    ensures Inv(ss[k]) && p in ss[k].queue && Rank(ss[k], p) + EnabledTicks(ss, ops, k) <= Rank(ss[0], p)
  {
    hide Inv, Step, Allowed, Refills, Rank, Sized;
    RunInv(ss, ops, k);
    if 0 < k {
      WaitingRank(ss, ops, p, k - 1);
      NextState(ss, ops, k - 1);
      StepRank(ss[k - 1], ops[k - 1], p);
    }
  }

  /** Bounded waiting.  Whatever else happens in between (adds, yields, exits, destructions,
      switching the scheduler off and on, creations that do not refill the quantum of an
      exited current process), the process at index k of the ready queue runs within 10 * k + q ticks,
      where q is what the current process has left. */
  lemma BoundedWaiting(ss: seq<Sys>, ops: seq<Op>, p: Slot)
    requires IsRun(ss, ops) && p in ss[0].queue
    requires forall i :: 0 <= i < |ops| ==> !(ops[i].OpCreate? && Refills(ss[i]))
    requires EnabledTicks(ss, ops, |ops|) >= 10 * IndexIn(ss[0].queue, p) + ss[0].procs[ss[0].current].quantum
    ensures exists i :: 0 < i < |ss| && ss[i].current == p
  {
    if forall i :: 0 < i < |ss| ==> ss[i].current != p {
      WaitingRank(ss, ops, p, |ops|);
      QuantumLeft(ss[|ops|]);
    }
  }

  lemma QuantumLeft(s: Sys)
    requires Inv(s)
    ensures 1 <= s.procs[s.current].quantum
  {
  }
}
