/** The PID allocator and the stack slots. */
module ProcessSlots {
  import opened Processes
  import opened SchedulerTheorems

  // ---------------------------------------------------------------- PID allocation

  /** The k-th slot in cyclic order over 1..255, starting at the allocation hint. */
  function Cyclic(hint: nat, k: nat): Slot
    requires 1 <= hint
  {
    (hint - 1 + k) % 255 + 1
  }

  lemma CyclicFrom(hint: nat, p: Slot)
    requires 1 <= hint <= MAX_PROCESSES && 1 <= p
    ensures var k := if hint <= p then p - hint else p + 255 - hint;
            0 <= k < 255 ==> Cyclic(hint, k) == p
  {
  }

  /** The allocator returns the first terminated slot in cyclic order from the hint on, and
      fails exactly when slots 1 to 255 are all taken.  It never returns slot 0. */
  lemma AllocateFirstCyclic(s: Sys)
    requires Sized(s)
    ensures AllocatePid(s) != 0
    ensures AllocatePid(s) == NIL <==> forall p :: 1 <= p < MAX_PROCESSES ==> !s.procs[p].state.Terminated?
    ensures AllocatePid(s) != NIL ==>
              exists k :: 0 <= k < 255 && AllocatePid(s) == Cyclic(s.nextPid, k)
                && s.procs[AllocatePid(s)].state.Terminated?
                          && forall j :: 0 <= j < k ==> !s.procs[Cyclic(s.nextPid, j)].state.Terminated?
  {
    var p := AllocatePid(s);
    var i := FirstFree(s.procs, s.nextPid, MAX_PROCESSES);
    if p == NIL {
      forall q | 1 <= q < MAX_PROCESSES
        ensures !s.procs[q].state.Terminated?
      {
        assert q < s.nextPid || s.nextPid <= q < i;
      }
    } else {
      var k := if s.nextPid <= p then p - s.nextPid else p + 255 - s.nextPid;
      CyclicFrom(s.nextPid, p);
      forall j | 0 <= j < k
        ensures !s.procs[Cyclic(s.nextPid, j)].state.Terminated?
      {
        NotYet(s, p, k, j);
      }
    }
  }

  lemma NotYet(s: Sys, p: Slot, k: nat, j: nat)
    requires Sized(s) && AllocatePid(s) == p && 1 <= p
    requires k == (if s.nextPid <= p then p - s.nextPid else p + 255 - s.nextPid) && j < k
    ensures !s.procs[Cyclic(s.nextPid, j)].state.Terminated?
  {
    var q := Cyclic(s.nextPid, j);
    var i := FirstFree(s.procs, s.nextPid, MAX_PROCESSES);
    if s.nextPid + j < MAX_PROCESSES {
      assert q == s.nextPid + j;
    } else {
      assert q == s.nextPid + j - 255;
    }
  }

  /** A creation that fails leaves every live process, the queue and the stacks as they
      were. */
  lemma FailedCreateIsHarmless(s: Sys)
    requires Sized(s) && Created(s) == NIL
    ensures var t := Create(s);
            && t.queue == s.queue && t.current == s.current && t.stacks == s.stacks && t.esp0 == s.esp0
            && (forall p :: 0 <= p < MAX_PROCESSES && !s.procs[p].state.Terminated? ==> t.procs[p] == s.procs[p])
            && (forall p :: 0 <= p < MAX_PROCESSES && s.procs[p].state.Terminated? ==> t.procs[p].state.Terminated?)
  {
  }

  // ---------------------------------------------------------------- stack slots

  function CountTrue(bs: seq<bool>): nat {
    if bs == [] then 0 else (if bs[0] then 1 else 0) + CountTrue(bs[1..])
  }

  lemma {:induction false} CountSet(bs: seq<bool>, i: nat, b: bool)
    requires i < |bs|
    ensures CountTrue(bs[i := b]) == CountTrue(bs) + (if b then 1 else 0) - (if bs[i] then 1 else 0)
  {
    if i == 0 {
      assert bs[0 := b][1..] == bs[1..];
    } else {
      CountSet(bs[1..], i - 1, b);
      assert bs[i := b][1..] == bs[1..][i - 1 := b];
    }
  }

  lemma {:induction false} CountBound(bs: seq<bool>)
    ensures CountTrue(bs) <= |bs|
    ensures bs != [] && !bs[0] ==> CountTrue(bs) < |bs|
  {
    if bs != [] {
      CountBound(bs[1..]);
    }
  }

  lemma {:induction false} CountNone(bs: seq<bool>)
    requires forall i :: 0 <= i < |bs| ==> !bs[i]
    ensures CountTrue(bs) == 0
  {
    if bs != [] {
      CountNone(bs[1..]);
    }
  }

  /** Does the step create a process?  Does it destroy one? */
  ghost predicate Creates(s: Sys, op: Op) {
    Sized(s) && op.OpCreate? && Created(s) != NIL
  }

  predicate Destroys(op: Op) {
    op.OpDestroy? && op.p != NIL && op.p != 0
  }

  /** A successful creation takes the stack of the new slot, a destruction gives one back,
      and no other step touches a stack flag.  So the flags set change by one at most, and
      never fall behind creations less destructions. */
  lemma StepStacks(s: Sys, op: Op)
    requires Inv(s) && Allowed(s, op)
    ensures Sized(s)
    ensures Step(s, op).stacks == if Creates(s, op) then s.stacks[Created(s) := true]
                                  else if Destroys(op) then s.stacks[op.p := false]
                                  else s.stacks
    ensures CountTrue(Step(s, op).stacks) + One(Destroys(op)) >= CountTrue(s.stacks) + One(Creates(s, op))
  {
    match op
    case OpCreate =>
      if Created(s) != NIL {
        CountSet(s.stacks, Created(s), true);
      }
    case OpDestroy(p) =>
      if Destroys(op) {
        CountSet(s.stacks, p, false);
      }
    case _ =>
  }

  ghost function Creations(ss: seq<Sys>, ops: seq<Op>, k: nat): nat
    requires k <= |ops| && k < |ss|
  {
    if k == 0 then 0 else Creations(ss, ops, k - 1) + One(Creates(ss[k - 1], ops[k - 1]))
  }

  function Destructions(ops: seq<Op>, k: nat): nat
    requires k <= |ops|
  {
    if k == 0 then 0 else Destructions(ops, k - 1) + One(Destroys(ops[k - 1]))
  }

  lemma {:induction false} RunStacks(ss: seq<Sys>, ops: seq<Op>, k: nat)
    requires IsRun(ss, ops) && k <= |ops|
    ensures Creations(ss, ops, k) + CountTrue(ss[0].stacks) <= Destructions(ops, k) + CountTrue(ss[k].stacks)
  {
    hide Inv, Step, Allowed, Creates, Destroys, CountTrue, Sized, One;
    if 0 < k {
      RunStacks(ss, ops, k - 1);
      RunInv(ss, ops, k - 1);
      NextState(ss, ops, k - 1);
      StepStacks(ss[k - 1], ops[k - 1]);
    }
  }

  /** In every run from the boot state the successful creations never exceed the
      destructions by more than 255: the slot of a process that has exited stays taken
      until it is destroyed. */
  lemma CreationsBounded(ss: seq<Sys>, ops: seq<Op>, k: nat, esp0: nat, area: nat)
    requires IsRun(ss, ops) && ss[0] == Initial(esp0, area) && k <= |ops|
    ensures Creations(ss, ops, k) <= Destructions(ops, k) + 255
  {
    RunStacks(ss, ops, k);
    RunInv(ss, ops, k);
    CountBound(ss[k].stacks);
    CountNone(ss[0].stacks);
  }

  /** Stack slices of different slots do not meet. */
  lemma SlicesDisjoint(area: nat, p: Slot, q: Slot)
    requires p < q
    ensures StackOf(area, p) + STACK_SIZE <= StackOf(area, q)
  {
  }
}
