/** What each operation on processes does, field by field, and what follows for runs. */
module SchedulerEffects {
  import opened Processes
  import opened SlotLists
  import opened SchedulerTheorems
  import opened SchedulerFairness

  // ---------------------------------------------------------------- start

  /** The boot state: the idle process runs with one tick left, every other slot is free, and
      nobody is queued. */
  lemma InitialEffect(esp0: nat, area: nat)
    ensures var s := Initial(esp0, area);
            && |s.procs| == 256 && |s.stacks| == 256
            && s.procs[0].state == Running && s.procs[0].quantum == 1
            && (forall p :: 1 <= p < 256 ==> s.procs[p].state == Terminated)
            && (forall p :: 0 <= p < 256 ==>
                  && !s.stacks[p] && s.procs[p].children == [] && s.procs[p].parent == -1
                  && s.procs[p].timeRunning == 0 && s.procs[p].contextSwitches == 0 && s.procs[p].exitCode == 0)
            && s.queue == [] && s.current == 0 && !s.enabled && s.nextPid == 1
            && s.esp0 == esp0 && s.stackArea == area
  {
  }

  // ---------------------------------------------------------------- adding

  /** Everything but the queue and the processes. */
  ghost predicate SameRest(s: Sys, t: Sys) {
    && t.current == s.current && t.enabled == s.enabled && t.nextPid == s.nextPid
    && t.stacks == s.stacks && t.esp0 == s.esp0 && t.stackArea == s.stackArea
  }

  /** All processes but those listed. */
  ghost predicate SameProcs(s: Sys, t: Sys, but: seq<Slot>)
    requires Sized(s) && Sized(t)
  {
    forall x: Slot :: x !in but ==> t.procs[x] == s.procs[x]
  }

  /** A live process that is added is READY at the end of the queue, and nothing else
      changes; NULL and terminated processes are ignored. */
  lemma AddEffect(s: Sys, p: Ptr)
    requires Sized(s)
    ensures Sized(Add(s, p))
    ensures p == -1 || s.procs[p].state == Terminated ==> Add(s, p) == s
    ensures p != -1 && s.procs[p].state != Terminated ==>
              var t := Add(s, p);
              && |t.queue| == |s.queue| + 1 && t.queue[|s.queue|] == p && t.queue[..|s.queue|] == s.queue
              && t.procs[p] == s.procs[p].(state := Ready)
              && SameProcs(s, t, [p]) && SameRest(s, t)
  {
  }

  lemma SuffixRun(ss: seq<Sys>, ops: seq<Op>, i: nat)
    requires IsRun(ss, ops) && i <= |ops|
    ensures IsRun(ss[i..], ops[i..])
  {
    RunInv(ss, ops, i);
    hide Inv, Goes;
    forall a, b | 0 <= a < |ops[i..]| && b == a + 1
      ensures Goes(ss[i..][a], ops[i..][a], ss[i..][b])
    {
      var x, y := i + a, i + b;
      assert Goes(ss[x], ops[x], ss[y]);
    }
  }

  /** A live process added in a run runs: with k processes queued before it, within
      10 * k + q ticks, whatever else happens, unless a creation refills the quantum of an
      exited current process. */
  lemma AddedRuns(ss: seq<Sys>, ops: seq<Op>, i: nat, p: Slot)
    requires IsRun(ss, ops) && i < |ops| && ops[i] == OpAdd(p)
    requires Sized(ss[i]) && ss[i].procs[p].state != Terminated
    requires var later := ops[i + 1..];
             && (forall k :: 0 <= k < |later| ==> !(later[k].OpCreate? && Refills(ss[i + 1..][k])))
             && EnabledTicks(ss[i + 1..], later, |later|)
                >= 10 * |ss[i].queue| + ss[i].procs[ss[i].current].quantum
    ensures exists k :: i < k < |ss| && ss[k].current == p
  {
    hide Inv, Refills;
    NextState(ss, ops, i);
    AddEffect(ss[i], p);
    RunInv(ss, ops, i);
    RunInv(ss, ops, i + 1);
    var rest, later := ss[i + 1..], ops[i + 1..];
    SuffixRun(ss, ops, i + 1);
    assert rest[0] == ss[i + 1];
    AddedLast(ss[i], p);
    BoundedWaiting(rest, later, p);
    var k :| 0 < k < |rest| && rest[k].current == p;
    assert ss[i + 1 + k].current == p;
  }

  /** Where an added process waits. */
  lemma AddedLast(s: Sys, p: Slot)
    requires Inv(s) && Allowed(s, OpAdd(p)) && s.procs[p].state != Terminated
    ensures var t := Add(s, p);
            && p in t.queue && IndexIn(t.queue, p) == |s.queue|
            && t.current == s.current && t.procs[t.current].quantum == s.procs[s.current].quantum
  {
    IndexIs(Add(s, p).queue, p, |s.queue|);
  }

  // ---------------------------------------------------------------- yielding and ticking

  /** The turn has passed from the current process, which had used time ticks since s and was
      left with the given quantum, to the head of the queue. */
  ghost predicate TurnPassed(s: Sys, t: Sys, time: nat, left: nat)
    requires Sized(s) && Sized(t) && s.queue != []
  {
    var from, head, ran := s.current, s.queue[0], s.procs[s.current].state == Running;
    && t.current == head
    && t.queue == s.queue[1..] + (if ran then [from] else [])
    && t.procs[head] == s.procs[head].(state := Running, quantum := 10,
                                       contextSwitches := s.procs[head].contextSwitches + 1)
    && t.procs[from] == s.procs[from].(state := if ran then Ready else s.procs[from].state,
                                     quantum := left,
                                     timeRunning := s.procs[from].timeRunning + time,
                                     contextSwitches := s.procs[from].contextSwitches + 1)
    && SameProcs(s, t, [from, head])
    && t.esp0 == s.procs[head].kernelStack + 4096
    && t.enabled == s.enabled && t.nextPid == s.nextPid && t.stacks == s.stacks && t.stackArea == s.stackArea
  }

  /** A yield hands the processor to the head of the queue; the process that yields goes to
      the end, with a full quantum, unless it has exited.  With the scheduler off or nobody
      waiting it does nothing. */
  lemma YieldEffect(s: Sys)
    requires Inv(s)
    ensures Sized(Yield(s))
    ensures !s.enabled || s.queue == [] ==> Yield(s) == s
    ensures s.enabled && s.queue != [] ==>
              TurnPassed(s, Yield(s), 0, if s.procs[s.current].state == Running then 10 else s.procs[s.current].quantum)
  {
    YieldInv(s);
    hide CurrentOk, StacksOk;
  }

  /** Only the current process has changed, as given. */
  ghost predicate OnlyCharged(s: Sys, t: Sys, time: nat, quantum: nat)
    requires Sized(s) && Sized(t)
  {
    && t.procs[s.current] == s.procs[s.current].(timeRunning := s.procs[s.current].timeRunning + time,
                                                 quantum := quantum)
    && SameProcs(s, t, [s.current])
    && t.queue == s.queue && SameRest(s, t)
  }

  /** A tick charges the current process; with its last tick the turn passes to the head of
      the queue, or, if nobody waits, it gets ten ticks more.  With the scheduler off a tick
      does nothing. */
  lemma TickEffect(s: Sys)
    requires Inv(s)
    ensures Sized(Tick(s))
    ensures var t, q := Tick(s), s.procs[s.current].quantum;
            && (!s.enabled ==> t == s)
            && (s.enabled && q > 1 ==> OnlyCharged(s, t, 1, q - 1))
            && (s.enabled && q == 1 && s.queue == [] ==> OnlyCharged(s, t, 1, 10))
            && (s.enabled && q == 1 && s.queue != [] ==> TurnPassed(s, t, 1, 0))
  {
    TickInv(s);
    hide StacksOk;
  }

  /** A process that nobody waits behind keeps the processor: over n ticks its time grows by
      n, and its quantum goes round in tens. */
  lemma {:induction false} LoneTicks(s: Sys, n: nat)
    requires Inv(s) && s.enabled && s.queue == []
    ensures var t := Ticks(s, n);
            Sized(t) && OnlyCharged(s, t, n, 10 - (10 - s.procs[s.current].quantum + n) % 10)
  {
    hide QueueOk, StacksOk, Tick;
    if 0 < n {
      LoneTicks(s, n - 1);
      TickEffect(Ticks(s, n - 1));
    }
  }

  // ---------------------------------------------------------------- exiting, switching off

  /** An exit ends the current process with the given code, and leaves everything else alone;
      the process stays current. */
  lemma ExitEffect(s: Sys, code: int)
    requires Sized(s)
    ensures var t := Exit(s, code);
            && Sized(t)
            && t.procs[s.current] == s.procs[s.current].(state := Terminated, exitCode := code)
            && SameProcs(s, t, [s.current]) && t.queue == s.queue && SameRest(s, t)
  {
  }

  /** Switching the scheduler on or off changes nothing else. */
  lemma SwitchOnOffEffect(s: Sys)
    requires Sized(s)
    ensures Step(s, OpEnable).enabled && Step(s, OpEnable).(enabled := s.enabled) == s
    ensures !Step(s, OpDisable).enabled && Step(s, OpDisable).(enabled := s.enabled) == s
  {
  }

  lemma OffKeepsCurrent(s: Sys, op: Op)
    requires Inv(s) && Allowed(s, op) && !s.enabled && op != OpEnable
    ensures !Step(s, op).enabled && Step(s, op).current == s.current && s.queue <= Step(s, op).queue
  {
  }

  /** From a step that switches the scheduler off until one that switches it on nobody else
      gets the processor, and nobody leaves the queue. */
  lemma {:induction false} RunOff(ss: seq<Sys>, ops: seq<Op>, i: nat, j: nat)
    requires IsRun(ss, ops) && i < j < |ss| && ops[i] == OpDisable && forall k :: i < k < j ==> ops[k] != OpEnable
    ensures !ss[j].enabled && ss[j].current == ss[i].current && ss[i].queue <= ss[j].queue
    decreases j
  {
    hide Inv, Step, Allowed;
    RunInv(ss, ops, j - 1);
    NextState(ss, ops, j - 1);
    if i + 1 < j {
      RunOff(ss, ops, i, j - 1);
      OffKeepsCurrent(ss[j - 1], ops[j - 1]);
    } else {
      SwitchOnOffEffect(ss[i]);
    }
  }

  // ---------------------------------------------------------------- creating

  /** A creation without a free slot changes nothing.  Else the PID hint moves past the slot
      that was found.  If its stack is still taken the block is cleared and stays free; if not
      the process is READY with ten ticks and its stack pointer 16 bytes below the top of its
      own 4096 bytes, and is listed by the current process as long as that has fewer than 16
      children. */
  lemma CreateEffect(s: Sys)
    requires Inv(s)
    ensures Sized(Create(s))
    ensures var t, p := Create(s), AllocatePid(s);
            && (p == -1 ==> t == s && Created(s) == -1)
            && (p != -1 ==>
                  && t.nextPid == p + 1
                  && t.queue == s.queue && t.current == s.current && t.enabled == s.enabled
                  && t.esp0 == s.esp0 && t.stackArea == s.stackArea)
            && (p != -1 && s.stacks[p] ==>
                  && Created(s) == -1 && t.stacks == s.stacks && SameProcs(s, t, [p])
                  && t.procs[p] == Proc(Terminated, 10, 0, 0, -1, [], 0, 0, 0))
            && (p != -1 && !s.stacks[p] ==>
                  && Created(s) == p && t.stacks == s.stacks[p := true]
                  && t.procs[p] == Proc(Ready, 10, s.stackArea + 4096 * p, s.stackArea + 4096 * p + 4096 - 16,
                                        s.current, [], 0, 0, 0)
                  && t.procs[s.current] ==
                     s.procs[s.current].(children := if |s.procs[s.current].children| < 16
                                                     then s.procs[s.current].children + [p]
                                                     else s.procs[s.current].children)
                  && SameProcs(s, t, [p, s.current]))
  {
    CreateInv(s);
    hide QueueOk, FirstFree;
  }

  /** A creation followed by adding what it created queues a READY process of its own stack
      behind everybody else. */
  lemma SpawnEffect(s: Sys)
    requires Inv(s) && Created(s) != NIL
    ensures var p := Created(s);
            var c := Create(s);
            && Inv(c) && Allowed(c, OpAdd(p))
            && Inv(Add(c, p)) && Add(c, p).queue == s.queue + [p] && p !in s.queue && p != s.current
            && Add(c, p).procs[p].state == Ready
  {
    CreateInv(s);
    CreateEffect(s);
    AddInv(Create(s), Created(s));
    hide FirstFree, StacksOk;
  }
}
