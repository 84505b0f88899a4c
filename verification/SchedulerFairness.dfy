/** Exact fair share, and the one way to starve the ready queue. */
module SchedulerFairness {
  import opened Processes
  import opened SlotLists
  import opened SchedulerTheorems

  // ---------------------------------------------------------------- fair share

  ghost function Ticks(s: Sys, n: nat): (t: Sys)
    requires Inv(s)
    ensures Inv(t)
  {
    if n == 0 then s
    else
      var t := Ticks(s, n - 1);
      TickInv(t);
      Tick(t)
  }

  lemma {:induction false} TicksAdd(s: Sys, a: nat, b: nat)
    requires Inv(s)
    ensures Ticks(s, a + b) == Ticks(Ticks(s, a), b)
  {
    hide Inv, Tick;
    if 0 < b {
      TicksAdd(s, a, b - 1);
    }
  }

  /** The state after k ticks have been charged to the current process. */
  ghost function Charged(s: Sys, k: nat): Sys
    requires Sized(s) && k <= s.procs[s.current].quantum
  {
    var c := s.procs[s.current];
    s.(procs := s.procs[s.current := c.(timeRunning := c.timeRunning + k, quantum := c.quantum - k)])
  }

  lemma ChargeOne(s: Sys, k: nat)
    requires Inv(s) && s.enabled && k + 1 < s.procs[s.current].quantum
    ensures Sized(Charged(s, k)) && Tick(Charged(s, k)) == Charged(s, k + 1)
  {
  }

  lemma ChargeNone(s: Sys)
    requires Sized(s)
    ensures Charged(s, 0) == s
  {
  }

  lemma InvSized(s: Sys)
    requires Inv(s)
    ensures Sized(s)
  {
  }

  /** Ticks that leave some quantum only charge the current process. */
  lemma {:induction false} TicksCharge(s: Sys, k: nat)
    requires Inv(s) && Sized(s) && s.enabled && k < s.procs[s.current].quantum
    ensures Ticks(s, k) == Charged(s, k)
  {
    hide Inv, Sized, Tick, Charged;
    InvSized(s);
    if 0 < k {
      TicksCharge(s, k - 1);
      ChargeOne(s, k - 1);
    } else {
      ChargeNone(s);
    }
  }

  /** The current process and the queue behind it. */
  ghost function Ring(s: Sys): seq<Slot> {
    [s.current] + s.queue
  }

  /** Just after a switch: the current process runs with a full quantum, others wait. */
  ghost predicate FreshTurn(s: Sys) {
    Inv(s) && s.enabled && s.queue != [] && s.procs[s.current].state.Running? && s.procs[s.current].quantum == QUANTUM
  }

  /** What process p gained between s and t. */
  ghost predicate Gained(s: Sys, t: Sys, p: Slot, time: nat, switches: nat)
    requires Sized(s) && Sized(t)
  {
    && t.procs[p].timeRunning == s.procs[p].timeRunning + time
    && t.procs[p].contextSwitches == s.procs[p].contextSwitches + switches
  }

  /** One turn of the given length: only the current process is charged, and only it and
      the head of the queue switch. */
  ghost predicate TurnGains(s: Sys, t: Sys, time: nat)
    requires Sized(s) && Sized(t) && s.queue != []
  {
    && Gained(s, t, s.current, time, 1)
    && Gained(s, t, s.queue[0], 0, 1)
    && (forall p: Slot :: p != s.current && p != s.queue[0] ==> Gained(s, t, p, 0, 0))
  }

  lemma LastTick(s: Sys)
    requires Inv(s) && s.enabled && s.queue != [] && s.procs[s.current].state.Running?
             && s.procs[s.current].quantum == 1
    ensures var t := Tick(s);
            FreshTurn(t) && Ring(t) == Ring(s)[1..] + [s.current] && TurnGains(s, t, 1)
  {
    TickInv(s);
    SwitchGoesToHead(Charge(s));
  }

  lemma ChargedState(s: Sys, k: nat)
    requires Inv(s) && k < s.procs[s.current].quantum
    ensures var c := Charged(s, k);
            && Inv(c) && c.enabled == s.enabled && c.queue == s.queue && c.current == s.current
            && c.procs[c.current].quantum == s.procs[s.current].quantum - k
            && c.procs[c.current].state == s.procs[s.current].state
            && Gained(s, c, s.current, k, 0)
            && (forall p: Slot :: p != s.current ==> Gained(s, c, p, 0, 0))
  {
  }

  lemma TurnGainsAfter(s: Sys, c: Sys, t: Sys, k: nat, time: nat)
    requires Inv(s) && Inv(c) && Inv(t) && s.queue != [] && s.queue[0] != s.current && c.queue == s.queue
             && c.current == s.current
    requires Gained(s, c, s.current, k, 0) && forall p: Slot :: p != s.current ==> Gained(s, c, p, 0, 0)
    requires TurnGains(c, t, time)
    ensures TurnGains(s, t, k + time)
  {
    assert Gained(s, c, s.queue[0], 0, 0);
    forall p: Slot | p != s.current && p != s.queue[0]
      ensures Gained(s, t, p, 0, 0)
    {
      assert Gained(s, c, p, 0, 0) && Gained(c, t, p, 0, 0);
    }
  }

  lemma HeadWaits(s: Sys)
    requires Inv(s) && s.queue != []
    ensures s.queue[0] != s.current
  {
  }

  /** Ten ticks hand the turn to the head of the queue. */
  lemma Turn(s: Sys)
    requires FreshTurn(s)
    ensures var t := Ticks(s, 10);
            FreshTurn(t) && Ring(t) == Ring(s)[1..] + [s.current] && TurnGains(s, t, 10)
  {
    hide Inv, Sized, Tick, Charged, TurnGains, Gained;
    InvSized(s);
    TicksCharge(s, QUANTUM - 1);
    ChargedState(s, QUANTUM - 1);
    var c := Charged(s, QUANTUM - 1);
    InvSized(c);
    LastTick(c);
    HeadWaits(s);
    TurnGainsAfter(s, c, Tick(c), QUANTUM - 1, 1);
  }

  ghost predicate AfterTurns(s: Sys, t: Sys, j: nat)
    requires Sized(s) && Sized(t)
  {
    var ring := Ring(s);
    && j <= |ring|
    && (forall i :: 0 <= i < |ring| ==>
          Gained(s, t, ring[i], QUANTUM * One(i < j), One(i < j) + One(1 <= i <= j) + One(i == 0 && j == |ring|)))
    && (forall p: Slot :: p !in ring ==> Gained(s, t, p, 0, 0))
  }

  lemma RingDistinct(s: Sys)
    requires Inv(s)
    ensures forall i, k :: 0 <= i < k < |Ring(s)| ==> Ring(s)[i] != Ring(s)[k]
  {
  }

  lemma NoTurns(s: Sys)
    requires FreshTurn(s)
    ensures Ring(s) == Ring(s)[0..] + Ring(s)[..0] && AfterTurns(s, s, 0)
  {
  }

  lemma {:induction false} Turns(s: Sys, j: nat)
    requires FreshTurn(s) && j <= |Ring(s)|
    ensures var t := Ticks(s, QUANTUM * j);
            && FreshTurn(t)
            && Ring(t) == Ring(s)[j..] + Ring(s)[..j]
            && AfterTurns(s, t, j)
  {
    hide Inv, Sized, Tick, TurnGains, Gained;
    var ring := Ring(s);
    if j == 0 {
      NoTurns(s);
    } else {
      Turns(s, j - 1);
      var t := Ticks(s, QUANTUM * (j - 1));
      TicksAdd(s, QUANTUM * (j - 1), QUANTUM);
      Turn(t);
      OneMoreTurn(s, t, Ticks(t, QUANTUM), j - 1);
    }
  }

  lemma RotateOnce(ring: seq<Slot>, j: nat)
    requires j < |ring| && 1 < |ring|
    ensures var r := ring[j..] + ring[..j];
            && r[0] == ring[j]
            && r[1] == (if j + 1 < |ring| then ring[j + 1] else ring[0])
            && r[1..] + [r[0]] == ring[j + 1..] + ring[..j + 1]
  {
  }

  lemma OneMoreGain(s: Sys, t: Sys, u: Sys, j: nat, i: nat)
    requires Sized(s) && Sized(t) && Sized(u) && t.queue != []
    requires var ring := Ring(s);
             && i < |ring| && j < |ring| && 1 < |ring|
             && (forall a, b :: 0 <= a < b < |ring| ==> ring[a] != ring[b])
             && t.current == ring[j] && t.queue[0] == (if j + 1 < |ring| then ring[j + 1] else ring[0])
    requires Gained(s, t, Ring(s)[i], QUANTUM * One(i < j),
             One(i < j) + One(1 <= i <= j) + One(i == 0 && j == |Ring(s)|))
    requires TurnGains(t, u, QUANTUM)
    ensures Gained(s, u, Ring(s)[i], QUANTUM * One(i < j + 1),
            One(i < j + 1) + One(1 <= i <= j + 1) + One(i == 0 && j + 1 == |Ring(s)|))
  {
    hide Sized;
    var p := Ring(s)[i];
    assert p == t.current <==> i == j;
    assert p == t.queue[0] <==> i == if j + 1 < |Ring(s)| then j + 1 else 0;
    if p != t.current && p != t.queue[0] {
      assert Gained(t, u, p, 0, 0);
    }
  }

  lemma OneMoreTurn(s: Sys, t: Sys, u: Sys, j: nat)
    requires FreshTurn(s) && FreshTurn(t) && FreshTurn(u) && j < |Ring(s)|
    requires Ring(t) == Ring(s)[j..] + Ring(s)[..j] && AfterTurns(s, t, j)
    requires Ring(u) == Ring(t)[1..] + [t.current]
    requires TurnGains(t, u, QUANTUM)
    ensures Ring(u) == Ring(s)[j + 1..] + Ring(s)[..j + 1]
    ensures AfterTurns(s, u, j + 1)
  {
    var ring := Ring(s);
    RingDistinct(s);
    InvSized(s);
    InvSized(t);
    InvSized(u);
    hide Inv, Gained, Sized;
    RotateOnce(ring, j);
    assert t.current == Ring(t)[0] && t.queue[0] == Ring(t)[1];
    forall p: Slot | p !in ring
      ensures Gained(s, u, p, 0, 0)
    {
      assert p != t.current && p != t.queue[0];
      NoGains(s, t, u, p);
    }
    forall i | 0 <= i < |ring|
      ensures Gained(s, u, ring[i], QUANTUM * One(i < j + 1),
              One(i < j + 1) + One(1 <= i <= j + 1) + One(i == 0 && j + 1 == |ring|))
    {
      OneMoreGain(s, t, u, j, i);
    }
  }

  lemma NoGains(s: Sys, t: Sys, u: Sys, p: Slot)
    requires Sized(s) && Sized(t) && Sized(u)
    requires Gained(s, t, p, 0, 0) && Gained(t, u, p, 0, 0)
    ensures Gained(s, u, p, 0, 0)
  {
  }

  lemma RingParts(s: Sys)
    ensures Ring(s)[|Ring(s)|..] + Ring(s)[..|Ring(s)|] == Ring(s)
    ensures Ring(s)[0] == s.current && Ring(s)[1..] == s.queue
  {
  }

  /** Exact fair share.  From just after a switch with m processes queued, 10 * (m + 1)
      ticks bring back the same current process and the same queue; each of the m + 1
      processes has gained exactly 10 ticks and 2 context switches, and nobody else any. */
  lemma FairShare(s: Sys)
    requires FreshTurn(s)
    ensures var t := Ticks(s, 10 * (|s.queue| + 1));
            && t.current == s.current && t.queue == s.queue
            && (forall p: Slot :: p in Ring(s) ==> Gained(s, t, p, 10, 2))
            && (forall p: Slot :: p !in Ring(s) ==> Gained(s, t, p, 0, 0))
  {
    hide Inv, Sized, Ticks, Gained;
    var ring := Ring(s);
    Turns(s, |ring|);
    var t := Ticks(s, QUANTUM * |ring|);
    RingParts(s);
    RingParts(t);
    InvSized(s);
    InvSized(t);
    forall p: Slot | p in ring
      ensures Gained(s, t, p, QUANTUM, 2)
    {
      var i :| 0 <= i < |ring| && ring[i] == p;
    }
  }

  // ---------------------------------------------------------------- starvation

  /** The current process has exited, its slot is the only one the PID allocator can find,
      and somebody waits. */
  ghost predicate Starving(s: Sys) {
    && Inv(s) && s.enabled && s.queue != []
    && s.current != 0 && s.procs[s.current].state.Terminated? && s.procs[s.current].quantum == QUANTUM
    && (forall p :: 1 <= p < MAX_PROCESSES && p != s.current ==> !s.procs[p].state.Terminated?)
  }

  /** Rounds of one tick and one attempt to create a process. */
  ghost function Rounds(s: Sys, n: nat): (t: Sys)
    requires Inv(s)
    ensures Inv(t)
  {
    if n == 0 then s
    else
      var t := Rounds(s, n - 1);
      TickInv(t);
      CreateInv(Tick(t));
      Create(Tick(t))
  }

  /** With only the exited current slot free, the next creation is given it. */
  lemma StarvingHits(s: Sys)
    requires Sized(s) && s.current != 0 && s.procs[s.current].state.Terminated?
    requires forall p :: 1 <= p < MAX_PROCESSES && p != s.current ==> !s.procs[p].state.Terminated?
    ensures AllocatePid(s) == s.current
  {
    var i := FirstFree(s.procs, s.nextPid, MAX_PROCESSES);
    var j := FirstFree(s.procs, 1, s.nextPid);
  }

  lemma StarvingRound(s: Sys)
    requires Starving(s)
    ensures Inv(Tick(s)) && Refills(Tick(s))
    ensures Starving(Create(Tick(s))) && Create(Tick(s)).queue == s.queue && Create(Tick(s)).current == s.current
  {
    TickInv(s);
    ChargeNone(s);
    ChargeOne(s, 0);
    var t := Tick(s);
    StarvingHits(t);
    CreateInv(t);
  }

  /** Failing creations can starve the queue for ever: in such a state no number of ticks
      with a creation after each lets anybody waiting run. */
  lemma {:induction false} Starvation(s: Sys, n: nat)
    requires Starving(s)
    ensures var t := Rounds(s, n);
            Starving(t) && t.queue == s.queue && t.current == s.current
  {
    hide Inv, Sized, Tick, Create, Refills;
    if 0 < n {
      Starvation(s, n - 1);
      StarvingRound(Rounds(s, n - 1));
    }
  }

  /** The idle process lists process 1 as its first child. */
  ghost predicate ListsOne(s: Sys)
    requires Sized(s)
  {
    s.procs[0].children != [] && s.procs[0].children[0] == 1
  }

  /** After n creations from the boot state slots 1 to n are taken, none is queued. */
  ghost predicate Filled(t: Sys, n: nat) {
    && Inv(t) && n < MAX_PROCESSES
    && t.nextPid == n + 1 && t.current == 0 && t.queue == [] && !t.enabled
    && t.procs[0].state.Running? && t.procs[0].quantum == 1
    && (if n == 0 then t.procs[0].children == [] else ListsOne(t))
    && (forall p :: 1 <= p <= n ==> t.procs[p].state.Ready?)
    && (forall p :: n < p < MAX_PROCESSES ==> t.procs[p].state.Terminated? && !t.stacks[p])
  }

  lemma FillOne(s: Sys, n: nat)
    requires Filled(s, n) && n + 1 < MAX_PROCESSES
    ensures Inv(Create(s)) && Filled(Create(s), n + 1)
  {
    CreateInv(s);
    AdoptFamily(s.procs[n + 1 := NewProc(s.stackArea, n + 1, s.current)], s.current, n + 1);
    hide QueueOk, StacksOk;
    assert AllocatePid(s) == n + 1;
  }

  lemma Extend(ss: seq<Sys>, ops: seq<Op>, op: Op) returns (ss': seq<Sys>, ops': seq<Op>)
    requires IsRun(ss, ops) && Sized(ss[|ops|]) && Allowed(ss[|ops|], op)
    ensures IsRun(ss', ops') && |ss'| == |ops'| + 1 && ops' == ops + [op]
    ensures ss'[..|ops| + 1] == ss && ss'[0] == ss[0] && ss'[|ops|] == ss[|ops|]
    ensures ss'[|ops'|] == Step(ss[|ops|], op)
  {
    hide Inv, Sized, Allowed, Step;
    ss', ops' := ss + [Step(ss[|ops|], op)], ops + [op];
    forall i, j | 0 <= i < |ops'| && j == i + 1
      ensures Goes(ss'[i], ops'[i], ss'[j])
    {
      if i < |ops| {
        assert Goes(ss[i], ops[i], ss[j]);
      }
    }
  }

  lemma {:induction false} FillingRun(s: Sys, n: nat) returns (ss: seq<Sys>, ops: seq<Op>)
    requires Filled(s, 0) && n < MAX_PROCESSES
    ensures IsRun(ss, ops) && |ss| == |ops| + 1 && ss[0] == s && Filled(ss[|ops|], n)
  {
    if n == 0 {
      ss, ops := [s], [];
    } else {
      ss, ops := FillingRun(s, n - 1);
      FillOne(ss[|ops|], n - 1);
      hide IsRun, Filled, Create;
      ss, ops := Extend(ss, ops, OpCreate);
    }
  }

  lemma BootFilled(esp0: nat, area: nat)
    ensures Filled(Initial(esp0, area), 0)
  {
    InitialInv(esp0, area);
  }

  /** The idle process with one tick left, and process 1, its child, queued behind it. */
  ghost predicate OneQueued(s: Sys) {
    && Inv(s) && s.queue == [1] && s.current == 0
    && s.procs[0].state.Running? && s.procs[0].quantum == 1 && ListsOne(s)
  }

  lemma QueueOne(s: Sys, n: nat)
    requires Filled(s, n) && 1 <= n
    ensures Sized(s) && Allowed(s, OpAdd(1))
    ensures var t := Add(s, 1).(enabled := true);
            && Inv(Add(s, 1)) && OneQueued(t) && t.enabled
            && (forall p :: 1 <= p <= n ==> !t.procs[p].state.Terminated?)
  {
    AddInv(s, 1);
  }

  /** Process 1 has run and exited; its parent, the idle process, has not. */
  ghost predicate OneExited(s: Sys) {
    && Inv(s) && s.enabled && s.current == 1 && s.procs[1].state.Terminated?
    && !s.procs[0].state.Terminated? && ListsOne(s)
  }

  lemma RunOneAndExit(s: Sys)
    requires OneQueued(s) && s.enabled
    ensures Inv(Tick(s)) && OneExited(Exit(Tick(s), 0))
    ensures (forall p :: 1 <= p < MAX_PROCESSES ==> !s.procs[p].state.Terminated?) ==> Starving(Exit(Tick(s), 0))
  {
    TickInv(s);
    StepInv(Tick(s), OpExit(0));
    SwitchGoesToHead(Charge(s));
    hide QueueOk, StacksOk;
  }

  /** A run from the boot state: create n processes, queue process 1, let it run and exit.
      If the table is full then, the others starve. */
  lemma ExitingRun(esp0: nat, area: nat, n: nat) returns (ss: seq<Sys>, ops: seq<Op>)
    requires 1 <= n < MAX_PROCESSES
    ensures IsRun(ss, ops) && |ss| == |ops| + 1 && ss[0] == Initial(esp0, area) && OneExited(ss[|ops|])
    ensures n == MAX_PROCESSES - 1 ==> Starving(ss[|ops|])
  {
    hide Filled, OneQueued, OneExited, Starving, Tick, Exit, Add, Inv, IsRun, Initial;
    BootFilled(esp0, area);
    ss, ops := FillingRun(Initial(esp0, area), n);
    var s := ss[|ops|];
    QueueOne(s, n);
    RunOneAndExit(Add(s, 1).(enabled := true));
    InvSized(Add(s, 1));
    ss, ops := Extend(ss, ops, OpAdd(1));
    InvSized(ss[|ops|]);
    ss, ops := Extend(ss, ops, OpEnable);
    InvSized(ss[|ops|]);
    ss, ops := Extend(ss, ops, OpTick);
    InvSized(ss[|ops|]);
    ss, ops := Extend(ss, ops, OpExit(0));
  }

  /** Such a state is reachable from the boot state. */
  lemma StarvationIsReachable(esp0: nat, area: nat) returns (ss: seq<Sys>, ops: seq<Op>)
    ensures IsRun(ss, ops) && |ss| == |ops| + 1 && ss[0] == Initial(esp0, area) && Starving(ss[|ops|])
  {
    ss, ops := ExitingRun(esp0, area, MAX_PROCESSES - 1);
  }
}
