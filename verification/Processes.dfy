/** Process table and round-robin scheduler, as a state machine on values.

    A process is its slot number in the table, so a pointer to a process is a slot number
    or NIL.  The ready queue is the sequence of queued slots, head first. */
module Processes {

  const MAX_PROCESSES: nat := 256
  const MAX_CHILDREN: nat := 16
  const STACK_SIZE: nat := 4096
  const QUANTUM: nat := 10
  const NIL: int := -1

  type Slot = x: int | 0 <= x < 256
  type Ptr = x: int | -1 <= x < 256 witness -1

  datatype State = New | Ready | Running | Blocked | Terminated

  /** A process control block without its queue links. */
  datatype Proc = Proc(
    state: State,
    quantum: nat,
    kernelStack: nat,
    esp: nat,
    parent: Ptr,
    children: seq<Slot>,
    timeRunning: nat,
    contextSwitches: nat,
    exitCode: int)

  datatype Sys = Sys(
    procs: seq<Proc>,
    queue: seq<Slot>,
    current: Slot,
    enabled: bool,
    nextPid: nat,
    stacks: seq<bool>,
    esp0: nat,
    stackArea: nat)

  /** The sizes that the arrays of the kernel fix. */
  ghost predicate Sized(s: Sys) {
    && |s.procs| == MAX_PROCESSES
    && |s.stacks| == MAX_PROCESSES
    && 1 <= s.nextPid <= MAX_PROCESSES
    && (forall p :: 0 <= p < MAX_PROCESSES ==> |s.procs[p].children| <= MAX_CHILDREN)
  }

  // ---------------------------------------------------------------- start

  /** The address of the stack slice of slot p, in an area that starts at the given address. */
  function StackOf(area: nat, p: Slot): nat {
    area + p * STACK_SIZE
  }

  const FREE_PROC := Proc(Terminated, 0, 0, 0, NIL, [], 0, 0, 0)

  /** The state after process_init and scheduler_init; esp0 is whatever the TSS holds. */
  function Initial(esp0: nat, stackArea: nat): Sys {
    Sys(seq(MAX_PROCESSES, i => if i == 0 then FREE_PROC.(state := Running, quantum := 1) else FREE_PROC),
        [], 0, false, 1, seq(MAX_PROCESSES, i => false), esp0, stackArea)
  }

  // ---------------------------------------------------------------- creating

  /** The first terminated slot of lo..hi-1, or hi. */
  function FirstFree(procs: seq<Proc>, lo: nat, hi: nat): (p: nat)
    requires lo <= hi <= |procs|
    ensures lo <= p <= hi
    ensures p < hi ==> procs[p].state.Terminated?
    ensures forall k :: lo <= k < p ==> !procs[k].state.Terminated?
    decreases hi - lo
  {
    if lo == hi || procs[lo].state.Terminated? then lo else FirstFree(procs, lo + 1, hi)
  }

  /** The slot that the PID allocator picks, or NIL. */
  function AllocatePid(s: Sys): Ptr
    requires Sized(s)
  {
    var i := FirstFree(s.procs, s.nextPid, MAX_PROCESSES);
    if i < MAX_PROCESSES then i
    else
      var j := FirstFree(s.procs, 1, s.nextPid);
      if j < s.nextPid then j else NIL
  }

  function Adopt(procs: seq<Proc>, parent: Slot, child: Slot): (r: seq<Proc>)
    requires |procs| == MAX_PROCESSES
    ensures |r| == MAX_PROCESSES
  {
    if |procs[parent].children| < MAX_CHILDREN
    then procs[parent := procs[parent].(children := procs[parent].children + [child])]
    else procs
  }

  /** The block a successful creation leaves in its slot. */
  function NewProc(area: nat, p: Slot, parent: Slot): Proc {
    Proc(Ready, QUANTUM, StackOf(area, p), StackOf(area, p) + STACK_SIZE - 16, parent, [], 0, 0, 0)
  }

  function CreateAt(s: Sys, p: Slot): Sys
    requires Sized(s)
  {
    if s.stacks[p]
    then s.(nextPid := p + 1, procs := s.procs[p := FREE_PROC.(quantum := QUANTUM)])
    else s.(nextPid := p + 1,
            procs := Adopt(s.procs[p := NewProc(s.stackArea, p, s.current)], s.current, p),
            stacks := s.stacks[p := true])
  }

  function Create(s: Sys): Sys
    requires Sized(s)
  {
    if AllocatePid(s) == NIL then s else CreateAt(s, AllocatePid(s))
  }

  /** The slot of the process created, NIL on failure. */
  function Created(s: Sys): Ptr
    requires Sized(s)
  {
    var p := AllocatePid(s);
    if p == NIL || s.stacks[p] then NIL else p
  }

  // ---------------------------------------------------------------- destroying

  function RemoveFirst(xs: seq<Slot>, x: Slot): (r: seq<Slot>)
    ensures |r| <= |xs|
  {
    if xs == [] then [] else if xs[0] == x then xs[1..] else [xs[0]] + RemoveFirst(xs[1..], x)
  }

  function Disown(procs: seq<Proc>, parent: Ptr, child: Slot): (r: seq<Proc>)
    requires |procs| == MAX_PROCESSES
    ensures |r| == MAX_PROCESSES
  {
    if parent == NIL then procs
    else procs[parent := procs[parent].(children := RemoveFirst(procs[parent].children, child))]
  }

  /** Hand the children of p, from the i-th on, to process np.  The bound is read afresh
      each time round: when np is p itself the list grows under the loop. */
  function Reparent(procs: seq<Proc>, p: Slot, np: Slot, i: nat): (r: seq<Proc>)
    requires |procs| == MAX_PROCESSES
    requires forall q :: 0 <= q < MAX_PROCESSES ==> |procs[q].children| <= MAX_CHILDREN
    ensures |r| == MAX_PROCESSES
    decreases MAX_CHILDREN - i
  {
    if i >= |procs[p].children| then procs
    else
      var c := procs[p].children[i];
      Reparent(Adopt(procs[c := procs[c].(parent := np)], np, c), p, np, i + 1)
  }

  function Destroy(s: Sys, p: Ptr): Sys
    requires Sized(s)
  {
    if p == NIL || p == 0 then s
    else
      var np := if s.nextPid > 1 then 1 else 0;
      var procs := Reparent(Disown(s.procs, s.procs[p].parent, p), p, np, 0);
      s.(procs := Kill(procs, p), stacks := s.stacks[p := false])
  }

  function Kill(procs: seq<Proc>, p: Slot): seq<Proc>
    requires |procs| == MAX_PROCESSES
  {
    procs[p := procs[p].(state := Terminated)]
  }

  // ---------------------------------------------------------------- scheduling

  function Exit(s: Sys, code: int): Sys
    requires Sized(s)
  {
    s.(procs := s.procs[s.current := s.procs[s.current].(exitCode := code, state := Terminated)])
  }

  function Add(s: Sys, p: Ptr): Sys
    requires Sized(s)
  {
    if p == NIL || s.procs[p].state.Terminated? then s
    else s.(procs := s.procs[p := s.procs[p].(state := Ready)], queue := s.queue + [p])
  }

  /** Take the head of the queue, which must not be empty, and run it. */
  function Dispatch(s: Sys): Sys
    requires Sized(s) && s.queue != []
  {
    var n, o := s.queue[0], s.current;
    var procs := s.procs[n := s.procs[n].(state := Running, quantum := QUANTUM)];
    if n == o then s.(procs := procs, queue := s.queue[1..])
    else
      var procs1 := procs[o := procs[o].(contextSwitches := procs[o].contextSwitches + 1)];
      var procs2 := procs1[n := procs1[n].(contextSwitches := procs1[n].contextSwitches + 1)];
      s.(procs := procs2, queue := s.queue[1..], current := n, esp0 := procs2[n].kernelStack + STACK_SIZE)
  }

  /** Queue the current process again if it still runs, then dispatch. */
  function Switch(s: Sys): Sys
    requires Sized(s) && s.queue != []
  {
    Dispatch(if s.procs[s.current].state.Running? then Add(s, s.current) else s)
  }

  function SetQuantum(s: Sys, p: Slot, q: nat): Sys
    requires Sized(s)
  {
    s.(procs := s.procs[p := s.procs[p].(quantum := q)])
  }

  /** Charge a tick to the current process. */
  function Charge(s: Sys): Sys
    requires Sized(s)
  {
    var c := s.procs[s.current];
    s.(procs := s.procs[s.current := c.(timeRunning := c.timeRunning + 1,
                                        quantum := if c.quantum > 0 then c.quantum - 1 else 0)])
  }

  function Tick(s: Sys): Sys
    requires Sized(s)
  {
    if !s.enabled then s
    else
      var t := Charge(s);
      if t.procs[t.current].quantum != 0 then t
      else if t.queue != [] then Switch(t)
      else SetQuantum(t, t.current, QUANTUM)
  }

  function Yield(s: Sys): Sys
    requires Sized(s)
  {
    if !s.enabled || s.queue == [] then s
    else Switch(if s.procs[s.current].state.Running? then SetQuantum(s, s.current, QUANTUM) else s)
  }

  // ---------------------------------------------------------------- steps

  datatype Op =
    | OpCreate
    | OpAdd(p: Ptr)
    | OpTick
    | OpYield
    | OpExit(code: int)
    | OpDestroy(p: Ptr)
    | OpEnable
    | OpDisable

  /** What the callers owe: a process added or destroyed is neither queued nor current
      (unless the call does nothing anyway). */
  ghost predicate Allowed(s: Sys, op: Op)
    requires Sized(s)
  {
    match op
    case OpAdd(p) => p == NIL || s.procs[p].state.Terminated? || (p !in s.queue && p != s.current)
    case OpDestroy(p) => p == NIL || p == 0 || (p !in s.queue && p != s.current)
    case _ => true
  }

  function Step(s: Sys, op: Op): Sys
    requires Sized(s)
  {
    match op
    case OpCreate => Create(s)
    case OpAdd(p) => Add(s, p)
    case OpTick => Tick(s)
    case OpYield => Yield(s)
    case OpExit(code) => Exit(s, code)
    case OpDestroy(p) => Destroy(s, p)
    case OpEnable => s.(enabled := true)
    case OpDisable => s.(enabled := false)
  }
}
