/** Runs from the boot state in which the child lists go wrong. */
module FamilyExamples {
  import opened Processes
  import opened SchedulerTheorems
  import opened SchedulerFairness
  import opened ProcessFamilies

  /** Create, add, enable, tick, exit: the idle process, alive, lists a dead child. */
  lemma DeadChildIsReachable(esp0: nat, area: nat) returns (ss: seq<Sys>, ops: seq<Op>)
    ensures IsRun(ss, ops) && |ss| == |ops| + 1 && ss[0] == Initial(esp0, area)
    ensures Sized(ss[|ops|]) && !LiveLists(ss[|ops|])
  {
    ss, ops := ExitingRun(esp0, area, 1);
    ExitedIsListed(ss[|ops|]);
  }

  lemma ExitedIsListed(s: Sys)
    requires OneExited(s)
    ensures Sized(s) && !LiveLists(s)
  {
    assert !s.procs[0].state.Terminated? && s.procs[0].children[0] in s.procs[0].children;
  }

  lemma ClearedIsListed(s: Sys)
    requires OneExited(s) && Starving(s)
    ensures Orphans(s) && Inv(Create(s)) && !GoodLists(Create(s).procs, Create(s).stacks)
  {
    StarvingHits(s);
    CreateInv(s);
    assert s.procs[0].children[0] in s.procs[0].children;
    var t := Create(s);
    assert Held(t.stacks, 0) && t.procs[1].parent == NIL && 1 in t.procs[0].children;
  }

  /** With the table full before that, the next creation orphans the dead child: the idle
      process lists a block whose parent is NULL. */
  lemma OrphaningIsReachable(esp0: nat, area: nat) returns (ss: seq<Sys>, ops: seq<Op>)
    ensures IsRun(ss, ops) && |ss| == |ops| + 1 && 1 <= |ops| && ss[0] == Initial(esp0, area)
    ensures ops[|ops| - 1] == OpCreate && Orphans(ss[|ops| - 1])
    ensures Inv(ss[|ops|]) && !GoodLists(ss[|ops|].procs, ss[|ops|].stacks)
  {
    hide Inv, IsRun, Initial, Starving, OneExited, Create, GoodLists, Orphans;
    ss, ops := ExitingRun(esp0, area, MAX_PROCESSES - 1);
    var s := ss[|ops|];
    ClearedIsListed(s);
    OrphansSized(s);
    ss, ops := Extend(ss, ops, OpCreate);
  }

  lemma OrphansSized(s: Sys)
    requires Orphans(s)
    ensures Sized(s)
  {
  }
}
