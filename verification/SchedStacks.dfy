/** Kernel stacks over runs: every task's 4096 bytes lie in its own heap block, apart from all others. */
module SchedStacks {
  import opened Bytes
  import opened HeapModel
  import opened SchedModel
  import opened SchedOwnership
  import opened SchedRuns

  /** Every used block can hold a stack. */
  ghost predicate Roomy(bs: seq<Block>) {
    forall i :: 0 <= i < |bs| ==> bs[i].free || bs[i].size >= STACK_SIZE
  }

  lemma MallocRoomy(bs: seq<Block>)
    requires Roomy(bs)
    ensures Roomy(Malloc(bs, STACK_SIZE).0)
  {
    assert Round4(STACK_SIZE) == STACK_SIZE;
  }

  lemma FreeRoomy(bs: seq<Block>, p: nat)
    requires Roomy(bs)
    ensures Roomy(Free(bs, p))
  {
  }

  lemma StepRoomy(s: Sched, c: Config, op: Op)
    requires WellFormed(s) && Roomy(s.blocks)
    ensures Roomy(Step(s, c, op).0.blocks)
  {
    hide Malloc, Free, Roomy, Elect, PageTable, WakeAll;
    match op
    case Exit => FreeRoomy(s.blocks, s.tasks[s.current].stackBase);
    case ExitAndReschedule(_) => FreeRoomy(s.blocks, s.tasks[s.current].stackBase);
    case Create(_) => MallocRoomy(s.blocks);
    case CreateUser(_, _, _, _, _, _, _) =>
      MallocRoomy(s.blocks);
      var (blocks, stack) := Malloc(s.blocks, STACK_SIZE);
      if stack.Some? {
        FreeRoomy(blocks, stack.value);
      }
    case Kill(pid) =>
      if ValidPid(s, pid) {
        FreeRoomy(s.blocks, s.tasks[pid].stackBase);
      }
    case _ =>
  }

  lemma {:induction false} RunRoomy(c: Config, ticks: u32, ops: seq<Op>)
    requires c.heapLo + HEADER <= c.heapHi && Run(Start(c, ticks), c, ops).Some?
    ensures Roomy(Run(Start(c, ticks), c, ops).value.s.blocks)
    decreases |ops|
  {
    hide Step;
    if ops != [] {
      var init := ops[..|ops| - 1];
      RunRoomy(c, ticks, init);
      StepRoomy(Run(Start(c, ticks), c, init).value.s, c, ops[|ops| - 1]);
    }
  }

  /** Two active tasks with heap stacks: inside the arena, and not overlapping. */
  lemma StacksDisjoint(c: Config, ticks: u32, ops: seq<Op>, s: Sched, p: nat, q: nat)
    requires c.heapLo + HEADER <= c.heapHi && Run(Start(c, ticks), c, ops).Some? && s == Run(Start(c, ticks), c, ops).value.s
    requires p < q < |s.tasks| && s.tasks[p].active && s.tasks[q].active
    requires s.tasks[p].stackBase != 0 && s.tasks[q].stackBase != 0
    ensures c.heapLo <= s.tasks[p].stackBase && s.tasks[p].stackBase + STACK_SIZE <= c.heapHi
    ensures s.tasks[p].stackBase + STACK_SIZE <= s.tasks[q].stackBase || s.tasks[q].stackBase + STACK_SIZE <= s.tasks[p].stackBase
  {
    hide Step, ObserveAll;
    RunOk(c, ticks, ops);
    RunRoomy(c, ticks, ops);
    var x, y := s.tasks[p].stackBase, s.tasks[q].stackBase;
    assert OwnsStack(s.tasks[p], x) && OwnsStack(s.tasks[q], y);
    assert x in Live(s.blocks) && y in Live(s.blocks);
    assert !OwnsStack(s.tasks[q], x);
    assert x != y;
    var i := LiveBlock(s.blocks, x);
    var j := LiveBlock(s.blocks, y);
    InBounds(s.blocks, c.heapLo, c.heapHi, i);
    Apart(s.blocks, c.heapLo, c.heapHi, i, j);
  }

  /** A tick wakes exactly the sleepers that are due, and changes no other sleeper. */
  lemma TickWakesDue(s: Sched, esp: u32, p: nat)
    requires WellFormed(s) && p < MAX_TASKS && s.tasks[p].active && s.tasks[p].sleeping
    ensures var s' := Schedule(s, esp).0;
      && s'.ticks == Wrap(s.ticks + 1) && |s'.tasks| == MAX_TASKS
      && (Ready(s'.tasks[p]) <==> s'.ticks >= s.tasks[p].wakeTick)
  {
  }
}
