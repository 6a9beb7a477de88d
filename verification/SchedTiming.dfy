/** Timing over runs: no task is elected before its deadline, and no top task waits more than a round. */
module SchedTiming {
  import opened Bytes
  import opened HeapModel
  import opened SchedModel
  import opened SchedOwnership
  import opened SchedElection
  import opened SchedRuns
  import Mailbox

  predicate Reschedules(op: Op) {
    op.Tick? || op.SleepAndReschedule? || op.ExitAndReschedule?
  }

  // ----- sleep safety -----

  /** A logged deadline is still armed in the task, or already past. */
  predicate Armed(t: Task, deadline: Option<u32>, now: u32) {
    t.active && deadline.Some? ==> (t.sleeping && t.wakeTick == deadline.value) || now >= deadline.value
  }

  ghost predicate Deadlines(s: Sched, g: Log)
    requires WellFormed(s) && Sized(g)
  {
    forall p :: 0 <= p < MAX_TASKS ==> Armed(s.tasks[p], g.deadline[p], s.ticks)
  }

  /** The Shell can always be elected. */
  predicate ShellReady(s: Sched) {
    |s.tasks| == MAX_TASKS && Contends(s.tasks[0])
  }

  lemma ScheduleDeadlines(s: Sched, g: Log, esp: u32)
    requires WellFormed(s) && !s.halted && Sized(g) && Deadlines(s, g) && s.ticks + 1 < 0x1_0000_0000
    ensures var (s', events) := Schedule(s, esp);
      && WellFormed(s') && ObserveAll(g, events).deadline == g.deadline
      && Deadlines(s', ObserveAll(g, events))
  {
    ScheduleShape(s, esp);
    var (s', events) := Schedule(s, esp);
    if s'.halted {
      ObserveOne(g, events[0]);
    } else {
      ObserveSchedule(g, events[0], events[1]);
    }
    forall p | 0 <= p < MAX_TASKS
      ensures Armed(s'.tasks[p], g.deadline[p], s'.ticks)
    {
      assert Armed(s.tasks[p], g.deadline[p], s.ticks);
    }
  }

  lemma SleepDeadlines(s: Sched, g: Log, ms: u32)
    requires WellFormed(s) && Sized(g) && Deadlines(s, g)
    ensures var (s', wake) := PutToSleep(s, ms);
      WellFormed(s') && Deadlines(s', Observe(g, Slept(s.current, wake)))
  {
    var (s', wake) := PutToSleep(s, ms);
    forall p | 0 <= p < MAX_TASKS && p != s.current
      ensures Armed(s'.tasks[p], g.deadline[p], s'.ticks)
    {
      assert Armed(s.tasks[p], g.deadline[p], s.ticks);
    }
  }

  lemma OtherDeadlines(s: Sched, s': Sched, g: Log, i: nat)
    requires WellFormed(s) && WellFormed(s') && Sized(g) && Deadlines(s, g) && s'.ticks == s.ticks
    requires forall p :: 0 <= p < MAX_TASKS && p != i ==> s'.tasks[p] == s.tasks[p]
    requires i < MAX_TASKS ==> Armed(s'.tasks[i], g.deadline[i], s.ticks)
    ensures Deadlines(s', g)
  {
    forall p | 0 <= p < MAX_TASKS
      ensures Armed(s'.tasks[p], g.deadline[p], s'.ticks)
    {
      assert Armed(s.tasks[p], g.deadline[p], s.ticks);
    }
  }

  lemma TerminateDeadlines(s: Sched, g: Log, pid: nat)
    requires WellFormed(s) && Sized(g) && Deadlines(s, g) && pid < MAX_TASKS
    ensures WellFormed(Terminate(s, pid)) && Deadlines(Terminate(s, pid), g)
  {
    OtherDeadlines(s, Terminate(s, pid), g, pid);
  }

  lemma KillDeadlines(s: Sched, g: Log, pid: int)
    requires WellFormed(s) && Sized(g) && Deadlines(s, g) && WellFormed(KillTask(s, pid).0)
    ensures Deadlines(KillTask(s, pid).0, ObserveAll(g, KillTask(s, pid).1))
  {
    if ValidPid(s, pid) && pid != s.current {
      ObserveOne(g, Ended(pid));
      OtherDeadlines(s, KillTask(s, pid).0, g, pid);
    }
  }

  lemma BoxDeadlines(s: Sched, g: Log, i: nat, b: Mailbox.Box)
    requires WellFormed(s) && Sized(g) && Deadlines(s, g) && i < MAX_TASKS
    requires WellFormed(s.(tasks := s.tasks[i := s.tasks[i].(box := b)]))
    ensures Deadlines(s.(tasks := s.tasks[i := s.tasks[i].(box := b)]), g)
  {
    assert Armed(s.tasks[i], g.deadline[i], s.ticks);
    OtherDeadlines(s, s.(tasks := s.tasks[i := s.tasks[i].(box := b)]), g, i);
  }

  lemma SameDeadlines(s: Sched, g: Log, g': Log)
    requires WellFormed(s) && Sized(g) && Sized(g') && Deadlines(s, g) && g'.deadline == g.deadline
    ensures Deadlines(s, g')
  {
    assert forall p :: 0 <= p < MAX_TASKS ==> Armed(s.tasks[p], g.deadline[p], s.ticks);
  }

  lemma SendDeadlines(s: Sched, g: Log, target: int, text: seq<byte>)
    requires WellFormed(s) && Sized(g) && Deadlines(s, g) && WellFormed(SendTo(s, target, text).0)
    ensures Deadlines(SendTo(s, target, text).0, ObserveAll(g, SendTo(s, target, text).1))
  {
    hide Mailbox.Put, Mailbox.Kept, Mailbox.Valid, Deadlines, ObserveAll;
    var (s', events) := SendTo(s, target, text);
    NothingObserved(g);
    if events != [] {
      ObserveOne(g, events[0]);
      BoxDeadlines(s, g, target, s'.tasks[target].box);
      assert s' == s.(tasks := s.tasks[target := s.tasks[target].(box := s'.tasks[target].box)]);
      SameDeadlines(s', g, ObserveAll(g, events));
    }
  }

  lemma ReceiveDeadlines(s: Sched, g: Log)
    requires WellFormed(s) && Sized(g) && Deadlines(s, g) && WellFormed(ReceiveOne(s).0)
    ensures Deadlines(ReceiveOne(s).0, ObserveAll(g, ReceiveOne(s).1))
  {
    hide Mailbox.Take, Mailbox.Valid, Deadlines, ObserveAll;
    var (s', events) := ReceiveOne(s);
    NothingObserved(g);
    if events != [] {
      ObserveOne(g, events[0]);
      BoxDeadlines(s, g, s.current, s'.tasks[s.current].box);
      assert s' == s.(tasks := s.tasks[s.current := s.tasks[s.current].(box := s'.tasks[s.current].box)]);
      SameDeadlines(s', g, ObserveAll(g, events));
    }
  }

  lemma NothingObserved(g: Log)
    requires Sized(g)
    ensures ObserveAll(g, []) == g
  {
  }

  lemma PriorityDeadlines(s: Sched, g: Log, c: Config, pid: int, level: int)
    requires WellFormed(s) && Sized(g) && Deadlines(s, g)
    ensures WellFormed(Step(s, c, SetPriority(pid, level)).0) && Deadlines(Step(s, c, SetPriority(pid, level)).0, g)
  {
    if ValidPid(s, pid) {
      assert Armed(s.tasks[pid], g.deadline[pid], s.ticks);
      OtherDeadlines(s, Step(s, c, SetPriority(pid, level)).0, g, pid);
    }
  }

  /** A creation touches at most the lowest inactive slot, and says so. */
  lemma CreateShape(s: Sched, c: Config, op: Op)
    requires WellFormed(s) && (op.Create? || op.CreateUser?)
    ensures var (s', events) := Step(s, c, op);
            var i := FreeTask(s.tasks);
      && s'.ticks == s.ticks && |s'.tasks| == MAX_TASKS
      && (events == [] ==> s'.tasks == s.tasks)
      && (events != [] ==>
            && i < MAX_TASKS && |events| == 1 && events[0].Created? && events[0].pid == i
            && forall p :: 0 <= p < MAX_TASKS && p != i ==> s'.tasks[p] == s.tasks[p])
  {
    hide PageTable, Malloc, Free, Mailbox.Reset, Mailbox.Valid;
  }

  lemma CreateDeadlines(s: Sched, g: Log, c: Config, op: Op)
    requires WellFormed(s) && WellFormed(Step(s, c, op).0) && Sized(g) && Deadlines(s, g) && (op.Create? || op.CreateUser?)
    ensures Deadlines(Step(s, c, op).0, ObserveAll(g, Step(s, c, op).1))
  {
    hide Step, ObserveAll, Mailbox.Valid;
    var (s', events) := Step(s, c, op);
    CreateShape(s, c, op);
    NothingObserved(g);
    if events == [] {
      OtherDeadlines(s, s', g, MAX_TASKS);
    } else {
      assert events == [events[0]];
      ObserveOne(g, events[0]);
      var i, g' := FreeTask(s.tasks), Observe(g, events[0]);
      assert Deadlines(s, g') by {
        forall p | 0 <= p < MAX_TASKS
          ensures Armed(s.tasks[p], g'.deadline[p], s.ticks)
        {
          assert Armed(s.tasks[p], g.deadline[p], s.ticks);
        }
      }
      OtherDeadlines(s, s', g', i);
    }
  }

  lemma SleepRescheduleDeadlines(s: Sched, g: Log, c: Config, ms: u32, esp: u32)
    requires WellFormed(s) && !s.halted && Sized(g) && Deadlines(s, g) && s.ticks + 1 < 0x1_0000_0000
    ensures var (s', events) := Step(s, c, SleepAndReschedule(ms, esp));
      WellFormed(s') && Deadlines(s', ObserveAll(g, events))
  {
    SleepDeadlines(s, g, ms);
    var (s1, wake) := PutToSleep(s, ms);
    ScheduleDeadlines(s1, Observe(g, Slept(s.current, wake)), esp);
    ObserveCons(g, Slept(s.current, wake), Schedule(s1, esp).1);
  }

  lemma ExitRescheduleDeadlines(s: Sched, g: Log, c: Config, esp: u32)
    requires WellFormed(s) && !s.halted && Sized(g) && Deadlines(s, g) && s.ticks + 1 < 0x1_0000_0000
    ensures var (s', events) := Step(s, c, ExitAndReschedule(esp));
      WellFormed(s') && Deadlines(s', ObserveAll(g, events))
  {
    TerminateDeadlines(s, g, s.current);
    ObserveOne(g, Ended(s.current));
    var d := Terminate(s, s.current);
    if d.count != 0 {
      ScheduleDeadlines(d, g, esp);
      ObserveCons(g, Ended(s.current), Schedule(d, esp).1);
    }
  }

  lemma StepDeadlines(s: Sched, g: Log, c: Config, op: Op)
    requires WellFormed(s) && !s.halted && Sized(g) && Deadlines(s, g) && s.ticks + 1 < 0x1_0000_0000
    requires WellFormed(Step(s, c, op).0)
    ensures Deadlines(Step(s, c, op).0, ObserveAll(g, Step(s, c, op).1))
  {
    hide Terminate, Schedule, KillTask, CreateTask, CreateUserTask, SendTo, ReceiveOne, PutToSleep, Deadlines, ObserveAll;
    NothingObserved(g);
    match op
    case Tick(esp) => ScheduleDeadlines(s, g, esp);
    case Sleep(ms) =>
      SleepDeadlines(s, g, ms);
      ObserveOne(g, Slept(s.current, PutToSleep(s, ms).1));
    case SleepAndReschedule(ms, esp) => SleepRescheduleDeadlines(s, g, c, ms, esp);
    case ExitAndReschedule(esp) => ExitRescheduleDeadlines(s, g, c, esp);
    case Create(_) => CreateDeadlines(s, g, c, op);
    case CreateUser(_, _, _, _, _, _, _) => CreateDeadlines(s, g, c, op);
    case Exit =>
      TerminateDeadlines(s, g, s.current);
      ObserveOne(g, Ended(s.current));
    case Kill(pid) => KillDeadlines(s, g, pid);
    case SetPriority(pid, level) => PriorityDeadlines(s, g, c, pid, level);
    case Send(target, text) => SendDeadlines(s, g, target, text);
    case Receive(_, _, _) => ReceiveDeadlines(s, g);
  }

  /** With the Shell ready the first pass decides, so the elected task is awake. */
  lemma ElectedContends(s: Sched, esp: u32)
    requires WellFormed(s) && !s.halted && ShellReady(Schedule(s, esp).0)
    ensures var s' := Schedule(s, esp).0;
      && Scan(s'.tasks, s.current, MAX_TASKS) == s'.current
      && !s'.halted && s'.current < MAX_TASKS && Contends(s'.tasks[s'.current])
  {
    var s' := Schedule(s, esp).0;
    FirstPass(s'.tasks, s.current);
  }

  /** The Shell is ready after every step and the tick counter never wraps. */
  ghost predicate CalmRun(y: Sys, c: Config, ops: seq<Op>) {
    if ops == [] then ShellReady(y.s)
    else
      var z := Run(y, c, ops[..|ops| - 1]);
      var z' := Run(y, c, ops);
      && CalmRun(y, c, ops[..|ops| - 1])
      && z.Some? && z'.Some? && z.value.s.ticks + 1 < 0x1_0000_0000 && ShellReady(z'.value.s)
  }

  /** In every such run no logged deadline is ever forgotten. */
  lemma {:induction false} CalmDeadlines(c: Config, ticks: u32, ops: seq<Op>)
    requires c.heapLo + HEADER <= c.heapHi && CalmRun(Start(c, ticks), c, ops)
    ensures Run(Start(c, ticks), c, ops).Some?
    ensures var y := Run(Start(c, ticks), c, ops).value;
      Inv(y.s, c) && Sized(y.log) && Deadlines(y.s, y.log)
    decreases |ops|
  {
    var y := Run(Start(c, ticks), c, ops);
    assert y.Some?;
    RunOk(c, ticks, ops);
    if ops != [] {
      var init, op := ops[..|ops| - 1], ops[|ops| - 1];
      CalmDeadlines(c, ticks, init);
      RunOk(c, ticks, init);
      var z := Run(Start(c, ticks), c, init).value;
      StepDeadlines(z.s, z.log, c, op);
    }
  }

  /**
    Sleep safety: the task a reschedule elects is awake and past its deadline, and it is the winner of the
    first pass, so the all-asleep fallback is never taken.
  */
  lemma SleepSafety(c: Config, ticks: u32, ops: seq<Op>, y: Sys)
    requires c.heapLo + HEADER <= c.heapHi && CalmRun(Start(c, ticks), c, ops)
    requires Run(Start(c, ticks), c, ops) == Some(y)
    requires ops != [] && Reschedules(ops[|ops| - 1])
    ensures WellFormed(y.s) && Sized(y.log) && !y.s.halted
    ensures Contends(y.s.tasks[y.s.current])
    ensures var z := Run(Start(c, ticks), c, ops[..|ops| - 1]);
      z.Some? && z.value.s.current < MAX_TASKS && Scan(y.s.tasks, z.value.s.current, MAX_TASKS) == y.s.current
    ensures y.log.deadline[y.s.current].Some? ==> y.s.ticks >= y.log.deadline[y.s.current].value
  {
    CalmDeadlines(c, ticks, ops);
    var init, op := ops[..|ops| - 1], ops[|ops| - 1];
    CalmDeadlines(c, ticks, init);
    var z := Run(Start(c, ticks), c, init).value;
    StepElects(z.s, c, op);
    assert Armed(y.s.tasks[y.s.current], y.log.deadline[y.s.current], y.s.ticks);
  }

  lemma StepElects(s: Sched, c: Config, op: Op)
    requires Inv(s, c) && Enabled(s, op) && Reschedules(op) && ShellReady(Step(s, c, op).0)
    ensures var s' := Step(s, c, op).0;
      && !s'.halted && s'.current < MAX_TASKS && Contends(s'.tasks[s'.current])
      && s.current < MAX_TASKS && Scan(s'.tasks, s.current, MAX_TASKS) == s'.current
  {
    hide Scan, Malloc, Free;
    match op
    case Tick(esp) => ElectedContends(s, esp);
    case SleepAndReschedule(ms, esp) => ElectedContends(PutToSleep(s, ms).0, esp);
    case ExitAndReschedule(esp) =>
      TerminateKeeps(s, c, s.current);
      var d := Terminate(s, s.current);
      CountZero(d.tasks);
      if d.count != 0 {
        ElectedContends(d, esp);
      }
  }

  /** Without wrap-around a logged deadline is the tick of the call plus the ticks asked for, at least one. */
  lemma DeadlineAsked(s: Sched, c: Config, ms: u32)
    requires WellFormed(s) && ms * FREQUENCY < 0x1_0000_0000
    requires s.ticks + ms * FREQUENCY / 1000 + 1 < 0x1_0000_0000
    ensures var asked := if ms * FREQUENCY / 1000 == 0 then 1 else ms * FREQUENCY / 1000;
      Step(s, c, Sleep(ms)).1 == [Slept(s.current, s.ticks + asked)]
  {
    SleepLength(ms, FREQUENCY);
  }

  /** When the only task goes to sleep for a second, it is elected again at once, 99 ticks too early. */
  lemma SleeperElected(c: Config, ticks: u32, esp: u32)
    requires c.heapLo + HEADER <= c.heapHi && ticks + 100 < 0x1_0000_0000
    ensures var y := Run(Start(c, ticks), c, [SleepAndReschedule(1000, esp)]);
      && y.Some? && |y.value.s.tasks| == MAX_TASKS && Sized(y.value.log)
      && y.value.s.current == 0 && y.value.s.tasks[0].active && y.value.s.tasks[0].sleeping
      && y.value.log.deadline[0] == Some(ticks + 100) && y.value.s.ticks == ticks + 1
  {
    hide Step, ObserveAll, Inv;
    var y0, op := Start(c, ticks), SleepAndReschedule(1000, esp);
    StartOk(c, ticks);
    OnlyShell(c, ticks);
    assert [op][..0] == [];
    assert Run(y0, c, [op][..0]) == Some(y0);
    assert CanStep(y0, op);
    OnlySleeper(y0.s, y0.log, c, esp);
  }

  lemma OnlyShell(c: Config, ticks: u32)
    requires c.heapLo + HEADER <= c.heapHi
    ensures var s := Boot(c, ticks);
      && WellFormed(s) && s.current == 0 && s.ticks == ticks && !s.halted
      && forall j :: 0 <= j < MAX_TASKS ==> s.tasks[j].active == (j == 0)
  {
    BootInv(c, ticks);
    var tasks := Boot(c, ticks).tasks;
    assert forall j :: 0 <= j < MAX_TASKS ==> tasks[j] == BlankTask(j == 0);
  }

  lemma OnlySleeper(s: Sched, g: Log, c: Config, esp: u32)
    requires WellFormed(s) && Sized(g) && s.current == 0 && !s.halted && s.ticks + 100 < 0x1_0000_0000
    requires forall j :: 0 <= j < MAX_TASKS ==> s.tasks[j].active == (j == 0)
    ensures var (s', events) := Step(s, c, SleepAndReschedule(1000, esp));
      && |s'.tasks| == MAX_TASKS && s'.current == 0 && s'.tasks[0].active && s'.tasks[0].sleeping
      && s'.ticks == s.ticks + 1 && ObserveAll(g, events).deadline[0] == Some(s.ticks + 100)
  {
    hide ObserveAll, Schedule, Mailbox.Valid;
    assert TicksToWait(1000, FREQUENCY) == 100;
    var (s1, wake) := PutToSleep(s, 1000);
    AsleepAgain(s1, esp);
    var events := Schedule(s1, esp).1;
    ObserveCons(g, Slept(0, wake), events);
    ObserveSchedule(Observe(g, Slept(0, wake)), events[0], events[1]);
  }

  /** With one active task, asleep and not due, a reschedule takes the fallback. */
  lemma AsleepAgain(s: Sched, esp: u32)
    requires |s.tasks| == MAX_TASKS && s.current == 0 && s.ticks + 1 < s.tasks[0].wakeTick && s.tasks[0].sleeping
    requires forall j :: 0 <= j < MAX_TASKS ==> s.tasks[j].active == (j == 0)
    ensures var (s', events) := Schedule(s, esp);
      && |s'.tasks| == MAX_TASKS && s'.current == 0 && s'.tasks[0].active && s'.tasks[0].sleeping && s'.ticks == s.ticks + 1
      && |events| == 2 && events[0] == Suspended(0, esp) && events[1].Resumed?
      && events == [events[0], events[1]]
  {
    hide Scan;
    var tasks := WakeAll(s.tasks[0 := s.tasks[0].(esp := esp)], Wrap(s.ticks + 1));
    FirstPass(tasks, 0);
    assert forall j :: 0 <= j < MAX_TASKS ==> !Contends(tasks[j]);
  }

  // ----- bounded waiting -----

  function Rounds(ops: seq<Op>): nat {
    if ops == [] then 0 else Rounds(ops[..|ops| - 1]) + if Reschedules(ops[|ops| - 1]) then 1 else 0
  }

  /** After each reschedule of the run, `t` is ready, of priority >= 0, and not outranked. */
  ghost predicate TopThroughout(y: Sys, c: Config, ops: seq<Op>, t: nat) {
    ops == [] ||
    (&& TopThroughout(y, c, ops[..|ops| - 1], t)
     && (Reschedules(ops[|ops| - 1]) ==> var z := Run(y, c, ops); z.Some? && Top(z.value.s.tasks, t)))
  }

  /** The n-th step of the run is a reschedule that elects `t`. */
  ghost predicate ElectedAt(y: Sys, c: Config, ops: seq<Op>, n: nat, t: nat) {
    && 0 < n <= |ops| && Reschedules(ops[n - 1])
    && var z := Run(y, c, ops[..n]); z.Some? && z.value.s.current == t
  }

  lemma StepCurrent(s: Sched, c: Config, op: Op, t: nat)
    requires Inv(s, c) && Enabled(s, op)
    ensures !Reschedules(op) ==> Step(s, c, op).0.current == s.current
    ensures Reschedules(op) && Top(Step(s, c, op).0.tasks, t) ==>
              var e := Step(s, c, op).0.current; e == t || Distance(e, t) < Distance(s.current, t)
  {
    if Reschedules(op) && Top(Step(s, c, op).0.tasks, t) {
      var s' := Step(s, c, op).0;
      match op
      case Tick(esp) => TurnApproaches(s'.tasks, s.current, t);
      case SleepAndReschedule(ms, esp) => TurnApproaches(s'.tasks, s.current, t);
      case ExitAndReschedule(esp) =>
        TerminateKeeps(s, c, s.current);
        CountZero(Terminate(s, s.current).tasks);
        TurnApproaches(s'.tasks, s.current, t);
    }
  }

  lemma NextWait(z: Sys, c: Config, op: Op, t: nat)
    requires Inv(z.s, c) && CanStep(z, op) && t < MAX_TASKS
    requires Reschedules(op) ==> Top(Next(z, c, op).s.tasks, t)
    ensures var z' := Next(z, c, op);
      && Inv(z'.s, c)
      && ((Reschedules(op) && z'.s.current == t)
          || Distance(z'.s.current, t) + (if Reschedules(op) then 1 else 0) <= Distance(z.s.current, t))
  {
    StepKeeps(z.s, c, op);
    StepCurrent(z.s, c, op, t);
  }

  lemma {:induction false} WaitShrinks(y: Sys, c: Config, ops: seq<Op>, t: nat)
    requires Inv(y.s, c) && t < MAX_TASKS && Run(y, c, ops).Some? && TopThroughout(y, c, ops, t)
    ensures Inv(Run(y, c, ops).value.s, c)
    ensures (exists n :: ElectedAt(y, c, ops, n, t))
            || Distance(Run(y, c, ops).value.s.current, t) + Rounds(ops) <= Distance(y.s.current, t)
    decreases |ops|
  {
    if ops != [] {
      var init, op := ops[..|ops| - 1], ops[|ops| - 1];
      WaitShrinks(y, c, init, t);
      var z := Run(y, c, init).value;
      assert Run(y, c, ops) == Some(Next(z, c, op));
      NextWait(z, c, op, t);
      if n :| ElectedAt(y, c, init, n, t) {
        ElectedEarlier(y, c, ops, n, t);
      } else if Reschedules(op) && Next(z, c, op).s.current == t {
        assert ops[..|ops|] == ops;
        assert ElectedAt(y, c, ops, |ops|, t);
      }
    }
  }

  lemma ElectedEarlier(y: Sys, c: Config, ops: seq<Op>, n: nat, t: nat)
    requires ops != [] && ElectedAt(y, c, ops[..|ops| - 1], n, t)
    ensures ElectedAt(y, c, ops, n, t)
  {
    assert ops[..|ops| - 1][..n] == ops[..n];
  }

  /** Whatever the other tasks do, a top task is elected within MAX_TASKS reschedules. */
  lemma BoundedWaiting(y: Sys, c: Config, ops: seq<Op>, t: nat)
    requires Inv(y.s, c) && t < MAX_TASKS && Run(y, c, ops).Some? && TopThroughout(y, c, ops, t)
    requires Rounds(ops) >= MAX_TASKS
    ensures exists n :: ElectedAt(y, c, ops, n, t)
  {
    WaitShrinks(y, c, ops, t);
    AtDistance(y.s.current, t);
    AtDistance(Run(y, c, ops).value.s.current, t);
  }
}
