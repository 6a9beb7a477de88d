/**
  Whole runs of the scheduler from boot. An observer logs, per task slot, the context saved last,
  the pending sleep deadline and the messages accepted and delivered since the task was created;
  the theorems compare the kernel's behaviour with that log.
*/
module SchedRuns {
  import opened Bytes
  import opened HeapModel
  import opened SchedModel
  import opened SchedOwnership
  import opened SchedElection
  import Mailbox

  datatype Log = Log(context: seq<Option<u32>>, deadline: seq<Option<u32>>,
                     accepted: seq<seq<Mailbox.Message>>, delivered: seq<seq<Mailbox.Message>>)

  predicate Sized(g: Log) {
    |g.context| == MAX_TASKS && |g.deadline| == MAX_TASKS && |g.accepted| == MAX_TASKS && |g.delivered| == MAX_TASKS
  }

  function Observe(g: Log, e: Event): (g': Log)
    requires Sized(g)
    ensures Sized(g')
  {
    if e.pid >= MAX_TASKS then g
    else
      match e
      case Suspended(p, esp) => g.(context := g.context[p := Some(esp)])
      case Resumed(_, _, _) => g
      case Created(p, esp) =>
        Log(g.context[p := Some(esp)], g.deadline[p := None], g.accepted[p := []], g.delivered[p := []])
      case Ended(_) => g
      case Slept(p, wake) => g.(deadline := g.deadline[p := Some(wake)])
      case Accepted(p, m) => g.(accepted := g.accepted[p := g.accepted[p] + [m]])
      case Delivered(p, m) => g.(delivered := g.delivered[p := g.delivered[p] + [m]])
  }

  function ObserveAll(g: Log, events: seq<Event>): (g': Log)
    requires Sized(g)
    ensures Sized(g')
    decreases |events|
  {
    if events == [] then g else ObserveAll(Observe(g, events[0]), events[1..])
  }

  datatype Sys = Sys(s: Sched, log: Log)

  function Start(c: Config, ticks: u32): Sys
    requires c.heapLo + HEADER <= c.heapHi
  {
    Sys(Boot(c, ticks),
        Log(seq(MAX_TASKS, i => None), seq(MAX_TASKS, i => None), seq(MAX_TASKS, i => []), seq(MAX_TASKS, i => [])))
  }

  predicate CanStep(y: Sys, op: Op) {
    WellFormed(y.s) && Sized(y.log) && Enabled(y.s, op)
  }

  function Next(y: Sys, c: Config, op: Op): Sys
    requires CanStep(y, op)
  {
    var (s', events) := Step(y.s, c, op);
    Sys(s', ObserveAll(y.log, events))
  }

  /** The state after `ops`, or None when one of them is not enabled. */
  function Run(y: Sys, c: Config, ops: seq<Op>): Option<Sys> {
    if ops == [] then Some(y)
    else
      var z := Run(y, c, ops[..|ops| - 1]);
      if z.Some? && CanStep(z.value, ops[|ops| - 1]) then Some(Next(z.value, c, ops[|ops| - 1])) else None
  }

  // ----- saved contexts -----

  ghost predicate ContextsSaved(s: Sched, g: Log)
    requires WellFormed(s) && Sized(g)
  {
    forall p :: 0 <= p < MAX_TASKS && s.tasks[p].active && p != s.current ==> g.context[p] == Some(s.tasks[p].esp)
  }

  ghost predicate MailsMatch(s: Sched, g: Log)
    requires WellFormed(s) && Sized(g)
  {
    forall p :: 0 <= p < MAX_TASKS && s.tasks[p].active ==>
                  g.accepted[p] == g.delivered[p] + Mailbox.Queue(s.tasks[p].box)
  }

  /** The log agrees with the state: contexts of suspended tasks, and mailboxes of active ones. */
  ghost predicate Agrees(s: Sched, g: Log) {
    WellFormed(s) && Sized(g) && ContextsSaved(s, g) && MailsMatch(s, g)
  }

  lemma ObserveOne(g: Log, e: Event)
    requires Sized(g)
    ensures ObserveAll(g, [e]) == Observe(g, e)
  {
    assert ObserveAll(Observe(g, e), []) == Observe(g, e);
  }

  lemma ObserveCons(g: Log, e: Event, events: seq<Event>)
    requires Sized(g)
    ensures ObserveAll(g, [e] + events) == ObserveAll(Observe(g, e), events)
  {
    assert ([e] + events)[1..] == events;
  }

  // ----- each step keeps the agreement -----

  lemma ScheduleShape(s: Sched, esp: u32)
    requires WellFormed(s) && !s.halted
    ensures var (s', events) := Schedule(s, esp);
      && WellFormed(s')
      && (forall p :: 0 <= p < MAX_TASKS ==>
            && s'.tasks[p].active == s.tasks[p].active && s'.tasks[p].box == s.tasks[p].box
            && s'.tasks[p].esp == if p == s.current then esp else s.tasks[p].esp)
      && (s'.halted ==> events == [Suspended(s.current, esp)] && s'.current == s.current)
      && (!s'.halted ==>
            && s'.tasks[s'.current].active
            && events == [Suspended(s.current, esp), Resumed(s'.current, s'.tasks[s'.current].esp, s'.tasks[s'.current].space)])
  {
    var saved := s.tasks[s.current := s.tasks[s.current].(esp := esp)];
    ElectsActive(WakeAll(saved, Wrap(s.ticks + 1)), s.current);
  }

  lemma ObserveSchedule(g: Log, e: Event, r: Event)
    requires Sized(g) && r.Resumed?
    ensures ObserveAll(g, [e, r]) == Observe(g, e)
  {
    ObserveCons(g, e, [r]);
    ObserveOne(Observe(g, e), r);
    assert [e, r] == [e] + [r];
  }

  /** A reschedule resumes an active task exactly where the log says it left off. */
  lemma ResumesSaved(s: Sched, g: Log, esp: u32)
    requires Agrees(s, g) && !s.halted
    ensures var (s', events) := Schedule(s, esp);
      && Agrees(s', ObserveAll(g, events))
      && (!s'.halted ==> |events| == 2 && Observe(g, events[0]).context[s'.current] == Some(events[1].esp))
  {
    ScheduleShape(s, esp);
    var (s', events) := Schedule(s, esp);
    if s'.halted {
      ObserveOne(g, events[0]);
    } else {
      ObserveSchedule(g, events[0], events[1]);
    }
  }

  lemma SleepAgrees(s: Sched, g: Log, ms: u32)
    requires Agrees(s, g)
    ensures var (s', wake) := PutToSleep(s, ms);
      Agrees(s', Observe(g, Slept(s.current, wake)))
  {
  }

  lemma TerminateAgrees(s: Sched, g: Log, pid: nat)
    requires Agrees(s, g) && pid < MAX_TASKS
    ensures Agrees(Terminate(s, pid), g)
  {
    var s' := Terminate(s, pid);
    assert forall p :: 0 <= p < MAX_TASKS && s'.tasks[p].active ==> s'.tasks[p] == s.tasks[p];
  }

  lemma KillAgrees(s: Sched, g: Log, pid: int)
    requires Agrees(s, g)
    ensures Agrees(KillTask(s, pid).0, ObserveAll(g, KillTask(s, pid).1))
  {
    if ValidPid(s, pid) && pid != s.current {
      TerminateAgrees(s, g, pid);
      ObserveOne(g, Ended(pid));
      var s' := KillTask(s, pid).0;
      Mailbox.ResetEmpty(s.tasks[pid].box);
      assert forall p :: 0 <= p < MAX_TASKS && s'.tasks[p].active ==> s'.tasks[p] == s.tasks[p];
    }
  }

  lemma InstallAgrees(s: Sched, s0: Sched, g: Log, i: nat, base: nat, space: int, frame: nat)
    requires Agrees(s, g) && i < MAX_TASKS && !s.tasks[i].active && s.tasks[s.current].active
    requires WellFormed(s0) && s0.tasks == s.tasks && s0.current == s.current
    ensures var s' := Install(s0, i, base, space, frame);
      Agrees(s', Observe(g, Created(i, s'.tasks[i].esp)))
  {
    var s' := Install(s0, i, base, space, frame);
    Mailbox.ResetEmpty(s.tasks[i].box);
    assert forall p :: 0 <= p < MAX_TASKS && p != i ==> s'.tasks[p] == s.tasks[p];
  }

  lemma CreateAgrees(s: Sched, g: Log, c: Config, op: Op)
    requires Agrees(s, g) && s.tasks[s.current].active && (op.Create? || op.CreateUser?)
    ensures var (s', events) := Step(s, c, op);
      Agrees(s', ObserveAll(g, events))
  {
    var (s', events) := Step(s, c, op);
    var i := FreeTask(s.tasks);
    var (blocks, stack) := Malloc(s.blocks, STACK_SIZE);
    if events != [] {
      ObserveOne(g, events[0]);
      if op.Create? {
        InstallAgrees(s, s.(blocks := blocks), g, i, stack.value, -1, KERNEL_FRAME);
      } else {
        InstallAgrees(s, s.(blocks := blocks, used := s'.used, tables := s'.tables), g, i, stack.value, FreeSpace(s.used), USER_FRAME);
      }
    }
  }

  lemma SendAgrees(s: Sched, g: Log, target: int, text: seq<byte>)
    requires Agrees(s, g)
    ensures var (s', events) := SendTo(s, target, text);
      Agrees(s', ObserveAll(g, events))
  {
    var (s', events) := SendTo(s, target, text);
    if events != [] {
      Mailbox.PutAppends(s.tasks[target].box, s.current, text);
      ObserveOne(g, events[0]);
      var m := Mailbox.Message(s.current, Mailbox.Kept(text));
      assert g.accepted[target] + [m] == g.delivered[target] + Mailbox.Queue(s'.tasks[target].box);
    }
  }

  lemma ReceiveAgrees(s: Sched, g: Log)
    requires Agrees(s, g)
    ensures var (s', events) := ReceiveOne(s);
      Agrees(s', ObserveAll(g, events))
  {
    var (s', events) := ReceiveOne(s);
    if events != [] {
      var p := s.current;
      Mailbox.TakeRemoves(s.tasks[p].box);
      ObserveOne(g, events[0]);
      var m := Mailbox.MessageAt(s.tasks[p].box, s.tasks[p].box.head);
      assert g.delivered[p] + ([m] + Mailbox.Queue(s'.tasks[p].box)) == (g.delivered[p] + [m]) + Mailbox.Queue(s'.tasks[p].box);
    }
  }

  lemma RescheduleAgrees(s: Sched, g: Log, c: Config, op: Op)
    requires Agrees(s, g) && !s.halted && s.tasks[s.current].active
    requires op.SleepAndReschedule? || op.ExitAndReschedule?
    ensures var (s', events) := Step(s, c, op);
      Agrees(s', ObserveAll(g, events))
  {
    match op
    case SleepAndReschedule(ms, esp) =>
      SleepAgrees(s, g, ms);
      var (s1, wake) := PutToSleep(s, ms);
      var g1 := Observe(g, Slept(s.current, wake));
      ResumesSaved(s1, g1, esp);
      ObserveCons(g, Slept(s.current, wake), Schedule(s1, esp).1);
    case ExitAndReschedule(esp) =>
      TerminateAgrees(s, g, s.current);
      var d := Terminate(s, s.current);
      if d.count == 0 {
        ObserveOne(g, Ended(s.current));
      } else {
        ResumesSaved(d, g, esp);
        ObserveCons(g, Ended(s.current), Schedule(d, esp).1);
      }
  }

  lemma StepAgrees(s: Sched, g: Log, c: Config, op: Op)
    requires Agrees(s, g) && Enabled(s, op)
    ensures var (s', events) := Step(s, c, op);
      Agrees(s', ObserveAll(g, events))
  {
    match op
    case Tick(esp) => ResumesSaved(s, g, esp);
    case Sleep(ms) =>
      SleepAgrees(s, g, ms);
      ObserveOne(g, Slept(s.current, PutToSleep(s, ms).1));
    case SleepAndReschedule(_, _) => RescheduleAgrees(s, g, c, op);
    case ExitAndReschedule(_) => RescheduleAgrees(s, g, c, op);
    case Exit =>
      TerminateAgrees(s, g, s.current);
      ObserveOne(g, Ended(s.current));
    case Create(_) => CreateAgrees(s, g, c, op);
    case CreateUser(_, _, _, _, _, _, _) => CreateAgrees(s, g, c, op);
    case Kill(pid) => KillAgrees(s, g, pid);
    case SetPriority(pid, level) =>
    case Send(target, text) => SendAgrees(s, g, target, text);
    case Receive(_, _, _) => ReceiveAgrees(s, g);
  }

  // ----- theorems over runs -----

  lemma StartOk(c: Config, ticks: u32)
    requires c.heapLo + HEADER <= c.heapHi
    ensures Inv(Start(c, ticks).s, c) && Agrees(Start(c, ticks).s, Start(c, ticks).log)
  {
    BootInv(c, ticks);
    var y := Start(c, ticks);
    assert forall p :: 1 <= p < MAX_TASKS ==> y.s.tasks[p] == BlankTask(false);
    assert y.s.tasks[0] == BlankTask(true);
    assert BlankTask(true).box.count == 0;
  }

  lemma {:induction false} RunOk(c: Config, ticks: u32, ops: seq<Op>)
    requires c.heapLo + HEADER <= c.heapHi && Run(Start(c, ticks), c, ops).Some?
    ensures var y := Run(Start(c, ticks), c, ops).value;
      Inv(y.s, c) && Agrees(y.s, y.log)
    decreases |ops|
  {
    if ops == [] {
      StartOk(c, ticks);
    } else {
      var init, op := ops[..|ops| - 1], ops[|ops| - 1];
      RunOk(c, ticks, init);
      var z := Run(Start(c, ticks), c, init).value;
      StepKeeps(z.s, c, op);
      StepAgrees(z.s, z.log, c, op);
    }
  }

  /**
    Resource ownership in every run: an exact task counter; live heap blocks and used directories
    are exactly those of active tasks, with one owner each; only the boot task has no heap stack.
  */
  lemma RunOwnership(c: Config, ticks: u32, ops: seq<Op>)
    requires c.heapLo + HEADER <= c.heapHi && Run(Start(c, ticks), c, ops).Some?
    ensures var s := Run(Start(c, ticks), c, ops).value.s;
      && WellFormed(s) && s.count == NumActive(s.tasks)
      && (forall x :: x in Live(s.blocks) <==> exists i :: 0 <= i < MAX_TASKS && OwnsStack(s.tasks[i], x))
      && (forall k :: InUse(s.used, k) <==> exists i :: 0 <= i < MAX_TASKS && OwnsSpace(s.tasks[i], k))
      && (forall i, j, x :: 0 <= i < MAX_TASKS && 0 <= j < MAX_TASKS && OwnsStack(s.tasks[i], x) && OwnsStack(s.tasks[j], x) ==> i == j)
      && (forall i, j, k :: 0 <= i < MAX_TASKS && 0 <= j < MAX_TASKS && OwnsSpace(s.tasks[i], k) && OwnsSpace(s.tasks[j], k) ==> i == j)
      && (forall i :: 0 < i < MAX_TASKS && s.tasks[i].active ==> s.tasks[i].stackBase != 0)
  {
    hide Step, Live, NumActive, Observe, ObserveAll;
    RunOk(c, ticks, ops);
    var s := Run(Start(c, ticks), c, ops).value.s;
    assert StacksOwned(s.tasks, Live(s.blocks)) && SpacesOwned(s.tasks, s.used) && SlotsOk(s.tasks);
    forall x
      ensures x in Live(s.blocks) <==> exists i :: 0 <= i < MAX_TASKS && OwnsStack(s.tasks[i], x)
    {
    }
    forall k
      ensures InUse(s.used, k) <==> exists i :: 0 <= i < MAX_TASKS && OwnsSpace(s.tasks[i], k)
    {
    }
  }

  /** In every run each task has received, in order, a prefix of what was accepted for it since its creation. */
  lemma MailboxFifo(c: Config, ticks: u32, ops: seq<Op>, y: Sys, p: nat)
    requires c.heapLo + HEADER <= c.heapHi && Run(Start(c, ticks), c, ops) == Some(y)
    requires WellFormed(y.s) && Sized(y.log) && p < MAX_TASKS && y.s.tasks[p].active
    ensures y.log.accepted[p] == y.log.delivered[p] + Mailbox.Queue(y.s.tasks[p].box)
    ensures y.log.delivered[p] <= y.log.accepted[p]
    ensures |y.log.accepted[p]| <= |y.log.delivered[p]| + Mailbox.SLOTS
  {
    RunOk(c, ticks, ops);
  }

  /** A send leaves every other mailbox alone, and a full or absent target leaves everything alone. */
  lemma SendFrame(s: Sched, target: int, text: seq<byte>, p: nat)
    requires WellFormed(s) && p < MAX_TASKS
    ensures var (s', events) := SendTo(s, target, text);
      && (p != target ==> s'.tasks[p] == s.tasks[p])
      && (events == [] <==> !ValidPid(s, target) || s.tasks[target].box.count == Mailbox.SLOTS)
      && (events == [] ==> s' == s)
  {
  }

  /**
    Context integrity: whatever ran before, the task a step resumes is active, in its own address
    space, and gets the stack pointer it was last suspended with, or its initial frame.
  */
  lemma ContextIntegrity(c: Config, ticks: u32, ops: seq<Op>, y: Sys, op: Op, k: nat)
    requires c.heapLo + HEADER <= c.heapHi && Run(Start(c, ticks), c, ops) == Some(y) && CanStep(y, op)
    requires k < |Step(y.s, c, op).1| && Step(y.s, c, op).1[k].Resumed?
    ensures Faithful(Step(y.s, c, op).0, y.log, Step(y.s, c, op).1, k)
  {
    RunOk(c, ticks, ops);
    StepResumes(y.s, y.log, c, op, k);
  }

  /** The event `k` of a step is a faithful resumption. */
  ghost predicate Faithful(s': Sched, g: Log, events: seq<Event>, k: nat) {
    && WellFormed(s') && Sized(g) && k < |events| && events[k].Resumed?
    && events[k].pid == s'.current && s'.tasks[s'.current].active
    && events[k].space == s'.tasks[s'.current].space
    && ObserveAll(g, events[..k]).context[s'.current] == Some(events[k].esp)
  }

  lemma StepResumes(s: Sched, g: Log, c: Config, op: Op, k: nat)
    requires Agrees(s, g) && Enabled(s, op)
    requires k < |Step(s, c, op).1| && Step(s, c, op).1[k].Resumed?
    ensures Faithful(Step(s, c, op).0, g, Step(s, c, op).1, k)
  {
    match op
    case Tick(esp) =>
      ResumedLast(s, g, esp);
    case SleepAndReschedule(ms, esp) =>
      SleepAgrees(s, g, ms);
      var (s1, wake) := PutToSleep(s, ms);
      ResumedAfter(s1, g, Slept(s.current, wake), esp, k);
    case ExitAndReschedule(esp) =>
      TerminateAgrees(s, g, s.current);
      ResumedAfter(Terminate(s, s.current), g, Ended(s.current), esp, k);
    case _ =>
  }

  lemma ResumedAfter(s: Sched, g: Log, e: Event, esp: u32, k: nat)
    requires Sized(g) && Agrees(s, Observe(g, e)) && !s.halted && !e.Resumed?
    ensures var (s', events) := Schedule(s, esp);
      k < |[e] + events| && ([e] + events)[k].Resumed? ==> Faithful(s', g, [e] + events, k)
  {
    ResumedLast(s, Observe(g, e), esp);
    var (s', events) := Schedule(s, esp);
    if k < |[e] + events| && ([e] + events)[k].Resumed? {
      assert ([e] + events)[k] == events[k - 1];
      assert ([e] + events)[..k] == [e] + events[..k - 1];
      ObserveCons(g, e, events[..k - 1]);
    }
  }

  lemma ResumedLast(s: Sched, g: Log, esp: u32)
    requires Agrees(s, g) && !s.halted
    ensures var (s', events) := Schedule(s, esp);
      && WellFormed(s') && (forall k :: 0 <= k < |events| && events[k].Resumed? ==> k == 1)
      && (|events| == 2 ==>
            && s'.tasks[s'.current].active
            && events[1] == Resumed(s'.current, s'.tasks[s'.current].esp, s'.tasks[s'.current].space)
            && ObserveAll(g, events[..1]).context[s'.current] == Some(events[1].esp))
  {
    ScheduleShape(s, esp);
    ResumesSaved(s, g, esp);
    var events := Schedule(s, esp).1;
    ObserveOne(g, events[0]);
    assert events[..1] == [events[0]];
  }
}
