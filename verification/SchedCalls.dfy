/**
  What each kernel call does to the task table and the resources, seen from outside: when it succeeds, what
  exactly changes, and that nothing else does.
*/
module SchedCalls {
  import opened Bytes
  import opened HeapModel
  import opened SchedModel
  import opened SchedOwnership
  import opened SchedElection
  import Mailbox

  /** All tasks but `p` are as before. */
  predicate OthersSame(s: Sched, s': Sched, p: nat) {
    |s'.tasks| == |s.tasks| && forall q :: 0 <= q < |s.tasks| && q != p ==> s'.tasks[q] == s.tasks[q]
  }

  /** Task `p` is gone and exactly its stack and its directory are given back. */
  ghost predicate Gone(s: Sched, s': Sched, p: nat) {
    && p < |s.tasks| && OthersSame(s, s', p)
    && !s'.tasks[p].active && !s'.tasks[p].sleeping && s'.tasks[p].stackBase == 0 && s'.tasks[p].space == -1
    && Live(s'.blocks) == Live(s.blocks) - {s.tasks[p].stackBase}
    && |s'.used| == |s.used| && (forall k :: 0 <= k < |s.used| ==> (s'.used[k] <==> s.used[k] && k != s.tasks[p].space))
    && s'.count == s.count - 1 && s'.tables == s.tables
  }

  lemma TerminateGone(s: Sched, c: Config, p: nat)
    requires Inv(s, c) && p < MAX_TASKS && s.tasks[p].active
    ensures Gone(s, Terminate(s, p), p)
    ensures var d := Terminate(s, p);
      d.current == s.current && d.ticks == s.ticks && d.halted == s.halted && d.tasks[p].box == s.tasks[p].box
  {
    hide Free, Live, StacksOwned, SpacesOwned;
    TerminateKeeps(s, c, p);
    CountZero(s.tasks);
  }

  /** task_kill ends exactly the active tasks other than its caller, and empties their mailbox. */
  lemma KillExact(s: Sched, c: Config, pid: int)
    requires Inv(s, c)
    ensures var (s', events) := Step(s, c, Kill(pid));
      && (events != [] <==> 0 <= pid < MAX_TASKS && s.tasks[pid].active && pid != s.current)
      && (events == [] ==> s' == s)
      && (events != [] ==>
            && events == [Ended(pid)] && Gone(s, s', pid)
            && Mailbox.Valid(s'.tasks[pid].box) && Mailbox.Queue(s'.tasks[pid].box) == []
            && s'.current == s.current && s'.ticks == s.ticks && s'.halted == s.halted)
  {
    hide Free, Live, StacksOwned, SpacesOwned, Terminate;
    if 0 <= pid < MAX_TASKS && s.tasks[pid].active && pid != s.current {
      TerminateGone(s, c, pid);
      Mailbox.ResetEmpty(s.tasks[pid].box);
    }
  }

  /** task_exit_current ends its caller and nobody else. */
  lemma ExitExact(s: Sched, c: Config)
    requires Inv(s, c) && s.tasks[s.current].active
    ensures var (s', events) := Step(s, c, Exit);
      && events == [Ended(s.current)] && Gone(s, s', s.current)
      && s'.current == s.current && s'.ticks == s.ticks && s'.halted == s.halted
  {
    hide Free, Live, StacksOwned, SpacesOwned, Terminate;
    TerminateGone(s, c, s.current);
  }

  /** The task table after a tick at `now`: the suspended ESP is saved and due sleepers are awake. */
  predicate Ticked(s: Sched, s': Sched, esp: u32) {
    && |s'.tasks| == |s.tasks| && s'.ticks == Wrap(s.ticks + 1)
    && s'.blocks == s.blocks && s'.used == s.used && s'.tables == s.tables && s'.count == s.count
    && forall q :: 0 <= q < |s.tasks| ==>
         var t := s.tasks[q];
         s'.tasks[q] == t.(esp := if q == s.current then esp else t.esp,
                           sleeping := t.sleeping && !(t.active && s'.ticks >= t.wakeTick))
  }

  /** The task elected: the nearest ready one of highest priority >= 0, or failing that the lowest active one. */
  ghost predicate Chosen(tasks: seq<Task>, cur: nat, e: nat) {
    && e < |tasks| && tasks[e].active
    && ((exists q :: 0 <= q < |tasks| && Contends(tasks[q])) ==>
          Contends(tasks[e]) && forall q :: 0 <= q < |tasks| ==> Beats(tasks, cur, e, q))
    && ((forall q :: 0 <= q < |tasks| ==> !Contends(tasks[q])) ==> forall q :: 0 <= q < e ==> !tasks[q].active)
  }

  /** A tick, and the reschedule inside the other calls: it halts exactly when no task is active. */
  lemma ScheduleExact(s: Sched, esp: u32)
    requires WellFormed(s) && !s.halted
    ensures var (s', events) := Schedule(s, esp);
      && Ticked(s, s', esp)
      && (s'.halted <==> forall q :: 0 <= q < MAX_TASKS ==> !s.tasks[q].active)
      && (s'.halted ==> s'.current == s.current && events == [Suspended(s.current, esp)])
      && (!s'.halted ==>
            && Chosen(s'.tasks, s.current, s'.current)
            && events == [Suspended(s.current, esp), Resumed(s'.current, s'.tasks[s'.current].esp, s'.tasks[s'.current].space)])
  {
    hide Scan, Mailbox.Valid, Beats;
    var s' := Schedule(s, esp).0;
    FirstPass(s'.tasks, s.current);
    ElectsActive(s'.tasks, s.current);
  }

  lemma TickExact(s: Sched, c: Config, esp: u32)
    requires WellFormed(s)
    ensures Step(s, c, Tick(esp)) == Schedule(s, esp)
  {
  }

  /** task_exit_and_reschedule: the caller is gone; the system halts exactly when nobody else is active. */
  lemma ExitRescheduleExact(s: Sched, c: Config, esp: u32)
    requires Inv(s, c) && s.tasks[s.current].active && !s.halted
    ensures var (s', events) := Step(s, c, ExitAndReschedule(esp));
            var (d, ended) := Step(s, c, Exit);
      && (s'.halted <==> forall q :: 0 <= q < MAX_TASKS && q != s.current ==> !s.tasks[q].active)
      && (s'.halted ==> s' == d.(halted := true) && events == ended)
      && (!s'.halted ==> s' == Schedule(d, esp).0 && events == ended + Schedule(d, esp).1)
  {
    hide Free, Live, StacksOwned, SpacesOwned, Terminate, Schedule, Mailbox.Valid;
    TerminateGone(s, c, s.current);
    TerminateKeeps(s, c, s.current);
    var d := Terminate(s, s.current);
    CountZero(d.tasks);
    assert Inv(d, c);
    ScheduleExact(d, esp);
  }

  /** task_sleep: the caller, and nobody else, sleeps until the ticks asked for are over. */
  lemma SleepExact(s: Sched, c: Config, ms: u32)
    requires WellFormed(s)
    ensures var (s', events) := Step(s, c, Sleep(ms));
            var wake := Wrap(s.ticks + TicksToWait(ms, 100));
      && s' == s.(tasks := s'.tasks) && OthersSame(s, s', s.current) && events == [Slept(s.current, wake)]
      && s'.tasks[s.current] == s.tasks[s.current].(sleeping := true, wakeTick := wake)
  {
  }

  lemma SleepRescheduleExact(s: Sched, c: Config, ms: u32, esp: u32)
    requires WellFormed(s)
    ensures var (d, slept) := Step(s, c, Sleep(ms));
      Step(s, c, SleepAndReschedule(ms, esp)) == (Schedule(d, esp).0, slept + Schedule(d, esp).1)
  {
  }

  /** task_set_priority: a valid target, and only it, gets exactly the level given. */
  lemma PriorityExact(s: Sched, c: Config, pid: int, level: int)
    requires WellFormed(s)
    ensures var (s', events) := Step(s, c, SetPriority(pid, level));
      && events == [] && s' == s.(tasks := s'.tasks) && |s'.tasks| == MAX_TASKS
      && forall q :: 0 <= q < MAX_TASKS ==>
           s'.tasks[q] == if q == pid && s.tasks[q].active then s.tasks[q].(priority := level) else s.tasks[q]
  {
  }

  // ----- creation -----

  ghost predicate StackAvailable(bs: seq<Block>) {
    exists i :: 0 <= i < |bs| && bs[i].free && bs[i].size >= 4096
  }

  ghost predicate SlotAvailable(tasks: seq<Task>) {
    exists i :: 0 <= i < |tasks| && !tasks[i].active
  }

  ghost predicate DirectoryAvailable(used: seq<bool>) {
    exists k :: 0 <= k < |used| && !used[k]
  }

  lemma StackOffered(bs: seq<Block>)
    ensures Malloc(bs, STACK_SIZE).1.Some? <==> StackAvailable(bs)
  {
    assert Round4(STACK_SIZE) == STACK_SIZE;
    MallocExact(bs, STACK_SIZE);
  }

  lemma SlotOffered(s: Sched, c: Config)
    requires Inv(s, c)
    ensures s.count < MAX_TASKS && FreeTask(s.tasks) < MAX_TASKS <==> SlotAvailable(s.tasks)
  {
    hide StacksOwned, SpacesOwned, Live;
    CounterMeansSlot(s, c);
    if FreeTask(s.tasks) < MAX_TASKS {
      assert !s.tasks[FreeTask(s.tasks)].active;
    }
  }

  /** The new task `pid`: lowest free slot, awake, priority 0, empty mailbox, a stack of its own, its frame on top. */
  ghost predicate Born(s: Sched, s': Sched, pid: nat, space: int, frame: nat) {
    && pid < |s.tasks| && OthersSame(s, s', pid) && !s.tasks[pid].active && (forall j :: 0 <= j < pid ==> s.tasks[j].active)
    && var t := s'.tasks[pid];
    && t.active && !t.sleeping && t.priority == 0 && t.space == space
    && Mailbox.Valid(t.box) && Mailbox.Queue(t.box) == []
    && t.stackBase !in Live(s.blocks) && Live(s'.blocks) == Live(s.blocks) + {t.stackBase} && t.stackBase != 0
    && t.esp == Wrap(t.stackBase + 4096 - frame)
    && s'.count == s.count + 1 && s'.current == s.current && s'.ticks == s.ticks && s'.halted == s.halted
  }

  /** create_task succeeds exactly when a task slot is inactive and a free block holds 4096 bytes. */
  lemma CreateExact(s: Sched, c: Config, entry: u32)
    requires Inv(s, c)
    ensures var (s', events) := Step(s, c, Create(entry));
      && (events != [] <==> SlotAvailable(s.tasks) && StackAvailable(s.blocks))
      && (events == [] ==> s' == s)
      && (events != [] ==>
            && |events| == 1 && events[0].Created? && Born(s, s', events[0].pid, -1, 48) && events[0].esp == s'.tasks[events[0].pid].esp
            && s'.used == s.used && s'.tables == s.tables)
  {
    hide Malloc, Live, StacksOwned, SpacesOwned, SlotAvailable, StackAvailable;
    SlotOffered(s, c);
    StackOffered(s.blocks);
    MallocLive(s.blocks, c.heapLo, c.heapHi, STACK_SIZE);
    if SlotAvailable(s.tasks) && StackAvailable(s.blocks) {
      Mailbox.ResetEmpty(s.tasks[FreeTask(s.tasks)].box);
    }
  }

  /** The directory given to a new user task: the lowest unused one, its table opened to the two windows. */
  ghost predicate Mapped(s: Sched, s': Sched, c: Config, k: int, codeBase: nat, codeSize: nat, stackTop: nat, stackSize: nat) {
    && 0 <= k < |s.used| && !s.used[k] && (forall j :: 0 <= j < k ==> s.used[j]) && s'.used == s.used[k := true]
    && |s'.tables| == |s.tables| == |s.used| && (forall j :: 0 <= j < |s.tables| && j != k ==> s'.tables[j] == s.tables[j])
    && var lo := Wrap(stackTop - stackSize);
       s'.tables[k] == PageTable(c, lo, Wrap(lo + stackSize), codeBase, Wrap(codeBase + codeSize))
  }

  /** create_user_task_argv needs a directory as well; a failure leaves the same tasks, directories and live blocks. */
  lemma CreateUserExact(s: Sched, c: Config, codeBase: nat, codeSize: nat, stackTop: nat, stackSize: nat)
    requires Inv(s, c)
    ensures var (s', pid) := CreateUserTask(s, c, codeBase, codeSize, stackTop, stackSize);
      && -1 <= pid < MAX_TASKS && |s'.tasks| == MAX_TASKS
      && (pid >= 0 <==> SlotAvailable(s.tasks) && StackAvailable(s.blocks) && DirectoryAvailable(s.used))
      && (pid < 0 ==> s' == s.(blocks := s'.blocks) && Live(s'.blocks) == Live(s.blocks))
      && (pid >= 0 ==>
            && Born(s, s', pid, s'.tasks[pid].space, 52)
            && Mapped(s, s', c, s'.tasks[pid].space, codeBase, codeSize, stackTop, stackSize))
  {
    hide Malloc, Free, Live, StacksOwned, SpacesOwned, SlotAvailable, StackAvailable, PageTable;
    SlotOffered(s, c);
    StackOffered(s.blocks);
    MallocLive(s.blocks, c.heapLo, c.heapHi, STACK_SIZE);
    CreateUserKeeps(s, c, codeBase, codeSize, stackTop, stackSize);
    var k := FreeSpace(s.used);
    assert DirectoryAvailable(s.used) <==> k < |s.used|;
    if SlotAvailable(s.tasks) && StackAvailable(s.blocks) {
      Mailbox.ResetEmpty(s.tasks[FreeTask(s.tasks)].box);
    }
  }

  lemma CreateUserCall(s: Sched, c: Config, op: Op)
    requires WellFormed(s) && op.CreateUser?
    ensures var (s', pid) := CreateUserTask(s, c, op.codeBase, op.codeSize, op.stackTop, op.stackSize);
      Step(s, c, op) == (s', if pid < 0 then [] else [Created(pid, s'.tasks[pid].esp)])
  {
  }

  // ----- messages -----

  /** ipc_send: an active target with a message to spare gets the sender's pid and the first 128 bytes, last in its queue. */
  lemma SendExact(s: Sched, c: Config, target: int, text: seq<byte>)
    requires WellFormed(s)
    ensures var (s', events) := Step(s, c, Send(target, text));
            var message := Mailbox.Message(s.current, if |text| <= 128 then text else text[..128]);
      && (events != [] <==> 0 <= target < MAX_TASKS && s.tasks[target].active && |Mailbox.Queue(s.tasks[target].box)| < 4)
      && (events == [] ==> s' == s)
      && (events != [] ==>
            && events == [Accepted(target, message)] && s' == s.(tasks := s'.tasks) && OthersSame(s, s', target)
            && s'.tasks[target] == s.tasks[target].(box := s'.tasks[target].box) && Mailbox.Valid(s'.tasks[target].box)
            && Mailbox.Queue(s'.tasks[target].box) == Mailbox.Queue(s.tasks[target].box) + [message])
  {
    hide Mailbox.Put;
    if ValidPid(s, target) && s.tasks[target].box.count < Mailbox.SLOTS {
      Mailbox.PutAppends(s.tasks[target].box, s.current, text);
      assert |text| <= 128 ==> text[..|text|] == text;
      assert Mailbox.Kept(text) == if |text| <= 128 then text else text[..128];
    }
  }

  /** ipc_recv: the caller's oldest message leaves its queue and is the one delivered; an empty queue changes nothing. */
  lemma ReceiveExact(s: Sched, c: Config, op: Op)
    requires WellFormed(s) && op.Receive?
    ensures var (s', events) := Step(s, c, op);
            var q := Mailbox.Queue(s.tasks[s.current].box);
      && (q == [] ==> s' == s && events == [])
      && (q != [] ==>
            && events == [Delivered(s.current, q[0])] && s' == s.(tasks := s'.tasks) && OthersSame(s, s', s.current)
            && s'.tasks[s.current] == s.tasks[s.current].(box := s'.tasks[s.current].box) && Mailbox.Valid(s'.tasks[s.current].box)
            && Mailbox.Queue(s'.tasks[s.current].box) == q[1..])
  {
    var b := s.tasks[s.current].box;
    if b.count > 0 {
      Mailbox.TakeRemoves(b);
      assert Mailbox.Queue(b)[1..] == Mailbox.Queue(Mailbox.Take(b));
    }
  }

  /** The system at boot: only the Shell, awake, priority 0 everywhere, empty mailboxes, nothing in use. */
  lemma BootExact(c: Config, ticks: u32)
    requires c.heapLo + HEADER <= c.heapHi
    ensures var s := Boot(c, ticks);
      && |s.tasks| == MAX_TASKS && s.current == 0 && s.count == 1 && s.ticks == ticks && !s.halted
      && (forall q :: 0 <= q < MAX_TASKS ==>
            && s.tasks[q].active == (q == 0) && !s.tasks[q].sleeping && s.tasks[q].priority == 0 && s.tasks[q].space == -1
            && Mailbox.Valid(s.tasks[q].box) && Mailbox.Queue(s.tasks[q].box) == [])
      && (forall k :: 0 <= k < MAX_SPACES ==> !s.used[k]) && Live(s.blocks) == {}
  {
    var tasks := Boot(c, ticks).tasks;
    assert forall q :: 0 <= q < MAX_TASKS ==> tasks[q] == BlankTask(q == 0);
    Mailbox.ResetEmpty(Mailbox.Zero());
  }
}
