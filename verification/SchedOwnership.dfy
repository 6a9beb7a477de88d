/**
  Resource ownership in every reachable scheduler state: the task counter is exact, the live heap
  blocks are exactly the kernel stacks of active tasks, and the used page directories are exactly
  those of active tasks, one owner each.
*/
module SchedOwnership {
  import opened Bytes
  import opened HeapModel
  import opened SchedModel
  import Mailbox

  function NumActive(tasks: seq<Task>): nat {
    if tasks == [] then 0 else NumActive(tasks[..|tasks| - 1]) + if tasks[|tasks| - 1].active then 1 else 0
  }

  predicate OwnsStack(t: Task, x: nat) {
    t.active && t.stackBase == x && x != 0
  }

  predicate OwnsSpace(t: Task, k: int) {
    t.active && t.space == k && k >= 0
  }

  /** Inactive slots own nothing; only the boot task may run without a heap stack. */
  ghost predicate SlotsOk(tasks: seq<Task>) {
    && (forall i :: 0 <= i < |tasks| && !tasks[i].active ==> tasks[i].stackBase == 0 && tasks[i].space == -1)
    && (forall i :: 0 < i < |tasks| && tasks[i].active ==> tasks[i].stackBase != 0)
    && (forall i :: 0 <= i < |tasks| ==> -1 <= tasks[i].space < MAX_SPACES)
  }

  ghost predicate StacksOwned(tasks: seq<Task>, live: set<nat>) {
    && (forall x :: x in live ==> exists i :: 0 <= i < |tasks| && OwnsStack(tasks[i], x))
    && (forall i, x :: 0 <= i < |tasks| && OwnsStack(tasks[i], x) ==> x in live)
    && (forall i, j, x :: 0 <= i < |tasks| && 0 <= j < |tasks| && OwnsStack(tasks[i], x) && OwnsStack(tasks[j], x) ==> i == j)
  }

  predicate InUse(used: seq<bool>, k: int) {
    0 <= k < |used| && used[k]
  }

  ghost predicate SpacesOwned(tasks: seq<Task>, used: seq<bool>) {
    && (forall k :: InUse(used, k) ==> exists i :: 0 <= i < |tasks| && OwnsSpace(tasks[i], k))
    && (forall i, k :: 0 <= i < |tasks| && OwnsSpace(tasks[i], k) ==> InUse(used, k))
    && (forall i, j, k :: 0 <= i < |tasks| && 0 <= j < |tasks| && OwnsSpace(tasks[i], k) && OwnsSpace(tasks[j], k) ==> i == j)
  }

  ghost predicate Inv(s: Sched, c: Config) {
    && WellFormed(s) && Tiles(s.blocks, c.heapLo, c.heapHi)
    && s.count == NumActive(s.tasks)
    && SlotsOk(s.tasks)
    && StacksOwned(s.tasks, Live(s.blocks))
    && SpacesOwned(s.tasks, s.used)
  }

  // ----- counting -----

  lemma {:induction false} CountUpdate(tasks: seq<Task>, i: nat, t: Task)
    requires i < |tasks|
    ensures NumActive(tasks[i := t]) == NumActive(tasks) + (if t.active then 1 else 0) - (if tasks[i].active then 1 else 0)
  {
    var n := |tasks| - 1;
    if i < n {
      CountUpdate(tasks[..n], i, t);
      assert tasks[i := t][..n] == tasks[..n][i := t];
    } else {
      assert tasks[i := t][..n] == tasks[..n];
    }
  }

  lemma {:induction false} CountBounds(tasks: seq<Task>)
    ensures NumActive(tasks) <= |tasks|
    ensures NumActive(tasks) == |tasks| <==> forall i :: 0 <= i < |tasks| ==> tasks[i].active
  {
    if tasks != [] {
      var n := |tasks| - 1;
      CountBounds(tasks[..n]);
      assert forall i :: 0 <= i < n ==> tasks[..n][i] == tasks[i];
    }
  }

  lemma {:induction false} CountSame(tasks: seq<Task>, tasks': seq<Task>)
    requires |tasks| == |tasks'| && forall i :: 0 <= i < |tasks| ==> tasks'[i].active == tasks[i].active
    ensures NumActive(tasks') == NumActive(tasks)
  {
    if tasks != [] {
      var n := |tasks| - 1;
      CountSame(tasks[..n], tasks'[..n]);
    }
  }

  lemma {:induction false} CountZero(tasks: seq<Task>)
    ensures NumActive(tasks) == 0 <==> forall i :: 0 <= i < |tasks| ==> !tasks[i].active
  {
    if tasks != [] {
      var n := |tasks| - 1;
      CountZero(tasks[..n]);
      assert forall i :: 0 <= i < n ==> tasks[..n][i] == tasks[i];
    }
  }

  // ----- steps that move no resource -----

  /** Two tables with the same owners of the same things. */
  ghost predicate SameOwners(tasks: seq<Task>, tasks': seq<Task>) {
    && |tasks'| == |tasks|
    && forall i :: 0 <= i < |tasks| ==>
         tasks'[i].active == tasks[i].active && tasks'[i].stackBase == tasks[i].stackBase && tasks'[i].space == tasks[i].space
  }

  lemma SameOwnersStacks(tasks: seq<Task>, tasks': seq<Task>, live: set<nat>)
    requires SameOwners(tasks, tasks') && StacksOwned(tasks, live)
    ensures StacksOwned(tasks', live)
  {
    forall x | x in live
      ensures exists i :: 0 <= i < |tasks'| && OwnsStack(tasks'[i], x)
    {
      var i :| 0 <= i < |tasks| && OwnsStack(tasks[i], x);
      assert OwnsStack(tasks'[i], x);
    }
    forall i, x | 0 <= i < |tasks'| && OwnsStack(tasks'[i], x)
      ensures OwnsStack(tasks[i], x)
    {
    }
  }

  lemma SameOwnersSpaces(tasks: seq<Task>, tasks': seq<Task>, used: seq<bool>)
    requires SameOwners(tasks, tasks') && SpacesOwned(tasks, used)
    ensures SpacesOwned(tasks', used)
  {
    forall k | InUse(used, k)
      ensures exists i :: 0 <= i < |tasks'| && OwnsSpace(tasks'[i], k)
    {
      var i :| 0 <= i < |tasks| && OwnsSpace(tasks[i], k);
      assert OwnsSpace(tasks'[i], k);
    }
    forall i, k | 0 <= i < |tasks'| && OwnsSpace(tasks'[i], k)
      ensures OwnsSpace(tasks[i], k)
    {
    }
  }

  lemma PassiveKeeps(s: Sched, s': Sched, c: Config)
    requires Inv(s, c) && WellFormed(s') && SameOwners(s.tasks, s'.tasks)
    requires s'.blocks == s.blocks && s'.used == s.used && s'.count == s.count
    ensures Inv(s', c)
  {
    CountSame(s.tasks, s'.tasks);
    SameOwnersStacks(s.tasks, s'.tasks, Live(s.blocks));
    SameOwnersSpaces(s.tasks, s'.tasks, s.used);
  }

  // ----- termination -----

  lemma RemoveStackOwner(tasks: seq<Task>, live: set<nat>, i: nat, t: Task)
    requires StacksOwned(tasks, live) && i < |tasks| && tasks[i].active && !t.active
    ensures StacksOwned(tasks[i := t], live - {tasks[i].stackBase})
  {
    var tasks', b := tasks[i := t], tasks[i].stackBase;
    forall x | x in live - {b}
      ensures exists j :: 0 <= j < |tasks'| && OwnsStack(tasks'[j], x)
    {
      var j :| 0 <= j < |tasks| && OwnsStack(tasks[j], x);
      assert OwnsStack(tasks'[j], x);
    }
    forall j, x | 0 <= j < |tasks'| && OwnsStack(tasks'[j], x)
      ensures j != i && OwnsStack(tasks[j], x) && x != b
    {
      assert OwnsStack(tasks[j], x);
      assert OwnsStack(tasks[i], b) || b == 0;
    }
  }

  lemma RemoveSpaceOwner(tasks: seq<Task>, used: seq<bool>, i: nat, t: Task)
    requires SpacesOwned(tasks, used) && i < |tasks| && tasks[i].active && !t.active
    ensures SpacesOwned(tasks[i := t], if 0 <= tasks[i].space < |used| then used[tasks[i].space := false] else used)
  {
    var tasks', k0 := tasks[i := t], tasks[i].space;
    var used' := if 0 <= k0 < |used| then used[k0 := false] else used;
    forall k | InUse(used', k)
      ensures exists j :: 0 <= j < |tasks'| && OwnsSpace(tasks'[j], k)
    {
      assert InUse(used, k);
      var j :| 0 <= j < |tasks| && OwnsSpace(tasks[j], k);
      assert OwnsSpace(tasks'[j], k);
    }
    forall j, k | 0 <= j < |tasks'| && OwnsSpace(tasks'[j], k)
      ensures j != i && OwnsSpace(tasks[j], k) && k != k0 && InUse(used', k)
    {
      assert OwnsSpace(tasks[j], k);
      assert InUse(used, k);
      assert OwnsSpace(tasks[i], k0) || k0 < 0;
    }
  }

  lemma ReleasedStack(s: Sched, c: Config, pid: nat)
    requires Inv(s, c) && pid < MAX_TASKS && s.tasks[pid].active
    ensures var blocks := Free(s.blocks, s.tasks[pid].stackBase);
      Tiles(blocks, c.heapLo, c.heapHi) && Live(blocks) == Live(s.blocks) - {s.tasks[pid].stackBase}
  {
    var base := s.tasks[pid].stackBase;
    if base != 0 {
      assert OwnsStack(s.tasks[pid], base);
      FreeLive(s.blocks, c.heapLo, c.heapHi, base);
    } else {
      LivePositive(s.blocks);
    }
  }

  lemma TerminateKeeps(s: Sched, c: Config, pid: nat)
    requires Inv(s, c) && pid < MAX_TASKS && s.tasks[pid].active
    ensures Inv(Terminate(s, pid), c)
    ensures Live(Terminate(s, pid).blocks) == Live(s.blocks) - {s.tasks[pid].stackBase}
  {
    ReleasedStack(s, c, pid);
    var t := s.tasks[pid].(active := false, sleeping := false, stackBase := 0, space := -1);
    CountUpdate(s.tasks, pid, t);
    RemoveStackOwner(s.tasks, Live(s.blocks), pid, t);
    RemoveSpaceOwner(s.tasks, s.used, pid, t);
    assert SlotsOk(s.tasks[pid := t]);
  }

  lemma LivePositive(bs: seq<Block>)
    ensures 0 !in Live(bs)
  {
  }

  // ----- creation -----

  lemma AddStackOwner(tasks: seq<Task>, live: set<nat>, i: nat, t: Task)
    requires StacksOwned(tasks, live) && i < |tasks| && !tasks[i].active && t.active
    requires t.stackBase != 0 && t.stackBase !in live
    ensures StacksOwned(tasks[i := t], live + {t.stackBase})
  {
    var tasks', b := tasks[i := t], t.stackBase;
    forall x | x in live + {b}
      ensures exists j :: 0 <= j < |tasks'| && OwnsStack(tasks'[j], x)
    {
      if x == b {
        assert OwnsStack(tasks'[i], x);
      } else {
        var j :| 0 <= j < |tasks| && OwnsStack(tasks[j], x);
        assert OwnsStack(tasks'[j], x);
      }
    }
    forall j, x | 0 <= j < |tasks'| && OwnsStack(tasks'[j], x)
      ensures if j == i then x == b else OwnsStack(tasks[j], x) && x in live
    {
      if j != i {
        assert OwnsStack(tasks[j], x);
      }
    }
  }

  lemma AddSpaceOwner(tasks: seq<Task>, used: seq<bool>, i: nat, t: Task)
    requires SpacesOwned(tasks, used) && i < |tasks| && !tasks[i].active && t.active
    requires t.space == -1 || (0 <= t.space < |used| && !used[t.space])
    ensures SpacesOwned(tasks[i := t], if t.space < 0 then used else used[t.space := true])
  {
    var tasks', k0 := tasks[i := t], t.space;
    var used' := if k0 < 0 then used else used[k0 := true];
    assert !InUse(used, k0);
    forall k | InUse(used', k)
      ensures exists j :: 0 <= j < |tasks'| && OwnsSpace(tasks'[j], k)
    {
      if k == k0 {
        assert OwnsSpace(tasks'[i], k);
      } else {
        assert InUse(used, k);
        var j :| 0 <= j < |tasks| && OwnsSpace(tasks[j], k);
        assert OwnsSpace(tasks'[j], k);
      }
    }
    forall j, k | 0 <= j < |tasks'| && OwnsSpace(tasks'[j], k)
      ensures InUse(used', k) && if j == i then k == k0 else OwnsSpace(tasks[j], k) && InUse(used, k)
    {
      if j != i {
        assert OwnsSpace(tasks[j], k);
        assert InUse(used, k);
      }
    }
    forall x, y, k | 0 <= x < |tasks'| && 0 <= y < |tasks'| && OwnsSpace(tasks'[x], k) && OwnsSpace(tasks'[y], k)
      ensures x == y
    {
      if x != i && y != i {
        assert OwnsSpace(tasks[x], k) && OwnsSpace(tasks[y], k);
      }
    }
  }

  lemma InstallKeeps(s: Sched, c: Config, i: nat, blocks: seq<Block>, base: nat, space: int, frame: nat, tables: seq<seq<nat>>)
    requires Inv(s, c) && i < MAX_TASKS && !s.tasks[i].active && |tables| == MAX_SPACES
    requires Tiles(blocks, c.heapLo, c.heapHi) && base != 0 && base !in Live(s.blocks) && Live(blocks) == Live(s.blocks) + {base}
    requires space == -1 || (0 <= space < MAX_SPACES && !s.used[space])
    ensures Inv(Install(s.(blocks := blocks, used := if space < 0 then s.used else s.used[space := true], tables := tables),
                        i, base, space, frame), c)
  {
    var used := if space < 0 then s.used else s.used[space := true];
    var s' := Install(s.(blocks := blocks, used := used, tables := tables), i, base, space, frame);
    CountUpdate(s.tasks, i, s'.tasks[i]);
    AddStackOwner(s.tasks, Live(s.blocks), i, s'.tasks[i]);
    AddSpaceOwner(s.tasks, s.used, i, s'.tasks[i]);
    Mailbox.ResetEmpty(s.tasks[i].box);
  }

  lemma CreateKeeps(s: Sched, c: Config)
    requires Inv(s, c)
    ensures Inv(CreateTask(s).0, c)
    ensures CreateTask(s).1 < 0 ==> CreateTask(s).0 == s
  {
    MallocLive(s.blocks, c.heapLo, c.heapHi, STACK_SIZE);
    var i := FreeTask(s.tasks);
    var (blocks, stack) := Malloc(s.blocks, STACK_SIZE);
    if CreateTask(s).1 >= 0 {
      InstallKeeps(s, c, i, blocks, stack.value, -1, KERNEL_FRAME, s.tables);
    }
  }

  /** A failed creation leaks nothing: same tasks, directories, counter and live blocks. */
  lemma CreateUserKeeps(s: Sched, c: Config, codeBase: nat, codeSize: nat, stackTop: nat, stackSize: nat)
    requires Inv(s, c)
    ensures var (s', pid) := CreateUserTask(s, c, codeBase, codeSize, stackTop, stackSize);
      && Inv(s', c)
      && (pid < 0 ==> s' == s.(blocks := s'.blocks) && Live(s'.blocks) == Live(s.blocks))
  {
    MallocLive(s.blocks, c.heapLo, c.heapHi, STACK_SIZE);
    var i := FreeTask(s.tasks);
    var (blocks, stack) := Malloc(s.blocks, STACK_SIZE);
    var (s', pid) := CreateUserTask(s, c, codeBase, codeSize, stackTop, stackSize);
    if pid >= 0 {
      InstallKeeps(s, c, i, blocks, stack.value, FreeSpace(s.used), USER_FRAME, s'.tables);
    } else if s.count < MAX_TASKS && i < MAX_TASKS && stack.Some? {
      FreeLive(blocks, c.heapLo, c.heapHi, stack.value);
      PassiveBlocks(s, s'.blocks, c);
    }
  }

  lemma PassiveBlocks(s: Sched, blocks: seq<Block>, c: Config)
    requires Inv(s, c) && Tiles(blocks, c.heapLo, c.heapHi) && Live(blocks) == Live(s.blocks)
    ensures Inv(s.(blocks := blocks), c)
  {
  }

  /** With an exact counter the "too many tasks" test and the slot search agree. */
  lemma CounterMeansSlot(s: Sched, c: Config)
    requires Inv(s, c)
    ensures s.count >= MAX_TASKS <==> FreeTask(s.tasks) == MAX_TASKS
  {
    CountBounds(s.tasks);
  }

  // ----- every step -----

  lemma ScheduleKeeps(s: Sched, c: Config, esp: u32)
    requires Inv(s, c)
    ensures Inv(Schedule(s, esp).0, c)
  {
    PassiveKeeps(s, Schedule(s, esp).0, c);
  }

  lemma BoxKeeps(s: Sched, c: Config, i: nat, b: Mailbox.Box)
    requires Inv(s, c) && i < MAX_TASKS && Mailbox.Valid(b)
    ensures Inv(s.(tasks := s.tasks[i := s.tasks[i].(box := b)]), c)
  {
    PassiveKeeps(s, s.(tasks := s.tasks[i := s.tasks[i].(box := b)]), c);
  }

  lemma ExitKeeps(s: Sched, c: Config, esp: u32)
    requires Inv(s, c) && s.tasks[s.current].active
    ensures Inv(Step(s, c, ExitAndReschedule(esp)).0, c)
  {
    TerminateKeeps(s, c, s.current);
    var d := Terminate(s, s.current);
    if d.count == 0 {
      PassiveKeeps(d, d.(halted := true), c);
    } else {
      ScheduleKeeps(d, c, esp);
    }
  }

  lemma KillKeeps(s: Sched, c: Config, pid: int)
    requires Inv(s, c)
    ensures Inv(KillTask(s, pid).0, c)
  {
    if ValidPid(s, pid) && pid != s.current {
      TerminateKeeps(s, c, pid);
      var d := Terminate(s, pid);
      Mailbox.ResetEmpty(d.tasks[pid].box);
      BoxKeeps(d, c, pid, Mailbox.Reset(d.tasks[pid].box));
    }
  }

  lemma IpcKeeps(s: Sched, c: Config, target: int, text: seq<byte>)
    requires Inv(s, c)
    ensures Inv(SendTo(s, target, text).0, c) && Inv(ReceiveOne(s).0, c)
  {
    if ValidPid(s, target) && s.tasks[target].box.count < Mailbox.SLOTS {
      Mailbox.PutAppends(s.tasks[target].box, s.current, text);
      BoxKeeps(s, c, target, Mailbox.Put(s.tasks[target].box, s.current, text));
    }
    if s.tasks[s.current].box.count > 0 {
      Mailbox.TakeRemoves(s.tasks[s.current].box);
      BoxKeeps(s, c, s.current, Mailbox.Take(s.tasks[s.current].box));
    }
  }

  lemma RescheduleKeeps(s: Sched, c: Config, op: Op)
    requires Inv(s, c) && (op.Tick? || op.Sleep? || op.SleepAndReschedule?)
    ensures Inv(Step(s, c, op).0, c)
  {
    match op
    case Tick(esp) => ScheduleKeeps(s, c, esp);
    case Sleep(ms) => PassiveKeeps(s, PutToSleep(s, ms).0, c);
    case SleepAndReschedule(ms, esp) =>
      PassiveKeeps(s, PutToSleep(s, ms).0, c);
      ScheduleKeeps(PutToSleep(s, ms).0, c, esp);
  }

  lemma CreationKeeps(s: Sched, c: Config, op: Op)
    requires Inv(s, c) && (op.Create? || op.CreateUser?)
    ensures Inv(Step(s, c, op).0, c)
  {
    match op
    case Create(_) => CreateKeeps(s, c);
    case CreateUser(cb, cs, st, ss, _, _, _) => CreateUserKeeps(s, c, cb, cs, st, ss);
  }

  lemma CallKeeps(s: Sched, c: Config, op: Op)
    requires Inv(s, c) && (op.Send? || op.Receive?)
    ensures Inv(Step(s, c, op).0, c)
  {
    match op
    case Send(target, text) => IpcKeeps(s, c, target, text);
    case Receive(_, _, _) => IpcKeeps(s, c, -1, []);
  }

  /** Every kernel call and every tick keeps the ownership invariant. */
  lemma StepKeeps(s: Sched, c: Config, op: Op)
    requires Inv(s, c) && Enabled(s, op)
    ensures Inv(Step(s, c, op).0, c)
  {
    if op.Tick? || op.Sleep? || op.SleepAndReschedule? {
      RescheduleKeeps(s, c, op);
    } else if op.Exit? {
      TerminateKeeps(s, c, s.current);
    } else if op.ExitAndReschedule? {
      ExitKeeps(s, c, op.esp);
    } else if op.Create? || op.CreateUser? {
      CreationKeeps(s, c, op);
    } else if op.Kill? {
      KillKeeps(s, c, op.target);
    } else if op.SetPriority? {
      PassiveKeeps(s, Step(s, c, op).0, c);
    } else {
      CallKeeps(s, c, op);
    }
  }

  lemma BootInv(c: Config, ticks: u32)
    requires c.heapLo + HEADER <= c.heapHi
    ensures Inv(Boot(c, ticks), c)
  {
    var s := Boot(c, ticks);
    var idle := seq(MAX_TASKS, i => BlankTask(false));
    CountZero(idle);
    CountUpdate(idle, 0, BlankTask(true));
    assert s.tasks == idle[0 := BlankTask(true)];
    assert Live(s.blocks) == {};
    assert forall i, x :: 0 <= i < MAX_TASKS ==> !OwnsStack(s.tasks[i], x);
    assert forall i, k :: 0 <= i < MAX_TASKS ==> !OwnsSpace(s.tasks[i], k);
    assert forall k :: !InUse(s.used, k);
  }
}
