/**
  Tasks, sleeping, election, stacks and address spaces (kernel/sched.c with kernel/paging.c) as a
  state machine: every kernel call and every timer tick is one atomic step.
*/
module SchedModel {
  import opened Bytes
  import opened HeapModel
  import Mailbox

  const MAX_TASKS := 16
  const STACK_SIZE := 4096
  const MAX_SPACES := 6
  const FREQUENCY := 100      // pit_init(100)

  datatype Task = Task(active: bool, esp: u32, stackBase: nat, sleeping: bool, wakeTick: u32,
                       space: int, priority: int, box: Mailbox.Box)

  /** The kernel image seen by the page tables, the arena given to heap_init, and the address of task_exit. */
  datatype Config = Config(roStart: nat, roEnd: nat, heapLo: nat, heapHi: nat, exit: u32)

  datatype Sched = Sched(tasks: seq<Task>, current: nat, count: nat, ticks: u32,
                         blocks: seq<Block>, used: seq<bool>, tables: seq<seq<nat>>, halted: bool)

  // ----- page tables -----

  predicate Overlaps(page: nat, from: nat, to: nat) {
    from != to && page * 4096 + 4096 > from && page * 4096 < to
  }

  /** One entry of the identity map: present and writable, user-accessible inside the given windows. */
  function PageEntry(c: Config, page: nat, stackLo: nat, stackHi: nat, codeLo: nat, codeHi: nat): nat {
    page * 4096 +
    if (page * 4096 + 4096 > c.roStart && page * 4096 < c.roEnd)
       || Overlaps(page, stackLo, stackHi) || Overlaps(page, codeLo, codeHi) then 7 else 3
  }

  function PageTable(c: Config, stackLo: nat, stackHi: nat, codeLo: nat, codeHi: nat): (t: seq<nat>)
    ensures |t| == 1024
  {
    seq(1024, i requires 0 <= i < 1024 => PageEntry(c, i, stackLo, stackHi, codeLo, codeHi))
  }

  // ----- election -----

  predicate Ready(t: Task) {
    t.active && !t.sleeping
  }

  function Wake(t: Task, now: u32): Task {
    if t.active && t.sleeping && now >= t.wakeTick then t.(sleeping := false) else t
  }

  function WakeAll(tasks: seq<Task>, now: u32): (r: seq<Task>)
    ensures |r| == |tasks|
    ensures forall i :: 0 <= i < |tasks| ==> r[i] == Wake(tasks[i], now)
  {
    seq(|tasks|, i requires 0 <= i < |tasks| => Wake(tasks[i], now))
  }

  /** The i-th slot after `cur` in cyclic order. */
  function SlotAfter(cur: nat, i: nat): (c: nat)
    requires cur < MAX_TASKS && i <= MAX_TASKS
    ensures c == (cur + i) % MAX_TASKS
  {
    if cur + i < MAX_TASKS then cur + i else cur + i - MAX_TASKS
  }

  /** Winner among the `i` slots after `cur` in cyclic order: the first of highest priority, or -1. */
  function Scan(tasks: seq<Task>, cur: nat, i: nat): (r: int)
    requires |tasks| == MAX_TASKS && cur < MAX_TASKS && i <= MAX_TASKS
    ensures -1 <= r < MAX_TASKS
  {
    if i == 0 then -1
    else
      var best := Scan(tasks, cur, i - 1);
      var c := SlotAfter(cur, i);
      if Ready(tasks[c]) && tasks[c].priority > (if best < 0 then -1 else tasks[best].priority) then c else best
  }

  function FirstActive(tasks: seq<Task>, i: nat := 0): (r: int)
    requires i <= |tasks|
    ensures r == -1 || i <= r < |tasks|
    ensures r >= 0 ==> tasks[r].active && forall j :: i <= j < r ==> !tasks[j].active
    ensures r == -1 ==> forall j :: i <= j < |tasks| ==> !tasks[j].active
    decreases |tasks| - i
  {
    if i == |tasks| then -1 else if tasks[i].active then i else FirstActive(tasks, i + 1)
  }

  /** find_next_task on tasks already woken: highest priority round-robin, else any active task. */
  function Elect(tasks: seq<Task>, cur: nat): (r: int)
    requires |tasks| == MAX_TASKS && cur < MAX_TASKS
    ensures -1 <= r < MAX_TASKS
  {
    var e := Scan(tasks, cur, MAX_TASKS);
    if e >= 0 then e else FirstActive(tasks)
  }

  // ----- steps -----

  /** What a step makes observable. */
  datatype Event =
    | Suspended(pid: nat, esp: u32)
    | Resumed(pid: nat, esp: u32, space: int)
    | Created(pid: nat, esp: u32)
    | Ended(pid: nat)
    | Slept(pid: nat, wake: u32)
    | Accepted(pid: nat, message: Mailbox.Message)
    | Delivered(pid: nat, message: Mailbox.Message)

  datatype Op =
    | Tick(esp: u32)
    | Sleep(ms: u32)
    | SleepAndReschedule(ms: u32, esp: u32)
    | Exit
    | ExitAndReschedule(esp: u32)
    | Create(entry: u32)
    | CreateUser(codeBase: u32, codeSize: u32, stackTop: u32, stackSize: u32, entry: u32, ebx: u32, ecx: u32)
    | Kill(target: int)
    | SetPriority(target: int, level: int)
    | Send(target: int, text: seq<byte>)
    | Receive(out: u32, outLen: u32, outSender: u32)

  function Schedule(s: Sched, esp: u32): (Sched, seq<Event>)
    requires |s.tasks| == MAX_TASKS && s.current < MAX_TASKS
  {
    var now := Wrap(s.ticks + 1);
    var saved := s.tasks[s.current := s.tasks[s.current].(esp := esp)];
    var woken := WakeAll(saved, now);
    var next := Elect(woken, s.current);
    if next < 0 then (s.(ticks := now, tasks := woken, halted := true), [Suspended(s.current, esp)])
    else (s.(ticks := now, tasks := woken, current := next),
          [Suspended(s.current, esp), Resumed(next, woken[next].esp, woken[next].space)])
  }

  /** Deactivates a task and gives back its stack and its address space. */
  function Terminate(s: Sched, pid: nat): Sched
    requires pid < |s.tasks|
  {
    var t := s.tasks[pid];
    s.(tasks := s.tasks[pid := t.(active := false, sleeping := false, stackBase := 0, space := -1)],
       count := if s.count > 0 then s.count - 1 else 0,
       blocks := Free(s.blocks, t.stackBase),
       used := if 0 <= t.space < |s.used| then s.used[t.space := false] else s.used)
  }

  function FreeTask(tasks: seq<Task>, i: nat := 0): (r: nat)
    requires i <= |tasks|
    ensures i <= r <= |tasks|
    ensures r < |tasks| ==> !tasks[r].active
    ensures forall j :: i <= j < r ==> tasks[j].active
    decreases |tasks| - i
  {
    if i == |tasks| || !tasks[i].active then i else FreeTask(tasks, i + 1)
  }

  function FreeSpace(used: seq<bool>, i: nat := 0): (r: nat)
    requires i <= |used|
    ensures i <= r <= |used|
    ensures r < |used| ==> !used[r]
    ensures forall j :: i <= j < r ==> used[j]
    decreases |used| - i
  {
    if i == |used| || !used[i] then i else FreeSpace(used, i + 1)
  }

  /** A new task in slot `i` whose first context lies `frame` bytes below the top of its stack. */
  function Install(s: Sched, i: nat, base: nat, space: int, frame: nat): Sched
    requires i < |s.tasks|
  {
    var t := s.tasks[i];
    s.(tasks := s.tasks[i := Task(true, Wrap(base + STACK_SIZE - frame), base, false, 0, space, 0, Mailbox.Reset(t.box))],
       count := s.count + 1)
  }

  const KERNEL_FRAME := 48     // task_exit, EFLAGS, CS, entry and eight registers
  const USER_FRAME := 52       // SS, ESP, EFLAGS, CS, EIP and eight registers

  /** create_task and create_user_task_argv; -1 when a slot, a stack or an address space is missing. */
  function CreateTask(s: Sched): (Sched, int)
    requires |s.tasks| == MAX_TASKS
  {
    var i: int := FreeTask(s.tasks);
    var (blocks, stack) := Malloc(s.blocks, STACK_SIZE);
    if s.count >= MAX_TASKS || i == MAX_TASKS || stack.None? then (s, -1)
    else (Install(s.(blocks := blocks), i, stack.value, -1, KERNEL_FRAME), i)
  }

  function CreateUserTask(s: Sched, c: Config, codeBase: nat, codeSize: nat, stackTop: nat, stackSize: nat): (Sched, int)
    requires |s.tasks| == MAX_TASKS && |s.tables| == |s.used|
  {
    var i: int := FreeTask(s.tasks);
    var (blocks, stack) := Malloc(s.blocks, STACK_SIZE);
    if s.count >= MAX_TASKS || i == MAX_TASKS || stack.None? then (s, -1)
    else
      var k := FreeSpace(s.used);
      if k == |s.used| then (s.(blocks := Free(blocks, stack.value)), -1)
      else
        var lo := Wrap(stackTop - stackSize);
        var table := PageTable(c, lo, Wrap(lo + stackSize), codeBase, Wrap(codeBase + codeSize));
        (Install(s.(blocks := blocks, used := s.used[k := true], tables := s.tables[k := table]),
                 i, stack.value, k, USER_FRAME), i)
  }

  function TicksToWait(ms: u32, freq: u32): u32 {
    var t := Wrap(ms * freq) / 1000;
    if t == 0 then 1 else t
  }

  function PutToSleep(s: Sched, ms: u32): (Sched, u32)
    requires s.current < |s.tasks|
  {
    var wake := Wrap(s.ticks + TicksToWait(ms, FREQUENCY));
    (s.(tasks := s.tasks[s.current := s.tasks[s.current].(wakeTick := wake, sleeping := true)]), wake)
  }

  predicate ValidPid(s: Sched, pid: int) {
    0 <= pid < |s.tasks| && s.tasks[pid].active
  }

  predicate WellFormed(s: Sched) {
    && |s.tasks| == MAX_TASKS && s.current < MAX_TASKS && |s.used| == MAX_SPACES && |s.tables| == MAX_SPACES
    && forall i :: 0 <= i < MAX_TASKS ==> Mailbox.Valid(s.tasks[i].box)
  }

  function SendTo(s: Sched, target: int, text: seq<byte>): (Sched, seq<Event>)
    requires WellFormed(s)
  {
    if !ValidPid(s, target) || s.tasks[target].box.count >= Mailbox.SLOTS then (s, [])
    else
      var t := s.tasks[target];
      (s.(tasks := s.tasks[target := t.(box := Mailbox.Put(t.box, s.current, text))]),
       [Accepted(target, Mailbox.Message(s.current, Mailbox.Kept(text)))])
  }

  function ReceiveOne(s: Sched): (Sched, seq<Event>)
    requires WellFormed(s)
  {
    var t := s.tasks[s.current];
    if t.box.count == 0 then (s, [])
    else (s.(tasks := s.tasks[s.current := t.(box := Mailbox.Take(t.box))]),
          [Delivered(s.current, Mailbox.MessageAt(t.box, t.box.head))])
  }

  /** task_kill, which refuses the current task and empties the victim's mailbox. */
  function KillTask(s: Sched, pid: int): (Sched, seq<Event>) {
    if !ValidPid(s, pid) || pid == s.current then (s, [])
    else
      var d := Terminate(s, pid);
      (d.(tasks := d.tasks[pid := d.tasks[pid].(box := Mailbox.Reset(d.tasks[pid].box))]), [Ended(pid)])
  }

  /**
    The transition function. A kernel call is made by the current task, so a task that has exited
    makes none: it only waits for the tick that replaces it (see Enabled).
  */
  function Step(s: Sched, c: Config, op: Op): (Sched, seq<Event>)
    requires WellFormed(s)
  {
    match op
    case Tick(esp) => Schedule(s, esp)
    case Sleep(ms) =>
      var (s', wake) := PutToSleep(s, ms);
      (s', [Slept(s.current, wake)])
    case SleepAndReschedule(ms, esp) =>
      var (s1, wake) := PutToSleep(s, ms);
      var (s', events) := Schedule(s1, esp);
      (s', [Slept(s.current, wake)] + events)
    case Exit => (Terminate(s, s.current), [Ended(s.current)])
    case ExitAndReschedule(esp) =>
      var d := Terminate(s, s.current);
      if d.count == 0 then (d.(halted := true), [Ended(s.current)])
      else
        var (s', events) := Schedule(d, esp);
        (s', [Ended(s.current)] + events)
    case Create(_) =>
      var (s', pid) := CreateTask(s);
      (s', if pid < 0 then [] else [Created(pid, s'.tasks[pid].esp)])
    case CreateUser(codeBase, codeSize, stackTop, stackSize, _, _, _) =>
      var (s', pid) := CreateUserTask(s, c, codeBase, codeSize, stackTop, stackSize);
      (s', if pid < 0 then [] else [Created(pid, s'.tasks[pid].esp)])
    case Kill(pid) => KillTask(s, pid)
    case SetPriority(pid, level) =>
      (if ValidPid(s, pid) then s.(tasks := s.tasks[pid := s.tasks[pid].(priority := level)]) else s, [])
    case Send(target, text) => SendTo(s, target, text)
    case Receive(_, _, _) => ReceiveOne(s)
  }

  predicate Enabled(s: Sched, op: Op)
    requires WellFormed(s)
  {
    !s.halted && (op.Tick? || s.tasks[s.current].active)
  }

  /** init_multitasking on a zeroed task table and a fresh heap. */
  function BlankTask(active: bool): Task {
    Task(active, 0, 0, false, 0, -1, 0, Mailbox.Reset(Mailbox.Zero()))
  }

  function Boot(c: Config, ticks: u32): Sched
    requires c.heapLo + HEADER <= c.heapHi
  {
    Sched(seq(MAX_TASKS, i => BlankTask(i == 0)), 0, 1, ticks,
          [Block(c.heapLo, c.heapHi - c.heapLo - HEADER, true)],
          seq(MAX_SPACES, i => false), seq(MAX_SPACES, i => []), false)
  }
}
