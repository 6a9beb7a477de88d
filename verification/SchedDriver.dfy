/**
  The scheduler as written: task slots, flags, counters and page tables updated in place, kernel stacks
  taken from the heap of kernel/mem.c and start frames pushed on them in the same memory.
*/
module SchedDriver {
  import opened Bytes
  import opened HeapModel
  import opened SchedModel
  import opened SchedElection
  import opened SchedOwnership
  import opened SchedMemory
  import SchedStacks
  import HeapMemory
  import HeapDriver
  import TaskFrame
  import Mailbox

  class Scheduler {
    const config: Config
    const heap: HeapDriver.KernelHeap
    var tasks: seq<Task>
    var current: nat
    var count: nat
    var ticks: u32
    var used: seq<bool>
    var tables: seq<seq<nat>>
    var halted: bool

    ghost function State(): Sched
      reads this, heap
    {
      Sched(tasks, current, count, ticks, heap.blocks, used, tables, halted)
    }

    /** The heap is initialised, and its headers in memory are those of the stacks the tasks own. */
    ghost predicate Valid()
      reads this, heap, heap.mem
    {
      && heap.heapStart == config.heapLo && heap.limit == config.heapHi
      && Backed(State(), config, heap.mem[..])
    }

    /** heap_init, then init_multitasking over the zeroed task table, with the timer at `now`. */
    constructor (c: Config, now: u32, memory: array<byte>)
      requires HeapMemory.Arena(c.heapLo, c.heapHi) && c.heapHi <= memory.Length
      modifies memory
      ensures State() == Boot(c, now) && Valid() && config == c && heap.mem == memory && fresh(heap)
      ensures memory[..] == HeapMemory.Fresh(old(memory[..]), c.heapLo, c.heapHi).mem
    {
      hide HeapMemory.Represented, HeapMemory.Fresh;
      BootBacked(c, now, memory[..]);
      var h := new HeapDriver.KernelHeap(memory);
      h.Init(c.heapLo, c.heapHi - c.heapLo);
      config, heap, ticks, halted := c, h, now, false;
      tasks := seq(MAX_TASKS, i => ZeroTask());
      used, tables := seq(MAX_SPACES, i => false), seq(MAX_SPACES, i => []);
      new;
      ghost var m := memory[..];
      for i := 0 to MAX_TASKS
        invariant memory[..] == m && heap.blocks == HeapMemory.InitialBlocks(c.heapLo, c.heapHi)
        invariant heap.heapStart == c.heapLo && heap.limit == c.heapHi
        invariant used == seq(MAX_SPACES, i => false) && tables == seq(MAX_SPACES, i => []) && ticks == now && !halted
        invariant |tasks| == MAX_TASKS
        invariant forall j :: 0 <= j < i ==> tasks[j] == BlankTask(false)
        invariant forall j :: i <= j < MAX_TASKS ==> tasks[j] == ZeroTask()
      {
        tasks := tasks[i := tasks[i].(active := false, sleeping := false, wakeTick := 0, space := -1, priority := 0)];
        ClearMailbox(i);
      }
      tasks := tasks[0 := tasks[0].(active := true, priority := 0)];
      count, current := 1, 0;
      BootTasks(c, now, tasks);
    }

    method WakeIfDue(i: nat)
      requires i < |tasks|
      modifies this`tasks
      ensures tasks == old(tasks)[i := Wake(old(tasks)[i], ticks)]
    {
      var t := tasks[i];
      if t.active && t.sleeping && ticks >= t.wakeTick {
        tasks := tasks[i := t.(sleeping := false)];
      }
    }

    /** Pass 1: one cyclic scan wakes every due sleeper and keeps the first ready task of highest priority. */
    method ScanTasks() returns (next: int)
      requires |tasks| == MAX_TASKS && current < MAX_TASKS
      modifies this`tasks
      ensures tasks == WakeAll(old(tasks), ticks)
      ensures next == Scan(tasks, current, MAX_TASKS)
    {
      next := -1;
      ghost var before, woken := tasks, WakeAll(tasks, ticks);
      var i := 1;
      while i <= MAX_TASKS
        invariant 1 <= i <= MAX_TASKS + 1
        invariant Partial(tasks, before, woken, current, i)
        invariant next == Scan(woken, current, i - 1)
        decreases MAX_TASKS + 1 - i
      {
        next := Consider(i, next, before, woken);
        i := i + 1;
      }
      AllVisited(current);
      assert tasks == woken;
    }

    /** One turn of the scan. */
    method Consider(i: nat, best: int, ghost before: seq<Task>, ghost woken: seq<Task>) returns (next: int)
      requires current < MAX_TASKS && 1 <= i <= MAX_TASKS && |before| == MAX_TASKS
      requires woken == WakeAll(before, ticks) && Partial(tasks, before, woken, current, i)
      requires best == Scan(woken, current, i - 1)
      modifies this`tasks
      ensures Partial(tasks, before, woken, current, i + 1)
      ensures next == Scan(woken, current, i)
    {
      var candidate := (current + i) % MAX_TASKS;
      assert candidate == SlotAfter(current, i);
      Visit(current, i);
      WakeIfDue(candidate);
      ScanStep(woken, current, i);
      if best >= 0 {
        ScanSpec(woken, current, i - 1);
      }
      next := best;
      var level := if best < 0 then -1 else tasks[best].priority;
      if tasks[candidate].active && !tasks[candidate].sleeping && tasks[candidate].priority > level {
        next := candidate;
      }
    }

    /** Pass 2 is tried only when pass 1 finds nobody: the first active task, asleep or not. */
    method FindNextTask() returns (next: int)
      requires |tasks| == MAX_TASKS && current < MAX_TASKS
      modifies this`tasks
      ensures tasks == WakeAll(old(tasks), ticks)
      ensures next == Elect(tasks, current)
    {
      next := ScanTasks();
      if next < 0 {
        for j := 0 to MAX_TASKS
          invariant next == -1 && tasks == WakeAll(old(tasks), ticks)
          invariant FirstActive(tasks) == FirstActive(tasks, j)
        {
          if tasks[j].active {
            next := j;
            return;
          }
        }
      }
    }

    method Reschedule(esp: u32) returns (events: seq<Event>)
      requires |tasks| == MAX_TASKS && current < MAX_TASKS
      modifies this
      ensures (State(), events) == Schedule(old(State()), esp)
    {
      ticks := Wrap(ticks + 1);
      tasks := tasks[current := tasks[current].(esp := esp)];
      var last := current;
      var next := FindNextTask();
      if next < 0 {
        halted := true;
        return [Suspended(last, esp)];
      }
      current := next;
      return [Suspended(last, esp), Resumed(next, tasks[next].esp, tasks[next].space)];
    }

    /** The clean-up shared by task_exit_current, task_exit_and_reschedule and task_kill. */
    method EndTask(pid: nat)
      requires Valid() && pid < |tasks| && tasks[pid].active
      modifies this, heap`blocks, heap.mem
      ensures Valid() && State() == Terminate(old(State()), pid)
      ensures heap.mem[..] == EndMem(old(State()), config, old(heap.mem[..]), pid)
    {
      hide Backed, HeapMemory.Represented, HeapMemory.FreeMem, Free;
      ghost var before, memory := State(), heap.mem[..];
      EndBacked(before, config, memory, pid);
      BackedFacts(before, config, memory);
      var t := tasks[pid];
      tasks := tasks[pid := t.(active := false, sleeping := false)];
      if count > 0 {
        count := count - 1;
      }
      if t.stackBase != 0 {
        heap.Kfree(t.stackBase);
        tasks := tasks[pid := tasks[pid].(stackBase := 0)];
      }
      if t.space >= 0 && t.space < |used| {
        used := used[t.space := false];
      }
      tasks := tasks[pid := tasks[pid].(stackBase := 0, space := -1)];
      assert State() == Terminate(before, pid) && heap.mem[..] == EndMem(before, config, memory, pid);
    }

    /** The caller's clean-up, unless it is already inactive; then halt when no task is left, else reschedule. */
    method ExitAndReschedule(esp: u32) returns (events: seq<Event>)
      requires Valid()
      modifies this, heap`blocks, heap.mem
      ensures old(tasks[current].active) ==>
                && (State(), events) == Step(old(State()), config, Op.ExitAndReschedule(esp))
                && heap.mem[..] == EndMem(old(State()), config, old(heap.mem[..]), old(current))
      ensures !old(tasks[current].active) ==>
                && heap.mem[..] == old(heap.mem[..])
                && (State(), events) == if old(count) == 0 then (old(State()).(halted := true), []) else Schedule(old(State()), esp)
    {
      hide Inv, HeapMemory.Represented, Terminate, EndMem, Elect;
      InvFacts(State(), config);
      var pid := current;
      events := [];
      if tasks[pid].active {
        EndTask(pid);
        events := [Ended(pid)];
        InvFacts(State(), config);
      }
      if count == 0 {
        halted := true;
        return;
      }
      var more := Reschedule(esp);
      assert [] + more == more;
      events := events + more;
    }

    method SleepAndReschedule(ms: u32, esp: u32) returns (events: seq<Event>)
      requires WellFormed(State())
      modifies this
      ensures (State(), events) == Step(old(State()), config, Op.SleepAndReschedule(ms, esp))
    {
      var wait := TicksToWait(ms, FREQUENCY);
      var wake := Wrap(ticks + wait);
      tasks := tasks[current := tasks[current].(wakeTick := wake, sleeping := true)];
      events := [Slept(current, wake)];
      var more := Reschedule(esp);
      events := events + more;
    }

    method ClearMailbox(i: nat)
      requires i < |tasks| && Mailbox.Valid(tasks[i].box)
      modifies this`tasks
      ensures tasks == old(tasks)[i := old(tasks)[i].(box := Mailbox.Reset(old(tasks)[i].box))]
    {
      var b := tasks[i].box.(head := 0, count := 0);
      for k := 0 to Mailbox.SLOTS
        invariant b == tasks[i].box.(head := 0, count := 0, len := b.len, sender := b.sender)
        invariant |b.len| == Mailbox.SLOTS && |b.sender| == Mailbox.SLOTS
        invariant forall j :: 0 <= j < k ==> b.len[j] == 0 && b.sender[j] == -1
      {
        b := b.(len := b.len[k := 0], sender := b.sender[k := -1]);
      }
      assert b.len == seq(Mailbox.SLOTS, j => 0) && b.sender == seq(Mailbox.SLOTS, j => -1);
      tasks := tasks[i := tasks[i].(box := b)];
    }

    /** fill_identity_table for one task: a loop over the 1024 entries. */
    method FillTable(stackLo: nat, stackHi: nat, codeLo: nat, codeHi: nat) returns (table: seq<nat>)
      ensures table == PageTable(config, stackLo, stackHi, codeLo, codeHi)
    {
      table := [];
      for i := 0 to 1024
        invariant |table| == i
        invariant forall j :: 0 <= j < i ==> table[j] == PageEntry(config, j, stackLo, stackHi, codeLo, codeHi)
      {
        var phys, flags := i * 4096, 3;
        if phys + 4096 > config.roStart && phys < config.roEnd {
          flags := 7;
        }
        if stackLo != stackHi && phys + 4096 > stackLo && phys < stackHi {
          flags := 7;
        }
        if codeLo != codeHi && phys + 4096 > codeLo && phys < codeHi {
          flags := 7;
        }
        table := table + [phys + flags];
      }
    }

    method CreateDirectory(codeBase: nat, codeSize: nat, stackBase: nat, stackSize: nat) returns (k: int)
      requires |tables| == |used|
      modifies this`used, this`tables
      ensures var i := FreeSpace(old(used));
        if i == |old(used)| then k == -1 && used == old(used) && tables == old(tables)
        else k == i && used == old(used)[i := true]
             && tables == old(tables)[i := PageTable(config, stackBase, Wrap(stackBase + stackSize), codeBase, Wrap(codeBase + codeSize))]
    {
      for i := 0 to |used|
        invariant used == old(used) && tables == old(tables) && FreeSpace(used) == FreeSpace(used, i)
      {
        if !used[i] {
          used := used[i := true];
          var table := FillTable(stackBase, Wrap(stackBase + stackSize), codeBase, Wrap(codeBase + codeSize));
          tables := tables[i := table];
          return i;
        }
      }
      return -1;
    }

    method FindFreeTask() returns (i: nat)
      ensures i == FreeTask(tasks)
    {
      i := 0;
      while i < |tasks|
        invariant i <= |tasks| && FreeTask(tasks) == FreeTask(tasks, i)
      {
        if !tasks[i].active {
          return;
        }
        i := i + 1;
      }
    }

    /** create_user_task_argv: stack, directory and start frame, in the source's order. */
    method NewUserTask(codeBase: u32, codeSize: u32, stackTop: u32, stackSize: u32, entry: u32, ebx: u32, ecx: u32) returns (pid: int)
      requires Valid()
      modifies this, heap`blocks, heap.mem
      ensures Valid() && (State(), pid) == CreateUserTask(old(State()), config, codeBase, codeSize, stackTop, stackSize)
      ensures heap.mem[..] == CreateUserMem(old(State()), config, old(heap.mem[..]), stackTop, entry, ebx, ecx)
    {
      hide Inv, HeapMemory.Represented, HeapMemory.AllocMem, HeapMemory.FreeMem, Malloc, Free, PageTable, TaskFrame.Pushed, TaskFrame.UserWords;
      ghost var before, memory := State(), heap.mem[..];
      BackedFacts(before, config, memory);
      UserBacked(before, config, memory, codeBase, codeSize, stackTop, stackSize, entry, ebx, ecx);
      if count >= MAX_TASKS {
        return -1;
      }
      var i := FindFreeTask();
      if i == MAX_TASKS {
        return -1;
      }
      StackOffer(before, config, memory);
      var stack := heap.Kmalloc(STACK_SIZE);
      if stack == 0 {
        return -1;
      }
      var space := CreateDirectory(codeBase, codeSize, Wrap(stackTop - stackSize), stackSize);
      if space < 0 {
        heap.Kfree(stack);
        return -1;
      }
      var esp := TaskFrame.BuildUserFrame(heap.mem, stack, entry, stackTop, ebx, ecx);
      FinishTask(i, stack, space, esp);
      return i;
    }

    /** create_task. */
    method NewKernelTask(entry: u32) returns (pid: int)
      requires Valid()
      modifies this, heap`blocks, heap.mem
      ensures Valid() && (State(), pid) == CreateTask(old(State()))
      ensures heap.mem[..] == CreateMem(old(State()), config, old(heap.mem[..]), entry)
    {
      hide Inv, HeapMemory.Represented, HeapMemory.AllocMem, Malloc, TaskFrame.Pushed, TaskFrame.KernelWords;
      ghost var before, memory := State(), heap.mem[..];
      BackedFacts(before, config, memory);
      KernelBacked(before, config, memory, entry);
      if count >= MAX_TASKS {
        return -1;
      }
      var i := FindFreeTask();
      if i == MAX_TASKS {
        return -1;
      }
      StackOffer(before, config, memory);
      var stack := heap.Kmalloc(STACK_SIZE);
      if stack == 0 {
        return -1;
      }
      var esp := TaskFrame.BuildKernelFrame(heap.mem, stack, entry, config.exit);
      FinishTask(i, stack, -1, esp);
      return i;
    }

    method FinishTask(i: nat, base: nat, space: int, esp: u32)
      requires i < |tasks| && Mailbox.Valid(tasks[i].box) && esp <= base + STACK_SIZE < 0x1_0000_0000
      modifies this`tasks, this`count
      ensures State() == Install(old(State()), i, base, space, base + STACK_SIZE - esp)
    {
      tasks := tasks[i := tasks[i].(stackBase := base, sleeping := false, wakeTick := 0)];
      tasks := tasks[i := tasks[i].(esp := esp, active := true, space := space)];
      ClearMailbox(i);
      tasks := tasks[i := tasks[i].(priority := 0)];
      count := count + 1;
    }

    method Kill(pid: int) returns (ok: bool)
      requires Valid() && !halted && tasks[current].active
      modifies this, heap`blocks, heap.mem
      ensures Valid() && State() == KillTask(old(State()), pid).0
      ensures ok <==> KillTask(old(State()), pid).1 != []
      ensures heap.mem[..] == CallMem(old(State()), config, old(heap.mem[..]), Op.Kill(pid))
    {
      hide Inv, HeapMemory.Represented, Terminate, EndMem;
      InvFacts(State(), config);
      CallBacked(State(), config, heap.mem[..], Op.Kill(pid));
      if pid < 0 || pid >= MAX_TASKS || !tasks[pid].active || pid == current {
        return false;
      }
      EndTask(pid);
      InvFacts(State(), config);
      ClearMailbox(pid);
      return true;
    }

    /** -1 for a bad target, 0 for a full mailbox, 1 when the first 128 bytes were queued. */
    method IpcSend(target: int, text: seq<byte>) returns (r: int)
      requires WellFormed(State())
      modifies this`tasks
      ensures State() == SendTo(old(State()), target, text).0
      ensures r == if !ValidPid(old(State()), target) then -1 else if old(tasks)[target].box.count >= Mailbox.SLOTS then 0 else 1
    {
      if target < 0 || target >= MAX_TASKS || !tasks[target].active {
        return -1;
      }
      var b := tasks[target].box;
      if b.count >= Mailbox.SLOTS {
        return 0;
      }
      var len := Min(|text|, Mailbox.SLOT_BYTES);
      var slot := (b.head + b.count) % Mailbox.SLOTS;
      var cell := b.data[slot];
      for k := 0 to len
        invariant cell == text[..k] + b.data[slot][k..]
      {
        cell := cell[k := text[k]];
      }
      tasks := tasks[target := tasks[target].(box :=
        Mailbox.Box(b.data[slot := cell], b.len[slot := len], b.sender[slot := current], b.head, b.count + 1))];
      return 1;
    }

    /** The oldest message goes out through the caller's pointers: its bytes, its length, its sender. */
    method IpcReceive(out: u32, outLen: u32, outSender: u32) returns (got: bool)
      requires WellFormed(State())
      requires var m := Pending(State());
        m.Some? ==>
          && out + |m.value.text| <= heap.mem.Length
          && (outLen != 0 ==> outLen + 4 <= heap.mem.Length) && (outSender != 0 ==> outSender + 4 <= heap.mem.Length)
      modifies this`tasks, heap.mem
      ensures State() == ReceiveOne(old(State())).0 && got == Pending(old(State())).Some?
      ensures heap.mem[..] == ReceiveMem(old(State()), old(heap.mem[..]), 0, Op.Receive(out, outLen, outSender))
    {
      hide Le32, Put32, Get32;
      var b := tasks[current].box;
      if b.count == 0 {
        return false;
      }
      ghost var memory, text := heap.mem[..], Pending(State()).value.text;
      var slot, mem := b.head, heap.mem;
      var len := b.len[slot];
      for k := 0 to len
        invariant tasks == old(tasks)
        invariant forall x :: 0 <= x < mem.Length ==> mem[x] == if out <= x < out + k then text[x - out] else memory[x]
      {
        mem[out + k] := b.data[slot][k];
      }
      assert mem[..] == StoreBytes(memory, out, text);
      if outLen != 0 {
        Put32Bytes(mem[..], outLen, len);
        StoreWord(mem, outLen, len);
      }
      if outSender != 0 {
        Put32Bytes(mem[..], outSender, Wrap(b.sender[slot]));
        StoreWord(mem, outSender, Wrap(b.sender[slot]));
      }
      tasks := tasks[current := tasks[current].(box := b.(head := (b.head + 1) % Mailbox.SLOTS, count := b.count - 1))];
      return true;
    }
  }

  /** A slot of the task table before initialisation. */
  function ZeroTask(): Task {
    Task(false, 0, 0, false, 0, 0, 0, Mailbox.Zero())
  }

  lemma BootTasks(c: Config, now: u32, tasks: seq<Task>)
    requires c.heapLo + HEADER <= c.heapHi && |tasks| == MAX_TASKS && tasks[0] == BlankTask(false).(active := true, priority := 0)
    requires forall j :: 1 <= j < MAX_TASKS ==> tasks[j] == BlankTask(false)
    ensures tasks == Boot(c, now).tasks
  {
    var boot := Boot(c, now).tasks;
    assert forall j :: 0 <= j < MAX_TASKS ==> tasks[j] == BlankTask(j == 0) == boot[j];
  }

  lemma BackedFacts(s: Sched, c: Config, mem: seq<byte>)
    requires Backed(s, c, mem)
    ensures WellFormed(s) && Tiles(s.blocks, c.heapLo, c.heapHi) && HeapMemory.Arena(c.heapLo, c.heapHi) && c.heapHi <= |mem|
    ensures HeapMemory.Represented(mem, s.blocks, c.heapLo, c.heapHi)
  {
  }

  /** What kmalloc can answer: a stack inside the arena, or nothing and no change. */
  lemma StackOffer(s: Sched, c: Config, mem: seq<byte>)
    requires Backed(s, c, mem)
    ensures var (t, r) := Malloc(s.blocks, STACK_SIZE);
      && (r.None? ==> t == s.blocks && HeapMemory.AllocMem(mem, s.blocks, STACK_SIZE, c.heapLo, c.heapHi) == mem)
      && (r.Some? ==> 0 < r.value && r.value in Live(t) && r.value + STACK_SIZE <= c.heapHi)
  {
    hide HeapMemory.Represented, HeapMemory.TakeMem, Inv;
    BackedFacts(s, c, mem);
    MallocLive(s.blocks, c.heapLo, c.heapHi, STACK_SIZE);
    if Malloc(s.blocks, STACK_SIZE).1.Some? {
      StackInside(s.blocks, c.heapLo, c.heapHi);
    }
  }

  lemma BootBacked(c: Config, now: u32, memory: seq<byte>)
    requires HeapMemory.Arena(c.heapLo, c.heapHi) && c.heapHi <= |memory|
    ensures Backed(Boot(c, now), c, HeapMemory.Fresh(memory, c.heapLo, c.heapHi).mem)
    ensures HeapMemory.InitialBlocks(c.heapLo, c.heapHi) == Boot(c, now).blocks
  {
    hide HeapMemory.Represented, Inv, HeapMemory.PutHeader;
    BootInv(c, now);
    HeapMemory.FreshSound(memory, c.heapLo, c.heapHi);
  }

  lemma EndBacked(s: Sched, c: Config, mem: seq<byte>, pid: nat)
    requires Backed(s, c, mem) && pid < |s.tasks| && s.tasks[pid].active
    ensures |s.tasks| == MAX_TASKS && Backed(Terminate(s, pid), c, EndMem(s, c, mem, pid))
    ensures s.tasks[pid].stackBase != 0 ==> s.tasks[pid].stackBase in Live(s.blocks)
    ensures s.tasks[pid].stackBase < 0x1_0000_0000
    ensures s.tasks[pid].stackBase == 0 ==> Terminate(s, pid).blocks == s.blocks && EndMem(s, c, mem, pid) == mem
  {
    hide HeapMemory.Represented;
    TerminateKeeps(s, c, pid);
    EndMemBacked(s, c, mem, pid);
    SchedStacks.FreeRoomy(s.blocks, s.tasks[pid].stackBase);
    var p := s.tasks[pid].stackBase;
    if p != 0 {
      assert OwnsStack(s.tasks[pid], p);
      var i := LiveBlock(s.blocks, p);
      HeapMemory.TilesOf(mem, s.blocks, c.heapLo, c.heapHi);
      InBounds(s.blocks, c.heapLo, c.heapHi, i);
    }
  }

  lemma UserBacked(s: Sched, c: Config, mem: seq<byte>, codeBase: u32, codeSize: u32, stackTop: u32, stackSize: u32,
                   entry: u32, ebx: u32, ecx: u32)
    requires Backed(s, c, mem)
    ensures Backed(CreateUserTask(s, c, codeBase, codeSize, stackTop, stackSize).0, c, CreateUserMem(s, c, mem, stackTop, entry, ebx, ecx))
  {
    hide Inv, HeapMemory.Represented, CreateUserMem, PageTable, Malloc, Free;
    CreateUserMemBacked(s, c, mem, codeBase, codeSize, stackTop, stackSize, entry, ebx, ecx);
    CreateUserKeeps(s, c, codeBase, codeSize, stackTop, stackSize);
    InvFacts(s, c);
    SchedStacks.StepRoomy(s, c, Op.CreateUser(codeBase, codeSize, stackTop, stackSize, entry, ebx, ecx));
  }

  lemma KernelBacked(s: Sched, c: Config, mem: seq<byte>, entry: u32)
    requires Backed(s, c, mem)
    ensures Backed(CreateTask(s).0, c, CreateMem(s, c, mem, entry))
  {
    hide Inv, HeapMemory.Represented, StackMem, Malloc;
    CreateKeeps(s, c);
    InvFacts(s, c);
    SchedStacks.StepRoomy(s, c, Op.Create(entry));
    if HasSlot(s) {
      StackMemBacked(s, c, mem, TaskFrame.KernelWords(entry, c.exit));
    }
  }

  /** Slots met in the first i - 1 turns are woken, the others untouched. */
  ghost predicate Partial(tasks: seq<Task>, before: seq<Task>, woken: seq<Task>, cur: nat, i: nat) {
    && |tasks| == |before| == |woken| == MAX_TASKS
    && forall c :: 0 <= c < MAX_TASKS ==> tasks[c] == if Distance(cur, c) < i then woken[c] else before[c]
  }

  lemma ScanStep(tasks: seq<Task>, cur: nat, i: nat)
    requires |tasks| == MAX_TASKS && cur < MAX_TASKS && 1 <= i <= MAX_TASKS
    ensures var c, best := SlotAfter(cur, i), Scan(tasks, cur, i - 1);
      Scan(tasks, cur, i) ==
      if tasks[c].active && !tasks[c].sleeping && tasks[c].priority > (if best < 0 then -1 else tasks[best].priority) then c else best
  {
  }

  /** The i-th candidate is the only slot at distance i. */
  lemma Visit(cur: nat, i: nat)
    requires cur < MAX_TASKS && 1 <= i <= MAX_TASKS
    ensures forall c :: 0 <= c < MAX_TASKS ==> (Distance(cur, c) == i <==> c == SlotAfter(cur, i))
  {
    DistanceAt(cur, i);
    forall c | 0 <= c < MAX_TASKS && Distance(cur, c) == i
      ensures c == SlotAfter(cur, i)
    {
      AtDistance(cur, c);
    }
  }

  lemma AllVisited(cur: nat)
    requires cur < MAX_TASKS
    ensures forall c :: 0 <= c < MAX_TASKS ==> Distance(cur, c) < MAX_TASKS + 1
  {
    forall c | 0 <= c < MAX_TASKS
      ensures Distance(cur, c) < MAX_TASKS + 1
    {
      AtDistance(cur, c);
    }
  }
}
