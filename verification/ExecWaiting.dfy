/**
  While a task waits its turn: over any stretch of a run in which it is not elected, its saved stack pointer,
  every byte of its kernel stack and, for an exec'd program, of its own stack with the arguments stay as they
  were. So what it is resumed with is what it was suspended with, or started with.
*/
module ExecWaiting {
  import opened Bytes
  import opened HeapModel
  import opened SchedModel
  import opened SchedOwnership
  import opened SchedMemory
  import opened ExecModel
  import opened ExecSafety
  import HeapMemory
  import SchedStacks
  import SchedRuns
  import TaskFrame
  import ArgvModel
  import ElfModel
  import ElfTheorem
  import ElfRelocation
  import ExecLaunch

  /** Byte `a` lies in the kernel stack of task `p`. */
  predicate OnKernelStack(s: Sched, p: int, a: nat)
    requires ValidPid(s, p)
  {
    s.tasks[p].stackBase != 0 && s.tasks[p].stackBase <= a < s.tasks[p].stackBase + STACK_SIZE
  }

  // ----- the kernel's own writes -----

  /** The heap block that holds the stack of task `p`. */
  lemma StackBlock(s: Sched, c: Config, mem: seq<byte>, p: int, a: nat) returns (i: nat)
    requires Backed(s, c, mem) && ValidPid(s, p) && OnKernelStack(s, p, a)
    ensures i < |s.blocks| && !s.blocks[i].free && Payload(s.blocks[i]) == s.tasks[p].stackBase
    ensures Payload(s.blocks[i]) <= a < End(s.blocks[i]) && HeapMemory.Owned(s.blocks, a) && c.heapLo <= a < c.heapHi <= |mem|
  {
    hide HeapMemory.Represented;
    HeapMemory.TilesOf(mem, s.blocks, c.heapLo, c.heapHi);
    assert OwnsStack(s.tasks[p], s.tasks[p].stackBase);
    i := LiveBlock(s.blocks, s.tasks[p].stackBase);
    InBounds(s.blocks, c.heapLo, c.heapHi, i);
  }

  lemma FreeSpares(mem: seq<byte>, bs: seq<Block>, q: nat, lo: nat, hi: nat, a: nat)
    requires HeapMemory.Represented(mem, bs, lo, hi) && (q == 0 || q in Live(bs)) && HeapMemory.Owned(bs, a) && a < |mem|
    ensures HeapMemory.FreeMem(mem, bs, q, lo, hi)[a] == mem[a]
  {
    hide HeapMemory.Represented, HeapMemory.ReleaseMem, HeapMemory.Owned;
    if q != 0 {
      HeapMemory.TilesOf(mem, bs, lo, hi);
      FreeLive(bs, lo, hi, q);
      var j := IndexOf(bs, q);
      HeapMemory.ReleaseRepresented(mem, bs, lo, hi, j);
      HeapMemory.HeaderNotOwned(bs, lo, hi, j, a);
    }
  }

  /** Everything kmalloc and a start frame write lies in the free block they take. */
  lemma AllocSpares(s: Sched, c: Config, mem: seq<byte>, a: nat)
    requires Backed(s, c, mem) && HasSlot(s) && HeapMemory.Owned(s.blocks, a) && a < |mem|
    ensures HeapMemory.AllocMem(mem, s.blocks, STACK_SIZE, c.heapLo, c.heapHi)[a] == mem[a]
    ensures var r := Malloc(s.blocks, STACK_SIZE).1.value;
      !(r - HEADER <= a < r + STACK_SIZE) && HeapMemory.Owned(Malloc(s.blocks, STACK_SIZE).0, a)
  {
    hide HeapMemory.Represented, HeapMemory.TakeMem, HeapMemory.Owned, Take, Inv;
    assert Round4(STACK_SIZE) == STACK_SIZE;
    var i := FirstFit(s.blocks, STACK_SIZE);
    HeapMemory.TilesOf(mem, s.blocks, c.heapLo, c.heapHi);
    HeapMemory.TakeRepresented(mem, s.blocks, c.heapLo, c.heapHi, i, STACK_SIZE);
    HeapMemory.TakeOwned(s.blocks, c.heapLo, c.heapHi, i, STACK_SIZE, a);
  }

  lemma StackMemSpares(s: Sched, c: Config, mem: seq<byte>, ws: seq<u32>, a: nat)
    requires Backed(s, c, mem) && HasSlot(s) && 4 * |ws| <= STACK_SIZE && HeapMemory.Owned(s.blocks, a) && a < |mem|
    ensures StackMem(s, c, mem, ws)[a] == mem[a]
  {
    hide HeapMemory.Represented, HeapMemory.AllocMem, HeapMemory.Owned, Malloc, Inv, TaskFrame.Pushed;
    AllocSpares(s, c, mem, a);
    InvFacts(s, c);
    HeapMemory.TilesOf(mem, s.blocks, c.heapLo, c.heapHi);
    StackInside(s.blocks, c.heapLo, c.heapHi);
    var m1 := HeapMemory.AllocMem(mem, s.blocks, STACK_SIZE, c.heapLo, c.heapHi);
    TaskFrame.PushedFrame(m1, Malloc(s.blocks, STACK_SIZE).1.value + STACK_SIZE, ws);
  }

  lemma CreateUserMemSpares(s: Sched, c: Config, mem: seq<byte>, stackTop: u32, entry: u32, ebx: u32, ecx: u32, a: nat)
    requires Backed(s, c, mem) && HeapMemory.Owned(s.blocks, a) && a < |mem|
    ensures CreateUserMem(s, c, mem, stackTop, entry, ebx, ecx)[a] == mem[a]
  {
    hide HeapMemory.Represented, HeapMemory.AllocMem, HeapMemory.FreeMem, HeapMemory.Owned, Malloc, Inv, StackMem;
    InvFacts(s, c);
    if HasSlot(s) {
      if FreeSpace(s.used) < |s.used| {
        StackMemSpares(s, c, mem, TaskFrame.UserWords(entry, stackTop, ebx, ecx), a);
      } else {
        AllocSpares(s, c, mem, a);
        HeapMemory.AllocRepresented(mem, s.blocks, STACK_SIZE, c.heapLo, c.heapHi);
        MallocLive(s.blocks, c.heapLo, c.heapHi, STACK_SIZE);
        FreeSpares(HeapMemory.AllocMem(mem, s.blocks, STACK_SIZE, c.heapLo, c.heapHi), Malloc(s.blocks, STACK_SIZE).0,
                   Malloc(s.blocks, STACK_SIZE).1.value, c.heapLo, c.heapHi, a);
      }
    }
  }

  /** A kernel call that neither ends a task nor delivers a message leaves its kernel stack alone. */
  lemma CallSpares(s: Sched, c: Config, mem: seq<byte>, op: SchedModel.Op, p: int, a: nat)
    requires Backed(s, c, mem) && SchedModel.Enabled(s, op) && !op.Receive?
    requires ValidPid(s, p) && p != s.current && ValidPid(SchedModel.Step(s, c, op).0, p) && OnKernelStack(s, p, a)
    ensures a < |mem| && CallMem(s, c, mem, op)[a] == mem[a]
  {
    hide HeapMemory.Represented, HeapMemory.FreeMem, HeapMemory.Owned, StackMem, CreateUserMem, Malloc, Free, Elect, PageTable, WakeAll, SchedStacks.Roomy;
    var i := StackBlock(s, c, mem, p, a);
    match op
    case Exit => EndSpares(s, c, mem, s.current, a);
    case ExitAndReschedule(_) => EndSpares(s, c, mem, s.current, a);
    case Kill(pid) =>
      if ValidPid(s, pid) && pid != s.current {
        EndSpares(s, c, mem, pid, a);
      }
    case Create(entry) =>
      if HasSlot(s) {
        StackMemSpares(s, c, mem, TaskFrame.KernelWords(entry, c.exit), a);
      }
    case CreateUser(_, _, stackTop, _, entry, ebx, ecx) => CreateUserMemSpares(s, c, mem, stackTop, entry, ebx, ecx, a);
    case _ =>
  }

  lemma EndSpares(s: Sched, c: Config, mem: seq<byte>, pid: nat, a: nat)
    requires Backed(s, c, mem) && pid < MAX_TASKS && s.tasks[pid].active && HeapMemory.Owned(s.blocks, a) && a < |mem|
    ensures EndMem(s, c, mem, pid)[a] == mem[a]
  {
    hide HeapMemory.Represented, HeapMemory.FreeMem, HeapMemory.Owned;
    var q := s.tasks[pid].stackBase;
    assert q != 0 ==> OwnsStack(s.tasks[pid], q);
    FreeSpares(mem, s.blocks, q, c.heapLo, c.heapHi, a);
  }

  /** Nobody but the scheduler's own suspension changes where a task will be resumed. */
  lemma TaskKept(s: Sched, c: Config, op: SchedModel.Op, p: int)
    requires Inv(s, c) && SchedModel.Enabled(s, op) && ValidPid(s, p) && p != s.current && ValidPid(SchedModel.Step(s, c, op).0, p)
    ensures var t := SchedModel.Step(s, c, op).0.tasks[p];
      t.esp == s.tasks[p].esp && t.stackBase == s.tasks[p].stackBase
  {
    hide PageTable, Malloc, Free, Elect, Inv;
    InvFacts(s, c);
  }

  // ----- one step -----

  /** The stores of the receive fall outside [from, to). */
  predicate Misses(k: Kernel, op: SchedModel.Op, from: nat, to: nat)
    requires Shaped(k) && op.Receive?
  {
    match Pending(k.sched)
    case None => true
    case Some(message) =>
      && (op.out + |message.text| <= from || to <= op.out)
      && (op.outLen == 0 || op.outLen + 4 <= from || to <= op.outLen)
      && (op.outSender == 0 || op.outSender + 4 <= from || to <= op.outSender)
  }

  lemma MissedByte(k: Kernel, op: SchedModel.Op, from: nat, to: nat, a: nat)
    requires Shaped(k) && op.Receive? && Misses(k, op, from, to) && from <= a < to && a < |k.mem|
    ensures ReceiveMem(k.sched, k.mem, 0, op)[a] == k.mem[a]
  {
    hide Le32;
  }

  /** Task `p` is waiting, and the step, if it is a receive, is not aimed at its kernel stack. */
  predicate Waits(k: Kernel, op: ExecModel.Op, p: int) {
    && Shaped(k) && ValidPid(k.sched, p) && p != k.sched.current
    && (op.Call? && op.op.Receive? ==> Misses(k, op.op, k.sched.tasks[p].stackBase, k.sched.tasks[p].stackBase + STACK_SIZE))
  }

  lemma StepSparesStack(k: Kernel, l: Layout, op: ExecModel.Op, p: int, a: nat)
    requires Safe(k, l) && LaidOut(l) && ExecModel.Enabled(k, l, op) && Waits(k, op, p) && OnKernelStack(k.sched, p, a)
    requires ValidPid(ExecModel.Step(k, l, op).sched, p)
    ensures a < MEMORY && |ExecModel.Step(k, l, op).mem| == MEMORY && ExecModel.Step(k, l, op).mem[a] == k.mem[a]
  {
    hide SchedModel.Step, CallMem, Exec, Placed, Tame, HeapMemory.Represented, HeapMemory.Owned, SchedStacks.Roomy, ReceiveMem, Reaches;
    var i := StackBlock(k.sched, l.config, k.mem, p, a);
    match op
    case Call(o) =>
      if o.Receive? {
        ReceiveCall(k.sched, l.config, k.mem, o);
        var base := k.sched.tasks[p].stackBase;
        MissedByte(k, o, base, base + STACK_SIZE, a);
      } else {
        CallSpares(k.sched, l.config, k.mem, o, p, a);
      }
    case Run(file, args) => ExecSparesStack(k, l, file, args, a);
    case Store(x, _) => ReachedAddress(k, l, x);
    case StackStore(x, v) =>
      OtherStack(k, l, p, a, x);
      OwnStackStore(k.sched, l.config, k.mem, k.sched.current, x, v);
  }

  lemma OtherStack(k: Kernel, l: Layout, p: int, a: nat, x: nat)
    requires Sound(k, l) && ValidPid(k.sched, p) && p != k.sched.current && OnKernelStack(k.sched, p, a)
    requires k.sched.tasks[k.sched.current].active && OnKernelStack(k.sched, k.sched.current, x)
    ensures x != a
  {
    hide HeapMemory.Represented, HeapMemory.Owned, SchedStacks.Roomy;
    var s := k.sched;
    var i := StackBlock(s, l.config, k.mem, p, a);
    var j := StackBlock(s, l.config, k.mem, s.current, x);
    HeapMemory.TilesOf(k.mem, s.blocks, l.config.heapLo, l.config.heapHi);
    assert OwnsStack(s.tasks[p], s.tasks[p].stackBase);
    assert !OwnsStack(s.tasks[s.current], s.tasks[p].stackBase);
    Apart(s.blocks, l.config.heapLo, l.config.heapHi, i, j);
  }

  lemma ClearedByte(mem: seq<byte>, slot: nat, a: nat)
    requires |mem| == MEMORY && slot < SLOTS && a < 0x300000
    ensures Zeroed(mem, slot)[a] == mem[a]
  {
    assert !(SlotBase(slot) <= a < SlotBase(slot) + PROGRAM);
  }

  lemma ExecSparesStack(k: Kernel, l: Layout, file: Option<seq<byte>>, args: seq<seq<byte>>, a: nat)
    requires Sound(k, l) && LaidOut(l) && Runnable(file) && |args| <= ArgvModel.MAX_ARGS
    requires HeapMemory.Owned(k.sched.blocks, a) && l.config.heapLo <= a < l.config.heapHi
    ensures |Exec(k, l, file, args).0.mem| == MEMORY && Exec(k, l, file, args).0.mem[a] == k.mem[a]
  {
    hide ElfModel.Load, ElfModel.Exact, Prepared, CreateUserTask, CreateUserMem, Backed, HeapMemory.Owned;
    var slot := FindSlot(k);
    if slot < SLOTS {
      ClearedByte(k.mem, slot, a);
    }
    if slot < SLOTS && file.Some? {
      ElfTheorem.LoadFrame(Zeroed(k.mem, slot), file.value, SlotBase(slot), PROGRAM, LINK_BASE);
      var entry := ElfModel.Load(Zeroed(k.mem, slot), file.value, SlotBase(slot), PROGRAM, LINK_BASE).1;
      if entry.Some? {
        PreparedBacked(k, l, slot, file.value, args);
        PreparedFrame(k.mem, l, slot, file.value, args, a);
        CreateUserMemSpares(k.sched, l.config, Prepared(k.mem, l, slot, file.value, args),
                            StackBase(l, slot) + STACK, entry.value, |args|, StackBase(l, slot), a);
      }
    }
  }

  lemma StepKeepsTask(k: Kernel, l: Layout, op: ExecModel.Op, p: int)
    requires Safe(k, l) && LaidOut(l) && ExecModel.Enabled(k, l, op) && Waits(k, op, p) && ValidPid(ExecModel.Step(k, l, op).sched, p)
    ensures var t := ExecModel.Step(k, l, op).sched.tasks[p];
      t.esp == k.sched.tasks[p].esp && t.stackBase == k.sched.tasks[p].stackBase
  {
    hide SchedModel.Step, CallMem, Placed, Tame, HeapMemory.Represented, ReceiveMem, Reaches;
    match op
    case Call(o) => TaskKept(k.sched, l.config, o, p);
    case Run(file, args) => ExecKeepsTask(k, l, file, args, p);
    case Store(_, _) =>
    case StackStore(_, _) =>
  }

  lemma ExecKeepsTask(k: Kernel, l: Layout, file: Option<seq<byte>>, args: seq<seq<byte>>, p: int)
    requires Sound(k, l) && LaidOut(l) && Runnable(file) && |args| <= ArgvModel.MAX_ARGS && ValidPid(k.sched, p)
    ensures |Exec(k, l, file, args).0.sched.tasks| == MAX_TASKS && Exec(k, l, file, args).0.sched.tasks[p] == k.sched.tasks[p]
  {
    hide ElfModel.Load, ElfModel.Exact, Prepared, CreateUserTask, CreateUserMem, HeapMemory.Represented;
    var slot := FindSlot(k);
    if slot < SLOTS {
      var create := SchedModel.CreateUser(SlotBase(slot), PROGRAM, StackBase(l, slot) + STACK, STACK, 0, 0, 0);
      CreateKeepsSpace(k.sched, l.config, create, p);
    }
  }

  // ----- the program's own stack -----

  predicate InArea(l: Layout, slot: nat, a: nat) {
    StackBase(l, slot) <= a < StackBase(l, slot) + STACK
  }

  /** The step, if a receive or a store of another task, is not aimed at the program's own stack. */
  predicate AreaSpared(k: Kernel, l: Layout, op: ExecModel.Op, slot: nat)
    requires Shaped(k)
  {
    && (op.Call? && op.op.Receive? ==> Misses(k, op.op, StackBase(l, slot), StackBase(l, slot) + STACK))
    && (op.Store? ==> !InArea(l, slot, op.at))
  }

  lemma AreaPage(l: Layout, slot: nat, x: nat)
    ensures InArea(l, slot, x) ==> OnStack(l, slot, x / 4096)
  {
  }

  /** When the stacks are private the page tables see to it that no other program stores there. */
  lemma AreaPrivate(k: Kernel, l: Layout, p: int, x: nat)
    requires Safe(k, l) && LaidOut(l) && StacksPrivate(l) && Reaches(k, x)
    requires p in k.live && k.sched.current in k.live && p != k.sched.current
    ensures !InArea(l, k.live[p], x)
  {
    hide Backed, PageTable, LowTable;
    assert Placed(k, l, p) && Placed(k, l, k.sched.current);
    SlotsExclusive(k, l, p, k.sched.current);
    AreaPage(l, k.live[p], x);
    assert !OnStack(l, k.live[p], x / 4096);
  }

  lemma StepSparesArea(k: Kernel, l: Layout, op: ExecModel.Op, p: int, a: nat)
    requires Safe(k, l) && LaidOut(l) && ExecModel.Enabled(k, l, op) && p in k.live && Placed(k, l, p)
    requires InArea(l, k.live[p], a) && AreaSpared(k, l, op, k.live[p])
    ensures a < MEMORY && |ExecModel.Step(k, l, op).mem| == MEMORY && ExecModel.Step(k, l, op).mem[a] == k.mem[a]
  {
    hide SchedModel.Step, CallMem, Exec, Tame, Inv, HeapMemory.Represented, SchedStacks.Roomy, ReceiveMem, ProgramTable, Flags;
    match op
    case Call(o) =>
      if o.Receive? {
        ReceiveCall(k.sched, l.config, k.mem, o);
        MissedByte(k, o, StackBase(l, k.live[p]), StackBase(l, k.live[p]) + STACK, a);
      } else {
        CallBacked(k.sched, l.config, k.mem, o);
      }
    case Run(file, args) => ExecSparesArea(k, l, file, args, p, a);
    case Store(x, _) =>
    case StackStore(x, v) => OwnStackStore(k.sched, l.config, k.mem, k.sched.current, x, v);
  }

  lemma ExecSparesArea(k: Kernel, l: Layout, file: Option<seq<byte>>, args: seq<seq<byte>>, p: int, a: nat)
    requires Safe(k, l) && LaidOut(l) && Runnable(file) && |args| <= ArgvModel.MAX_ARGS
    requires p in k.live && k.live[p] < SLOTS && InArea(l, k.live[p], a)
    ensures a < MEMORY && |Exec(k, l, file, args).0.mem| == MEMORY && Exec(k, l, file, args).0.mem[a] == k.mem[a]
  {
    hide ElfModel.Load, ElfModel.Exact, Prepared, CreateUserTask, CreateUserMem, Backed, Placed, Tame;
    var slot := FindSlot(k);
    if slot < SLOTS {
      FreeSlotUnused(k, l, slot, p);
      ClearedByte(k.mem, slot, a);
    }
    if slot < SLOTS && file.Some? {
      ElfTheorem.LoadFrame(Zeroed(k.mem, slot), file.value, SlotBase(slot), PROGRAM, LINK_BASE);
      var entry := ElfModel.Load(Zeroed(k.mem, slot), file.value, SlotBase(slot), PROGRAM, LINK_BASE).1;
      if entry.Some? {
        PreparedBacked(k, l, slot, file.value, args);
        PreparedFrame(k.mem, l, slot, file.value, args, a);
        CreatedBacked(k.sched, l, Prepared(k.mem, l, slot, file.value, args), slot, entry.value, |args|);
      }
    }
  }

  lemma StepKeepsLive(k: Kernel, l: Layout, op: ExecModel.Op, p: int)
    requires Safe(k, l) && LaidOut(l) && ExecModel.Enabled(k, l, op) && p in k.live && ValidPid(ExecModel.Step(k, l, op).sched, p)
    ensures p in ExecModel.Step(k, l, op).live && ExecModel.Step(k, l, op).live[p] == k.live[p]
  {
    hide SchedModel.Step, CallMem, Tame, Backed, ReceiveMem, Reaches, ProgramTable;
    assert Placed(k, l, p);
    if op.Run? {
      ExecKeepsLive(k, l, op.file, op.args, p);
    }
  }

  lemma ExecKeepsLive(k: Kernel, l: Layout, file: Option<seq<byte>>, args: seq<seq<byte>>, p: int)
    requires Sound(k, l) && LaidOut(l) && Runnable(file) && |args| <= ArgvModel.MAX_ARGS && p in k.live && ValidPid(k.sched, p)
    ensures p in Exec(k, l, file, args).0.live && Exec(k, l, file, args).0.live[p] == k.live[p]
  {
    hide ElfModel.Load, ElfModel.Exact, Prepared, CreateUserMem, Backed, PageTable, Malloc, Free;
  }

  // ----- a stretch of a run -----

  /** Throughout `after`, which follows `before`, task `p` waits, survives and is not aimed at. */
  ghost predicate Idle(l: Layout, ticks: u32, mem: seq<byte>, before: seq<ExecModel.Op>, after: seq<ExecModel.Op>, p: int)
    requires LaidOut(l) && |mem| == MEMORY
    decreases |after|
  {
    after == [] ||
    (var init, op := after[..|after| - 1], after[|after| - 1];
     var z, z' := RunAll(l, ticks, mem, before + init), RunAll(l, ticks, mem, before + after);
     && Idle(l, ticks, mem, before, init, p)
     && z.Some? && z'.Some? && Waits(z.value, op, p) && ValidPid(z'.value.sched, p)
     && (p in z.value.live ==> AreaSpared(z.value, l, op, z.value.live[p])))
  }

  /** Task `p` of `k` is the same, to be resumed with the same bytes, in `k'`. */
  ghost predicate SameWaiter(k: Kernel, k': Kernel, l: Layout, p: int) {
    && Shaped(k) && Shaped(k') && ValidPid(k.sched, p) && ValidPid(k'.sched, p)
    && k'.sched.tasks[p].esp == k.sched.tasks[p].esp && k'.sched.tasks[p].stackBase == k.sched.tasks[p].stackBase
    && (forall a :: 0 <= a < MEMORY && OnKernelStack(k.sched, p, a) ==> k'.mem[a] == k.mem[a])
    && (p in k.live ==>
          && p in k'.live && k'.live[p] == k.live[p]
          && forall a :: 0 <= a < MEMORY && InArea(l, k.live[p], a) ==> k'.mem[a] == k.mem[a])
  }

  lemma StepWaiter(k: Kernel, l: Layout, op: ExecModel.Op, p: int)
    requires Safe(k, l) && LaidOut(l) && ExecModel.Enabled(k, l, op) && Waits(k, op, p) && ValidPid(ExecModel.Step(k, l, op).sched, p)
    requires p in k.live ==> AreaSpared(k, l, op, k.live[p])
    ensures SameWaiter(k, ExecModel.Step(k, l, op), l, p)
  {
    hide ExecModel.Step, ExecModel.Enabled, Backed, Tame, Placed, Waits, OnKernelStack, InArea, AreaSpared;
    var k' := ExecModel.Step(k, l, op);
    StepSafe(k, l, op);
    WaitsFacts(k, op, p);
    StepKeepsTask(k, l, op, p);
    forall a | 0 <= a < MEMORY && OnKernelStack(k.sched, p, a)
      ensures k'.mem[a] == k.mem[a]
    {
      StepSparesStack(k, l, op, p, a);
    }
    if p in k.live {
      StepKeepsLive(k, l, op, p);
      forall a | 0 <= a < MEMORY && InArea(l, k.live[p], a)
        ensures k'.mem[a] == k.mem[a]
      {
        StepSparesArea(k, l, op, p, a);
      }
    }
  }

  lemma WaitsFacts(k: Kernel, op: ExecModel.Op, p: int)
    requires Waits(k, op, p)
    ensures Shaped(k) && ValidPid(k.sched, p)
  {
  }

  lemma WaiterTrans(k0: Kernel, k1: Kernel, k2: Kernel, l: Layout, p: int)
    requires SameWaiter(k0, k1, l, p) && SameWaiter(k1, k2, l, p)
    ensures SameWaiter(k0, k2, l, p)
  {
    forall a | 0 <= a < MEMORY && OnKernelStack(k0.sched, p, a)
      ensures k2.mem[a] == k0.mem[a]
    {
      assert OnKernelStack(k1.sched, p, a);
    }
  }

  /**
    Over any stretch of any run in which a task waits: same saved stack pointer, same kernel stack, and for a
    live program the same slot and the same own stack.
  */
  lemma {:induction false} WaitingKept(l: Layout, ticks: u32, mem: seq<byte>, before: seq<ExecModel.Op>, after: seq<ExecModel.Op>, p: int)
    requires LaidOut(l) && |mem| == MEMORY && Idle(l, ticks, mem, before, after, p)
    requires RunAll(l, ticks, mem, before).Some? && Shaped(RunAll(l, ticks, mem, before).value)
    requires ValidPid(RunAll(l, ticks, mem, before).value.sched, p)
    ensures RunAll(l, ticks, mem, before + after).Some?
    ensures SameWaiter(RunAll(l, ticks, mem, before).value, RunAll(l, ticks, mem, before + after).value, l, p)
    decreases |after|
  {
    hide RunAll, ExecModel.Step, ExecModel.Enabled, SameWaiter, Placed, Tame, Backed;
    var k := RunAll(l, ticks, mem, before).value;
    if after == [] {
      assert before + after == before;
      SameSelf(k, l, p);
    } else {
      var init, op := after[..|after| - 1], after[|after| - 1];
      WaitingKept(l, ticks, mem, before, init, p);
      var z := RunAll(l, ticks, mem, before + init).value;
      assert before + after == before + init + [op];
      RunStep(l, ticks, mem, before + init, op);
      StepWaiter(z, l, op, p);
      WaiterTrans(k, z, ExecModel.Step(z, l, op), l, p);
    }
  }

  lemma SameSelf(k: Kernel, l: Layout, p: int)
    requires Shaped(k) && ValidPid(k.sched, p)
    ensures SameWaiter(k, k, l, p)
  {
  }

  /** What popal and iret read is the same when the frame is. */
  lemma SameContext(mem: seq<byte>, m: seq<byte>, esp: nat)
    requires |m| == |mem| && esp + USER_FRAME <= |mem| && forall a :: esp <= a < esp + USER_FRAME ==> m[a] == mem[a]
    ensures TaskFrame.ResumeUser(m, esp) == TaskFrame.ResumeUser(mem, esp)
  {
  }

  lemma SameArgument(mem: seq<byte>, m: seq<byte>, area: nat, args: seq<seq<byte>>, j: nat, at: nat)
    requires |m| == |mem| && area + ArgvModel.AREA <= |mem| && forall a :: area <= a < area + ArgvModel.AREA ==> m[a] == mem[a]
    requires j < |args| && ArgvModel.Readable(mem, area, args, j, at)
    ensures ArgvModel.Readable(m, area, args, j, at)
  {
    hide Get32;
    ArgvModel.WordKept(mem, m, area + 4 * j);
    assert m[area + at..area + at + |args[j]|] == mem[area + at..area + at + |args[j]|];
  }

  /** The words reach the program: whenever it is first resumed after a successful exec, its registers, stack and
      arguments are those exec_run prepared. */
  lemma ProgramResumed(l: Layout, ticks: u32, mem: seq<byte>, before: seq<ExecModel.Op>, image: seq<byte>, o: ElfRelocation.Object,
                       line: seq<byte>, after: seq<ExecModel.Op>)
    requires LaidOut(l) && |mem| == MEMORY && Runnable(Some(image)) && |line| <= 255
    requires ElfRelocation.WellFormed(o, PROGRAM) && ElfRelocation.LinkedAt(image, o, LINK_BASE, PROGRAM)
    requires RunAll(l, ticks, mem, before).Some? && Sound(RunAll(l, ticks, mem, before).value, l)
    requires |ArgvModel.Take8(ArgvModel.Words(line))| <= ArgvModel.MAX_ARGS
    requires var args := ArgvModel.Take8(ArgvModel.Words(line));
             var k := RunAll(l, ticks, mem, before).value;
      && ExecModel.Enabled(k, l, Run(Some(image), args)) && Exec(k, l, Some(image), args).1 >= 0
      && Idle(l, ticks, mem, before + [Run(Some(image), args)], after, Exec(k, l, Some(image), args).1)
    ensures var args := ArgvModel.Take8(ArgvModel.Words(line));
            var k := RunAll(l, ticks, mem, before).value;
            var slot, pid := FindSlot(k), Exec(k, l, Some(image), args).1;
            var r := RunAll(l, ticks, mem, before + [Run(Some(image), args)] + after);
      && r.Some? && slot < SLOTS && |r.value.mem| == MEMORY && pid < |r.value.sched.tasks| && r.value.sched.tasks[pid].esp + USER_FRAME <= MEMORY
      && TaskFrame.ResumeUser(r.value.mem, r.value.sched.tasks[pid].esp) == ExecLaunch.FirstContext(l, slot, Wrap(SlotBase(slot) + o.entry), |args|)
      && (forall j :: 0 <= j < |args| ==> ArgvModel.Readable(r.value.mem, StackBase(l, slot), args, j, ArgvModel.OffsetOf(args, j)))
      && Get32(r.value.mem, StackBase(l, slot) + 4 * |args|) == 0
  {
    hide RunAll, Exec, ExecModel.Enabled, Idle, ElfRelocation.WellFormed, ElfRelocation.LinkedAt, ElfModel.Exact, Safe, Get32, Wrap,
         ArgvModel.Words, ArgvModel.Take8, ArgvModel.Readable, TaskFrame.ResumeUser, ExecLaunch.FirstContext, ArgvModel.Room, Backed;
    var args, k := ArgvModel.Take8(ArgvModel.Words(line)), RunAll(l, ticks, mem, before).value;
    var (k1, pid) := Exec(k, l, Some(image), args);
    var slot := FindSlot(k);
    ExecLaunch.ProgramStarts(k, l, image, o, line);
    RunStep(l, ticks, mem, before, Run(Some(image), args));
    NewIsLive(k, l, Some(image), args);
    WaitingKept(l, ticks, mem, before + [Run(Some(image), args)], after, pid);
    var k2 := RunAll(l, ticks, mem, before + [Run(Some(image), args)] + after).value;
    SameContext(k1.mem, k2.mem, k1.sched.tasks[pid].esp);
    var area := StackBase(l, slot);
    forall j | 0 <= j < |args|
      ensures ArgvModel.Readable(k2.mem, area, args, j, ArgvModel.OffsetOf(args, j))
    {
      SameArgument(k1.mem, k2.mem, area, args, j, ArgvModel.OffsetOf(args, j));
    }
    ArgvModel.WordKept(k1.mem, k2.mem, area + 4 * |args|);
  }

  lemma NewIsLive(k: Kernel, l: Layout, file: Option<seq<byte>>, args: seq<seq<byte>>)
    requires Sound(k, l) && LaidOut(l) && Runnable(file) && |args| <= ArgvModel.MAX_ARGS && Exec(k, l, file, args).1 >= 0
    ensures var (k', pid) := Exec(k, l, file, args);
      Shaped(k') && ValidPid(k'.sched, pid) && pid in k'.live && k'.live[pid] == FindSlot(k)
  {
    hide ElfModel.Load, ElfModel.Exact, Prepared, CreateUserMem, CreateUserTask, Inv, HeapMemory.Represented;
    var slot := FindSlot(k);
    ExecMemory(k, l, file, args);
    NewProgram(k.sched, l, slot);
    InvFacts(Exec(k, l, file, args).0.sched, l.config);
  }
}
