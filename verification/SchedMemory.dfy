/**
  What task creation and termination write in memory: the headers of the heap blocks that hold the
  kernel stacks, and the frame a new task starts from at the top of its stack.
*/
module SchedMemory {
  import opened Bytes
  import opened HeapModel
  import opened HeapMemory
  import opened SchedModel
  import opened SchedOwnership
  import opened SchedStacks
  import Mailbox
  import TaskFrame

  /** The heap found in memory is the scheduler's, and every used block can hold a stack. */
  ghost predicate Backed(s: Sched, c: Config, mem: seq<byte>) {
    Inv(s, c) && Represented(mem, s.blocks, c.heapLo, c.heapHi) && Roomy(s.blocks)
  }

  /** kfree of a task's stack, if it has one. */
  ghost function EndMem(s: Sched, c: Config, mem: seq<byte>, pid: nat): (m: seq<byte>)
    requires Backed(s, c, mem) && pid < MAX_TASKS && s.tasks[pid].active
    ensures |m| == |mem|
  {
    var p := s.tasks[pid].stackBase;
    assert p != 0 ==> OwnsStack(s.tasks[pid], p);
    FreeMem(mem, s.blocks, p, c.heapLo, c.heapHi)
  }

  predicate HasSlot(s: Sched)
    requires |s.tasks| == MAX_TASKS
  {
    s.count < MAX_TASKS && FreeTask(s.tasks) < MAX_TASKS && Malloc(s.blocks, STACK_SIZE).1.Some?
  }

  /** kmalloc of a stack, then the start frame pushed from its top. */
  ghost function StackMem(s: Sched, c: Config, mem: seq<byte>, ws: seq<u32>): (m: seq<byte>)
    requires Backed(s, c, mem) && HasSlot(s) && 4 * |ws| <= STACK_SIZE
    ensures |m| == |mem|
  {
    StackInside(s.blocks, c.heapLo, c.heapHi);
    TaskFrame.Pushed(AllocMem(mem, s.blocks, STACK_SIZE, c.heapLo, c.heapHi),
                     Malloc(s.blocks, STACK_SIZE).1.value + STACK_SIZE, ws)
  }

  /** create_task for a function at `entry` that returns to `exit`. */
  ghost function CreateMem(s: Sched, c: Config, mem: seq<byte>, entry: u32): (m: seq<byte>)
    requires Backed(s, c, mem)
    ensures |m| == |mem|
  {
    if HasSlot(s) then StackMem(s, c, mem, TaskFrame.KernelWords(entry, c.exit)) else mem
  }

  /** create_user_task_argv; without a free directory the stack is given back. */
  ghost function CreateUserMem(s: Sched, c: Config, mem: seq<byte>, stackTop: u32, entry: u32, ebx: u32, ecx: u32): (m: seq<byte>)
    requires Backed(s, c, mem)
    ensures |m| == |mem|
  {
    if !HasSlot(s) then mem
    else if FreeSpace(s.used) < |s.used| then StackMem(s, c, mem, TaskFrame.UserWords(entry, stackTop, ebx, ecx))
    else
      AllocRepresented(mem, s.blocks, STACK_SIZE, c.heapLo, c.heapHi);
      MallocLive(s.blocks, c.heapLo, c.heapHi, STACK_SIZE);
      FreeMem(AllocMem(mem, s.blocks, STACK_SIZE, c.heapLo, c.heapHi), Malloc(s.blocks, STACK_SIZE).0,
              Malloc(s.blocks, STACK_SIZE).1.value, c.heapLo, c.heapHi)
  }

  /**
    The stores of ipc_recv through its caller's pointers, seen from `base`: the bytes, then the length and
    the sender where these two pointers are not NULL.
  */
  function Deliver(mem: seq<byte>, base: int, op: SchedModel.Op, text: seq<byte>, len: u32, sender: u32): (m: seq<byte>)
    requires op.Receive?
    ensures |m| == |mem|
  {
    var m1 := StoreBytes(mem, op.out - base, text);
    var m2 := if op.outLen != 0 then StoreBytes(m1, op.outLen - base, Le32(len)) else m1;
    if op.outSender != 0 then StoreBytes(m2, op.outSender - base, Le32(sender)) else m2
  }

  /** The message the running task would receive. */
  function Pending(s: Sched): Option<Mailbox.Message>
    requires WellFormed(s)
  {
    var b := s.tasks[s.current].box;
    if b.count == 0 then None else Some(Mailbox.MessageAt(b, b.head))
  }

  /** The same stores for the message actually pending, if any. */
  function ReceiveMem(s: Sched, mem: seq<byte>, base: int, op: SchedModel.Op): (m: seq<byte>)
    requires WellFormed(s) && op.Receive?
    ensures |m| == |mem|
  {
    match Pending(s)
    case None => mem
    case Some(message) => Deliver(mem, base, op, message.text, |message.text|, Wrap(message.sender))
  }

  /** Memory after a kernel call or a tick. */
  ghost function CallMem(s: Sched, c: Config, mem: seq<byte>, op: SchedModel.Op): (m: seq<byte>)
    requires Backed(s, c, mem) && Enabled(s, op)
    ensures |m| == |mem|
  {
    match op
    case Exit => EndMem(s, c, mem, s.current)
    case ExitAndReschedule(_) => EndMem(s, c, mem, s.current)
    case Kill(pid) => if ValidPid(s, pid) && pid != s.current then EndMem(s, c, mem, pid) else mem
    case Create(entry) => CreateMem(s, c, mem, entry)
    case CreateUser(_, _, stackTop, _, entry, ebx, ecx) => CreateUserMem(s, c, mem, stackTop, entry, ebx, ecx)
    case Receive(_, _, _) => ReceiveMem(s, mem, 0, op)
    case _ => mem
  }

  // ----- where these writes fall -----

  lemma StackInside(bs: seq<Block>, lo: nat, hi: nat)
    requires Tiles(bs, lo, hi) && Malloc(bs, STACK_SIZE).1.Some?
    ensures lo + HEADER <= Malloc(bs, STACK_SIZE).1.value && Malloc(bs, STACK_SIZE).1.value + STACK_SIZE <= hi
  {
    assert Round4(STACK_SIZE) == STACK_SIZE;
    InBounds(bs, lo, hi, FirstFit(bs, STACK_SIZE));
  }

  /** The block just handed out, where it stands in the new list. */
  lemma TakenBlock(bs: seq<Block>)
    requires Malloc(bs, STACK_SIZE).1.Some?
    ensures var (t, r) := Malloc(bs, STACK_SIZE);
            var i := FirstFit(bs, STACK_SIZE);
      i < |t| && Payload(t[i]) == r.value && t[i].size >= STACK_SIZE
  {
    assert Round4(STACK_SIZE) == STACK_SIZE;
  }

  /** The writes of an allocation and a frame stay in the arena and keep the headers consistent. */
  lemma StackMemBacked(s: Sched, c: Config, mem: seq<byte>, ws: seq<u32>)
    requires Backed(s, c, mem) && HasSlot(s) && 4 * |ws| <= STACK_SIZE
    ensures var m := StackMem(s, c, mem, ws);
      && Represented(m, Malloc(s.blocks, STACK_SIZE).0, c.heapLo, c.heapHi)
      && HeapMemory.SameOutside(mem, m, c.heapLo, c.heapHi)
  {
    hide Represented, Inv, Roomy, AllocMem, Malloc, TaskFrame.Pushed;
    var (t, r) := Malloc(s.blocks, STACK_SIZE);
    TilesOf(mem, s.blocks, c.heapLo, c.heapHi);
    StackInside(s.blocks, c.heapLo, c.heapHi);
    AllocRepresented(mem, s.blocks, STACK_SIZE, c.heapLo, c.heapHi);
    TakenBlock(s.blocks);
    var m1, i := AllocMem(mem, s.blocks, STACK_SIZE, c.heapLo, c.heapHi), FirstFit(s.blocks, STACK_SIZE);
    TaskFrame.PushedFrame(m1, r.value + STACK_SIZE, ws);
    var m := TaskFrame.Pushed(m1, r.value + STACK_SIZE, ws);
    PayloadStores(m1, m, t, c.heapLo, c.heapHi, i);
  }

  lemma EndMemBacked(s: Sched, c: Config, mem: seq<byte>, pid: nat)
    requires Backed(s, c, mem) && pid < MAX_TASKS && s.tasks[pid].active
    ensures var m := EndMem(s, c, mem, pid);
      && Represented(m, Terminate(s, pid).blocks, c.heapLo, c.heapHi)
      && HeapMemory.SameOutside(mem, m, c.heapLo, c.heapHi)
  {
    hide Represented, FreeMem;
    var p := s.tasks[pid].stackBase;
    assert p != 0 ==> OwnsStack(s.tasks[pid], p);
    FreeRepresented(mem, s.blocks, p, c.heapLo, c.heapHi);
  }

  lemma CreateUserMemBacked(s: Sched, c: Config, mem: seq<byte>, codeBase: nat, codeSize: nat, stackTop: u32, stackSize: nat,
                            entry: u32, ebx: u32, ecx: u32)
    requires Backed(s, c, mem)
    ensures var m := CreateUserMem(s, c, mem, stackTop, entry, ebx, ecx);
      && Represented(m, CreateUserTask(s, c, codeBase, codeSize, stackTop, stackSize).0.blocks, c.heapLo, c.heapHi)
      && HeapMemory.SameOutside(mem, m, c.heapLo, c.heapHi)
  {
    hide Represented, Inv, Roomy, AllocMem, FreeMem, Malloc, Free, StackMem, PageTable, TaskFrame.UserWords;
    InvFacts(s, c);
    if HasSlot(s) {
      if FreeSpace(s.used) < |s.used| {
        UserWordsLength(entry, stackTop, ebx, ecx);
        StackMemBacked(s, c, mem, TaskFrame.UserWords(entry, stackTop, ebx, ecx));
      } else {
        var (t, r) := Malloc(s.blocks, STACK_SIZE);
        AllocRepresented(mem, s.blocks, STACK_SIZE, c.heapLo, c.heapHi);
        MallocLive(s.blocks, c.heapLo, c.heapHi, STACK_SIZE);
        FreeRepresented(AllocMem(mem, s.blocks, STACK_SIZE, c.heapLo, c.heapHi), t, r.value, c.heapLo, c.heapHi);
      }
    }
  }

  lemma UserWordsLength(entry: u32, stackTop: u32, ebx: u32, ecx: u32)
    ensures |TaskFrame.UserWords(entry, stackTop, ebx, ecx)| == 13
  {
  }

  lemma InvFacts(s: Sched, c: Config)
    requires Inv(s, c)
    ensures WellFormed(s) && Tiles(s.blocks, c.heapLo, c.heapHi)
  {
  }

  predicate Apart4(a: int, n: nat, b: int, m: nat) {
    a + n <= b || b + m <= a
  }

  /** The areas written through the pointers of a receive of `n` bytes lie in memory and do not overlap. */
  predicate Separated(mem: seq<byte>, op: SchedModel.Op, n: nat)
    requires op.Receive?
  {
    && op.out + n <= |mem| && op.outLen + 4 <= |mem| && op.outSender + 4 <= |mem|
    && (op.outLen != 0 ==> Apart4(op.out, n, op.outLen, 4)) && (op.outSender != 0 ==> Apart4(op.out, n, op.outSender, 4))
    && (op.outLen != 0 && op.outSender != 0 ==> Apart4(op.outLen, 4, op.outSender, 4))
  }

  predicate Written(op: SchedModel.Op, n: nat, x: int)
    requires op.Receive?
  {
    || op.out <= x < op.out + n
    || (op.outLen != 0 && op.outLen <= x < op.outLen + 4) || (op.outSender != 0 && op.outSender <= x < op.outSender + 4)
  }

  lemma DeliverStored(mem: seq<byte>, op: SchedModel.Op, text: seq<byte>, len: u32, sender: u32)
    requires op.Receive? && Separated(mem, op, |text|)
    ensures var m := Deliver(mem, 0, op, text, len, sender);
      && m[op.out..op.out + |text|] == text
      && (op.outLen != 0 ==> Get32(m, op.outLen) == len) && (op.outSender != 0 ==> Get32(m, op.outSender) == sender)
      && forall x :: 0 <= x < |mem| && !Written(op, |text|, x) ==> m[x] == mem[x]
  {
    hide Le32, Get32;
    var m := Deliver(mem, 0, op, text, len, sender);
    StoredWord(m, op.outLen, len);
    StoredWord(m, op.outSender, sender);
    assert m[op.out..op.out + |text|] == text;
  }

  /**
    What a receive leaves in memory is the oldest message of the caller's queue, the very one that counts as
    delivered: its bytes at `out`, its length at `outLen`, its sender at `outSender`, and nothing else changes.
  */
  lemma MessageStored(s: Sched, c: Config, mem: seq<byte>, op: SchedModel.Op)
    requires Backed(s, c, mem) && Enabled(s, op) && op.Receive? && Mailbox.Queue(s.tasks[s.current].box) != []
    requires Separated(mem, op, |Mailbox.Queue(s.tasks[s.current].box)[0].text|)
    ensures var message := Mailbox.Queue(s.tasks[s.current].box)[0];
            var m, n := CallMem(s, c, mem, op), |message.text|;
      && SchedModel.Step(s, c, op).1 == [Delivered(s.current, message)]
      && m[op.out..op.out + n] == message.text
      && (op.outLen != 0 ==> Get32(m, op.outLen) == n) && (op.outSender != 0 ==> Get32(m, op.outSender) == Wrap(message.sender))
      && forall x :: 0 <= x < |mem| && !Written(op, n, x) ==> m[x] == mem[x]
  {
    hide Deliver, Separated, Written, Get32, Wrap, Represented, Roomy;
    var b := s.tasks[s.current].box;
    Mailbox.TakeRemoves(b);
    var message := Mailbox.Queue(b)[0];
    assert Pending(s) == Some(message);
    DeliverStored(mem, op, message.text, |message.text|, Wrap(message.sender));
  }

  lemma StoredWord(m: seq<byte>, a: nat, x: u32)
    requires a + 4 <= |m|
    ensures (forall i :: 0 <= i < 4 ==> m[a + i] == Le32(x)[i]) ==> Get32(m, a) == x
  {
    if forall i :: 0 <= i < 4 ==> m[a + i] == Le32(x)[i] {
      assert m[a..a + 4] == Le32(x);
      LeGet(m, a, x);
    }
  }

  /** Byte `x` belongs to a heap header: size, link or flag of some block. */
  ghost predicate InHeader(bs: seq<Block>, x: int) {
    exists i :: 0 <= i < |bs| && bs[i].addr <= x < bs[i].addr + 9
  }

  /** Same header bytes, same heap; and a changed header byte is a different heap. */
  lemma HeaderBytes(mem: seq<byte>, m: seq<byte>, bs: seq<Block>, lo: nat, hi: nat)
    requires Represented(mem, bs, lo, hi) && |m| == |mem|
    ensures Represented(m, bs, lo, hi) <==> forall x :: InHeader(bs, x) && 0 <= x < |mem| ==> m[x] == mem[x]
  {
    if forall x :: InHeader(bs, x) && 0 <= x < |mem| ==> m[x] == mem[x] {
      forall k | 0 <= k < |bs|
        ensures Linked(m, bs, k)
      {
        assert Linked(mem, bs, k);
        assert forall x :: bs[k].addr <= x < bs[k].addr + 9 ==> InHeader(bs, x) && m[x] == mem[x];
        HeaderKept(mem, m, bs[k], NextOf(bs, k));
      }
    }
    if Represented(m, bs, lo, hi) {
      forall x | InHeader(bs, x) && 0 <= x < |mem|
        ensures m[x] == mem[x]
      {
        var i :| 0 <= i < |bs| && bs[i].addr <= x < bs[i].addr + 9;
        assert Linked(mem, bs, i) && Linked(m, bs, i);
        SameHeader(mem, m, bs[i], NextOf(bs, i), x);
      }
    }
  }

  lemma SameHeader(mem: seq<byte>, m: seq<byte>, b: Block, next: nat, x: nat)
    requires HeaderAt(mem, b, next) && HeaderAt(m, b, next) && b.addr <= x < b.addr + 9
    ensures x < |mem| && x < |m| && m[x] == mem[x]
  {
    hide Get32;
    WordBytes(mem, m, b.addr, b.addr);
    WordBytes(mem, m, b.addr + 4, b.addr + 4);
    if x < b.addr + 4 {
      assert mem[b.addr..b.addr + 4][x - b.addr] == m[b.addr..b.addr + 4][x - b.addr];
    } else if x < b.addr + 8 {
      assert mem[b.addr + 4..b.addr + 8][x - b.addr - 4] == m[b.addr + 4..b.addr + 8][x - b.addr - 4];
    }
  }

  /** No heap header lies where a receive stores. */
  ghost predicate HeadersSpared(s: Sched, mem: seq<byte>, op: SchedModel.Op)
    requires WellFormed(s)
  {
    op.Receive? ==> forall x :: InHeader(s.blocks, x) && 0 <= x < |mem| ==> ReceiveMem(s, mem, 0, op)[x] == mem[x]
  }

  /**
    Every kernel call that spares the headers keeps the heap in memory in step with the scheduler; all but
    a receive write only in the arena.
  */
  lemma CallBacked(s: Sched, c: Config, mem: seq<byte>, op: SchedModel.Op)
    requires Backed(s, c, mem) && Enabled(s, op) && HeadersSpared(s, mem, op)
    ensures Backed(SchedModel.Step(s, c, op).0, c, CallMem(s, c, mem, op))
    ensures !op.Receive? ==> HeapMemory.SameOutside(mem, CallMem(s, c, mem, op), c.heapLo, c.heapHi)
  {
    hide Represented, Inv, Roomy, EndMem, StackMem, CreateUserMem, Malloc, Free, Elect, PageTable, WakeAll;
    StepKeeps(s, c, op);
    InvFacts(s, c);
    StepRoomy(s, c, op);
    match op
    case Exit => EndMemBacked(s, c, mem, s.current);
    case ExitAndReschedule(_) => EndMemBacked(s, c, mem, s.current);
    case Kill(pid) =>
      if ValidPid(s, pid) && pid != s.current {
        EndMemBacked(s, c, mem, pid);
      }
    case Create(entry) =>
      if HasSlot(s) {
        StackMemBacked(s, c, mem, TaskFrame.KernelWords(entry, c.exit));
      }
    case CreateUser(codeBase, codeSize, stackTop, stackSize, entry, ebx, ecx) =>
      CreateUserMemBacked(s, c, mem, codeBase, codeSize, stackTop, stackSize, entry, ebx, ecx);
    case Receive(_, _, _) =>
      HeaderBytes(mem, ReceiveMem(s, mem, 0, op), s.blocks, c.heapLo, c.heapHi);
    case _ =>
  }

  /** A task that writes in its own kernel stack disturbs no header. */
  lemma OwnStackStore(s: Sched, c: Config, mem: seq<byte>, pid: nat, a: nat, v: byte)
    requires Backed(s, c, mem) && pid < MAX_TASKS && s.tasks[pid].active && s.tasks[pid].stackBase != 0
    requires s.tasks[pid].stackBase <= a < s.tasks[pid].stackBase + STACK_SIZE
    ensures c.heapLo <= a < c.heapHi <= |mem| && Backed(s, c, mem[a := v])
  {
    var p := s.tasks[pid].stackBase;
    assert OwnsStack(s.tasks[pid], p);
    assert p in Live(s.blocks);
    var i := LiveBlock(s.blocks, p);
    InBounds(s.blocks, c.heapLo, c.heapHi, i);
    PayloadStores(mem, mem[a := v], s.blocks, c.heapLo, c.heapHi, i);
  }

  // ----- what a new task is resumed with -----

  /** A task made by create_task starts at its entry point in ring 0, and returns to task_exit. */
  lemma KernelTaskStarts(s: Sched, c: Config, mem: seq<byte>, entry: u32, ss: u32)
    requires Backed(s, c, mem) && Enabled(s, Create(entry)) && SchedModel.Step(s, c, Create(entry)).1 != []
    ensures var (s', events) := SchedModel.Step(s, c, Create(entry));
            var m := CallMem(s, c, mem, Create(entry));
      && |events| == 1 && events[0].pid < |s'.tasks|
      && var t := s'.tasks[events[0].pid];
      && t.esp + KERNEL_FRAME == t.stackBase + STACK_SIZE <= |m| && t.stackBase + STACK_SIZE < 0x1_0000_0000
      && var context := TaskFrame.ResumeKernel(m, t.esp, ss);
         && context == TaskFrame.Context(TaskFrame.Registers(0, 0, 0, 0, 0, 0, 0), entry, 0x08, 0x202, t.stackBase + STACK_SIZE - 4, ss)
         && Get32(m, context.esp) == c.exit
  {
    hide Inv, Represented, AllocMem, Malloc, TaskFrame.Pushed, TaskFrame.ResumeKernel, Get32, Mailbox.Reset;
    InvFacts(s, c);
    TilesOf(mem, s.blocks, c.heapLo, c.heapHi);
    StackInside(s.blocks, c.heapLo, c.heapHi);
    var base := Malloc(s.blocks, STACK_SIZE).1.value;
    WrapSmall(base + STACK_SIZE - KERNEL_FRAME);
    TaskFrame.KernelStarts(AllocMem(mem, s.blocks, STACK_SIZE, c.heapLo, c.heapHi), base, entry, c.exit, ss);
  }

  /** A task made by create_user_task_argv starts at its entry point in ring 3, on its stack, with the two registers given. */
  lemma UserTaskStarts(s: Sched, c: Config, mem: seq<byte>, op: SchedModel.Op)
    requires Backed(s, c, mem) && Enabled(s, op) && op.CreateUser? && SchedModel.Step(s, c, op).1 != []
    ensures var (s', events) := SchedModel.Step(s, c, op);
            var m := CallMem(s, c, mem, op);
      && |events| == 1 && events[0].pid < |s'.tasks|
      && var t := s'.tasks[events[0].pid];
      && t.esp + USER_FRAME == t.stackBase + STACK_SIZE <= |m|
      && TaskFrame.ResumeUser(m, t.esp)
         == TaskFrame.Context(TaskFrame.Registers(0, 0, 0, op.ebx, 0, op.ecx, 0), op.entry, 0x1B, 0x202, op.stackTop, 0x23)
  {
    hide Inv, Represented, AllocMem, Malloc, Free, PageTable, TaskFrame.Pushed, TaskFrame.ResumeUser, Mailbox.Reset;
    InvFacts(s, c);
    TilesOf(mem, s.blocks, c.heapLo, c.heapHi);
    StackInside(s.blocks, c.heapLo, c.heapHi);
    var base := Malloc(s.blocks, STACK_SIZE).1.value;
    WrapSmall(base + STACK_SIZE - USER_FRAME);
    TaskFrame.UserStarts(AllocMem(mem, s.blocks, STACK_SIZE, c.heapLo, c.heapHi), base, op.entry, op.stackTop, op.ebx, op.ecx);
  }
}
