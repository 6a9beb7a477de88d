/**
  Slot exclusivity over runs: two live programs never share a slot, a program's window changes only
  through its own stores, and no page of it is user-accessible to another program.
*/
module ExecSafety {
  import opened Bytes
  import opened SchedModel
  import opened SchedOwnership
  import SchedStacks
  import opened SchedMemory
  import opened ExecModel
  import ElfModel
  import ElfTheorem
  import ArgvModel
  import Mailbox
  import HeapModel
  import HeapMemory

  /** A live program: its task is active, its slot records it, its page table and its window are its own. */
  ghost predicate Placed(k: Kernel, l: Layout, p: int)
    requires Shaped(k)
  {
    && p in k.live && ValidPid(k.sched, p)
    && var slot, space := k.live[p], k.sched.tasks[p].space;
    && slot < SLOTS && k.slotPid[slot] == p
    && 0 <= space < MAX_SPACES && k.sched.tables[space] == ProgramTable(l, slot)
    && p in k.image && Window(k.mem, slot) == k.image[p]
  }

  /** A page table that opens nothing from the heap upwards. */
  ghost predicate LowTable(l: Layout, table: seq<nat>) {
    |table| == 1024 && forall page :: 0 <= page < 1024 && page * 4096 >= l.config.heapLo ==> Flags(table[page]) == 3
  }

  /** A task of ring 3 that is not an exec'd program. */
  predicate Resident(k: Kernel, p: int) {
    p !in k.live && ValidPid(k.sched, p) && k.sched.tasks[p].space >= 0
  }

  ghost predicate Tame(k: Kernel, l: Layout, p: int)
    requires Shaped(k) && ValidPid(k.sched, p)
  {
    k.sched.tasks[p].space < MAX_SPACES && (k.sched.tasks[p].space >= 0 ==> LowTable(l, k.sched.tables[k.sched.tasks[p].space]))
  }

  ghost predicate Safe(k: Kernel, l: Layout) {
    && Sound(k, l)
    && (forall p :: p in k.live ==> Placed(k, l, p))
    && (forall p :: Resident(k, p) ==> Tame(k, l, p))
  }

  // ----- exclusivity -----

  lemma SlotsExclusive(k: Kernel, l: Layout, p: int, q: int)
    requires Safe(k, l) && p in k.live && q in k.live && p != q
    ensures k.live[p] != k.live[q]
  {
    assert Placed(k, l, p) && Placed(k, l, q);
  }

  /** A slot that looks free holds no live program, however stale its recorded pid is. */
  lemma FreeSlotUnused(k: Kernel, l: Layout, slot: nat, p: int)
    requires Safe(k, l) && slot < SLOTS && LooksFree(k, slot) && p in k.live
    ensures k.live[p] != slot
  {
    assert Placed(k, l, p);
  }

  lemma WindowsApart(i: nat, j: nat)
    requires i < SLOTS && j < SLOTS && i != j
    ensures SlotBase(i) + PROGRAM <= SlotBase(j) || SlotBase(j) + PROGRAM <= SlotBase(i)
    ensures SlotBase(i) >= 0x300000 && SlotBase(i) + PROGRAM <= MEMORY
  {
  }

  // ----- page isolation -----

  lemma EntryFlags(c: Config, page: nat, a: nat, b: nat, x: nat, y: nat)
    ensures Flags(PageEntry(c, page, a, b, x, y)) == 7 || Flags(PageEntry(c, page, a, b, x, y)) == 3
    ensures Flags(PageEntry(c, page, a, b, x, y)) == 3 <==>
            !(page * 4096 + 4096 > c.roStart && page * 4096 < c.roEnd) && !Overlaps(page, a, b) && !Overlaps(page, x, y)
  {
    assert (page * 4096 + 7) % 4096 == 7 && (page * 4096 + 3) % 4096 == 3;
  }

  /** No page of a live program's window is user-accessible in another live program's table. */
  lemma WindowPrivate(k: Kernel, l: Layout, p: int, q: int, page: nat)
    requires LaidOut(l) && Safe(k, l) && p in k.live && q in k.live && p != q
    requires SlotBase(k.live[p]) <= page * 4096 < SlotBase(k.live[p]) + PROGRAM
    ensures 0 <= k.sched.tasks[q].space < MAX_SPACES && page < |k.sched.tables[k.sched.tasks[q].space]|
    ensures Flags(k.sched.tables[k.sched.tasks[q].space][page]) == 3
  {
    assert Placed(k, l, p) && Placed(k, l, q);
    SlotsExclusive(k, l, p, q);
    var i, j := k.live[p], k.live[q];
    WindowsApart(i, j);
    assert StackBase(l, j) + STACK <= 0x300000;
    PageOutside(page, i, j);
    EntryFlags(l.config, page, StackBase(l, j), StackBase(l, j) + STACK, SlotBase(j), SlotBase(j) + PROGRAM);
  }

  /** Its own window and its own stack are user-accessible, at their physical addresses. */
  lemma OwnPagesReachable(k: Kernel, l: Layout, p: int, page: nat)
    requires LaidOut(l) && Safe(k, l) && p in k.live && page < 1024
    requires Overlaps(page, SlotBase(k.live[p]), SlotBase(k.live[p]) + PROGRAM)
             || Overlaps(page, StackBase(l, k.live[p]), StackBase(l, k.live[p]) + STACK)
    ensures 0 <= k.sched.tasks[p].space < MAX_SPACES && page < |k.sched.tables[k.sched.tasks[p].space]|
    ensures k.sched.tables[k.sched.tasks[p].space][page] == page * 4096 + 7
  {
    assert Placed(k, l, p);
  }

  predicate InImage(c: Config, page: nat) {
    page * 4096 + 4096 > c.roStart && page * 4096 < c.roEnd
  }

  predicate OnStack(l: Layout, slot: nat, page: nat) {
    Overlaps(page, StackBase(l, slot), StackBase(l, slot) + STACK)
  }

  /** No page of a slot's stack is open in the table of another slot's program. */
  ghost predicate StacksPrivate(l: Layout) {
    forall i, j, page :: 0 <= i < SLOTS && 0 <= j < SLOTS && i != j && 0 <= page < 1024 && OnStack(l, i, page) ==>
                           Flags(ProgramTable(l, j)[page]) == 3
  }

  /** Two slots' stacks share a page exactly when the stacks are not page-aligned. */
  lemma StacksShare(l: Layout)
    ensures (exists i, j, page :: 0 <= i < j < SLOTS && OnStack(l, i, page) && OnStack(l, j, page)) <==> l.stacks % 4096 != 0
  {
    var first := l.stacks / 4096;
    if l.stacks % 4096 != 0 {
      assert OnStack(l, 0, first + 1) && OnStack(l, 1, first + 1);
    } else {
      forall i, page: nat | 0 <= i < SLOTS && OnStack(l, i, page)
        ensures page == first + i
      {
        assert l.stacks == 4096 * first;
      }
    }
  }

  /** So stacks are private exactly when they are page-aligned and share no page with the kernel image. */
  lemma StackPrivacy(l: Layout)
    requires LaidOut(l)
    ensures StacksPrivate(l) <==>
            l.stacks % 4096 == 0 && forall i, page :: 0 <= i < SLOTS && 0 <= page < 1024 && OnStack(l, i, page) ==> !InImage(l.config, page)
  {
    hide PageTable;
    StacksShare(l);
    forall j, page | 0 <= j < SLOTS && 0 <= page < 1024 && page * 4096 < l.config.heapLo
      ensures Flags(ProgramTable(l, j)[page]) == 3 <==> !InImage(l.config, page) && !OnStack(l, j, page)
    {
      LowEntry(l, j, page);
    }
    forall i, page: nat | 0 <= i < SLOTS && OnStack(l, i, page)
      ensures page < 1024 && page * 4096 < l.config.heapLo
    {
    }
    if StacksPrivate(l) {
      forall i, j, page: nat | 0 <= i < j < SLOTS && OnStack(l, i, page)
        ensures !OnStack(l, j, page)
      {
        assert Flags(ProgramTable(l, j)[page]) == 3;
      }
      forall i, page | 0 <= i < SLOTS && 0 <= page < 1024 && OnStack(l, i, page)
        ensures !InImage(l.config, page)
      {
        var j := if i == 0 then 1 else 0;
        assert Flags(ProgramTable(l, j)[page]) == 3;
      }
    }
  }

  lemma LowEntry(l: Layout, j: nat, page: nat)
    requires LaidOut(l) && j < SLOTS && page < 1024 && page * 4096 < l.config.heapLo
    ensures Flags(ProgramTable(l, j)[page]) == 3 <==> !InImage(l.config, page) && !OnStack(l, j, page)
  {
    EntryFlags(l.config, page, StackBase(l, j), StackBase(l, j) + STACK, SlotBase(j), SlotBase(j) + PROGRAM);
  }

  /** With stacks at 0x30010, the program of slot 0 can write in a page that holds the stack and arguments of slot 1. */
  lemma NeighbourStackOpen(exit: u32)
    ensures var l := Layout(Config(0x8000, 0x20000, 0x100000, 0x200000, exit), 0x30010);
      LaidOut(l) && OnStack(l, 1, 0x31) && Flags(ProgramTable(l, 0)[0x31]) == 7
  {
  }

  /** A page inside one window does not overlap another window. */
  lemma PageOutside(page: nat, i: nat, j: nat)
    requires i < SLOTS && j < SLOTS && i != j
    requires SlotBase(i) <= page * 4096 < SlotBase(i) + PROGRAM
    ensures page < 1024 && !Overlaps(page, SlotBase(j), SlotBase(j) + PROGRAM)
  {
  }

  // ----- scheduler calls -----

  /** A task active before and after a step keeps its address space, and that space its table. */
  lemma StepKeepsSpace(s: Sched, c: Config, op: SchedModel.Op, p: int)
    requires Inv(s, c) && SchedModel.Enabled(s, op) && ValidPid(s, p)
    requires ValidPid(SchedModel.Step(s, c, op).0, p)
    ensures var s' := SchedModel.Step(s, c, op).0;
      && s'.tasks[p].space == s.tasks[p].space
      && |s'.tables| == |s.tables|
      && (0 <= s.tasks[p].space < |s.tables| ==> s'.tables[s.tasks[p].space] == s.tables[s.tasks[p].space])
  {
    hide PageTable, HeapModel.Malloc, HeapModel.Free, Elect, Mailbox.Put, Mailbox.Take, Mailbox.Reset, Mailbox.MessageAt, CreateUserTask;
    match op
    case CreateUser(_, _, _, _, _, _, _) =>
      CreateKeepsSpace(s, c, op, p);
    case _ =>
  }

  lemma CreateKeepsSpace(s: Sched, c: Config, op: SchedModel.Op, p: int)
    requires Inv(s, c) && op.CreateUser? && ValidPid(s, p)
    ensures var s' := CreateUserTask(s, c, op.codeBase, op.codeSize, op.stackTop, op.stackSize).0;
      && |s'.tasks| == MAX_TASKS && s'.tasks[p] == s.tasks[p] && |s'.tables| == |s.tables|
      && (0 <= s.tasks[p].space < |s.tables| ==> s'.tables[s.tasks[p].space] == s.tables[s.tasks[p].space])
  {
    hide PageTable, HeapModel.Malloc, HeapModel.Free;
    var space := s.tasks[p].space;
    if space >= 0 {
      assert OwnsSpace(s.tasks[p], space);
      assert InUse(s.used, space);
    }
  }

  lemma CallSafe(k: Kernel, l: Layout, op: SchedModel.Op)
    requires Safe(k, l) && LaidOut(l) && ExecModel.Enabled(k, l, Call(op))
    ensures Safe(ExecModel.Step(k, l, Call(op)), l)
  {
    hide SchedModel.Step, CallMem, PageTable, Inv, HeapMemory.Represented, LowTable, ReceiveMem;
    var k' := ExecModel.Step(k, l, Call(op));
    if op.Receive? {
      ReceiveSpares(k, l, op);
      ReceiveCall(k.sched, l.config, k.mem, op);
    }
    CallBacked(k.sched, l.config, k.mem, op);
    InvFacts(k'.sched, l.config);
    forall p | p in k'.live
      ensures Placed(k', l, p)
    {
      assert Placed(k, l, p);
      StepKeepsSpace(k.sched, l.config, op, p);
      if op.Receive? {
        ReceivedWindow(k, l, op, p);
      } else {
        BelowWindows(k.mem, k'.mem, l, k.live[p]);
      }
    }
    forall p | Resident(k', p)
      ensures Tame(k', l, p)
    {
      ResidentKept(k, l, op, p);
    }
    assert Safe(k', l);
  }

  lemma ReceiveCall(s: Sched, c: Config, mem: seq<byte>, op: SchedModel.Op)
    requires Backed(s, c, mem) && SchedModel.Enabled(s, op) && op.Receive?
    ensures CallMem(s, c, mem, op) == ReceiveMem(s, mem, 0, op)
  {
  }

  /** A task of ring 3 after a call is one from before, or one just created with low windows. */
  lemma ResidentKept(k: Kernel, l: Layout, op: SchedModel.Op, p: int)
    requires Safe(k, l) && LaidOut(l) && ExecModel.Enabled(k, l, Call(op))
    requires Resident(ExecModel.Step(k, l, Call(op)), p) && WellFormed(ExecModel.Step(k, l, Call(op)).sched)
    requires Inv(ExecModel.Step(k, l, Call(op)).sched, l.config)
    ensures Tame(ExecModel.Step(k, l, Call(op)), l, p)
  {
    hide SchedModel.Step, CallMem, PageTable, HeapMemory.Represented, LowTable, ReceiveMem;
    if ValidPid(k.sched, p) {
      StepKeepsSpace(k.sched, l.config, op, p);
      assert Resident(k, p);
    } else {
      NewResident(k.sched, l, op, p);
    }
  }

  lemma NewResident(s: Sched, l: Layout, op: SchedModel.Op, p: int)
    requires LaidOut(l) && WellFormed(s) && !ValidPid(s, p) && ValidPid(SchedModel.Step(s, l.config, op).0, p)
    requires op.CreateUser? ==> LowWindows(l, op)
    ensures var s' := SchedModel.Step(s, l.config, op).0;
      && s'.tasks[p].space < MAX_SPACES && |s'.tables| == MAX_SPACES
      && (s'.tasks[p].space >= 0 ==> LowTable(l, s'.tables[s'.tasks[p].space]))
  {
    hide PageTable, LowTable, HeapModel.Malloc, HeapModel.Free, Elect, Mailbox.Put, Mailbox.Take, Mailbox.Reset, Mailbox.MessageAt, Mailbox.Valid;
    if op.CreateUser? {
      var lo := Wrap(op.stackTop - op.stackSize);
      LowTables(l, lo, Wrap(lo + op.stackSize), op.codeBase, Wrap(op.codeBase + op.codeSize));
    }
  }

  lemma LowTables(l: Layout, stackLo: nat, stackHi: nat, codeLo: nat, codeHi: nat)
    requires LaidOut(l) && stackHi <= l.config.heapLo && codeHi <= l.config.heapLo
    ensures LowTable(l, PageTable(l.config, stackLo, stackHi, codeLo, codeHi))
  {
    forall page | 0 <= page < 1024 && page * 4096 >= l.config.heapLo
      ensures Flags(PageEntry(l.config, page, stackLo, stackHi, codeLo, codeHi)) == 3
    {
      EntryFlags(l.config, page, stackLo, stackHi, codeLo, codeHi);
    }
  }

  /** A harmless receive changes no critical byte. */
  lemma DeliverSpares(k: Kernel, op: SchedModel.Op, text: seq<byte>, len: u32, sender: u32, x: nat)
    requires op.Receive? && |k.mem| == MEMORY && x < MEMORY && Critical(k, x)
    requires text != [] ==> Clear(k, op.out, |text|)
    requires op.outLen != 0 ==> Clear(k, op.outLen, 4)
    requires op.outSender != 0 ==> Clear(k, op.outSender, 4)
    ensures Deliver(k.mem, 0, op, text, len, sender)[x] == k.mem[x]
  {
    hide Critical, Le32;
  }

  lemma ReceiveSpares(k: Kernel, l: Layout, op: SchedModel.Op)
    requires Shaped(k) && op.Receive? && ReceiveClear(k, op)
    ensures HeadersSpared(k.sched, k.mem, op)
    ensures forall x :: 0 <= x < MEMORY && Critical(k, x) ==> ReceiveMem(k.sched, k.mem, 0, op)[x] == k.mem[x]
  {
    hide Deliver, Clear;
    forall x | 0 <= x < MEMORY && Critical(k, x)
      ensures ReceiveMem(k.sched, k.mem, 0, op)[x] == k.mem[x]
    {
      match Pending(k.sched)
      case None =>
      case Some(message) => DeliverSpares(k, op, message.text, |message.text|, Wrap(message.sender), x);
    }
    assert forall x :: InHeader(k.sched.blocks, x) ==> Critical(k, x);
  }

  lemma WindowStore(mem: seq<byte>, slot: nat, a: int, text: seq<byte>)
    requires |mem| == MEMORY && slot < SLOTS
    ensures Window(StoreBytes(mem, a, text), slot) == StoreBytes(Window(mem, slot), a - SlotBase(slot), text)
  {
    var m, w := StoreBytes(mem, a, text), StoreBytes(Window(mem, slot), a - SlotBase(slot), text);
    forall i | 0 <= i < PROGRAM
      ensures Window(m, slot)[i] == w[i]
    {
      assert Window(mem, slot)[i] == mem[SlotBase(slot) + i];
    }
  }

  lemma WindowDeliver(mem: seq<byte>, slot: nat, op: SchedModel.Op, text: seq<byte>, len: u32, sender: u32)
    requires |mem| == MEMORY && slot < SLOTS && op.Receive?
    ensures Window(Deliver(mem, 0, op, text, len, sender), slot) == Deliver(Window(mem, slot), SlotBase(slot), op, text, len, sender)
  {
    hide Le32, StoreBytes, Window;
    var m1 := StoreBytes(mem, op.out, text);
    WindowStore(mem, slot, op.out, text);
    var m2 := if op.outLen != 0 then StoreBytes(m1, op.outLen, Le32(len)) else m1;
    WindowStore(m1, slot, op.outLen, Le32(len));
    WindowStore(m2, slot, op.outSender, Le32(sender));
  }

  /** After a harmless receive every live window is what the observer says: the receiver's own with the stores. */
  lemma ReceivedWindow(k: Kernel, l: Layout, op: SchedModel.Op, p: int)
    requires Safe(k, l) && op.Receive? && ReceiveClear(k, op) && p in k.live && Placed(k, l, p)
    ensures p in Received(k, op) && Window(ReceiveMem(k.sched, k.mem, 0, op), k.live[p]) == Received(k, op)[p]
  {
    hide Deliver, Critical, Clear, ProgramTable, Inv, HeapMemory.Represented, LowTable;
    var slot, m := k.live[p], ReceiveMem(k.sched, k.mem, 0, op);
    if p == k.sched.current {
      if Pending(k.sched).Some? {
        var message := Pending(k.sched).value;
        WindowDeliver(k.mem, slot, op, message.text, |message.text|, Wrap(message.sender));
      }
    } else {
      ReceiveSpares(k, l, op);
      forall x | SlotBase(slot) <= x < SlotBase(slot) + PROGRAM
        ensures m[x] == k.mem[x]
      {
        WindowCritical(k, p, x);
      }
      assert Window(m, slot) == Window(k.mem, slot);
    }
  }

  lemma WindowCritical(k: Kernel, p: int, x: int)
    requires p in k.live && p != k.sched.current && SlotBase(k.live[p]) <= x < SlotBase(k.live[p]) + PROGRAM && k.live[p] < SLOTS
    ensures Critical(k, x) && 0 <= x < MEMORY
  {
  }

  /** Writes in the heap reach no window. */
  lemma BelowWindows(mem: seq<byte>, m: seq<byte>, l: Layout, slot: nat)
    requires LaidOut(l) && |mem| == MEMORY && slot < SLOTS && HeapMemory.SameOutside(mem, m, l.config.heapLo, l.config.heapHi)
    ensures |m| == MEMORY && Window(m, slot) == Window(mem, slot)
  {
  }

  // ----- exec -----

  ghost predicate SameBut(mem: seq<byte>, m: seq<byte>, slot: nat) {
    && |mem| == MEMORY && |m| == MEMORY
    && forall a :: 0x300000 <= a < MEMORY && !(SlotBase(slot) <= a < SlotBase(slot) + PROGRAM) ==> m[a] == mem[a]
  }

  lemma OtherWindow(mem: seq<byte>, m: seq<byte>, slot: nat, other: nat)
    requires slot < SLOTS && other < SLOTS && slot != other && SameBut(mem, m, slot)
    ensures Window(m, other) == Window(mem, other)
  {
    WindowsApart(slot, other);
  }

  /** Heap headers, start frame, arguments, image: above 0x300000 exec writes only in the chosen slot's window. */
  lemma ExecMemory(k: Kernel, l: Layout, file: Option<seq<byte>>, args: seq<seq<byte>>)
    requires Sound(k, l) && LaidOut(l) && Runnable(file) && |args| <= ArgvModel.MAX_ARGS && FindSlot(k) < SLOTS
    ensures |Exec(k, l, file, args).0.mem| == MEMORY && SameBut(k.mem, Exec(k, l, file, args).0.mem, FindSlot(k))
    ensures Backed(Exec(k, l, file, args).0.sched, l.config, Exec(k, l, file, args).0.mem)
  {
    hide ElfModel.Load, ElfModel.Exact, Prepared, CreateUserTask, CreateUserMem, Backed;
    var slot := FindSlot(k);
    WindowsApart(slot, if slot == 0 then 1 else 0);
    ClearedBacked(k, l, slot);
    if file.Some? {
      var (loaded, entry) := ElfModel.Load(Zeroed(k.mem, slot), file.value, SlotBase(slot), PROGRAM, LINK_BASE);
      ElfTheorem.LoadFrame(Zeroed(k.mem, slot), file.value, SlotBase(slot), PROGRAM, LINK_BASE);
      KeptBacked(k, l, loaded);
      if entry.Some? {
        PreparedBacked(k, l, slot, file.value, args);
        var m := Prepared(k.mem, l, slot, file.value, args);
        CreatedBacked(k.sched, l, m, slot, entry.value, |args|);
        forall a | 0x300000 <= a < MEMORY && !(SlotBase(slot) <= a < SlotBase(slot) + PROGRAM)
          ensures m[a] == k.mem[a]
        {
          PreparedFrame(k.mem, l, slot, file.value, args, a);
        }
      }
    }
  }

  /** Memory that changes only above 0x300000 still holds the heap. */
  lemma KeptBacked(k: Kernel, l: Layout, m: seq<byte>)
    requires Sound(k, l) && LaidOut(l) && |m| == MEMORY && forall a :: 0 <= a < 0x300000 ==> m[a] == k.mem[a]
    ensures Backed(k.sched, l.config, m)
  {
    HeapMemory.OutsideStores(k.mem, m, k.sched.blocks, l.config.heapLo, l.config.heapHi);
  }

  lemma ClearedBacked(k: Kernel, l: Layout, slot: nat)
    requires Sound(k, l) && LaidOut(l) && slot < SLOTS
    ensures Backed(k.sched, l.config, Zeroed(k.mem, slot))
  {
    hide Backed;
    var m := Zeroed(k.mem, slot);
    forall a | 0 <= a < 0x300000
      ensures m[a] == k.mem[a]
    {
      assert !(SlotBase(slot) <= a < SlotBase(slot) + PROGRAM);
    }
    KeptBacked(k, l, m);
  }

  lemma CreatedBacked(s: Sched, l: Layout, mem: seq<byte>, slot: nat, entry: u32, argc: u32)
    requires LaidOut(l) && slot < SLOTS && Backed(s, l.config, mem) && |mem| == MEMORY
    ensures var m := CreateUserMem(s, l.config, mem, StackBase(l, slot) + STACK, entry, argc, StackBase(l, slot));
            var s' := CreateUserTask(s, l.config, SlotBase(slot), PROGRAM, StackBase(l, slot) + STACK, STACK).0;
      Backed(s', l.config, m) && HeapMemory.SameOutside(mem, m, l.config.heapLo, l.config.heapHi)
  {
    hide Inv, HeapMemory.Represented, CreateUserMem, PageTable, HeapModel.Malloc, HeapModel.Free;
    CreateUserMemBacked(s, l.config, mem, SlotBase(slot), PROGRAM, StackBase(l, slot) + STACK, STACK, entry, argc, StackBase(l, slot));
    CreateUserKeeps(s, l.config, SlotBase(slot), PROGRAM, StackBase(l, slot) + STACK, STACK);
    InvFacts(s, l.config);
    var op := SchedModel.CreateUser(SlotBase(slot), PROGRAM, StackBase(l, slot) + STACK, STACK, entry, argc, StackBase(l, slot));
    SchedStacks.StepRoomy(s, l.config, op);
  }

  /** On success the new program gets an inactive task and a fresh directory holding its own table. */
  lemma NewProgram(s: Sched, l: Layout, slot: nat)
    requires Inv(s, l.config) && LaidOut(l) && slot < SLOTS
    ensures var (s', pid) := CreateUserTask(s, l.config, SlotBase(slot), PROGRAM, StackBase(l, slot) + STACK, STACK);
      pid >= 0 ==>
        && pid < MAX_TASKS && !s.tasks[pid].active && |s'.tasks| == MAX_TASKS && s'.tasks[pid].active
        && |s'.tables| == MAX_SPACES && 0 <= s'.tasks[pid].space < MAX_SPACES
        && s'.tables[s'.tasks[pid].space] == ProgramTable(l, slot)
  {
    hide HeapModel.Malloc, HeapModel.Free, PageTable;
  }

  /** Creation activates no task but the one it returns. */
  lemma OnlyPid(s: Sched, l: Layout, slot: nat, p: int)
    requires WellFormed(s)
    ensures var (s', pid) := CreateUserTask(s, l.config, SlotBase(slot), PROGRAM, StackBase(l, slot) + STACK, STACK);
      ValidPid(s', p) && p != pid ==> ValidPid(s, p)
  {
    hide HeapModel.Malloc, HeapModel.Free, PageTable;
  }

  lemma ExecSafe(k: Kernel, l: Layout, file: Option<seq<byte>>, args: seq<seq<byte>>)
    requires Safe(k, l) && LaidOut(l) && Runnable(file) && |args| <= ArgvModel.MAX_ARGS
    ensures Safe(Exec(k, l, file, args).0, l)
  {
    var slot := FindSlot(k);
    if slot < SLOTS {
      ExecMemory(k, l, file, args);
      ExecPlaces(k, l, file, args, slot);
    }
  }

  lemma ExecPlaces(k: Kernel, l: Layout, file: Option<seq<byte>>, args: seq<seq<byte>>, slot: nat)
    requires Safe(k, l) && LaidOut(l) && Runnable(file) && |args| <= ArgvModel.MAX_ARGS && slot == FindSlot(k) < SLOTS
    requires |Exec(k, l, file, args).0.mem| == MEMORY && SameBut(k.mem, Exec(k, l, file, args).0.mem, slot)
    requires Backed(Exec(k, l, file, args).0.sched, l.config, Exec(k, l, file, args).0.mem)
    ensures Safe(Exec(k, l, file, args).0, l)
  {
    hide ElfModel.Load, ElfModel.Exact, Prepared, CreateUserTask, CreateUserMem, Inv, HeapMemory.Represented, SameBut, ProgramTable, Zeroed, Tame;
    var (k', pid) := Exec(k, l, file, args);
    var create := SchedModel.CreateUser(SlotBase(slot), PROGRAM, StackBase(l, slot) + STACK, STACK, 0, 0, 0);
    var s := CreateUserTask(k.sched, l.config, SlotBase(slot), PROGRAM, StackBase(l, slot) + STACK, STACK).0;
    InvFacts(k'.sched, l.config);
    NewProgram(k.sched, l, slot);
    forall p | p in k'.live
      ensures Placed(k', l, p)
    {
      if p in k.live {
        assert Placed(k, l, p);
        CreateKeepsSpace(k.sched, l.config, create, p);
        FreeSlotUnused(k, l, slot, p);
        OtherWindow(k.mem, k'.mem, slot, k.live[p]);
      }
    }
    forall p | Resident(k', p)
      ensures Tame(k', l, p)
    {
      ExecResident(k, l, file, args, slot, p);
    }
    assert Safe(k', l);
  }

  lemma ExecResident(k: Kernel, l: Layout, file: Option<seq<byte>>, args: seq<seq<byte>>, slot: nat, p: int)
    requires Safe(k, l) && LaidOut(l) && Runnable(file) && |args| <= ArgvModel.MAX_ARGS && slot == FindSlot(k) < SLOTS
    requires Shaped(Exec(k, l, file, args).0) && Resident(Exec(k, l, file, args).0, p)
    ensures Tame(Exec(k, l, file, args).0, l, p)
  {
    hide ElfModel.Load, ElfModel.Exact, Prepared, CreateUserTask, CreateUserMem, HeapMemory.Represented, Placed, LowTable, Zeroed;
    var create := SchedModel.CreateUser(SlotBase(slot), PROGRAM, StackBase(l, slot) + STACK, STACK, 0, 0, 0);
    OnlyPid(k.sched, l, slot, p);
    CreateKeepsSpace(k.sched, l.config, create, p);
    assert Resident(k, p);
  }

  // ----- stores and runs -----

  /** Where the page tables let a task of ring 3 store: below the heap, or in its own window. */
  lemma ReachedAddress(k: Kernel, l: Layout, a: nat)
    requires Safe(k, l) && LaidOut(l) && Reaches(k, a)
    ensures || a < l.config.heapLo
            || (k.sched.current in k.live && k.live[k.sched.current] < SLOTS
                && SlotBase(k.live[k.sched.current]) <= a < SlotBase(k.live[k.sched.current]) + PROGRAM)
  {
    hide Backed, ProgramTable;
    var me, page := k.sched.current, a / 4096;
    if me in k.live {
      assert Placed(k, l, me);
      var slot := k.live[me];
      OpenPage(l, slot, page);
      PageBounds(l, slot, page, a);
    } else {
      assert Resident(k, me);
      assert Tame(k, l, me);
      BelowHeap(l, page, a);
    }
  }

  lemma OpenPage(l: Layout, slot: nat, page: nat)
    requires LaidOut(l) && slot < SLOTS && page < 1024 && Flags(ProgramTable(l, slot)[page]) == 7
    ensures page * 4096 < l.config.heapLo || Overlaps(page, SlotBase(slot), SlotBase(slot) + PROGRAM)
  {
    EntryFlags(l.config, page, StackBase(l, slot), StackBase(l, slot) + STACK, SlotBase(slot), SlotBase(slot) + PROGRAM);
  }

  lemma PageBounds(l: Layout, slot: nat, page: nat, a: nat)
    requires LaidOut(l) && slot < SLOTS && page == a / 4096
    requires page * 4096 < l.config.heapLo || Overlaps(page, SlotBase(slot), SlotBase(slot) + PROGRAM)
    ensures a < l.config.heapLo || SlotBase(slot) <= a < SlotBase(slot) + PROGRAM
  {
    if page * 4096 < l.config.heapLo {
      BelowHeap(l, page, a);
    }
  }

  lemma BelowHeap(l: Layout, page: nat, a: nat)
    requires LaidOut(l) && page == a / 4096 && page * 4096 < l.config.heapLo
    ensures a < l.config.heapLo
  {
    var h := l.config.heapLo / 4096;
    assert l.config.heapLo == 4096 * h;
    assert page < h;
  }

  /** A store the page tables allow changes no heap header and no other program's window. */
  lemma StoreSafe(k: Kernel, l: Layout, a: nat, v: byte)
    requires Safe(k, l) && LaidOut(l) && ExecModel.Enabled(k, l, Store(a, v))
    ensures Safe(ExecModel.Step(k, l, Store(a, v)), l)
  {
    hide Inv, ProgramTable, HeapMemory.Represented, LowTable, Reaches;
    var k' := ExecModel.Step(k, l, Store(a, v));
    var me := k.sched.current;
    ReachedAddress(k, l, a);
    StoreIsBytes(k.mem, a, v);
    KeptHeap(k, l, a, v);
    forall p | p in k'.live
      ensures Placed(k', l, p)
    {
      assert Placed(k, l, p);
      WindowStore(k.mem, k.live[p], a, [v]);
      if p != me {
        NotInOther(k, l, p, a);
        NoStore(Window(k.mem, k.live[p]), a - SlotBase(k.live[p]), v);
      }
    }
    forall p | Resident(k', p)
      ensures Tame(k', l, p)
    {
      assert Resident(k, p);
    }
    assert Safe(k', l);
  }

  lemma StoreIsBytes(mem: seq<byte>, a: nat, v: byte)
    requires a < |mem|
    ensures mem[a := v] == StoreBytes(mem, a, [v])
  {
  }

  lemma NoStore(w: seq<byte>, a: int, v: byte)
    requires !(0 <= a < |w|)
    ensures StoreBytes(w, a, [v]) == w
  {
  }

  lemma KeptHeap(k: Kernel, l: Layout, a: nat, v: byte)
    requires Sound(k, l) && LaidOut(l) && a < MEMORY && (a < l.config.heapLo || a >= 0x300000)
    ensures Backed(k.sched, l.config, k.mem[a := v])
  {
    HeapMemory.OutsideStores(k.mem, k.mem[a := v], k.sched.blocks, l.config.heapLo, l.config.heapHi);
  }

  lemma NotInOther(k: Kernel, l: Layout, p: int, a: nat)
    requires Safe(k, l) && LaidOut(l) && Reaches(k, a) && p in k.live && p != k.sched.current
    ensures k.live[p] < SLOTS && !(SlotBase(k.live[p]) <= a < SlotBase(k.live[p]) + PROGRAM)
  {
    assert Placed(k, l, p);
    ReachedAddress(k, l, a);
    if a >= l.config.heapLo {
      SlotsExclusive(k, l, p, k.sched.current);
      WindowsApart(k.live[p], k.live[k.sched.current]);
    }
  }

  lemma StackStoreSafe(k: Kernel, l: Layout, a: nat, v: byte)
    requires Safe(k, l) && LaidOut(l) && ExecModel.Enabled(k, l, StackStore(a, v))
    ensures Safe(ExecModel.Step(k, l, StackStore(a, v)), l)
  {
    hide Backed, ProgramTable;
    var k' := ExecModel.Step(k, l, StackStore(a, v));
    OwnStackStore(k.sched, l.config, k.mem, k.sched.current, a, v);
    forall p | p in k'.live
      ensures Placed(k', l, p)
    {
      assert Placed(k, l, p);
      BelowWindows(k.mem, k'.mem, l, k.live[p]);
    }
    forall p | Resident(k', p)
      ensures Tame(k', l, p)
    {
      assert Resident(k, p);
    }
    assert Safe(k', l);
  }

  lemma StepSafe(k: Kernel, l: Layout, op: ExecModel.Op)
    requires Safe(k, l) && LaidOut(l) && ExecModel.Enabled(k, l, op)
    ensures Safe(ExecModel.Step(k, l, op), l)
  {
    hide Placed, Sound, Exec, CallMem;
    match op
    case Call(o) => CallSafe(k, l, o);
    case Run(file, args) => ExecSafe(k, l, file, args);
    case Store(a, v) => StoreSafe(k, l, a, v);
    case StackStore(a, v) => StackStoreSafe(k, l, a, v);
  }

  /** Boot: heap_init has written its one header, no task but the Shell exists, no slot was ever used. */
  function Start(l: Layout, ticks: u32, mem: seq<byte>): Kernel
    requires LaidOut(l) && |mem| == MEMORY
  {
    Kernel(Boot(l.config, ticks), [-1, -1, -1, -1], HeapMemory.Fresh(mem, l.config.heapLo, l.config.heapHi).mem, map[], map[])
  }

  lemma BootHeap(c: Config, ticks: u32, mem: seq<byte>)
    requires HeapMemory.Arena(c.heapLo, c.heapHi) && c.heapHi <= |mem|
    ensures var h := HeapMemory.Fresh(mem, c.heapLo, c.heapHi);
      |h.mem| == |mem| && h.blocks == Boot(c, ticks).blocks && SchedStacks.Roomy(h.blocks)
  {
    hide HeapMemory.PutHeader;
  }

  lemma BootSpaces(c: Config, ticks: u32)
    requires c.heapLo + HeapModel.HEADER <= c.heapHi
    ensures |Boot(c, ticks).tasks| == MAX_TASKS && forall p :: 0 <= p < MAX_TASKS ==> Boot(c, ticks).tasks[p].space == -1
  {
    var tasks := Boot(c, ticks).tasks;
    assert forall p :: 0 <= p < MAX_TASKS ==> tasks[p] == BlankTask(p == 0);
  }

  lemma StartSafe(l: Layout, ticks: u32, mem: seq<byte>)
    requires LaidOut(l) && |mem| == MEMORY
    ensures Safe(Start(l, ticks, mem), l)
  {
    hide Inv, HeapMemory.Represented, HeapMemory.Fresh, Boot;
    BootInv(l.config, ticks);
    InvFacts(Boot(l.config, ticks), l.config);
    HeapMemory.FreshSound(mem, l.config.heapLo, l.config.heapHi);
    BootHeap(l.config, ticks, mem);
    BootSpaces(l.config, ticks);
  }

  /** The state after `ops` from boot, or None when one of them is not enabled. */
  ghost function RunAll(l: Layout, ticks: u32, mem: seq<byte>, ops: seq<ExecModel.Op>): (r: Option<Kernel>)
    requires LaidOut(l) && |mem| == MEMORY
    ensures r.Some? ==> Safe(r.value, l)
  {
    if ops == [] then
      StartSafe(l, ticks, mem);
      Some(Start(l, ticks, mem))
    else
      var z, op := RunAll(l, ticks, mem, ops[..|ops| - 1]), ops[|ops| - 1];
      if z.Some? && ExecModel.Enabled(z.value, l, op) then
        StepSafe(z.value, l, op);
        Some(ExecModel.Step(z.value, l, op))
      else None
  }

  lemma RunStep(l: Layout, ticks: u32, mem: seq<byte>, ops: seq<ExecModel.Op>, op: ExecModel.Op)
    requires LaidOut(l) && |mem| == MEMORY
    ensures var z := RunAll(l, ticks, mem, ops);
      RunAll(l, ticks, mem, ops + [op]) ==
      if z.Some? && ExecModel.Enabled(z.value, l, op) then Some(ExecModel.Step(z.value, l, op)) else None
  {
    hide ExecModel.Step, ExecModel.Enabled, Safe;
    assert (ops + [op])[..|ops|] == ops;
  }

  /**
    Over every run from boot, with the kernel's own writes to heap and stacks in the same memory: slots
    are exclusive, each live program's window holds exactly what was loaded plus its own stores, and the
    heap's headers in memory stay those of the scheduler's block list.
  */
  lemma ProgramsIsolated(l: Layout, ticks: u32, mem: seq<byte>, ops: seq<ExecModel.Op>)
    requires LaidOut(l) && |mem| == MEMORY && RunAll(l, ticks, mem, ops).Some?
    ensures var k := RunAll(l, ticks, mem, ops).value;
      && Safe(k, l)
      && (forall p, q :: p in k.live && q in k.live && p != q ==> k.live[p] != k.live[q])
      && (forall p :: p in k.live ==> k.live[p] < SLOTS && p in k.image && Window(k.mem, k.live[p]) == k.image[p])
      && HeapMemory.Represented(k.mem, k.sched.blocks, l.config.heapLo, l.config.heapHi)
  {
    hide RunAll, Inv, HeapMemory.Represented;
    var k := RunAll(l, ticks, mem, ops).value;
    forall p, q | p in k.live && q in k.live && p != q
      ensures k.live[p] != k.live[q]
    {
      SlotsExclusive(k, l, p, q);
    }
    assert forall p :: p in k.live ==> Placed(k, l, p);
  }
}
