/**
  exec_run: load slots reused across task lifetimes, on top of the scheduler, the heap, the loader and
  the argument area, all writing in one memory. `live` is an observer: which slot each running exec'd
  program was loaded in, and `image` what its window should hold.
*/
module ExecModel {
  import opened Bytes
  import opened SchedModel
  import opened SchedMemory
  import HeapMemory
  import ElfModel
  import ElfTheorem
  import ArgvModel

  const SLOTS := 4             // MAX_EXEC_SLOTS
  const PROGRAM := 0x20000     // USER_PROG_MAX_SIZE
  const STRIDE := 0x30000
  const MEMORY := 0x400000     // the 4 MiB that are identity-mapped
  const STACK := 4096          // one exec stack per slot

  function SlotBase(slot: nat): nat {
    0x300000 + slot * STRIDE
  }

  const LINK_BASE := 0x300000

  /** Kernel layout: the scheduler's configuration and the address of exec_stacks. */
  datatype Layout = Layout(config: Config, stacks: nat)

  /** From low to high: image and exec stacks, a heap starting on a page, the load windows, as boot places them. */
  predicate LaidOut(l: Layout) {
    && HeapMemory.Arena(l.config.heapLo, l.config.heapHi) && l.config.heapHi <= 0x300000 && l.config.heapLo % 4096 == 0
    && l.config.roEnd <= l.config.heapLo && l.stacks + SLOTS * STACK <= l.config.heapLo
  }

  function StackBase(l: Layout, slot: nat): nat {
    l.stacks + slot * STACK
  }

  datatype Kernel = Kernel(sched: Sched, slotPid: seq<int>, mem: seq<byte>,
                           live: map<int, nat>, image: map<int, seq<byte>>)

  function Window(mem: seq<byte>, slot: nat): seq<byte>
    requires |mem| == MEMORY && slot < SLOTS
  {
    mem[SlotBase(slot)..SlotBase(slot) + PROGRAM]
  }

  function ProgramTable(l: Layout, slot: nat): seq<nat> {
    PageTable(l.config, StackBase(l, slot), StackBase(l, slot) + STACK, SlotBase(slot), SlotBase(slot) + PROGRAM)
  }

  /** find_free_slot: never used, or its recorded task is no longer active. */
  predicate LooksFree(k: Kernel, slot: nat)
    requires slot < |k.slotPid|
  {
    k.slotPid[slot] < 0 || !ValidPid(k.sched, k.slotPid[slot])
  }

  function FindSlot(k: Kernel, i: nat := 0): (r: nat)
    requires i <= |k.slotPid|
    ensures i <= r <= |k.slotPid|
    ensures r < |k.slotPid| ==> LooksFree(k, r)
    ensures forall j :: i <= j < r ==> !LooksFree(k, j)
    decreases |k.slotPid| - i
  {
    if i == |k.slotPid| || LooksFree(k, i) then i else FindSlot(k, i + 1)
  }

  function Zeroed(mem: seq<byte>, slot: nat): (m: seq<byte>)
    requires |mem| == MEMORY && slot < SLOTS
    ensures |m| == MEMORY
  {
    seq(MEMORY, a requires 0 <= a < MEMORY => if SlotBase(slot) <= a < SlotBase(slot) + PROGRAM then 0 else mem[a])
  }

  predicate Shaped(k: Kernel) {
    WellFormed(k.sched) && |k.slotPid| == SLOTS && |k.mem| == MEMORY
  }

  /** A file as fs_load_file hands it over: at most one window long, and an image the loader handles exactly. */
  ghost predicate Runnable(file: Option<seq<byte>>) {
    file.Some? ==> |file.value| <= PROGRAM && ElfModel.Exact(file.value)
  }

  /** The state `exec_run` needs around it: shapes, and a heap in memory that is the scheduler's. */
  ghost predicate Sound(k: Kernel, l: Layout) {
    Shaped(k) && Backed(k.sched, l.config, k.mem)
  }

  /** Memory when the program is loaded in its slot and its arguments are laid out. */
  function Prepared(mem: seq<byte>, l: Layout, slot: nat, image: seq<byte>, args: seq<seq<byte>>): (m: seq<byte>)
    requires |mem| == MEMORY && LaidOut(l) && slot < SLOTS && ElfModel.Exact(image) && |args| <= ArgvModel.MAX_ARGS
    ensures |m| == MEMORY
  {
    ArgvModel.Build(ElfModel.Load(Zeroed(mem, slot), image, SlotBase(slot), PROGRAM, LINK_BASE).0,
                    StackBase(l, slot), args, 0, ArgvModel.Table(|args|))
  }

  /** Preparing writes in the slot's window and in its argument area, nowhere else. */
  lemma PreparedFrame(mem: seq<byte>, l: Layout, slot: nat, image: seq<byte>, args: seq<seq<byte>>, a: nat)
    requires |mem| == MEMORY && LaidOut(l) && slot < SLOTS && ElfModel.Exact(image) && |args| <= ArgvModel.MAX_ARGS
    requires a < MEMORY && !(SlotBase(slot) <= a < SlotBase(slot) + PROGRAM) && !(StackBase(l, slot) <= a < StackBase(l, slot) + STACK)
    ensures Prepared(mem, l, slot, image, args)[a] == mem[a]
  {
    hide ElfModel.Load, ElfModel.Exact, ArgvModel.Build;
    var cleared := Zeroed(mem, slot);
    ElfTheorem.LoadFrame(cleared, image, SlotBase(slot), PROGRAM, LINK_BASE);
    var loaded := ElfModel.Load(cleared, image, SlotBase(slot), PROGRAM, LINK_BASE).0;
    ArgvModel.BuildFrame(loaded, StackBase(l, slot), args, 0, ArgvModel.Table(|args|));
  }

  lemma PreparedBacked(k: Kernel, l: Layout, slot: nat, image: seq<byte>, args: seq<seq<byte>>)
    requires Sound(k, l) && LaidOut(l) && slot < SLOTS && ElfModel.Exact(image) && |args| <= ArgvModel.MAX_ARGS
    ensures Backed(k.sched, l.config, Prepared(k.mem, l, slot, image, args))
  {
    hide ElfModel.Exact, Prepared, HeapMemory.Represented;
    var m := Prepared(k.mem, l, slot, image, args);
    forall a | l.config.heapLo <= a < l.config.heapHi
      ensures m[a] == k.mem[a]
    {
      PreparedFrame(k.mem, l, slot, image, args, a);
    }
    HeapMemory.OutsideStores(k.mem, m, k.sched.blocks, l.config.heapLo, l.config.heapHi);
  }

  /** exec_run with the result of fs_load_file and the argument words; returns the pid or -1. */
  ghost function Exec(k: Kernel, l: Layout, file: Option<seq<byte>>, args: seq<seq<byte>>): (Kernel, int)
    requires Sound(k, l) && LaidOut(l) && Runnable(file) && |args| <= ArgvModel.MAX_ARGS
  {
    var slot := FindSlot(k);
    if slot == SLOTS then (k, -1)
    else if file.None? then (k.(mem := Zeroed(k.mem, slot)), -1)
    else
      var (loaded, entry) := ElfModel.Load(Zeroed(k.mem, slot), file.value, SlotBase(slot), PROGRAM, LINK_BASE);
      if entry.None? then (k.(mem := loaded), -1)
      else
        PreparedBacked(k, l, slot, file.value, args);
        var mem := CreateUserMem(k.sched, l.config, Prepared(k.mem, l, slot, file.value, args),
                                 StackBase(l, slot) + STACK, entry.value, |args|, StackBase(l, slot));
        var (s, pid) := CreateUserTask(k.sched, l.config, SlotBase(slot), PROGRAM, StackBase(l, slot) + STACK, STACK);
        if pid < 0 then (k.(sched := s, mem := mem), -1)
        else (Kernel(s, k.slotPid[slot := pid], mem, k.live[pid := slot], k.image[pid := Window(mem, slot)]), pid)
  }

  datatype Op =
    | Call(op: SchedModel.Op)
    | Run(file: Option<seq<byte>>, args: seq<seq<byte>>)
    | Store(at: nat, v: byte)
    | StackStore(at: nat, v: byte)

  /** Flag bits of a page-table entry: 7 is present, writable and open to ring 3; 3 is closed to it. */
  function Flags(entry: nat): nat {
    entry % 4096
  }

  /** The running task has its own page table, and that table lets ring 3 write at `a`. */
  predicate Reaches(k: Kernel, a: nat)
    requires Shaped(k)
  {
    var t := k.sched.tasks[k.sched.current];
    && t.active && 0 <= t.space < MAX_SPACES && a < MEMORY
    && a / 4096 < |k.sched.tables[t.space]| && Flags(k.sched.tables[t.space][a / 4096]) == 7
  }

  /** Byte `x` must not change under the running task: a heap header, or another live program's window. */
  ghost predicate Critical(k: Kernel, x: int) {
    || InHeader(k.sched.blocks, x)
    || exists p :: p in k.live && p != k.sched.current && SlotBase(k.live[p]) <= x < SlotBase(k.live[p]) + PROGRAM
  }

  /** The `n` bytes from `a` on lie in memory and none of them is critical. */
  ghost predicate Clear(k: Kernel, a: int, n: nat) {
    0 <= a && a + n <= MEMORY && forall x :: a <= x < a + n ==> !Critical(k, x)
  }

  /** The pointers given to ipc_recv are harmless for the pending message; without one they are not used. */
  ghost predicate ReceiveClear(k: Kernel, op: SchedModel.Op)
    requires Shaped(k) && op.Receive?
  {
    match Pending(k.sched)
    case None => true
    case Some(message) =>
      && (message.text != [] ==> Clear(k, op.out, |message.text|))
      && (op.outLen != 0 ==> Clear(k, op.outLen, 4))
      && (op.outSender != 0 ==> Clear(k, op.outSender, 4))
  }

  /** The windows of a user task that is not exec'd lie below the heap, as those compiled into the kernel do. */
  predicate LowWindows(l: Layout, op: SchedModel.Op)
    requires op.CreateUser?
  {
    var lo := Wrap(op.stackTop - op.stackSize);
    Wrap(lo + op.stackSize) <= l.config.heapLo && Wrap(op.codeBase + op.codeSize) <= l.config.heapLo
  }

  /**
    Calls as in the scheduler, receives with harmless pointers; exec is a kernel call too; a task of ring 3
    stores wherever its page table lets it, and any task in its own kernel stack (its interrupt frames and
    its kernel-mode locals).
  */
  ghost predicate Enabled(k: Kernel, l: Layout, op: Op) {
    && Shaped(k) && !k.sched.halted
    && match op
       case Call(o) =>
         SchedModel.Enabled(k.sched, o) && (o.Receive? ==> ReceiveClear(k, o)) && (o.CreateUser? ==> LowWindows(l, o))
       case Run(file, args) => k.sched.tasks[k.sched.current].active && Runnable(file) && |args| <= ArgvModel.MAX_ARGS
       case Store(a, _) => Reaches(k, a)
       case StackStore(a, _) =>
         var t := k.sched.tasks[k.sched.current];
         t.active && t.stackBase != 0 && t.stackBase <= a < t.stackBase + STACK_SIZE
  }

  /** Programs whose task is still active stay live. */
  function Survivors(live: map<int, nat>, s: Sched): map<int, nat> {
    map p | p in live && ValidPid(s, p) :: live[p]
  }

  /** What a receive does to the running program's own window, as far as the observer is concerned. */
  ghost function Received(k: Kernel, o: SchedModel.Op): map<int, seq<byte>>
    requires Shaped(k) && o.Receive?
  {
    var p := k.sched.current;
    if p in k.live && p in k.image then k.image[p := ReceiveMem(k.sched, k.image[p], SlotBase(k.live[p]), o)] else k.image
  }

  ghost function Step(k: Kernel, l: Layout, op: Op): Kernel
    requires LaidOut(l) && Sound(k, l) && Enabled(k, l, op)
  {
    match op
    case Call(o) =>
      var s := SchedModel.Step(k.sched, l.config, o).0;
      k.(sched := s, mem := CallMem(k.sched, l.config, k.mem, o), live := Survivors(k.live, s),
         image := if o.Receive? then Received(k, o) else k.image)
    case Run(file, args) => Exec(k, l, file, args).0
    case Store(a, v) =>
      var p := k.sched.current;
      k.(mem := k.mem[a := v],
         image := if p in k.live && p in k.image then k.image[p := StoreBytes(k.image[p], a - SlotBase(k.live[p]), [v])] else k.image)
    case StackStore(a, v) =>
      OwnStackStore(k.sched, l.config, k.mem, k.sched.current, a, v);
      k.(mem := k.mem[a := v])
  }
}
