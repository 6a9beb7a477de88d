/** What a program finds when exec_run has started it: its code in its slot, its registers, its arguments. */
module ExecLaunch {
  import opened Bytes
  import opened SchedModel
  import opened SchedMemory
  import opened ExecModel
  import ElfModel
  import ElfTheorem
  import ElfRelocation
  import ArgvModel
  import HeapModel
  import HeapMemory
  import TaskFrame
  import ExecSafety
  import SchedOwnership
  import SchedStacks
  import SchedCalls
  import ElfFile

  /** A part held by memory is held by any memory with the same window. */
  lemma HoldsKept(mem: seq<byte>, m: seq<byte>, base: nat, w: seq<byte>, q: ElfRelocation.Part)
    requires |m| == |mem| && q.off + q.memsz <= PROGRAM && q.filesz <= q.memsz
    requires forall a :: base <= a < base + PROGRAM && a < |mem| ==> m[a] == mem[a]
    ensures ElfRelocation.Holds(mem, base, w, q) <==> ElfRelocation.Holds(m, base, w, q)
  {
  }

  /** After a successful load, the memory exec leaves has the loaded window. */
  lemma WindowLoaded(k: Kernel, l: Layout, image: seq<byte>, args: seq<seq<byte>>, slot: nat)
    requires Sound(k, l) && LaidOut(l) && Runnable(Some(image)) && |args| <= ArgvModel.MAX_ARGS && slot == FindSlot(k) < SLOTS
    requires ElfModel.Load(Zeroed(k.mem, slot), image, SlotBase(slot), PROGRAM, LINK_BASE).1.Some?
    ensures var m, loaded := Exec(k, l, Some(image), args).0.mem, ElfModel.Load(Zeroed(k.mem, slot), image, SlotBase(slot), PROGRAM, LINK_BASE).0;
      |m| == MEMORY && forall a :: SlotBase(slot) <= a < SlotBase(slot) + PROGRAM ==> m[a] == loaded[a]
  {
    hide ElfModel.Load, ElfModel.Exact, ArgvModel.Build, CreateUserTask, CreateUserMem, Backed;
    var (loaded, entry) := ElfModel.Load(Zeroed(k.mem, slot), image, SlotBase(slot), PROGRAM, LINK_BASE);
    ArgvModel.BuildFrame(loaded, StackBase(l, slot), args, 0, ArgvModel.Table(|args|));
    PreparedBacked(k, l, slot, image, args);
    ExecSafety.CreatedBacked(k.sched, l, Prepared(k.mem, l, slot, image, args), slot, entry.value, |args|);
  }

  /**
    A file linked once at 0x300000 is, in whatever slot it lands, what linking at that slot would give,
    exactly when the slot is the first or no relocation refers to an absolute symbol.
  */
  lemma ExecLoads(k: Kernel, l: Layout, image: seq<byte>, o: ElfRelocation.Object, args: seq<seq<byte>>)
    requires Sound(k, l) && LaidOut(l) && Runnable(Some(image)) && |args| <= ArgvModel.MAX_ARGS
    requires ElfRelocation.WellFormed(o, PROGRAM) && ElfRelocation.LinkedAt(image, o, LINK_BASE, PROGRAM)
    requires FindSlot(k) < SLOTS
    ensures var base := SlotBase(FindSlot(k));
      && (forall r :: 0 <= r < |o.relocs| ==> o.relocs[r].site + 4 <= |o.bytes|)
      && ((forall i :: 0 <= i < |o.parts| ==>
             ElfRelocation.Holds(Exec(k, l, Some(image), args).0.mem, base, ElfRelocation.Link(o.bytes, o.relocs, base), o.parts[i]))
          <==> ElfRelocation.AllMovable(o.relocs, LINK_BASE, base))
  {
    hide ElfModel.Load, Exec, ElfRelocation.Link, ElfRelocation.LinkedAt, ElfModel.Exact, Backed, ElfRelocation.WellFormed,
         ElfRelocation.Holds, ElfRelocation.AllMovable, ElfRelocation.SitesApart;
    var slot := FindSlot(k);
    var base, cleared := SlotBase(slot), Zeroed(k.mem, slot);
    ElfTheorem.Basics(o, PROGRAM);
    ElfTheorem.LoadIsLink(cleared, image, o, base, LINK_BASE, PROGRAM);
    var loaded, w := ElfModel.Load(cleared, image, base, PROGRAM, LINK_BASE).0, ElfRelocation.Link(o.bytes, o.relocs, base);
    WindowLoaded(k, l, image, args, slot);
    var m := Exec(k, l, Some(image), args).0.mem;
    forall i | 0 <= i < |o.parts|
      ensures ElfRelocation.Holds(loaded, base, w, o.parts[i]) <==> ElfRelocation.Holds(m, base, w, o.parts[i])
    {
      HoldsKept(loaded, m, base, w, o.parts[i]);
    }
  }

  /** The registers of a new program, and the stack it starts on. */
  function FirstContext(l: Layout, slot: nat, entry: u32, argc: u32): TaskFrame.Context
    requires LaidOut(l) && slot < SLOTS
  {
    TaskFrame.Context(TaskFrame.Registers(0, 0, 0, argc, 0, StackBase(l, slot), 0), entry,
                      TaskFrame.USER_CODE, TaskFrame.EFLAGS, StackBase(l, slot) + STACK, TaskFrame.USER_DATA)
  }

  /** A created user task is resumed from the frame pushed on its stack. */
  lemma CreatedStarts(s: Sched, l: Layout, mem: seq<byte>, slot: nat, entry: u32, argc: u32)
    requires LaidOut(l) && slot < SLOTS && Backed(s, l.config, mem) && |mem| == MEMORY
    ensures var m := CreateUserMem(s, l.config, mem, StackBase(l, slot) + STACK, entry, argc, StackBase(l, slot));
            var (s', pid) := CreateUserTask(s, l.config, SlotBase(slot), PROGRAM, StackBase(l, slot) + STACK, STACK);
      pid >= 0 ==>
        && pid < |s'.tasks| && s'.tasks[pid].esp + USER_FRAME <= MEMORY
        && s'.tasks[pid].stackBase != 0 && s'.tasks[pid].esp + USER_FRAME == s'.tasks[pid].stackBase + STACK_SIZE
        && TaskFrame.ResumeUser(m, s'.tasks[pid].esp) == FirstContext(l, slot, entry, argc)
  {
    hide SchedOwnership.Inv, HeapMemory.Represented, HeapMemory.AllocMem, HeapModel.Malloc, HeapModel.Free, PageTable, TaskFrame.Pushed, TaskFrame.ResumeUser;
    InvFacts(s, l.config);
    if HasSlot(s) && FreeSpace(s.used) < |s.used| {
      var base := HeapModel.Malloc(s.blocks, STACK_SIZE).1.value;
      StackInside(s.blocks, l.config.heapLo, l.config.heapHi);
      var m1 := HeapMemory.AllocMem(mem, s.blocks, STACK_SIZE, l.config.heapLo, l.config.heapHi);
      TaskFrame.UserStarts(m1, base, entry, StackBase(l, slot) + STACK, argc, StackBase(l, slot));
    }
  }

  /**
    From the command line to the first instruction: when exec_run succeeds, resuming the new task at its
    saved ESP starts the program at its entry point as loaded in its slot, on its own stack, with the
    number of words in EBX and, in ECX, a table through which each word is readable, NULL after them.
  */
  lemma ProgramStarts(k: Kernel, l: Layout, image: seq<byte>, o: ElfRelocation.Object, line: seq<byte>)
    requires Sound(k, l) && LaidOut(l) && Runnable(Some(image)) && |line| <= 255
    requires ElfRelocation.WellFormed(o, PROGRAM) && ElfRelocation.LinkedAt(image, o, LINK_BASE, PROGRAM)
    ensures var args := ArgvModel.Take8(ArgvModel.Words(line));
            var slot, (k', pid) := FindSlot(k), Exec(k, l, Some(image), args);
      pid >= 0 ==>
        && slot < SLOTS && |k'.mem| == MEMORY && pid < |k'.sched.tasks| && k'.sched.tasks[pid].esp + USER_FRAME <= MEMORY
        && k'.sched.tasks[pid].stackBase != 0 && k'.sched.tasks[pid].esp + USER_FRAME == k'.sched.tasks[pid].stackBase + STACK_SIZE
        && TaskFrame.ResumeUser(k'.mem, k'.sched.tasks[pid].esp) == FirstContext(l, slot, Wrap(SlotBase(slot) + o.entry), |args|)
        && (forall j :: 0 <= j < |args| ==> ArgvModel.Readable(k'.mem, StackBase(l, slot), args, j, ArgvModel.OffsetOf(args, j)))
        && Get32(k'.mem, StackBase(l, slot) + 4 * |args|) == 0
  {
    hide ElfModel.Load, ElfModel.Exact, ElfRelocation.Link, ElfRelocation.LinkedAt, ElfRelocation.WellFormed, Backed, Get32, Wrap, Zeroed,
         ElfRelocation.Holds, ElfRelocation.AllMovable, ElfRelocation.SameOutside, FirstContext, ArgvModel.Room,
         ArgvModel.Build, ArgvModel.Words, ArgvModel.Take8, ArgvModel.Readable, CreateUserTask, CreateUserMem, TaskFrame.ResumeUser;
    var args, slot := ArgvModel.Take8(ArgvModel.Words(line)), FindSlot(k);
    FewWords(line);
    if slot < SLOTS {
      var cleared, area := Zeroed(k.mem, slot), StackBase(l, slot);
      ElfTheorem.LoadIsLink(cleared, image, o, SlotBase(slot), LINK_BASE, PROGRAM);
      var (loaded, entry) := ElfModel.Load(cleared, image, SlotBase(slot), PROGRAM, LINK_BASE);
      ArgvModel.ArgumentsDelivered(loaded, area, line);
      var built := Prepared(k.mem, l, slot, image, args);
      PreparedBacked(k, l, slot, image, args);
      ExecSafety.CreatedBacked(k.sched, l, built, slot, entry.value, |args|);
      CreatedStarts(k.sched, l, built, slot, entry.value, |args|);
      var m := CreateUserMem(k.sched, l.config, built, area + STACK, entry.value, |args|, area);
      forall j | 0 <= j < |args|
        ensures ArgvModel.Readable(m, area, args, j, ArgvModel.OffsetOf(args, j))
      {
        TaskFrame.StillReadable(built, m, area, args, j, ArgvModel.OffsetOf(args, j), l.config.heapLo, l.config.heapHi);
      }
      ArgvModel.WordKept(built, m, area + 4 * |args|);
    }
  }

  lemma FewWords(line: seq<byte>)
    ensures |ArgvModel.Take8(ArgvModel.Words(line))| <= ArgvModel.MAX_ARGS
  {
  }

  // ----- when exec_run succeeds, and what it records -----

  /** Some load slot was never used, or its recorded task is no longer active. */
  ghost predicate LoadSlotAvailable(k: Kernel) {
    exists i :: 0 <= i < |k.slotPid| && (k.slotPid[i] < 0 || !ValidPid(k.sched, k.slotPid[i]))
  }

  lemma SlotOffered(k: Kernel)
    requires |k.slotPid| == SLOTS
    ensures LoadSlotAvailable(k) <==> FindSlot(k) < SLOTS
  {
    if i :| 0 <= i < |k.slotPid| && (k.slotPid[i] < 0 || !ValidPid(k.sched, k.slotPid[i])) {
      assert LooksFree(k, i);
    }
    assert FindSlot(k) < SLOTS ==> LooksFree(k, FindSlot(k));
  }

  /**
    exec_run starts a program exactly when a load slot is available, the file was read and is an acceptable
    ELF file, and a task slot, a stack and a directory are available, whatever the arguments.
  */
  lemma ExecExact(k: Kernel, l: Layout, file: Option<seq<byte>>, args: seq<seq<byte>>)
    requires Sound(k, l) && LaidOut(l) && Runnable(file) && |args| <= ArgvModel.MAX_ARGS
    ensures var pid := Exec(k, l, file, args).1;
      && -1 <= pid < MAX_TASKS
      && (pid >= 0 <==>
            && LoadSlotAvailable(k) && file.Some? && ElfFile.Accepted(file.value, 0x300000, 0x20000)
            && SchedCalls.SlotAvailable(k.sched.tasks) && SchedCalls.StackAvailable(k.sched.blocks)
            && SchedCalls.DirectoryAvailable(k.sched.used))
  {
    hide ElfModel.Load, ElfModel.Exact, ElfFile.Accepted, Prepared, CreateUserTask, CreateUserMem, HeapMemory.Represented, SchedStacks.Roomy,
         SchedCalls.SlotAvailable, SchedCalls.StackAvailable, SchedCalls.DirectoryAvailable, SchedOwnership.Inv, Zeroed;
    var slot := FindSlot(k);
    SlotOffered(k);
    if slot < SLOTS && file.Some? {
      ElfFile.AcceptedExact(Zeroed(k.mem, slot), file.value, SlotBase(slot), PROGRAM, LINK_BASE);
      SchedCalls.CreateUserExact(k.sched, l.config, SlotBase(slot), PROGRAM, StackBase(l, slot) + STACK, STACK);
    }
  }

  /**
    On success the new task is born in the lowest task slot with the two windows mapped, and exactly the lowest
    available load slot records it. On failure no task, directory, live block or record changes.
  */
  lemma ExecRecords(k: Kernel, l: Layout, file: Option<seq<byte>>, args: seq<seq<byte>>)
    requires Sound(k, l) && LaidOut(l) && Runnable(file) && |args| <= ArgvModel.MAX_ARGS
    ensures var (k', pid) := Exec(k, l, file, args);
      && (pid < 0 ==>
            && k'.slotPid == k.slotPid && k'.live == k.live && k'.sched == k.sched.(blocks := k'.sched.blocks)
            && HeapModel.Live(k'.sched.blocks) == HeapModel.Live(k.sched.blocks))
      && (pid >= 0 ==>
            && pid < |k'.sched.tasks| && SchedCalls.Born(k.sched, k'.sched, pid, k'.sched.tasks[pid].space, 52)
            && exists slot :: 0 <= slot < SLOTS && Recorded(k, k', l, slot, pid))
  {
    hide ElfModel.Load, ElfModel.Exact, Prepared, CreateUserTask, CreateUserMem, HeapMemory.Represented, SchedStacks.Roomy,
         SchedCalls.SlotAvailable, SchedCalls.StackAvailable, SchedCalls.DirectoryAvailable, SchedCalls.Born, SchedCalls.Mapped,
         SchedOwnership.Inv, Zeroed, HeapModel.Live;
    var slot := FindSlot(k);
    if slot < SLOTS {
      SchedCalls.CreateUserExact(k.sched, l.config, SlotBase(slot), PROGRAM, StackBase(l, slot) + STACK, STACK);
      var (k', pid) := Exec(k, l, file, args);
      forall i | 0 <= i < slot
        ensures k.slotPid[i] >= 0 && ValidPid(k.sched, k.slotPid[i])
      {
        assert !LooksFree(k, i);
      }
      assert LooksFree(k, slot);
      assert SlotBase(slot) == 0x300000 + slot * 0x30000 && StackBase(l, slot) + STACK == l.stacks + slot * 4096 + 4096;
      if pid >= 0 {
        assert Recorded(k, k', l, slot, pid);
      }
    }
  }

  /** Slot `slot` was the lowest available, records `pid`, and its windows are those mapped. */
  ghost predicate Recorded(k: Kernel, k': Kernel, l: Layout, slot: nat, pid: nat)
    requires pid < |k'.sched.tasks|
  {
    && slot < |k.slotPid| && k'.slotPid == k.slotPid[slot := pid]
    && (k.slotPid[slot] < 0 || !ValidPid(k.sched, k.slotPid[slot]))
    && (forall i :: 0 <= i < slot ==> k.slotPid[i] >= 0 && ValidPid(k.sched, k.slotPid[i]))
    && SchedCalls.Mapped(k.sched, k'.sched, l.config, k'.sched.tasks[pid].space, 0x300000 + slot * 0x30000, 0x20000,
                         l.stacks + slot * 4096 + 4096, 4096)
  }

  /** What no segment fills in the window of a started program is zero. */
  lemma WindowCleared(k: Kernel, l: Layout, image: seq<byte>, args: seq<seq<byte>>, x: nat)
    requires Sound(k, l) && LaidOut(l) && Runnable(Some(image)) && |args| <= ArgvModel.MAX_ARGS && Exec(k, l, Some(image), args).1 >= 0
    requires x < PROGRAM && ElfFile.Unlisted(image, LINK_BASE, PROGRAM, x) && ElfFile.HasPrograms(image)
    requires forall h :: 0 <= h < Get16(image, 44) && ElfFile.Loads(image, h) ==> !ElfFile.Covers(image, LINK_BASE, h, x)
    ensures FindSlot(k) < SLOTS && |Exec(k, l, Some(image), args).0.mem| == MEMORY
    ensures Exec(k, l, Some(image), args).0.mem[SlotBase(FindSlot(k)) + x] == 0
  {
    hide ElfModel.Load, ElfModel.Exact, ElfFile.Accepted, ElfFile.Unlisted, ElfFile.HasPrograms, Exec, Backed, Get16;
    ExecExact(k, l, Some(image), args);
    Started(k, l, image, args);
    var slot := FindSlot(k);
    WindowLoaded(k, l, image, args, slot);
    ElfFile.KeptByte(Zeroed(k.mem, slot), image, SlotBase(slot), PROGRAM, LINK_BASE, x);
  }

  lemma Started(k: Kernel, l: Layout, image: seq<byte>, args: seq<seq<byte>>)
    requires Sound(k, l) && LaidOut(l) && Runnable(Some(image)) && |args| <= ArgvModel.MAX_ARGS && Exec(k, l, Some(image), args).1 >= 0
    ensures FindSlot(k) < SLOTS
    ensures ElfModel.Load(Zeroed(k.mem, FindSlot(k)), image, SlotBase(FindSlot(k)), PROGRAM, LINK_BASE).1.Some?
  {
    hide ElfModel.Load, ElfModel.Exact, Prepared, CreateUserTask, CreateUserMem, Backed, Zeroed;
  }
}
