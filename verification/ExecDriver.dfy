/** exec_run as written: slot search, window clearing, loading, argument building, task creation. */
module ExecDriver {
  import opened Bytes
  import opened SchedModel
  import opened SchedMemory
  import opened ExecModel
  import ExecSafety
  import SchedDriver
  import ElfModel
  import ElfDriver
  import ArgvModel
  import ArgvDriver

  class Executor {
    const sched: SchedDriver.Scheduler
    var slotPid: seq<int>

    ghost predicate Valid()
      reads this, sched, sched.heap, sched.heap.mem
    {
      sched.heap.mem.Length == MEMORY && |slotPid| == SLOTS && sched.Valid() && WellFormed(sched.State())
    }

    /** The exec view of the state; the observer fields play no part in what exec_run does. */
    ghost function State(): (k: Kernel)
      requires Valid()
      reads this, sched, sched.heap, sched.heap.mem
      ensures Shaped(k) && Backed(k.sched, sched.config, k.mem)
    {
      Kernel(sched.State(), slotPid, sched.heap.mem[..], map[], map[])
    }

    constructor (s: SchedDriver.Scheduler)
      requires s.heap.mem.Length == MEMORY && s.Valid() && WellFormed(s.State())
      ensures Valid() && sched == s && slotPid == [-1, -1, -1, -1]
    {
      sched, slotPid := s, [-1, -1, -1, -1];
    }

    method FindFreeSlot() returns (slot: int)
      requires Valid()
      ensures slot == if FindSlot(State()) == SLOTS then -1 else FindSlot(State())
    {
      for i := 0 to SLOTS
        invariant FindSlot(State()) == FindSlot(State(), i)
      {
        var pid := slotPid[i];
        if pid < 0 || !(pid < MAX_TASKS && sched.tasks[pid].active) {
          return i;
        }
      }
      return -1;
    }

    method ClearWindow(mem: array<byte>, slot: nat)
      requires mem.Length == MEMORY && slot < SLOTS
      modifies mem
      ensures mem[..] == Zeroed(old(mem[..]), slot)
    {
      var base := SlotBase(slot);
      for i := 0 to PROGRAM
        invariant forall a :: 0 <= a < MEMORY ==> mem[a] == if base <= a < base + i then 0 else old(mem[a])
      {
        mem[base + i] := 0;
      }
    }

    method ExecRun(l: Layout, file: Option<seq<byte>>, args: seq<seq<byte>>) returns (pid: int)
      requires Valid() && l.config == sched.config && LaidOut(l) && Runnable(file) && |args| <= ArgvModel.MAX_ARGS
      modifies this, sched, sched.heap`blocks, sched.heap.mem
      ensures Valid()
      ensures pid == Exec(old(State()), l, file, args).1
      ensures var k := Exec(old(State()), l, file, args).0;
        sched.State() == k.sched && slotPid == k.slotPid && sched.heap.mem[..] == k.mem
    {
      hide ElfModel.Load, ElfModel.Exact, ArgvModel.Build, CreateUserTask, CreateUserMem, Backed;
      ghost var before := State();
      ExecValid(before, l, file, args);
      var mem := sched.heap.mem;
      var slot := FindFreeSlot();
      if slot < 0 {
        return -1;
      }
      ClearWindow(mem, slot);
      if file.None? {
        return -1;
      }
      var entry := ElfDriver.ElfLoad(mem, file.value, SlotBase(slot), PROGRAM, LINK_BASE);
      if entry.None? {
        return -1;
      }
      var table := ArgvDriver.BuildArguments(mem, StackBase(l, slot), args);
      PreparedBacked(before, l, slot, file.value, args);
      pid := sched.NewUserTask(SlotBase(slot), PROGRAM, StackBase(l, slot) + STACK, STACK, entry.value, |args|, table);
      if pid < 0 {
        return -1;
      }
      slotPid := slotPid[slot := pid];
    }
  }

  lemma ExecValid(k: Kernel, l: Layout, file: Option<seq<byte>>, args: seq<seq<byte>>)
    requires Sound(k, l) && LaidOut(l) && Runnable(file) && |args| <= ArgvModel.MAX_ARGS
    ensures var k' := Exec(k, l, file, args).0;
      Backed(k'.sched, l.config, k'.mem) && WellFormed(k'.sched) && |k'.mem| == MEMORY
  {
    hide Exec, Backed;
    if FindSlot(k) < SLOTS {
      ExecSafety.ExecMemory(k, l, file, args);
    } else {
      assert Exec(k, l, file, args).0 == k by {
        NoSlot(k, l, file, args);
      }
    }
    SchedDriver.BackedFacts(Exec(k, l, file, args).0.sched, l.config, Exec(k, l, file, args).0.mem);
  }

  lemma NoSlot(k: Kernel, l: Layout, file: Option<seq<byte>>, args: seq<seq<byte>>)
    requires Sound(k, l) && LaidOut(l) && Runnable(file) && |args| <= ArgvModel.MAX_ARGS && FindSlot(k) == SLOTS
    ensures Exec(k, l, file, args) == (k, -1)
  {
  }
}
