/**
  ipc_recv stores through pointers its caller chooses. Exactly which pointers leave the heap and the other
  programs alone, and two programs one of which overwrites the other.
*/
module ExecReceive {
  import opened Bytes
  import opened SchedModel
  import opened SchedOwnership
  import opened SchedElection
  import opened SchedMemory
  import opened ExecModel
  import opened ExecSafety
  import Mailbox
  import HeapModel
  import HeapMemory
  import ElfModel
  import ElfRelocation
  import ElfTheorem
  import ElfWitness
  import ArgvModel

  /** Memory `m` still holds the heap and the window of every live program but the running one. */
  ghost predicate Undisturbed(k: Kernel, l: Layout, m: seq<byte>)
    requires Shaped(k)
  {
    && |m| == MEMORY
    && HeapMemory.Represented(m, k.sched.blocks, l.config.heapLo, l.config.heapHi)
    && forall p :: p in k.live && p != k.sched.current && k.live[p] < SLOTS ==> Window(m, k.live[p]) == Window(k.mem, k.live[p])
  }

  /** That is a condition on single bytes. */
  lemma UndisturbedBytes(k: Kernel, l: Layout, m: seq<byte>)
    requires Safe(k, l) && |m| == MEMORY
    ensures Undisturbed(k, l, m) <==> forall x :: 0 <= x < MEMORY && Critical(k, x) ==> m[x] == k.mem[x]
  {
    hide HeapMemory.Represented, Inv, LowTable, ProgramTable;
    HeaderBytes(k.mem, m, k.sched.blocks, l.config.heapLo, l.config.heapHi);
    if Undisturbed(k, l, m) {
      forall x | 0 <= x < MEMORY && Critical(k, x)
        ensures m[x] == k.mem[x]
      {
        if !InHeader(k.sched.blocks, x) {
          var p :| p in k.live && p != k.sched.current && SlotBase(k.live[p]) <= x < SlotBase(k.live[p]) + PROGRAM;
          assert Placed(k, l, p);
          var i := x - SlotBase(k.live[p]);
          assert Window(m, k.live[p])[i] == Window(k.mem, k.live[p])[i];
        }
      }
    }
    if forall x :: 0 <= x < MEMORY && Critical(k, x) ==> m[x] == k.mem[x] {
      assert forall x :: InHeader(k.sched.blocks, x) ==> Critical(k, x);
      forall p | p in k.live && p != k.sched.current && k.live[p] < SLOTS
        ensures Window(m, k.live[p]) == Window(k.mem, k.live[p])
      {
        SameWindow(k, m, p);
      }
    }
  }

  lemma SameWindow(k: Kernel, m: seq<byte>, p: int)
    requires Shaped(k) && |m| == MEMORY && p in k.live && p != k.sched.current && k.live[p] < SLOTS
    requires forall x :: 0 <= x < MEMORY && Critical(k, x) ==> m[x] == k.mem[x]
    ensures Window(m, k.live[p]) == Window(k.mem, k.live[p])
  {
    hide Critical;
    var slot := k.live[p];
    forall x | SlotBase(slot) <= x < SlotBase(slot) + PROGRAM
      ensures m[x] == k.mem[x]
    {
      WindowCritical(k, p, x);
    }
  }

  /** A store of `n` bytes is harmless whatever the bytes, if and only if it meets nothing critical. */
  lemma StoreExact(k: Kernel, l: Layout, a: nat, n: nat)
    requires Safe(k, l) && n > 0 && a + n <= MEMORY
    ensures (forall text: seq<byte> :: |text| == n ==> Undisturbed(k, l, StoreBytes(k.mem, a, text))) <==> Clear(k, a, n)
  {
    hide Critical, Placed, Backed, Tame, Undisturbed;
    if Clear(k, a, n) {
      forall text: seq<byte> | |text| == n
        ensures Undisturbed(k, l, StoreBytes(k.mem, a, text))
      {
        UndisturbedBytes(k, l, StoreBytes(k.mem, a, text));
      }
    } else {
      var x :| a <= x < a + n && Critical(k, x);
      var text := Filled(n, Other(k.mem[x]));
      UndisturbedBytes(k, l, StoreBytes(k.mem, a, text));
    }
  }

  /** A value different from `b`. */
  function Other(b: byte): (c: byte)
    ensures c != b && (c == 0 || c == 1)
  {
    if b == 0 then 1 else 0
  }

  function Filled(n: nat, b: byte): (text: seq<byte>)
    ensures |text| == n && forall i :: 0 <= i < n ==> text[i] == b
  {
    seq(n, i => b)
  }

  /** A word all of whose bytes are `b`. */
  function FilledWord(b: byte): (w: u32)
    requires b <= 1
    ensures forall i :: 0 <= i < 4 ==> Le32(w)[i] == b
  {
    if b == 0 then 0 else 0x0101_0101
  }

  /**
    The three stores of a receive are harmless for every message of `n` bytes and all values of the two
    words, if and only if none of the areas written meets a heap header or another live program's window.
  */
  lemma ReceiveExact(k: Kernel, l: Layout, op: SchedModel.Op, n: nat)
    requires Safe(k, l) && op.Receive?
    requires op.out + n <= MEMORY && op.outLen + 4 <= MEMORY && op.outSender + 4 <= MEMORY
    ensures (forall text: seq<byte>, len: u32, sender: u32 :: |text| == n ==> Undisturbed(k, l, Deliver(k.mem, 0, op, text, len, sender)))
            <==>
            && (n > 0 ==> Clear(k, op.out, n))
            && (op.outLen != 0 ==> Clear(k, op.outLen, 4)) && (op.outSender != 0 ==> Clear(k, op.outSender, 4))
  {
    hide Critical, Placed, Backed, Tame, Undisturbed, Deliver, Clear;
    if (n > 0 ==> Clear(k, op.out, n)) && (op.outLen != 0 ==> Clear(k, op.outLen, 4)) && (op.outSender != 0 ==> Clear(k, op.outSender, 4)) {
      forall text: seq<byte>, len: u32, sender: u32 | |text| == n
        ensures Undisturbed(k, l, Deliver(k.mem, 0, op, text, len, sender))
      {
        HarmlessReceive(k, l, op, text, len, sender);
      }
    } else {
      var text, len, sender := HarmfulReceive(k, l, op, n);
    }
  }

  lemma HarmlessReceive(k: Kernel, l: Layout, op: SchedModel.Op, text: seq<byte>, len: u32, sender: u32)
    requires Safe(k, l) && op.Receive? && (text != [] ==> Clear(k, op.out, |text|))
    requires (op.outLen != 0 ==> Clear(k, op.outLen, 4)) && (op.outSender != 0 ==> Clear(k, op.outSender, 4))
    ensures Undisturbed(k, l, Deliver(k.mem, 0, op, text, len, sender))
  {
    hide Critical, Undisturbed, Deliver, Clear, Placed, Backed, Tame;
    var m := Deliver(k.mem, 0, op, text, len, sender);
    forall x | 0 <= x < MEMORY && Critical(k, x)
      ensures m[x] == k.mem[x]
    {
      DeliverSpares(k, op, text, len, sender, x);
    }
    UndisturbedBytes(k, l, m);
  }

  /** The last store that meets a critical byte decides what that byte becomes. */
  lemma HarmfulReceive(k: Kernel, l: Layout, op: SchedModel.Op, n: nat) returns (text: seq<byte>, len: u32, sender: u32)
    requires Safe(k, l) && op.Receive?
    requires op.out + n <= MEMORY && op.outLen + 4 <= MEMORY && op.outSender + 4 <= MEMORY
    requires || (n > 0 && !Clear(k, op.out, n))
             || (op.outLen != 0 && !Clear(k, op.outLen, 4)) || (op.outSender != 0 && !Clear(k, op.outSender, 4))
    ensures |text| == n && !Undisturbed(k, l, Deliver(k.mem, 0, op, text, len, sender))
  {
    hide Critical, Undisturbed, Placed, Backed, Tame, Le32;
    var x: nat;
    if op.outSender != 0 && !Clear(k, op.outSender, 4) {
      x :| op.outSender <= x < op.outSender + 4 && Critical(k, x);
    } else if op.outLen != 0 && !Clear(k, op.outLen, 4) {
      x :| op.outLen <= x < op.outLen + 4 && Critical(k, x);
    } else {
      x :| op.out <= x < op.out + n && Critical(k, x);
    }
    var c := Other(k.mem[x]);
    text, len, sender := Filled(n, c), FilledWord(c), FilledWord(c);
    var m := Deliver(k.mem, 0, op, text, len, sender);
    assert m[x] == c;
    UndisturbedBytes(k, l, m);
  }

  // ----- two programs, one message -----

  /** `n` programs are running, one per slot, each with its own task, directory and stack. */
  ghost predicate Stage(k: Kernel, l: Layout, n: nat) {
    && n <= 2 && Safe(k, l) && k.sched.current == 0 && !k.sched.halted && k.sched.count == n + 1
    && (forall j :: 0 <= j < MAX_TASKS ==> k.sched.tasks[j].active == (j <= n) && !k.sched.tasks[j].sleeping
                                           && k.sched.tasks[j].priority == 0 && k.sched.tasks[j].box.count == 0)
    && (forall j :: 0 <= j < MAX_SPACES ==> k.sched.used[j] == (j < n))
    && (forall j :: 0 <= j < SLOTS ==> k.slotPid[j] == if j < n then j + 1 else -1)
    && (forall p :: p in k.live <==> 1 <= p <= n) && (forall p :: 1 <= p <= n ==> k.live[p] == p - 1)
    && |k.sched.blocks| == n + 1 && (forall j :: 0 <= j < n ==> !k.sched.blocks[j].free)
    && k.sched.blocks[n].free && k.sched.blocks[n].size >= (3 - n) * 0x1400
  }

  lemma StageZero(l: Layout, ticks: u32, mem: seq<byte>)
    requires LaidOut(l) && |mem| == MEMORY && l.config.heapHi - l.config.heapLo >= 0x10000
    ensures Stage(Start(l, ticks, mem), l, 0)
  {
    hide Safe, HeapMemory.Fresh;
    StartSafe(l, ticks, mem);
    var tasks := Boot(l.config, ticks).tasks;
    assert forall p :: 0 <= p < MAX_TASKS ==> tasks[p] == BlankTask(p == 0);
  }

  /** The heap gives one more stack and keeps its free tail. */
  lemma StageHeap(bs: seq<HeapModel.Block>, n: nat)
    requires |bs| == n + 1 && n < 2 && bs[n].free && bs[n].size >= (3 - n) * 0x1400 && forall j :: 0 <= j < n ==> !bs[j].free
    ensures var (t, r) := HeapModel.Malloc(bs, STACK_SIZE);
      && r.Some? && |t| == n + 2 && (forall j :: 0 <= j < n + 1 ==> !t[j].free)
      && t[n + 1].free && t[n + 1].size >= (2 - n) * 0x1400
  {
    assert HeapModel.Round4(STACK_SIZE) == STACK_SIZE;
    assert HeapModel.FirstFit(bs, STACK_SIZE) == n;
  }

  lemma StageSlots(k: Kernel, l: Layout, n: nat)
    requires Stage(k, l, n) && n < 2
    ensures FindSlot(k) == n && FreeTask(k.sched.tasks) == n + 1 && FreeSpace(k.sched.used) == n
  {
    hide Placed, Backed, Tame;
    FirstInactive(k.sched.tasks, n + 1);
    FirstUnused(k.sched.used, n);
  }

  lemma FirstInactive(tasks: seq<Task>, n: nat)
    requires n < |tasks| && forall j :: 0 <= j < |tasks| ==> tasks[j].active == (j < n)
    ensures FreeTask(tasks) == n
  {
    var i := FreeTask(tasks);
    assert !tasks[n].active;
  }

  lemma FirstUnused(used: seq<bool>, n: nat)
    requires n < |used| && forall j :: 0 <= j < |used| ==> used[j] == (j < n)
    ensures FreeSpace(used) == n
  {
    var i := FreeSpace(used);
    assert !used[n];
  }

  lemma StageCreate(s: Sched, l: Layout, n: nat, slot: nat)
    requires WellFormed(s) && n < 2 && s.count == n + 1 && FreeTask(s.tasks) == n + 1 && FreeSpace(s.used) == n
    requires |s.blocks| == n + 1 && s.blocks[n].free && s.blocks[n].size >= (3 - n) * 0x1400 && forall j :: 0 <= j < n ==> !s.blocks[j].free
    ensures var (s', pid) := CreateUserTask(s, l.config, SlotBase(slot), PROGRAM, StackBase(l, slot) + STACK, STACK);
      && pid == n + 1 && s'.count == n + 2 && s'.used == s.used[n := true] && s'.current == s.current && s'.halted == s.halted
      && s'.tasks[..n + 1] == s.tasks[..n + 1] && |s'.tasks| == MAX_TASKS && s'.tasks[n + 2..] == s.tasks[n + 2..]
      && s'.tasks[n + 1].active && !s'.tasks[n + 1].sleeping && s'.tasks[n + 1].priority == 0 && s'.tasks[n + 1].box.count == 0
      && |s'.blocks| == n + 2 && (forall j :: 0 <= j < n + 1 ==> !s'.blocks[j].free)
      && s'.blocks[n + 1].free && s'.blocks[n + 1].size >= (2 - n) * 0x1400
  {
    hide HeapModel.Malloc, HeapModel.Free, PageTable;
    StageHeap(s.blocks, n);
  }

  lemma StageLoad(k: Kernel, n: nat)
    requires Shaped(k) && n < 2
    ensures ElfModel.Exact(ElfWitness.Image(1))
    ensures ElfModel.Load(Zeroed(k.mem, n), ElfWitness.Image(1), SlotBase(n), PROGRAM, LINK_BASE).1.Some?
  {
    hide ElfModel.Load, ElfModel.Exact, ElfWitness.Image, ElfWitness.Program, ElfRelocation.WellFormed, ElfRelocation.LinkedAt, Zeroed;
    ElfWitness.ImageExact(1);
    ElfWitness.Inhabited();
    ElfTheorem.LoadIsLink(Zeroed(k.mem, n), ElfWitness.Image(1), ElfWitness.Program(), SlotBase(n), LINK_BASE, PROGRAM);
  }

  lemma StageExec(k: Kernel, l: Layout, n: nat)
    requires LaidOut(l) && Stage(k, l, n) && n < 2
    ensures ElfModel.Exact(ElfWitness.Image(1)) && Stage(Exec(k, l, Some(ElfWitness.Image(1)), []).0, l, n + 1)
  {
    hide ElfModel.Load, ElfModel.Exact, ElfWitness.Image, Prepared, CreateUserTask, CreateUserMem, Placed, Tame, Backed, Zeroed;
    StageSlots(k, l, n);
    StageLoad(k, n);
    StageCreate(k.sched, l, n, n);
    ExecSafe(k, l, Some(ElfWitness.Image(1)), []);
    var k' := Exec(k, l, Some(ElfWitness.Image(1)), []).0;
    forall j | 0 <= j < MAX_TASKS
      ensures k'.sched.tasks[j].active == (j <= n + 1) && !k'.sched.tasks[j].sleeping
              && k'.sched.tasks[j].priority == 0 && k'.sched.tasks[j].box.count == 0
    {
      if j < n + 1 {
        assert k'.sched.tasks[..n + 1][j] == k.sched.tasks[..n + 1][j];
      } else if j > n + 1 {
        assert k'.sched.tasks[n + 2..][j - n - 2] == k.sched.tasks[n + 2..][j - n - 2];
      }
    }
  }

  function Launch(): ExecModel.Op {
    Run(Some(ElfWitness.Image(1)), [])
  }

  /** The Shell runs a program in each of two slots, sends the first a message, and is preempted. */
  function TwoPrograms(text: seq<byte>): seq<ExecModel.Op> {
    [] + [Launch()] + [Launch()] + [Call(Send(1, text))] + [Call(Tick(0))]
  }

  /** Both programs are loaded after the first two steps. */
  lemma BothLoaded(l: Layout, ticks: u32, mem: seq<byte>)
    requires LaidOut(l) && |mem| == MEMORY && l.config.heapHi - l.config.heapLo >= 0x10000
    ensures var r := RunAll(l, ticks, mem, [] + [Launch()] + [Launch()]);
      r.Some? && Stage(r.value, l, 2)
  {
    hide Stage, Safe, RunAll, Launch, ExecModel.Step, ExecModel.Enabled, Start, Sound;
    var k0 := Start(l, ticks, mem);
    StageZero(l, ticks, mem);
    NoSteps(l, ticks, mem);
    StageRuns(k0, l, 0);
    RunStep(l, ticks, mem, [], Launch());
    var k1 := ExecModel.Step(k0, l, Launch());
    StageRuns(k1, l, 1);
    RunStep(l, ticks, mem, [] + [Launch()], Launch());
  }

  lemma NoSteps(l: Layout, ticks: u32, mem: seq<byte>)
    requires LaidOut(l) && |mem| == MEMORY
    ensures RunAll(l, ticks, mem, []) == Some(Start(l, ticks, mem))
  {
  }

  lemma StageRuns(k: Kernel, l: Layout, n: nat)
    requires LaidOut(l) && Stage(k, l, n) && n < 2
    ensures Sound(k, l) && ExecModel.Enabled(k, l, Launch()) && Stage(ExecModel.Step(k, l, Launch()), l, n + 1)
  {
    hide Exec, ElfModel.Exact, ElfWitness.Image, Placed, Backed, Tame;
    StageExec(k, l, n);
  }

  /** The message is queued and the first program elected; memory does not change. */
  lemma Delivered(k: Kernel, l: Layout, text: seq<byte>)
    requires LaidOut(l) && Stage(k, l, 2) && 1 <= |text| <= Mailbox.SLOT_BYTES
    ensures Sound(k, l) && ExecModel.Enabled(k, l, Call(Send(1, text)))
    ensures var k1 := ExecModel.Step(k, l, Call(Send(1, text)));
      && Sound(k1, l) && ExecModel.Enabled(k1, l, Call(Tick(0)))
      && var k2 := ExecModel.Step(k1, l, Call(Tick(0)));
         && Shaped(k2) && k2.mem == k.mem && k2.live == k.live && k2.sched.current == 1
         && !k2.sched.halted && k2.sched.tasks[1].active
         && Pending(k2.sched) == Some(Mailbox.Message(0, text))
  {
    hide Placed, Backed, Tame, Safe, Scan, Mailbox.Put, Mailbox.MessageAt;
    assert Sound(k, l) by {
      SafeSound(k, l);
    }
    var k1 := ExecModel.Step(k, l, Call(Send(1, text)));
    SafeSound(k, l);
    CallSafe(k, l, Send(1, text));
    SafeSound(k1, l);
    QueuedFirst(k.sched.tasks[1].box, text);
    CallSafe(k1, l, Tick(0));
    var k2 := ExecModel.Step(k1, l, Call(Tick(0)));
    SafeSound(k2, l);
    FirstPass(k2.sched.tasks, 0);
    assert Contends(k2.sched.tasks[1]);
    assert Beats(k2.sched.tasks, 0, k2.sched.current, 1);
  }

  lemma SafeSound(k: Kernel, l: Layout)
    requires Safe(k, l)
    ensures Sound(k, l) && Shaped(k)
  {
  }

  lemma QueuedFirst(b: Mailbox.Box, text: seq<byte>)
    requires Mailbox.Valid(b) && b.count == 0 && |text| <= Mailbox.SLOT_BYTES
    ensures var b' := Mailbox.Put(b, 0, text);
      Mailbox.Valid(b') && b'.count == 1 && Mailbox.MessageAt(b', b'.head) == Mailbox.Message(0, text)
  {
    Mailbox.PutAppends(b, 0, text);
    var b' := Mailbox.Put(b, 0, text);
    assert Mailbox.Queue(b')[0] == Mailbox.MessageAt(b', Mailbox.SlotAt(b', 0));
    Mailbox.SlotValue(b', 0);
    assert Mailbox.Queue(b) == [];
    assert Mailbox.Kept(text) == text;
  }

  /**
    A run from boot after which a receive by one program, with the start of the other's window as its
    pointer, changes that window: the reason why receives are limited to harmless pointers above.
  */
  lemma OtherProgramOverwritten(l: Layout, ticks: u32, mem: seq<byte>) returns (text: seq<byte>)
    requires LaidOut(l) && |mem| == MEMORY && l.config.heapHi - l.config.heapLo >= 0x10000
    ensures var r := RunAll(l, ticks, mem, TwoPrograms(text));
      && r.Some? && Shaped(r.value) && Backed(r.value.sched, l.config, r.value.mem)
      && var k := r.value;
         && k.sched.current == 1 && 1 in k.live && 2 in k.live && k.live[2] == 1 && 2 in k.image
         && SchedModel.Enabled(k.sched, Receive(SlotBase(1), 0, 0))
         && Window(CallMem(k.sched, l.config, k.mem, Receive(SlotBase(1), 0, 0)), 1) != k.image[2]
  {
    hide Stage, RunAll, Launch, ExecModel.Step, ExecModel.Enabled, Placed, Tame, Backed;
    BothLoaded(l, ticks, mem);
    var loads := [] + [Launch()] + [Launch()];
    var k := RunAll(l, ticks, mem, loads).value;
    text := [Other(k.mem[SlotBase(1)])];
    Delivered(k, l, text);
    RunStep(l, ticks, mem, loads, Call(Send(1, text)));
    RunStep(l, ticks, mem, loads + [Call(Send(1, text))], Call(Tick(0)));
    var z := RunAll(l, ticks, mem, TwoPrograms(text)).value;
    StageLive(k, l);
    assert Placed(z, l, 2);
    Overwrites(z, l, text);
  }

  lemma StageLive(k: Kernel, l: Layout)
    requires Stage(k, l, 2)
    ensures 1 in k.live && 2 in k.live && k.live[2] == 1
  {
    hide Safe;
  }

  lemma Overwrites(k: Kernel, l: Layout, text: seq<byte>)
    requires Safe(k, l) && k.sched.current == 1 && 2 in k.live && k.live[2] == 1 && Placed(k, l, 2) && !k.sched.halted
    requires Pending(k.sched) == Some(Mailbox.Message(0, text)) && text == [Other(k.mem[SlotBase(1)])]
    requires k.sched.tasks[1].active
    ensures SchedModel.Enabled(k.sched, Receive(SlotBase(1), 0, 0))
    ensures 2 in k.image && Window(CallMem(k.sched, l.config, k.mem, Receive(SlotBase(1), 0, 0)), 1) != k.image[2]
  {
    hide Backed, Tame, ProgramTable;
    var op: SchedModel.Op := Receive(SlotBase(1), 0, 0);
    ReceiveCall(k.sched, l.config, k.mem, op);
    var m := ReceiveMem(k.sched, k.mem, 0, op);
    assert m[SlotBase(1)] == text[0];
    assert Window(m, 1)[0] == text[0] && Window(k.mem, 1)[0] == k.mem[SlotBase(1)];
  }
}
