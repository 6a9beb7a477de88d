/**
  The frame a new task starts from (kernel/sched.c): words pushed downwards from the top of its
  kernel stack, and what popal and iret make of them the first time the task is resumed.
*/
module TaskFrame {
  import opened Bytes
  import SchedModel
  import ArgvModel

  const STACK_SIZE := SchedModel.STACK_SIZE
  const USER_CODE := 0x1B
  const USER_DATA := 0x23
  const KERNEL_CODE := 0x08
  const EFLAGS := 0x202      // interrupts enabled

  /** General registers in the order popal reads them, the saved stack pointer being skipped. */
  datatype Registers = Registers(edi: u32, esi: u32, ebp: u32, ebx: u32, edx: u32, ecx: u32, eax: u32)

  datatype Context = Context(regs: Registers, eip: u32, cs: u32, eflags: u32, esp: u32, ss: u32)

  /** Memory after pushing `ws` one by one on a stack whose top is `top`. */
  function Pushed(mem: seq<byte>, top: nat, ws: seq<u32>): (m: seq<byte>)
    requires 4 * |ws| <= top <= |mem|
    ensures |m| == |mem|
  {
    if ws == [] then mem
    else
      var n := |ws| - 1;
      Put32(Pushed(mem, top, ws[..n]), top - 4 * |ws|, ws[n])
  }

  lemma {:induction false} PushedWord(mem: seq<byte>, top: nat, ws: seq<u32>, k: nat)
    requires 4 * |ws| <= top <= |mem| && k < |ws|
    ensures Get32(Pushed(mem, top, ws), top - 4 * (k + 1)) == ws[k]
  {
    hide Get32, Put32;
    var n := |ws| - 1;
    if k < n {
      PushedWord(mem, top, ws[..n], k);
      Put32Other(Pushed(mem, top, ws[..n]), top - 4 * |ws|, ws[n], top - 4 * (k + 1));
    }
  }

  /** A push changes only the words it writes. */
  lemma {:induction false} PushedFrame(mem: seq<byte>, top: nat, ws: seq<u32>)
    requires 4 * |ws| <= top <= |mem|
    ensures ArgvModel.SameOutside(mem, Pushed(mem, top, ws), top - 4 * |ws|, top)
  {
    hide Get32, Put32;
    if ws != [] {
      PushedFrame(mem, top, ws[..|ws| - 1]);
    }
  }

  /** popal, then iret to another privilege level. */
  function ResumeUser(mem: seq<byte>, esp: nat): Context
    requires esp + 52 <= |mem|
  {
    Context(PopRegisters(mem, esp), Get32(mem, esp + 32), Get32(mem, esp + 36), Get32(mem, esp + 40),
            Get32(mem, esp + 44), Get32(mem, esp + 48))
  }

  /** popal, then iret at the same privilege level: the stack pointer and its segment are not popped. */
  function ResumeKernel(mem: seq<byte>, esp: nat, ss: u32): Context
    requires esp + 44 <= |mem| && esp + 44 < 0x1_0000_0000
  {
    Context(PopRegisters(mem, esp), Get32(mem, esp + 32), Get32(mem, esp + 36), Get32(mem, esp + 40), esp + 44, ss)
  }

  function PopRegisters(mem: seq<byte>, esp: nat): Registers
    requires esp + 32 <= |mem|
  {
    Registers(Get32(mem, esp), Get32(mem, esp + 4), Get32(mem, esp + 8), Get32(mem, esp + 16),
              Get32(mem, esp + 20), Get32(mem, esp + 24), Get32(mem, esp + 28))
  }

  function UserWords(entry: u32, stackTop: u32, ebx: u32, ecx: u32): seq<u32> {
    [USER_DATA, stackTop, EFLAGS, USER_CODE, entry, 0, ecx, 0, ebx, 0, 0, 0, 0]
  }

  function KernelWords(entry: u32, exit: u32): seq<u32> {
    [exit, EFLAGS, KERNEL_CODE, entry, 0, 0, 0, 0, 0, 0, 0, 0]
  }

  /** A user task starts at its entry point, on its own stack, with its two initial registers and zeros elsewhere. */
  lemma UserStarts(mem: seq<byte>, base: nat, entry: u32, stackTop: u32, ebx: u32, ecx: u32)
    requires base + STACK_SIZE <= |mem|
    ensures ResumeUser(Pushed(mem, base + STACK_SIZE, UserWords(entry, stackTop, ebx, ecx)), base + STACK_SIZE - SchedModel.USER_FRAME)
         == Context(Registers(0, 0, 0, ebx, 0, ecx, 0), entry, USER_CODE, EFLAGS, stackTop, USER_DATA)
  {
    hide Get32, Pushed;
    var top, ws := base + STACK_SIZE, UserWords(entry, stackTop, ebx, ecx);
    forall k | 0 <= k < |ws|
      ensures Get32(Pushed(mem, top, ws), top - 4 * (k + 1)) == ws[k]
    {
      PushedWord(mem, top, ws, k);
    }
    var m := Pushed(mem, top, ws);
    assert Get32(m, top - 4 * 1) == ws[0] && Get32(m, top - 4 * 2) == ws[1] && Get32(m, top - 4 * 3) == ws[2];
    assert Get32(m, top - 4 * 4) == ws[3] && Get32(m, top - 4 * 5) == ws[4] && Get32(m, top - 4 * 6) == ws[5];
    assert Get32(m, top - 4 * 7) == ws[6] && Get32(m, top - 4 * 8) == ws[7] && Get32(m, top - 4 * 9) == ws[8];
    assert Get32(m, top - 4 * 11) == ws[10] && Get32(m, top - 4 * 12) == ws[11] && Get32(m, top - 4 * 13) == ws[12];
  }

  /** A kernel task starts at its entry point; the word on top of its stack sends its return to task_exit. */
  lemma KernelStarts(mem: seq<byte>, base: nat, entry: u32, exit: u32, ss: u32)
    requires base + STACK_SIZE <= |mem| && base + STACK_SIZE < 0x1_0000_0000
    ensures var m := Pushed(mem, base + STACK_SIZE, KernelWords(entry, exit));
            var c := ResumeKernel(m, base + STACK_SIZE - SchedModel.KERNEL_FRAME, ss);
      && c == Context(Registers(0, 0, 0, 0, 0, 0, 0), entry, KERNEL_CODE, EFLAGS, base + STACK_SIZE - 4, ss)
      && Get32(m, c.esp) == exit
  {
    hide Get32, Pushed;
    var top, ws := base + STACK_SIZE, KernelWords(entry, exit);
    var m := Pushed(mem, top, ws);
    forall k | 0 <= k < |ws|
      ensures Get32(m, top - 4 * (k + 1)) == ws[k]
    {
      PushedWord(mem, top, ws, k);
    }
    assert Get32(m, top - 4 * 1) == ws[0] && Get32(m, top - 4 * 2) == ws[1] && Get32(m, top - 4 * 3) == ws[2];
    assert Get32(m, top - 4 * 4) == ws[3] && Get32(m, top - 4 * 5) == ws[4] && Get32(m, top - 4 * 6) == ws[5];
    assert Get32(m, top - 4 * 7) == ws[6] && Get32(m, top - 4 * 8) == ws[7] && Get32(m, top - 4 * 10) == ws[9];
    assert Get32(m, top - 4 * 11) == ws[10] && Get32(m, top - 4 * 12) == ws[11];
  }

  /** An argument stays readable when memory changes only outside the argument area. */
  lemma StillReadable(mem: seq<byte>, m: seq<byte>, area: nat, args: seq<seq<byte>>, k: nat, at: nat, from: nat, to: nat)
    requires k < |args| && area + ArgvModel.AREA <= |mem| && ArgvModel.Readable(mem, area, args, k, at)
    requires ArgvModel.SameOutside(mem, m, from, to) && (to <= area || area + ArgvModel.AREA <= from)
    ensures ArgvModel.Readable(m, area, args, k, at)
  {
    hide Get32;
    ArgvModel.WordKept(mem, m, area + 4 * k);
    assert m[area + at..area + at + |args[k]|] == mem[area + at..area + at + |args[k]|];
  }

  // ----- the pushes as written -----

  /** One `*(--stack) = x`; `ws` are the words pushed before. */
  method PushWord(mem: array<byte>, sp: nat, x: u32, ghost was: seq<byte>, ghost top: nat, ghost ws: seq<u32>)
    returns (sp': nat, ghost done: seq<u32>)
    requires 4 * |ws| + 4 <= top <= mem.Length == |was| && sp == top - 4 * |ws| && mem[..] == Pushed(was, top, ws)
    modifies mem
    ensures sp' == sp - 4 && done == ws + [x] && mem[..] == Pushed(was, top, done)
  {
    hide Get32, Put32;
    done := ws + [x];
    assert done[..|ws|] == ws;
    sp' := sp - 4;
    StoreWord(mem, sp', x);
  }

  method PushZeros(mem: array<byte>, sp: nat, n: nat, ghost was: seq<byte>, ghost top: nat, ghost ws: seq<u32>)
    returns (sp': nat, ghost done: seq<u32>)
    requires 4 * |ws| + 4 * n <= top <= mem.Length == |was| && sp == top - 4 * |ws| && mem[..] == Pushed(was, top, ws)
    modifies mem
    ensures sp' == sp - 4 * n && done == ws + seq(n, i => 0) && mem[..] == Pushed(was, top, done)
  {
    hide Get32, Pushed;
    sp', done := sp, ws;
    assert ws + seq(0, i => 0) == ws;
    for j := 0 to n
      invariant done == ws + seq(j, i => 0)
      invariant sp' == top - 4 * |done| && mem[..] == Pushed(was, top, done)
    {
      sp', done := PushWord(mem, sp', 0, was, top, done);
    }
  }

  /** create_user_task_argv: the 13 words of a ring 3 task, whose lowest address becomes its saved ESP. */
  method BuildUserFrame(mem: array<byte>, base: nat, entry: u32, stackTop: u32, ebx: u32, ecx: u32) returns (esp: nat)
    requires base + STACK_SIZE <= mem.Length
    modifies mem
    ensures esp == base + STACK_SIZE - SchedModel.USER_FRAME
    ensures mem[..] == Pushed(old(mem[..]), base + STACK_SIZE, UserWords(entry, stackTop, ebx, ecx))
  {
    hide Get32, Pushed;
    ghost var was, top := mem[..], base + STACK_SIZE;
    PushedNone(was, top);
    ghost var ws := [];
    esp := base + STACK_SIZE;
    esp, ws := PushWord(mem, esp, USER_DATA, was, top, ws);
    esp, ws := PushWord(mem, esp, stackTop, was, top, ws);
    esp, ws := PushWord(mem, esp, EFLAGS, was, top, ws);
    esp, ws := PushWord(mem, esp, USER_CODE, was, top, ws);
    esp, ws := PushWord(mem, esp, entry, was, top, ws);
    esp, ws := PushWord(mem, esp, 0, was, top, ws);
    esp, ws := PushWord(mem, esp, ecx, was, top, ws);
    esp, ws := PushWord(mem, esp, 0, was, top, ws);
    esp, ws := PushWord(mem, esp, ebx, was, top, ws);
    esp, ws := PushZeros(mem, esp, 4, was, top, ws);
    assert ws == UserWords(entry, stackTop, ebx, ecx);
  }

  /** create_task: the 12 words of a kernel task. */
  method BuildKernelFrame(mem: array<byte>, base: nat, entry: u32, exit: u32) returns (esp: nat)
    requires base + STACK_SIZE <= mem.Length
    modifies mem
    ensures esp == base + STACK_SIZE - SchedModel.KERNEL_FRAME
    ensures mem[..] == Pushed(old(mem[..]), base + STACK_SIZE, KernelWords(entry, exit))
  {
    hide Get32, Pushed;
    ghost var was, top := mem[..], base + STACK_SIZE;
    PushedNone(was, top);
    ghost var ws := [];
    esp := base + STACK_SIZE;
    esp, ws := PushWord(mem, esp, exit, was, top, ws);
    esp, ws := PushWord(mem, esp, EFLAGS, was, top, ws);
    esp, ws := PushWord(mem, esp, KERNEL_CODE, was, top, ws);
    esp, ws := PushWord(mem, esp, entry, was, top, ws);
    esp, ws := PushZeros(mem, esp, 8, was, top, ws);
    assert ws == KernelWords(entry, exit);
  }

  lemma PushedNone(mem: seq<byte>, top: nat)
    requires top <= |mem|
    ensures Pushed(mem, top, []) == mem
  {
  }
}
