/** The shell's history routines as written: ring slots, byte loops with their caps, arrow handling. */
module HistoryDriver {
  import opened Bytes
  import opened HistoryModel

  class ShellLine {
    var input: Text
    var ring: seq<Text>
    var count: nat
    var nav: int
    var saved: Text

    ghost function State(): Shell
      reads this
    {
      Shell(input, ring, count, nav, saved)
    }

    constructor ()
      ensures State() == Shell([], seq(RING, i => []), 0, -1, [])
    {
      input, ring, count, nav, saved := [], seq(RING, i => []), 0, -1, [];
    }

    method HistoryPush(cmd: Text)
      requires |ring| == RING
      modifies this`ring, this`count
      ensures State() == Push(old(State()), cmd)
    {
      var len := if |cmd| > LINE then LINE else |cmd|;
      var slot, copy := count % RING, [];
      for i := 0 to len
        invariant copy == cmd[..i]
      {
        copy := copy + [cmd[i]];
      }
      ring := ring[slot := copy];
      count := count + 1;
    }

    method HistoryLoad(back: nat)
      requires |ring| == RING && back < count
      modifies this`input
      ensures input == Back(old(State()), back)
    {
      var slot := (count - 1 - back + RING) % RING;
      SlotPlus(count, back);
      input := ring[slot];
    }

    method HistoryUp()
      requires |ring| == RING && -1 <= nav < count
      modifies this`input, this`nav, this`saved
      ensures State() == Up(old(State()))
    {
      if count == 0 {
        return;
      }
      var maxSteps := if count < RING then count else RING;
      if nav == -1 {
        saved := input;
        nav := 0;
      } else if nav + 1 < maxSteps {
        nav := nav + 1;
      }
      HistoryLoad(nav);
    }

    method HistoryDown()
      requires |ring| == RING && -1 <= nav < count
      modifies this`input, this`nav
      ensures State() == Down(old(State()))
    {
      if nav == -1 {
        return;
      }
      if nav == 0 {
        nav := -1;
        input := saved;
      } else {
        nav := nav - 1;
        HistoryLoad(nav);
      }
    }

    /** shell_update, up to the command dispatch of shell_execute. */
    method Type(c: byte)
      requires |ring| == RING && -1 <= nav < count
      modifies this
      ensures State() == Update(old(State()), c)
    {
      if c == NEWLINE {
        if input != [] {
          HistoryPush(input);
        }
        nav := -1;
        input := [];
      } else if c == BACKSPACE {
        if input != [] {
          input := input[..|input| - 1];
        }
      } else if c == KEY_UP {
        HistoryUp();
      } else if c == KEY_DOWN {
        HistoryDown();
      } else if |input| < LINE {
        input := input + [c];
      }
    }

    /** The text history_save writes: oldest command first, capped at 2047 bytes. */
    method SaveText() returns (buf: Text)
      requires |ring| == RING
      ensures buf == Serialize(Recent(State()))
    {
      hide SlotBack, SaveOne;
      buf := [];
      ghost var cs := Recent(State());
      var maxSteps := if count < RING then count else RING;
      for i := 0 to maxSteps
        invariant buf == Serialize(cs[..i])
      {
        var back := maxSteps - 1 - i;
        var slot := (count - 1 - back + RING) % RING;
        SlotPlus(count, back);
        assert cs[i] == Back(State(), back);
        buf := AppendCapped(buf, ring[slot]);
        assert cs[..i + 1][..i] == cs[..i];
      }
      assert cs[..maxSteps] == cs;
    }
  }

  lemma SlotPlus(count: nat, back: nat)
    requires back < count
    ensures (count - 1 - back + RING) % RING == SlotBack(count, back)
  {
  }

  method AppendCapped(buf: Text, c: Text) returns (r: Text)
    ensures r == SaveOne(buf, c)
  {
    r := buf;
    var i := 0;
    while i < |c| && |r| < SAVE_MAX
      invariant 0 <= i <= |c|
      invariant r == buf + c[..i]
      invariant i > 0 ==> |r| <= SAVE_MAX
    {
      r := r + [c[i]];
      i := i + 1;
    }
    if |r| < SAVE_MAX {
      r := r + [NEWLINE];
    }
  }

  method TrimToFirstNul(buf: Text) returns (n: nat)
    ensures n <= |buf| && buf[..n] == CStr(buf)
  {
    n := 0;
    while n < |buf|
      invariant n <= |buf| && 0 !in buf[..n]
    {
      if buf[n] == 0 {
        CStrPrefix(buf[..n], buf);
        return;
      }
      n := n + 1;
    }
    assert buf[..n] == buf;
    CStrPrefix(buf, buf);
  }

  /** The line scan of history_load_from_disk. */
  method SplitLines(buf: Text) returns (lines: seq<Text>)
    ensures lines == Parse(buf)
  {
    lines := [];
    var start, i := 0, 0;
    while i <= |buf|
      invariant 0 <= start <= i <= |buf| + 1
      invariant lines + Parse(buf, i, start) == Parse(buf)
    {
      ghost var before, from := lines, start;
      if i == |buf| || buf[i] == NEWLINE {
        if i > start {
          lines := lines + [buf[start..i]];
        }
        start := i + 1;
        ghost var rest := Parse(buf, i + 1, i + 1);
        assert lines + rest == before + ((if i > from then [buf[from..i]] else []) + rest);
      }
      i := i + 1;
    }
    assert lines + [] == lines;
  }
}
