/**
  What typing does, from the keys alone: a reference line editor over a plain list of the last eight
  commands, which the shell's buffers and ring refine key by key, and the laws a user relies on.
*/
module HistoryEditor {
  import opened Bytes
  import opened HistoryModel

  /** The line, the last eight commands (oldest first), how far back the line shown is, and the line put aside. */
  datatype Editor = Editor(line: Text, memory: seq<Text>, back: int, draft: Text)

  /** Nothing typed, nothing put aside. */
  function Fresh(memory: seq<Text>): Editor {
    Editor([], memory, -1, [])
  }

  /** The command `n` steps back. */
  function Remembered(e: Editor, n: nat): Text
    requires n < |e.memory|
  {
    e.memory[|e.memory| - 1 - n]
  }

  /** One key: Enter, Backspace, the two arrows (0x11 and 0x12), or a character. */
  function Press(e: Editor, c: byte): Editor {
    if c == 10 then Editor([], if e.line == [] then e.memory else Last8(e.memory + [e.line]), -1, e.draft)
    else if c == 8 then e.(line := if e.line == [] then [] else e.line[..|e.line| - 1])
    else if c == 0x11 then
      if e.memory == [] then e
      else if e.back == -1 then Editor(Remembered(e, 0), e.memory, 0, e.line)
      else if 0 <= e.back < |e.memory| - 1 then e.(line := Remembered(e, e.back + 1), back := e.back + 1)
      else e.(line := e.memory[0])
    else if c == 0x12 then
      if e.back == 0 then e.(line := e.draft, back := -1)
      else if 0 < e.back <= |e.memory| then e.(line := Remembered(e, e.back - 1), back := e.back - 1)
      else e
    else if |e.line| < 255 then e.(line := e.line + [c])
    else e
  }

  function PressAll(e: Editor, keys: seq<byte>): Editor {
    if keys == [] then e else Press(PressAll(e, keys[..|keys| - 1]), keys[|keys| - 1])
  }

  /** The editor a shell implements. */
  function Seen(sh: Shell): Editor
    requires |sh.ring| == RING
  {
    Editor(sh.input, Recent(sh), sh.nav, sh.saved)
  }

  /** Keys other than Enter leave the remembered commands alone. */
  lemma KeyRecent(sh: Shell, c: byte)
    requires Inv(sh) && c != 0
    ensures Inv(Update(sh, c))
    ensures Recent(Update(sh, c)) == if c == NEWLINE && sh.input != [] then Last8(Recent(sh) + [sh.input]) else Recent(sh)
  {
    hide Recent, Last8, SlotBack, Command, Typed;
    UpdateInv(sh, c);
    var sh' := Update(sh, c);
    if c == NEWLINE && sh.input != [] {
      PushRecent(sh, sh.input);
      assert Cut(sh.input) == sh.input by {
        assert Typed(sh.input);
        ShortLine(sh.input);
      }
      SameRecent(Push(sh, sh.input), sh');
    } else {
      SameRecent(sh, sh');
    }
  }

  lemma ShortLine(c: Text)
    requires Typed(c)
    ensures Cut(c) == c
  {
  }

  lemma SameRecent(sh: Shell, sh': Shell)
    requires |sh.ring| == RING && sh'.ring == sh.ring && sh'.count == sh.count
    ensures Recent(sh') == Recent(sh)
  {
    var a, b, n := Recent(sh'), Recent(sh), Stored(sh.count);
    forall i | 0 <= i < n
      ensures a[i] == b[i]
    {
      assert Back(sh', n - 1 - i) == Back(sh, n - 1 - i);
    }
  }

  lemma BackIsRemembered(sh: Shell, n: nat)
    requires |sh.ring| == RING && n < Stored(sh.count)
    ensures n < |Recent(sh)| && Back(sh, n) == Remembered(Seen(sh), n)
  {
    hide SlotBack;
    var m := Stored(sh.count);
    assert Recent(sh)[m - 1 - n] == Back(sh, n);
  }

  /** Each key does to the shell what it does to the reference editor. */
  lemma UpdateRefines(sh: Shell, c: byte)
    requires Inv(sh) && c != 0
    ensures Inv(Update(sh, c)) && Seen(Update(sh, c)) == Press(Seen(sh), c)
  {
    hide SlotBack, Command, Typed, Recent, Last8;
    KeyRecent(sh, c);
    LineBound(sh);
    if c == KEY_UP && sh.count > 0 {
      BackIsRemembered(sh, if sh.nav == -1 then 0 else if sh.nav + 1 < Stored(sh.count) then sh.nav + 1 else sh.nav);
    } else if c == KEY_DOWN && sh.nav > 0 {
      BackIsRemembered(sh, sh.nav - 1);
    }
  }

  lemma LineBound(sh: Shell)
    requires Inv(sh)
    ensures |sh.input| <= 255 && |Recent(sh)| == Stored(sh.count) <= 8 && -1 <= sh.nav < Stored(sh.count)
  {
  }

  /** So the shell refines the reference editor over everything that can be typed. */
  lemma {:induction false} TypingRefines(sh: Shell, keys: seq<byte>)
    requires Inv(sh) && forall i :: 0 <= i < |keys| ==> keys[i] != 0
    ensures Inv(TypeAll(sh, keys)) && Seen(TypeAll(sh, keys)) == PressAll(Seen(sh), keys)
    decreases |keys|
  {
    hide Update, Press, Recent, Inv;
    if keys != [] {
      TypingRefines(sh, keys[..|keys| - 1]);
      InvRing(TypeAll(sh, keys[..|keys| - 1]));
      UpdateRefines(TypeAll(sh, keys[..|keys| - 1]), keys[|keys| - 1]);
    }
  }

  lemma InvRing(sh: Shell)
    requires Inv(sh)
    ensures |sh.ring| == RING
  {
  }

  // ----- laws -----

  /** Not Enter, Backspace or an arrow. */
  predicate Plain(c: byte) {
    c != 10 && c != 8 && c != 0x11 && c != 0x12 && c != 0
  }

  predicate PlainText(t: Text) {
    forall i :: 0 <= i < |t| ==> Plain(t[i])
  }

  /** Typed characters appear in order at the end of the line. */
  lemma {:induction false} TypedLine(sh: Shell, t: Text)
    requires |sh.ring| == RING && PlainText(t) && |sh.input| + |t| <= 255
    ensures TypeAll(sh, t) == sh.(input := sh.input + t)
    decreases |t|
  {
    if t == [] {
      assert sh.input + t == sh.input;
    } else {
      var n := |t| - 1;
      TypedLine(sh, t[..n]);
      assert Plain(t[n]);
      assert sh.input + t[..n] + [t[n]] == sh.input + t;
    }
  }

  /** A 256th character is dropped. */
  lemma FullLine(sh: Shell, c: byte)
    requires |sh.ring| == RING && |sh.input| == 255 && Plain(c)
    ensures Update(sh, c) == sh
  {
  }

  /** Backspace takes back the last character, and does nothing on an empty line. */
  lemma Backspaced(sh: Shell, c: byte)
    requires |sh.ring| == RING && |sh.input| < 255 && Plain(c)
    ensures TypeAll(sh, [c, 8]) == sh
    ensures sh.input == [] ==> Update(sh, 8) == sh
  {
    assert [c, 8][..1] == [c] && [c][..0] == [];
    assert TypeAll(sh, []) == sh && TypeAll(sh, [c]) == Update(sh, c);
    assert (sh.input + [c])[..|sh.input|] == sh.input;
  }

  /** A line typed and entered becomes the latest command, and the line is empty again; an empty line is not a command. */
  lemma CommandEntered(sh: Shell, t: Text)
    requires Inv(sh) && sh.input == [] && PlainText(t) && |t| <= 255
    ensures var sh' := TypeAll(sh, t + [10]);
      && |sh'.ring| == RING && sh'.input == [] && sh'.nav == -1
      && Recent(sh') == if t == [] then Recent(sh) else Last8(Recent(sh) + [t])
  {
    hide SlotBack, Command, Recent, Last8;
    assert (t + [10])[..|t|] == t;
    TypedLine(sh, t);
    var sh1 := TypeAll(sh, t);
    assert sh1.input == t;
    SameRecent(sh, sh1);
    assert Typed(t);
    EditInv(sh, sh1);
    KeyRecent(sh1, 10);
  }

  function Repeat(n: nat, c: byte): (keys: seq<byte>)
    ensures |keys| == n && forall i :: 0 <= i < n ==> keys[i] == c
  {
    seq(n, i => c)
  }

  lemma {:induction false} ArrowUps(sh: Shell, n: nat)
    requires |sh.ring| == RING
    ensures TypeAll(sh, Repeat(n, 0x11)) == Ups(sh, n)
  {
    if n > 0 {
      assert Repeat(n, 0x11)[..n - 1] == Repeat(n - 1, 0x11);
      ArrowUps(sh, n - 1);
    }
  }

  /** The up-arrow key pressed n times shows the n-th latest command. */
  lemma ArrowsShow(sh: Shell, n: nat)
    requires Inv(sh) && sh.nav == -1 && 1 <= n <= |Recent(sh)|
    ensures TypeAll(sh, Repeat(n, 0x11)).input == Recent(sh)[|Recent(sh)| - n]
  {
    hide SlotBack, Command, Typed;
    ArrowUps(sh, n);
    UpsShow(sh, n);
    BackIsRemembered(sh, n - 1);
  }

  /** Up n times and down n times gives back the line being typed. */
  lemma ArrowsReturn(sh: Shell, n: nat)
    requires Inv(sh) && sh.nav == -1 && 1 <= n <= |Recent(sh)|
    ensures TypeAll(TypeAll(sh, Repeat(n, 0x11)), Repeat(n, 0x12)).input == sh.input
  {
    hide SlotBack, Command, Typed;
    ArrowUps(sh, n);
    UpsShow(sh, n);
    DownsReturn(Ups(sh, n), n);
    ArrowDowns(Ups(sh, n), n);
  }

  lemma {:induction false} ArrowDowns(sh: Shell, n: nat)
    requires |sh.ring| == RING
    ensures TypeAll(sh, Repeat(n, 0x12)) == Downs(sh, n)
    decreases n
  {
    if n > 0 {
      ArrowDowns(Down(sh), n - 1);
      TypeFirst(sh, 0x12, Repeat(n - 1, 0x12));
      assert [0x12] + Repeat(n - 1, 0x12) == Repeat(n, 0x12);
    }
  }

  lemma {:induction false} TypeFirst(sh: Shell, c: byte, keys: seq<byte>)
    requires |sh.ring| == RING
    ensures TypeAll(sh, [c] + keys) == TypeAll(Update(sh, c), keys)
    decreases |keys|
  {
    hide Update;
    if keys == [] {
      assert [c] + keys == [c] && [c][..0] == [];
      assert TypeAll(sh, []) == sh;
    } else {
      var n := |keys| - 1;
      assert ([c] + keys)[..n + 1] == [c] + keys[..n];
      TypeFirst(sh, c, keys[..n]);
    }
  }
}
