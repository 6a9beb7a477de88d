/**
  The shell's command line and history (kernel/shell.c): an edited line, a ring of the last eight
  commands, arrow navigation, and the text form in which the ring is kept on disk.
*/
module HistoryModel {
  import opened Bytes

  const RING := 8            // HISTORY_SIZE
  const LINE := 255          // longest line the editor accepts
  const SAVE_MAX := 2047     // sizeof(buf) - 1 in history_save
  const NEWLINE := 10
  const BACKSPACE := 8
  const KEY_UP := 0x11
  const KEY_DOWN := 0x12

  type Text = seq<byte>

  /** What a stored command looks like: 1 to 255 bytes, no NUL, no newline. */
  predicate Command(c: Text) {
    1 <= |c| <= LINE && 0 !in c && NEWLINE !in c
  }

  predicate Typed(c: Text) {
    |c| <= LINE && 0 !in c && NEWLINE !in c
  }

  datatype Shell = Shell(input: Text, ring: seq<Text>, count: nat, nav: int, saved: Text)

  function Stored(count: nat): nat {
    if count < RING then count else RING
  }

  /** Ring slot of the command `back` steps in the past, 0 being the latest. */
  function SlotBack(count: nat, back: nat): (slot: nat)
    requires back < count
    ensures slot < RING
  {
    (count - 1 - back) % RING
  }

  function Back(sh: Shell, back: nat): Text
    requires |sh.ring| == RING && back < sh.count
  {
    sh.ring[SlotBack(sh.count, back)]
  }

  /** The remembered commands, oldest first. */
  function Recent(sh: Shell): (cs: seq<Text>)
    requires |sh.ring| == RING
    ensures |cs| == Stored(sh.count)
  {
    var n := Stored(sh.count);
    seq(n, i requires 0 <= i < n => Back(sh, n - 1 - i))
  }

  function Cut(c: Text): Text {
    c[..Min(|c|, LINE)]
  }

  function Push(sh: Shell, c: Text): Shell
    requires |sh.ring| == RING
  {
    sh.(ring := sh.ring[sh.count % RING := Cut(c)], count := sh.count + 1)
  }

  function Last8(cs: seq<Text>): seq<Text> {
    if |cs| <= RING then cs else cs[|cs| - RING..]
  }

  /** After a push the latest command is the new one and every other is one step further back. */
  lemma PushBack(sh: Shell, c: Text, back: nat)
    requires |sh.ring| == RING && back < Stored(sh.count + 1)
    ensures Back(Push(sh, c), back) == if back == 0 then Cut(c) else Back(sh, back - 1)
  {
    hide SlotBack;
    LatestSlot(sh.count);
    if back > 0 {
      OlderSlot(sh.count, back - 1);
    }
  }

  /** Pushing appends to the remembered list and forgets the ninth oldest. */
  lemma PushRecent(sh: Shell, c: Text)
    requires |sh.ring| == RING
    ensures Recent(Push(sh, c)) == Last8(Recent(sh) + [Cut(c)])
  {
    hide SlotBack, Back;
    var sh', n := Push(sh, c), Stored(sh.count);
    var n', all := Stored(sh.count + 1), Recent(sh) + [Cut(c)];
    assert |Recent(sh')| == n' == |Last8(all)|;
    forall i | 0 <= i < n'
      ensures Recent(sh')[i] == Last8(all)[i]
    {
      PushBack(sh, c, n' - 1 - i);
      assert Recent(sh')[i] == Back(sh', n' - 1 - i);
    }
  }

  lemma LatestSlot(count: nat)
    ensures SlotBack(count + 1, 0) == count % RING
  {
  }

  lemma OlderSlot(count: nat, back: nat)
    requires back < count && back < RING - 1
    ensures SlotBack(count + 1, back + 1) == SlotBack(count, back) && SlotBack(count, back) != count % RING
  {
    var slot := (count - 1 - back) % RING;
    assert count == (count - 1 - back) + (back + 1) && 1 <= back + 1 < RING;
    NotSame(count - 1 - back, back + 1);
  }

  lemma NotSame(x: nat, d: nat)
    requires 1 <= d < RING
    ensures x % RING != (x + d) % RING
  {
  }

  // ----- the editor -----

  /** Shows the command `nav` steps back in the input line. */
  function Show(sh: Shell): Shell
    requires |sh.ring| == RING
  {
    if 0 <= sh.nav < sh.count then sh.(input := Back(sh, sh.nav)) else sh
  }

  function Up(sh: Shell): Shell
    requires |sh.ring| == RING
  {
    if sh.count == 0 then sh
    else if sh.nav == -1 then Show(sh.(saved := sh.input, nav := 0))
    else if sh.nav + 1 < Stored(sh.count) then Show(sh.(nav := sh.nav + 1))
    else Show(sh)
  }

  function Down(sh: Shell): Shell
    requires |sh.ring| == RING
  {
    if sh.nav == -1 then sh
    else if sh.nav == 0 then sh.(nav := -1, input := sh.saved)
    else Show(sh.(nav := sh.nav - 1))
  }

  /** shell_update for one character of the keyboard queue. */
  function Update(sh: Shell, c: byte): Shell
    requires |sh.ring| == RING
  {
    if c == NEWLINE then (if sh.input != [] then Push(sh, sh.input) else sh).(nav := -1, input := [])
    else if c == BACKSPACE then if sh.input != [] then sh.(input := sh.input[..|sh.input| - 1]) else sh
    else if c == KEY_UP then Up(sh)
    else if c == KEY_DOWN then Down(sh)
    else if |sh.input| < LINE then sh.(input := sh.input + [c])
    else sh
  }

  ghost predicate Inv(sh: Shell) {
    && |sh.ring| == RING && Typed(sh.input) && Typed(sh.saved)
    && -1 <= sh.nav < Stored(sh.count)
    && forall k :: 0 <= k < Stored(sh.count) ==> Command(Back(sh, k))
  }

  lemma PushInv(sh: Shell, c: Text)
    requires Inv(sh) && Command(c)
    ensures Inv(Push(sh, c))
  {
    var sh' := Push(sh, c);
    assert Cut(c) == c;
    forall k | 0 <= k < Stored(sh'.count)
      ensures Command(Back(sh', k))
    {
      if k > 0 {
        OlderSlot(sh.count, k - 1);
        assert Back(sh', k) == Back(sh, k - 1);
      }
    }
  }

  lemma UpdateInv(sh: Shell, c: byte)
    requires Inv(sh) && c != 0
    ensures Inv(Update(sh, c))
  {
    hide SlotBack;
    var sh' := Update(sh, c);
    if c == NEWLINE {
      var t := if sh.input != [] then Push(sh, sh.input) else sh;
      if sh.input != [] {
        PushInv(sh, sh.input);
      }
      EditInv(t, sh');
    } else {
      if c == KEY_UP && sh.count > 0 {
        assert Command(Back(sh, sh'.nav));
      } else if c == KEY_DOWN && sh.nav > 0 {
        assert Command(Back(sh, sh'.nav));
      } else if c == BACKSPACE && sh.input != [] {
        assert Typed(sh.input[..|sh.input| - 1]);
      }
      EditInv(sh, sh');
    }
  }

  /** Editing the line never disturbs the ring. */
  lemma EditInv(sh: Shell, sh': Shell)
    requires Inv(sh) && sh'.ring == sh.ring && sh'.count == sh.count
    requires Typed(sh'.input) && Typed(sh'.saved) && -1 <= sh'.nav < Stored(sh.count)
    ensures Inv(sh')
  {
    forall k | 0 <= k < Stored(sh'.count)
      ensures Command(Back(sh', k))
    {
      assert Command(Back(sh, k));
    }
  }

  function TypeAll(sh: Shell, keys: seq<byte>): Shell {
    if keys == [] then sh
    else
      var t := TypeAll(sh, keys[..|keys| - 1]);
      if |t.ring| == RING then Update(t, keys[|keys| - 1]) else t
  }

  /** Whatever is typed, every remembered command has 1 to 255 bytes and no NUL or newline. */
  lemma {:induction false} TypingInv(sh: Shell, keys: seq<byte>)
    requires Inv(sh) && forall i :: 0 <= i < |keys| ==> keys[i] != 0
    ensures Inv(TypeAll(sh, keys))
    decreases |keys|
  {
    if keys != [] {
      TypingInv(sh, keys[..|keys| - 1]);
      UpdateInv(TypeAll(sh, keys[..|keys| - 1]), keys[|keys| - 1]);
    }
  }

  lemma RecentCommands(sh: Shell)
    requires Inv(sh)
    ensures forall i :: 0 <= i < |Recent(sh)| ==> Command(Recent(sh)[i])
  {
    var n := Stored(sh.count);
    forall i | 0 <= i < n
      ensures Command(Recent(sh)[i])
    {
      assert Recent(sh)[i] == Back(sh, n - 1 - i);
    }
  }

  // ----- arrow navigation -----

  function Ups(sh: Shell, n: nat): Shell {
    if n == 0 || |sh.ring| != RING then sh else var t := Ups(sh, n - 1); if |t.ring| == RING then Up(t) else t
  }

  function Downs(sh: Shell, n: nat): Shell
    decreases n
  {
    if n == 0 || |sh.ring| != RING then sh else Downs(Down(sh), n - 1)
  }

  /** n presses of the up arrow show the n-th latest command. */
  lemma {:induction false} UpsShow(sh: Shell, n: nat)
    requires Inv(sh) && sh.nav == -1 && 1 <= n <= Stored(sh.count)
    ensures Ups(sh, n) == sh.(saved := sh.input, nav := n - 1, input := Back(sh, n - 1))
  {
    hide SlotBack, Command, Typed;
    if n > 1 {
      UpsShow(sh, n - 1);
    } else {
      assert Ups(sh, 0) == sh;
    }
  }

  lemma {:induction false} DownsReturn(sh: Shell, n: nat)
    requires |sh.ring| == RING && 0 <= sh.nav < sh.count && n == sh.nav + 1
    ensures Downs(sh, n) == sh.(nav := -1, input := sh.saved)
    decreases n
  {
    if n > 1 {
      DownsReturn(Down(sh), n - 1);
    } else {
      assert Downs(Down(sh), 0) == Down(sh);
    }
  }

  /** Going up and back down gives back the line being typed. */
  lemma UpDownRestores(sh: Shell, n: nat)
    requires Inv(sh) && sh.nav == -1 && 1 <= n <= Stored(sh.count)
    ensures Ups(sh, n).input == Back(sh, n - 1)
    ensures Downs(Ups(sh, n), n).input == sh.input && Downs(Ups(sh, n), n).nav == -1
  {
    UpsShow(sh, n);
    DownsReturn(Ups(sh, n), n);
  }

  // ----- the text form -----

  /** One command appended by history_save: its bytes while they fit, then a newline if one fits. */
  function SaveOne(buf: Text, c: Text): Text {
    var b := if |buf| < SAVE_MAX then buf + c[..Min(|c|, SAVE_MAX - |buf|)] else buf;
    if |b| < SAVE_MAX then b + [NEWLINE] else b
  }

  function Serialize(cs: seq<Text>): Text {
    if cs == [] then [] else SaveOne(Serialize(cs[..|cs| - 1]), cs[|cs| - 1])
  }

  /** The commands one per line, without any cap. */
  function Lines(cs: seq<Text>): Text {
    if cs == [] then [] else Lines(cs[..|cs| - 1]) + cs[|cs| - 1] + [NEWLINE]
  }

  lemma {:induction false} LinesLength(cs: seq<Text>)
    requires forall i :: 0 <= i < |cs| ==> |cs[i]| <= LINE
    ensures |Lines(cs)| <= (LINE + 1) * |cs|
  {
    if cs != [] {
      LinesLength(cs[..|cs| - 1]);
    }
  }

  /** The cap costs at most the very last newline. */
  lemma {:induction false} SerializeLines(cs: seq<Text>)
    requires |cs| <= RING && forall i :: 0 <= i < |cs| ==> |cs[i]| <= LINE
    ensures Serialize(cs) == Lines(cs)[..Min(|Lines(cs)|, SAVE_MAX)]
    ensures |Lines(cs)| <= SAVE_MAX + 1
  {
    LinesLength(cs);
    if cs != [] {
      var init, c := cs[..|cs| - 1], cs[|cs| - 1];
      SerializeLines(init);
      LinesLength(init);
      assert Serialize(init) == Lines(init);
      assert Lines(cs) == Lines(init) + c + [NEWLINE];
      assert c[..|c|] == c;
    }
  }

  /** history_load_from_disk: non-empty pieces between newlines, the last one possibly unterminated. */
  function Parse(b: Text, i: nat := 0, start: nat := 0): seq<Text>
    requires start <= i + 1 && i <= |b| + 1
    decreases |b| + 1 - i
  {
    if i > |b| then []
    else if i == |b| || b[i] == NEWLINE then
      (if i > start then [b[start..i]] else []) + Parse(b, i + 1, i + 1)
    else Parse(b, i + 1, start)
  }

  // ----- parsing what was saved -----

  lemma {:induction false} ParseSkip(b: Text, i: nat, start: nat, j: nat)
    requires start <= i <= j <= |b| && forall k :: i <= k < j ==> b[k] != NEWLINE
    ensures Parse(b, i, start) == Parse(b, j, start)
    decreases j - i
  {
    if i < j {
      ParseSkip(b, i + 1, start, j);
    }
  }

  /** One line: a command, then a newline or the end of the text. */
  lemma ParseLine(b: Text, start: nat, c: Text)
    requires start + |c| <= |b| && b[start..start + |c|] == c && |c| > 0 && NEWLINE !in c
    requires start + |c| == |b| || b[start + |c|] == NEWLINE
    ensures Parse(b, start, start) == [c] + Parse(b, start + |c| + 1, start + |c| + 1)
  {
    var j := start + |c|;
    forall k | start <= k < j
      ensures b[k] != NEWLINE
    {
      assert b[start..j][k - start] == c[k - start];
    }
    ParseSkip(b, start, start, j);
  }

  /** The text of `cs` followed by a suffix parses to `cs` followed by the parse of the suffix. */
  function Concat(cs: seq<Text>): Text {
    if cs == [] then [] else cs[0] + [NEWLINE] + Concat(cs[1..])
  }

  lemma {:induction false} ConcatLines(cs: seq<Text>)
    ensures Concat(cs) == Lines(cs)
  {
    if cs != [] {
      ConcatSnoc(cs[..|cs| - 1], cs[|cs| - 1]);
      assert cs[..|cs| - 1] + [cs[|cs| - 1]] == cs;
      ConcatLines(cs[..|cs| - 1]);
    }
  }

  lemma {:induction false} ConcatSnoc(cs: seq<Text>, c: Text)
    ensures Concat(cs + [c]) == Concat(cs) + c + [NEWLINE]
  {
    if cs == [] {
      assert cs + [c] == [c];
      assert Concat([c]) == c + [NEWLINE] + Concat([]);
    } else {
      ConcatSnoc(cs[1..], c);
      assert (cs + [c])[1..] == cs[1..] + [c];
      assert Concat(cs + [c]) == cs[0] + [NEWLINE] + (Concat(cs[1..]) + c + [NEWLINE]);
    }
  }

  ghost predicate Commands(cs: seq<Text>) {
    forall i :: 0 <= i < |cs| ==> |cs[i]| > 0 && NEWLINE !in cs[i]
  }

  /** Text from `start` on is `cs` line by line, with or without the final newline. */
  lemma {:induction false} ParseLines(b: Text, start: nat, cs: seq<Text>)
    requires Commands(cs) && start <= |b|
    requires cs != [] ==> b[start..] == Concat(cs) || b[start..] + [NEWLINE] == Concat(cs)
    requires cs == [] ==> start == |b|
    ensures Parse(b, start, start) == cs
    decreases |cs|
  {
    hide Parse, Concat;
    ParseEnd(b);
    if cs != [] {
      var c, rest := cs[0], cs[1..];
      var j := start + |c|;
      FirstLine(b, start, cs);
      ParseLine(b, start, c);
      if j == |b| {
        assert rest == [];
        assert cs == [c];
      } else {
        ParseLines(b, j + 1, rest);
        assert [c] + rest == cs;
      }
    }
  }

  lemma ParseEnd(b: Text)
    ensures Parse(b, |b|, |b|) == [] && Parse(b, |b| + 1, |b| + 1) == []
  {
  }

  lemma FirstLine(b: Text, start: nat, cs: seq<Text>)
    requires Commands(cs) && start <= |b| && cs != []
    requires b[start..] == Concat(cs) || b[start..] + [NEWLINE] == Concat(cs)
    ensures start + |cs[0]| <= |b| && b[start..start + |cs[0]|] == cs[0]
    ensures start + |cs[0]| < |b| ==> b[start + |cs[0]|] == NEWLINE
    ensures start + |cs[0]| == |b| ==> cs[1..] == []
    ensures start + |cs[0]| < |b| && cs[1..] != [] ==>
              b[start + |cs[0]| + 1..] == Concat(cs[1..]) || b[start + |cs[0]| + 1..] + [NEWLINE] == Concat(cs[1..])
    ensures start + |cs[0]| < |b| && cs[1..] == [] ==> start + |cs[0]| + 1 == |b|
  {
    var c, rest := cs[0], cs[1..];
    assert Concat(cs) == c + [NEWLINE] + Concat(rest);
    assert rest != [] ==> |Concat(rest)| >= 2;
    HeadLine(b[start..], c, Concat(rest));
    assert b[start..start + |c|] == b[start..][..|c|];
    if start + |c| < |b| {
      assert b[start + |c| + 1..] == b[start..][|c| + 1..];
    }
  }

  lemma HeadLine(t: Text, c: Text, more: Text)
    requires t == c + [NEWLINE] + more || t + [NEWLINE] == c + [NEWLINE] + more
    requires more == [] || |more| >= 2
    ensures |c| <= |t| && t[..|c|] == c
    ensures |c| < |t| ==> t[|c|] == NEWLINE && (t[|c| + 1..] == more || t[|c| + 1..] + [NEWLINE] == more)
    ensures |c| == |t| ==> more == []
  {
    var full := c + [NEWLINE] + more;
    assert full[..|c|] == c && full[|c|] == NEWLINE && full[|c| + 1..] == more;
    if t != full {
      assert t == full[..|full| - 1];
      assert |c| < |t| ==> t[|c| + 1..] + [NEWLINE] == full[|c| + 1..];
    }
  }

  /** The text form loses nothing: parsing what history_save wrote gives back the commands. */
  lemma ParseSerialize(cs: seq<Text>)
    requires |cs| <= RING && forall i :: 0 <= i < |cs| ==> Command(cs[i])
    ensures Parse(Serialize(cs)) == cs && 0 !in Serialize(cs) && |Serialize(cs)| <= SAVE_MAX
  {
    hide Parse;
    SerializeLines(cs);
    ConcatLines(cs);
    NoNul(cs);
    var b, full := Serialize(cs), Concat(cs);
    if cs != [] {
      assert full[|full| - 1] == NEWLINE;
      if b != full {
        assert b == full[..|full| - 1];
        assert b + [NEWLINE] == full;
      }
    }
    assert b[0..] == b;
    ParseLines(b, 0, cs);
  }

  lemma {:induction false} NoNul(cs: seq<Text>)
    requires forall i :: 0 <= i < |cs| ==> 0 !in cs[i]
    ensures 0 !in Lines(cs)
  {
    if cs != [] {
      NoNul(cs[..|cs| - 1]);
    }
  }
}
