/**
  The keyboard: scancodes decoded by the interrupt handler, and a 256-byte ring with wrapping 8-bit
  indices shared by the handler and the reader. The handler may run between any two steps of the reader.
*/
module KeyboardModel {
  import opened Bytes

  const RING := 256

  // ----- scancodes -----

  /** The three rows of the tables that hold letters, and where they start. */
  const TOP: string := "qwertyuiop"         // from 16
  const HOME: string := "asdfghjkl"         // from 30
  const BOTTOM: string := "zxcvbnm"         // from 44
  const TOP_SHIFTED: string := "QWERTYUIOP"
  const HOME_SHIFTED: string := "ASDFGHJKL"
  const BOTTOM_SHIFTED: string := "ZXCVBNM"
  const DIGITS: string := "1234567890-="    // from 2
  const DIGITS_SHIFTED: string := "!@#$%^&*()_+"
  const TABLE := 58                         // sizeof(kbd)

  function Ascii(c: char): byte {
    if c as int < 256 then c as int else 0
  }

  /** kbd and kbd_shift outside the rows above. */
  function Symbol(code: nat, shift: bool): byte {
    match code
    case 1 => 27
    case 14 => 8
    case 15 => 9
    case 26 => if shift then Ascii('{') else Ascii('[')
    case 27 => if shift then Ascii('}') else Ascii(']')
    case 28 => 10
    case 39 => if shift then Ascii(':') else Ascii(';')
    case 40 => if shift then 34 else 39     // double and single quote
    case 41 => if shift then Ascii('~') else Ascii('`')
    case 43 => if shift then Ascii('|') else 92
    case 51 => if shift then Ascii('<') else Ascii(',')
    case 52 => if shift then Ascii('>') else Ascii('.')
    case 53 => if shift then Ascii('?') else Ascii('/')
    case 55 => Ascii('*')
    case 57 => Ascii(' ')
    case _ => 0
  }

  /** kbd[code] or kbd_shift[code]. */
  function KeyChar(code: nat, shift: bool): byte {
    if 2 <= code < 14 then Ascii((if shift then DIGITS_SHIFTED else DIGITS)[code - 2])
    else if 16 <= code < 26 then Ascii((if shift then TOP_SHIFTED else TOP)[code - 16])
    else if 30 <= code < 39 then Ascii((if shift then HOME_SHIFTED else HOME)[code - 30])
    else if 44 <= code < 51 then Ascii((if shift then BOTTOM_SHIFTED else BOTTOM)[code - 44])
    else Symbol(code, shift)
  }

  const KEY_UP := 0x11
  const KEY_DOWN := 0x12

  datatype Modifiers = Modifiers(shift: bool, prefix: bool)

  /** keyboard_handler: the new modifier state and the character queued, if any. */
  function Decode(m: Modifiers, scancode: byte): (r: (Modifiers, Option<byte>))
    ensures r.1.Some? ==> r.1.value != 0
  {
    var make := scancode < 0x80;
    var code := scancode % 0x80;
    if scancode == 0xE0 then (m.(prefix := true), None)
    else if m.prefix then
      (m.(prefix := false),
       if make && code == 0x48 then Some(KEY_UP) else if make && code == 0x50 then Some(KEY_DOWN) else None)
    else if scancode == 0x2A || scancode == 0x36 then (m.(shift := true), None)
    else if scancode == 0xAA || scancode == 0xB6 then (m.(shift := false), None)
    else if make && code < TABLE then
      var c := KeyChar(code, m.shift);
      (m, if c != 0 then Some(c) else None)
    else (m, None)
  }

  predicate Letter(code: nat) {
    16 <= code < 26 || 30 <= code < 39 || 44 <= code < 51
  }

  lemma RowShifts(lower: string, upper: string, i: nat)
    requires (lower, upper) == (TOP, TOP_SHIFTED) || (lower, upper) == (HOME, HOME_SHIFTED) || (lower, upper) == (BOTTOM, BOTTOM_SHIFTED)
    requires i < |lower|
    ensures i < |upper| && 'a' <= lower[i] <= 'z' && upper[i] as int == lower[i] as int - 32
  {
  }

  /**
    A letter key gives a lower-case letter, and with shift its capital; releasing a key queues nothing;
    the prefix 0xE0 turns the next code into an arrow, once.
  */
  lemma DecodeMeaning(m: Modifiers, scancode: byte)
    ensures Letter(scancode) && !m.prefix ==>
              var c := KeyChar(scancode, false);
              'a' as int <= c <= 'z' as int && Decode(m, scancode) == (m, Some(if m.shift then c - 32 else c))
    ensures scancode >= 0x80 ==> Decode(m, scancode).1 == None
    ensures !m.prefix ==> Decode(m, 0x2A).0.shift && !Decode(m, 0xAA).0.shift
    ensures Decode(Decode(m, 0xE0).0, 0x48) == (m.(prefix := false), Some(KEY_UP))
    ensures Decode(Decode(m, 0xE0).0, 0x50) == (m.(prefix := false), Some(KEY_DOWN))
  {
    hide KeyChar;
    if Letter(scancode) && !m.prefix {
      LetterKey(scancode);
    }
  }

  lemma LetterKey(code: nat)
    requires Letter(code)
    ensures 'a' as int <= KeyChar(code, false) <= 'z' as int && KeyChar(code, true) == KeyChar(code, false) - 32
  {
    hide Symbol;
    if code < 26 {
      RowShifts(TOP, TOP_SHIFTED, code - 16);
    } else if code < 39 {
      RowShifts(HOME, HOME_SHIFTED, code - 30);
    } else {
      RowShifts(BOTTOM, BOTTOM_SHIFTED, code - 44);
    }
  }

  // ----- both tables, key by key, in ASCII -----

  /** Escape, the digits with their symbols, Backspace and Tab. */
  lemma NumberKeys()
    ensures KeyChar(0, false) == 0 && KeyChar(0, true) == 0 && KeyChar(1, false) == 27 && KeyChar(1, true) == 27
    ensures KeyChar(2, false) == 49 && KeyChar(2, true) == 33 && KeyChar(3, false) == 50 && KeyChar(3, true) == 64
    ensures KeyChar(4, false) == 51 && KeyChar(4, true) == 35 && KeyChar(5, false) == 52 && KeyChar(5, true) == 36
    ensures KeyChar(6, false) == 53 && KeyChar(6, true) == 37 && KeyChar(7, false) == 54 && KeyChar(7, true) == 94
    ensures KeyChar(8, false) == 55 && KeyChar(8, true) == 38 && KeyChar(9, false) == 56 && KeyChar(9, true) == 42
    ensures KeyChar(10, false) == 57 && KeyChar(10, true) == 40 && KeyChar(11, false) == 48 && KeyChar(11, true) == 41
    ensures KeyChar(12, false) == 45 && KeyChar(12, true) == 95 && KeyChar(13, false) == 61 && KeyChar(13, true) == 43
    ensures KeyChar(14, false) == 8 && KeyChar(14, true) == 8 && KeyChar(15, false) == 9 && KeyChar(15, true) == 9
  {
  }

  /** Q to P, the brackets and Enter. */
  lemma TopKeys()
    ensures KeyChar(16, false) == 113 && KeyChar(16, true) == 81 && KeyChar(17, false) == 119 && KeyChar(17, true) == 87
    ensures KeyChar(18, false) == 101 && KeyChar(18, true) == 69 && KeyChar(19, false) == 114 && KeyChar(19, true) == 82
    ensures KeyChar(20, false) == 116 && KeyChar(20, true) == 84 && KeyChar(21, false) == 121 && KeyChar(21, true) == 89
    ensures KeyChar(22, false) == 117 && KeyChar(22, true) == 85 && KeyChar(23, false) == 105 && KeyChar(23, true) == 73
    ensures KeyChar(24, false) == 111 && KeyChar(24, true) == 79 && KeyChar(25, false) == 112 && KeyChar(25, true) == 80
    ensures KeyChar(26, false) == 91 && KeyChar(26, true) == 123 && KeyChar(27, false) == 93 && KeyChar(27, true) == 125
    ensures KeyChar(28, false) == 10 && KeyChar(28, true) == 10 && KeyChar(29, false) == 0 && KeyChar(29, true) == 0
  {
  }

  /** A to L, semicolon, quote and backquote. */
  lemma HomeKeys()
    ensures KeyChar(30, false) == 97 && KeyChar(30, true) == 65 && KeyChar(31, false) == 115 && KeyChar(31, true) == 83
    ensures KeyChar(32, false) == 100 && KeyChar(32, true) == 68 && KeyChar(33, false) == 102 && KeyChar(33, true) == 70
    ensures KeyChar(34, false) == 103 && KeyChar(34, true) == 71 && KeyChar(35, false) == 104 && KeyChar(35, true) == 72
    ensures KeyChar(36, false) == 106 && KeyChar(36, true) == 74 && KeyChar(37, false) == 107 && KeyChar(37, true) == 75
    ensures KeyChar(38, false) == 108 && KeyChar(38, true) == 76 && KeyChar(39, false) == 59 && KeyChar(39, true) == 58
    ensures KeyChar(40, false) == 39 && KeyChar(40, true) == 34 && KeyChar(41, false) == 96 && KeyChar(41, true) == 126
    ensures KeyChar(42, false) == 0 && KeyChar(42, true) == 0
  {
  }

  /** Backslash, Z to M, comma, period, slash, star and Space. */
  lemma BottomKeys()
    ensures KeyChar(43, false) == 92 && KeyChar(43, true) == 124 && KeyChar(44, false) == 122 && KeyChar(44, true) == 90
    ensures KeyChar(45, false) == 120 && KeyChar(45, true) == 88 && KeyChar(46, false) == 99 && KeyChar(46, true) == 67
    ensures KeyChar(47, false) == 118 && KeyChar(47, true) == 86 && KeyChar(48, false) == 98 && KeyChar(48, true) == 66
    ensures KeyChar(49, false) == 110 && KeyChar(49, true) == 78 && KeyChar(50, false) == 109 && KeyChar(50, true) == 77
    ensures KeyChar(51, false) == 44 && KeyChar(51, true) == 60 && KeyChar(52, false) == 46 && KeyChar(52, true) == 62
    ensures KeyChar(53, false) == 47 && KeyChar(53, true) == 63 && KeyChar(54, false) == 0 && KeyChar(54, true) == 0
    ensures KeyChar(55, false) == 42 && KeyChar(55, true) == 42 && KeyChar(56, false) == 0 && KeyChar(56, true) == 0
    ensures KeyChar(57, false) == 32 && KeyChar(57, true) == 32
  {
  }

  /** Both Shift keys, pressed and released, outside a 0xE0 sequence; they queue nothing. */
  lemma ShiftKeys(m: Modifiers)
    requires !m.prefix
    ensures Decode(m, 0x2A) == (m.(shift := true), None) && Decode(m, 0x36) == (m.(shift := true), None)
    ensures Decode(m, 0xAA) == (m.(shift := false), None) && Decode(m, 0xB6) == (m.(shift := false), None)
  {
  }

  /** Outside a 0xE0 sequence any other code of the table queues its character, if it has one, and nothing else does. */
  lemma PlainKeys(m: Modifiers, scancode: byte)
    requires !m.prefix && scancode != 0xE0 && scancode != 0x2A && scancode != 0x36 && scancode != 0xAA && scancode != 0xB6
    ensures Decode(m, scancode).0 == m
    ensures Decode(m, scancode).1 == if scancode < 58 && KeyChar(scancode, m.shift) != 0 then Some(KeyChar(scancode, m.shift)) else None
  {
    hide KeyChar;
  }

  /** After 0xE0 only the two arrow codes queue something, and the prefix is used up, unless it is repeated. */
  lemma PrefixedKeys(m: Modifiers, scancode: byte)
    ensures Decode(m, 0xE0) == (m.(prefix := true), None)
    ensures m.prefix && scancode != 0xE0 ==>
              Decode(m, scancode) == (m.(prefix := false), if scancode == 0x48 then Some(0x11) else if scancode == 0x50 then Some(0x12) else None)
  {
  }

  // ----- the ring and its two users -----

  /** Where the reader is inside keyboard_read_char. */
  datatype Reader = Idle | Checked | Copied(c: byte)

  datatype State = State(queue: seq<byte>, read: nat, write: nat, reader: Reader,
                         accepted: seq<byte>, delivered: seq<byte>)

  predicate Shaped(s: State) {
    |s.queue| == RING && s.read < RING && s.write < RING
  }

  /** Number of characters waiting, computed across the wrap-around. */
  function Pending(s: State): int {
    if s.write >= s.read then s.write - s.read else s.write - s.read + RING
  }

  function Slot(s: State, i: nat): int
    requires i < RING
  {
    if s.read + i < RING then s.read + i else s.read + i - RING
  }

  function Waiting(s: State): (q: seq<byte>)
    requires Shaped(s)
    ensures |q| == Pending(s)
  {
    seq(Pending(s), i requires 0 <= i < Pending(s) => s.queue[Slot(s, i)])
  }

  /** Increment of a uint8_t index. */
  function Next8(i: nat): (r: nat)
    requires i < RING
    ensures r == (i + 1) % RING
  {
    if i == RING - 1 then 0 else i + 1
  }

  /** queue_push, run to completion inside the interrupt. */
  function Push(s: State, c: byte): State
    requires Shaped(s)
  {
    if Next8(s.write) == s.read then s
    else s.(queue := s.queue[s.write := c], write := Next8(s.write), accepted := s.accepted + [c])
  }

  /** One step of the reader: test for emptiness, copy the character, advance the index. */
  function ReaderStep(s: State): State
    requires Shaped(s)
  {
    match s.reader
    case Idle => if s.read == s.write then s else s.(reader := Checked)
    case Checked => s.(reader := Copied(s.queue[s.read]))
    case Copied(c) => s.(read := Next8(s.read), reader := Idle, delivered := s.delivered + [c])
  }

  datatype Action = Interrupt(c: byte) | Read

  function Step(s: State, a: Action): State
    requires Shaped(s)
  {
    match a
    case Interrupt(c) => Push(s, c)
    case Read => ReaderStep(s)
  }

  ghost predicate Inv(s: State) {
    && Shaped(s)
    && s.accepted == s.delivered + Waiting(s)
    && (s.reader != Idle ==> Pending(s) > 0)
    && (s.reader.Copied? ==> s.reader.c == s.queue[s.read])
  }

  lemma PushKeeps(s: State, c: byte)
    requires Inv(s)
    ensures Inv(Push(s, c))
    ensures Push(s, c) == s <==> Pending(s) == RING - 1
    ensures Pending(s) < RING - 1 ==> Push(s, c).accepted == s.accepted + [c]
  {
    if Pending(s) < RING - 1 {
      var s' := Push(s, c);
      assert Pending(s') == Pending(s) + 1;
      assert Slot(s, Pending(s)) == s.write;
      assert Waiting(s') == Waiting(s) + [c] by {
        assert forall i :: 0 <= i < Pending(s) ==> Slot(s', i) == Slot(s, i) != s.write;
      }
    }
  }

  lemma ReadKeeps(s: State)
    requires Inv(s)
    ensures Inv(ReaderStep(s))
  {
    if s.reader.Copied? {
      var s' := ReaderStep(s);
      assert Pending(s') == Pending(s) - 1;
      DropFirst(s, s');
      assert s.accepted == s.delivered + ([s.reader.c] + Waiting(s'));
    }
  }

  lemma DropFirst(s: State, s': State)
    requires Shaped(s) && Pending(s) > 0 && s'.queue == s.queue && s'.write == s.write && s'.read == Next8(s.read)
    ensures Shaped(s') && Waiting(s) == [s.queue[s.read]] + Waiting(s')
  {
    var q, r := Waiting(s), [s.queue[s.read]] + Waiting(s');
    assert |q| == |r|;
    forall i | 0 <= i < |q|
      ensures q[i] == r[i]
    {
      if i > 0 {
        assert Slot(s', i - 1) == Slot(s, i);
      }
    }
  }

  function Start(queue: seq<byte>): State {
    State(queue, 0, 0, Idle, [], [])
  }

  function Run(s: State, actions: seq<Action>): State {
    if actions == [] then s
    else
      var t := Run(s, actions[..|actions| - 1]);
      if Shaped(t) then Step(t, actions[|actions| - 1]) else t
  }

  /**
    Under every interleaving: the characters read are, in order, a prefix of those accepted, at most
    255 are pending, and the next push is dropped exactly when the ring is full.
  */
  lemma {:induction false} KeysInOrder(queue: seq<byte>, actions: seq<Action>, c: byte)
    requires |queue| == RING
    ensures var s := Run(Start(queue), actions);
      && Inv(s) && s.delivered <= s.accepted
      && |s.accepted| - |s.delivered| == Pending(s) <= RING - 1
      && (Push(s, c) == s <==> |s.accepted| - |s.delivered| == RING - 1)
    decreases |actions|
  {
    var s := Run(Start(queue), actions);
    if actions != [] {
      var init := actions[..|actions| - 1];
      KeysInOrder(queue, init, c);
      var t := Run(Start(queue), init);
      match actions[|actions| - 1]
      case Interrupt(x) => PushKeeps(t, x);
      case Read => ReadKeeps(t);
    }
    PushKeeps(s, c);
  }

  /** Interrupts while the reader stands still: each pushes its character or drops it. */
  function Pushes(s: State, cs: seq<byte>): State
    requires Shaped(s)
  {
    if cs == [] then s
    else
      var t := Pushes(s, cs[..|cs| - 1]);
      if Shaped(t) then Push(t, cs[|cs| - 1]) else t
  }

  lemma {:induction false} PushesKeep(s: State, cs: seq<byte>)
    requires Inv(s)
    ensures var t := Pushes(s, cs);
      && Inv(t) && t.read == s.read && t.reader == s.reader && t.delivered == s.delivered && Pending(t) >= Pending(s)
      && (Pending(s) > 0 ==> Waiting(t)[0] == Waiting(s)[0])
    decreases |cs|
  {
    if cs != [] {
      var n := |cs| - 1;
      PushesKeep(s, cs[..n]);
      var t := Pushes(s, cs[..n]);
      PushKeeps(t, cs[n]);
      PushFirst(t, cs[n]);
    }
  }

  lemma PushFirst(s: State, c: byte)
    requires Inv(s)
    ensures Pending(Push(s, c)) >= Pending(s) && (Pending(s) > 0 ==> Waiting(Push(s, c))[0] == Waiting(s)[0])
  {
    assert Pending(s) > 0 ==> Waiting(s)[0] == s.queue[Slot(s, 0)];
  }

  /**
    keyboard_read_char makes progress: with a character waiting, its three steps deliver exactly the oldest one,
    whatever interrupts come between them; with none waiting it gives up.
  */
  lemma ReadDelivers(s: State, xs: seq<byte>, ys: seq<byte>)
    requires Inv(s) && s.reader == Idle
    ensures Pending(s) == 0 ==> ReaderStep(s) == s
    ensures Pending(s) > 0 ==>
              var s1 := Pushes(ReaderStep(s), xs);
              Shaped(s1) &&
              var s2 := Pushes(ReaderStep(s1), ys);
              Shaped(s2) && ReaderStep(s2).reader == Idle && ReaderStep(s2).delivered == s.delivered + [Waiting(s)[0]]
  {
    hide Waiting, Pushes;
    FirstWaiting(s);
    if Pending(s) > 0 {
      var t := ReaderStep(s);
      ReadKeeps(s);
      FirstWaiting(t);
      PushesKeep(t, xs);
      var s1 := Pushes(t, xs);
      FirstWaiting(s1);
      ReadKeeps(s1);
      PushesKeep(ReaderStep(s1), ys);
    }
  }

  lemma FirstWaiting(s: State)
    requires Shaped(s)
    ensures Pending(s) > 0 ==> Waiting(s)[0] == s.queue[s.read]
    ensures Pending(s) == 0 <==> s.read == s.write
  {
    assert Pending(s) > 0 ==> Waiting(s)[0] == s.queue[Slot(s, 0)];
  }
}
