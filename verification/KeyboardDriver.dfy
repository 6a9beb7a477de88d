/** The interrupt handler, queue_push and keyboard_read_char as written, on a 256-byte buffer. */
module KeyboardDriver {
  import opened Bytes
  import opened KeyboardModel

  class Keyboard {
    const queue: array<byte>
    var read: byte
    var write: byte
    var modifiers: Modifiers
    ghost var accepted: seq<byte>
    ghost var delivered: seq<byte>

    ghost function Ring(): State
      reads this, queue
    {
      State(queue[..], read, write, Idle, accepted, delivered)
    }

    ghost predicate Valid()
      reads this, queue
    {
      queue.Length == RING && Inv(Ring())
    }

    constructor (buffer: array<byte>)
      requires buffer.Length == RING
      ensures Valid() && queue == buffer && accepted == [] && delivered == []
    {
      queue, read, write, modifiers := buffer, 0, 0, Modifiers(false, false);
      accepted, delivered := [], [];
    }

    method QueuePush(c: byte)
      requires Valid()
      modifies this`write, this`accepted, queue
      ensures Valid() && Ring() == Push(old(Ring()), c)
    {
      PushKeeps(Ring(), c);
      var next := (write + 1) % RING;
      if next != read {
        queue[write] := c;
        write := next;
        accepted := accepted + [c];
      }
    }

    /** One interrupt: decode the scancode and queue the character it stands for. */
    method Handle(scancode: byte)
      requires Valid()
      modifies this`write, this`accepted, this`modifiers, queue
      ensures Valid() && modifiers == Decode(old(modifiers), scancode).0
      ensures var c := Decode(old(modifiers), scancode).1;
        Ring() == if c.Some? then Push(old(Ring()), c.value) else old(Ring())
    {
      hide Inv, Push, Symbol;
      if scancode == 0xE0 {
        modifiers := modifiers.(prefix := true);
        return;
      }
      var make, code := scancode < 0x80, scancode % 0x80;
      if modifiers.prefix {
        modifiers := modifiers.(prefix := false);
        if make {
          if code == 0x48 {
            QueuePush(KEY_UP);
          } else if code == 0x50 {
            QueuePush(KEY_DOWN);
          }
        }
        return;
      }
      if scancode == 0x2A || scancode == 0x36 {
        modifiers := modifiers.(shift := true);
        return;
      }
      if scancode == 0xAA || scancode == 0xB6 {
        modifiers := modifiers.(shift := false);
        return;
      }
      if make && code < TABLE {
        var c := KeyChar(code, modifiers.shift);
        if c != 0 {
          QueuePush(c);
        }
      }
    }

    /** An uninterrupted read: the oldest pending character, or nothing when the ring is empty. */
    method ReadChar() returns (c: Option<byte>)
      requires Valid()
      modifies this`read, this`delivered
      ensures Valid() && accepted == old(accepted)
      ensures old(Waiting(Ring())) == [] ==> c == None && delivered == old(delivered)
      ensures old(Waiting(Ring())) != [] ==> c == Some(old(Waiting(Ring()))[0]) && delivered == old(delivered) + [c.value]
    {
      if read == write {
        return None;
      }
      ghost var s1 := ReaderStep(Ring());
      ghost var s2 := ReaderStep(s1);
      ReadKeeps(Ring());
      ReadKeeps(s1);
      ReadKeeps(s2);
      assert Waiting(Ring())[0] == queue[Slot(Ring(), 0)];
      c := Some(queue[read]);
      read := (read + 1) % RING;
      delivered := delivered + [c.value];
      assert Ring() == ReaderStep(s2);
    }
  }
}
