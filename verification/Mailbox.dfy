/** The per-task mailbox: a ring of four 128-byte slots, refining a bounded FIFO of messages. */
module Mailbox {
  import opened Bytes

  const SLOTS := 4      // MAILBOX_QUEUE_SIZE
  const SLOT_BYTES := 128

  datatype Message = Message(sender: int, text: seq<byte>)

  datatype Box = Box(data: seq<seq<byte>>, len: seq<nat>, sender: seq<int>, head: nat, count: nat)

  predicate Valid(b: Box) {
    && |b.data| == SLOTS && |b.len| == SLOTS && |b.sender| == SLOTS
    && (forall k :: 0 <= k < SLOTS ==> |b.data[k]| == SLOT_BYTES && b.len[k] <= SLOT_BYTES)
    && b.head < SLOTS && b.count <= SLOTS
  }

  /** Ring slot of the k-th pending message. */
  function SlotAt(b: Box, k: nat): nat {
    (b.head + k) % SLOTS
  }

  function MessageAt(b: Box, slot: nat): Message
    requires Valid(b) && slot < SLOTS
  {
    Message(b.sender[slot], b.data[slot][..b.len[slot]])
  }

  /** The pending messages, oldest first. */
  function Queue(b: Box): (q: seq<Message>)
    requires Valid(b)
    ensures |q| == b.count
  {
    seq(b.count, k requires 0 <= k < b.count => MessageAt(b, SlotAt(b, k)))
  }

  /** A mailbox in zeroed memory. */
  function Zero(): Box {
    Box(seq(SLOTS, i => seq(SLOT_BYTES, j => 0)), seq(SLOTS, i => 0), seq(SLOTS, i => 0), 0, 0)
  }

  function Reset(b: Box): Box {
    b.(head := 0, count := 0, len := seq(SLOTS, i => 0), sender := seq(SLOTS, i => -1))
  }

  /** The part of a message the kernel keeps: its first 128 bytes. */
  function Kept(text: seq<byte>): seq<byte> {
    text[..Min(|text|, SLOT_BYTES)]
  }

  function Put(b: Box, sender: int, text: seq<byte>): Box
    requires Valid(b) && b.count < SLOTS
  {
    var slot := SlotAt(b, b.count);
    var kept := Kept(text);
    Box(b.data[slot := kept + b.data[slot][|kept|..]], b.len[slot := |kept|], b.sender[slot := sender],
        b.head, b.count + 1)
  }

  function Take(b: Box): Box
    requires Valid(b) && b.count > 0
  {
    b.(head := (b.head + 1) % SLOTS, count := b.count - 1)
  }

  lemma SlotValue(b: Box, k: nat)
    requires b.head < SLOTS && k <= SLOTS
    ensures SlotAt(b, k) == if b.head + k < SLOTS then b.head + k else b.head + k - SLOTS
  {
  }

  lemma ResetEmpty(b: Box)
    requires Valid(b)
    ensures Valid(Reset(b)) && Queue(Reset(b)) == []
  {
  }

  /** Accepting a message appends it to the queue, whatever the ring position. */
  lemma PutAppends(b: Box, sender: int, text: seq<byte>)
    requires Valid(b) && b.count < SLOTS
    ensures Valid(Put(b, sender, text))
    ensures Queue(Put(b, sender, text)) == Queue(b) + [Message(sender, Kept(text))]
  {
    var b', slot := Put(b, sender, text), SlotAt(b, b.count);
    assert b'.data[slot][..b'.len[slot]] == Kept(text);
    forall k | 0 <= k < b.count
      ensures Queue(b')[k] == Queue(b)[k]
    {
      SlotValue(b, k);
      SlotValue(b, b.count);
      assert SlotAt(b', k) == SlotAt(b, k) != slot;
    }
  }

  /** Receiving hands out the oldest message and leaves the rest in order. */
  lemma TakeRemoves(b: Box)
    requires Valid(b) && b.count > 0
    ensures Valid(Take(b))
    ensures Queue(b) == [MessageAt(b, b.head)] + Queue(Take(b))
  {
    var q, q' := Queue(b), Queue(Take(b));
    forall k | 0 <= k < b.count - 1
      ensures q[k + 1] == q'[k]
    {
      assert SlotAt(b, k + 1) == SlotAt(Take(b), k);
    }
    assert q[0] == MessageAt(b, b.head);
  }
}
