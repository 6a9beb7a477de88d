/**
  The heap's headers live in the memory they manage. This module relates the bytes of memory to
  the block list, and follows arbitrary runs of allocations, releases and client stores.
*/
module HeapMemory {
  import opened Bytes
  import opened HeapModel

  function NextOf(bs: seq<Block>, i: nat): nat {
    if i + 1 < |bs| then bs[i + 1].addr else 0
  }

  predicate HeaderAt(mem: seq<byte>, b: Block, next: nat) {
    && b.addr + HEADER <= |mem|
    && Get32(mem, b.addr) == b.size
    && Get32(mem, b.addr + 4) == next
    && mem[b.addr + 8] == if b.free then 1 else 0
  }

  /** The header of block `i` in memory holds its size, its successor and its flag. */
  predicate Linked(mem: seq<byte>, bs: seq<Block>, i: nat)
    requires i < |bs|
  {
    HeaderAt(mem, bs[i], NextOf(bs, i))
  }

  /** An arena the 32-bit header arithmetic can handle. */
  predicate Arena(lo: nat, hi: nat) {
    0 < lo && lo + HEADER <= hi < 0x1_0000_0000 && hi - lo < 0xFFFF_FFFC
  }

  /** The headers found in memory are those of `bs`, linked in order. */
  ghost predicate Represented(mem: seq<byte>, bs: seq<Block>, lo: nat, hi: nat) {
    && Arena(lo, hi) && hi <= |mem| && Tiles(bs, lo, hi)
    && forall i :: 0 <= i < |bs| ==> Linked(mem, bs, i)
  }

  function PutHeader(mem: seq<byte>, b: Block, next: u32): (r: seq<byte>)
    requires b.addr + HEADER <= |mem| && b.size < 0x1_0000_0000
    ensures |r| == |mem| && HeaderAt(r, b, next)
    ensures forall a :: 0 <= a < |mem| && !(b.addr <= a < b.addr + 9) ==> r[a] == mem[a]
  {
    var m1 := Put32(mem, b.addr, b.size);
    var m2 := Put32(m1, b.addr + 4, next);
    m2[b.addr + 8 := if b.free then 1 else 0]
  }

  /** Header writes of an allocation of `n` bytes from block `i`. */
  function TakeMem(mem: seq<byte>, bs: seq<Block>, i: nat, n: nat): (m: seq<byte>)
    requires i < |bs| && bs[i].size >= n && End(bs[i]) <= |mem| && End(bs[i]) <= 0x1_0000_0000
    requires NextOf(bs, i) < 0x1_0000_0000
    ensures |m| == |mem|
  {
    var b := bs[i];
    if b.size > n + HEADER + 4 then
      var tail := Block(b.addr + HEADER + n, b.size - n - HEADER, true);
      PutHeader(PutHeader(mem, tail, NextOf(bs, i)), Block(b.addr, n, false), tail.addr)
    else mem[b.addr + 8 := 0]
  }

  /** Header writes of releasing block `i`. */
  function ReleaseMem(mem: seq<byte>, bs: seq<Block>, i: nat): (m: seq<byte>)
    requires i < |bs| && End(bs[i]) <= |mem|
    requires Merges(bs, i) ==> bs[i].size + bs[i + 1].size + HEADER < 0x1_0000_0000 && NextOf(bs, i + 1) < 0x1_0000_0000
    ensures |m| == |mem|
  {
    if Merges(bs, i) then
      PutHeader(mem, Block(bs[i].addr, bs[i].size + bs[i + 1].size + HEADER, true), NextOf(bs, i + 1))
    else mem[bs[i].addr + 8 := 1]
  }

  lemma HeaderKept(mem: seq<byte>, mem': seq<byte>, b: Block, next: nat)
    requires HeaderAt(mem, b, next) && |mem'| == |mem|
    requires forall a :: b.addr <= a < b.addr + 9 ==> mem'[a] == mem[a]
    ensures HeaderAt(mem', b, next)
  {
  }

  lemma NextBound(bs: seq<Block>, lo: nat, hi: nat, i: nat)
    requires Tiles(bs, lo, hi) && i < |bs|
    ensures NextOf(bs, i) <= hi && End(bs[i]) <= hi
    ensures NextOf(bs, i) < hi
  {
    InBounds(bs, lo, hi, i);
    if i + 1 < |bs| {
      assert Follows(bs, i);
      InBounds(bs, lo, hi, i + 1);
    }
  }

  /** Memory is the same outside [from, to). */
  ghost predicate SameOutside(mem: seq<byte>, mem': seq<byte>, from: nat, to: nat) {
    |mem'| == |mem| && forall a :: 0 <= a < |mem| && !(from <= a < to) ==> mem'[a] == mem[a]
  }

  /** A block other than `i` keeps its header when only bytes of block `i` change. */
  lemma OtherHeader(mem: seq<byte>, mem': seq<byte>, bs: seq<Block>, lo: nat, hi: nat, i: nat, k: nat)
    requires Represented(mem, bs, lo, hi) && i < |bs| && k < |bs| && k != i
    requires SameOutside(mem, mem', bs[i].addr, End(bs[i]))
    ensures HeaderAt(mem', bs[k], NextOf(bs, k))
  {
    Apart(bs, lo, hi, i, k);
    assert Linked(mem, bs, k);
    HeaderKept(mem, mem', bs[k], NextOf(bs, k));
  }

  lemma SplitAt(bs: seq<Block>, i: nat, n: nat, j: nat)
    requires i < |bs| && bs[i].size > n + HEADER + 4 && j < |bs| + 1 && j != i && j != i + 1
    ensures var t, k := Take(bs, i, n), if j > i then j - 1 else j;
      |t| == |bs| + 1 && t[j] == bs[k] && NextOf(t, j) == NextOf(bs, k)
  {
  }

  lemma MergedAt(bs: seq<Block>, i: nat, j: nat)
    requires i < |bs| && Merges(bs, i) && j < |bs| - 1 && j != i
    ensures var t, k := Release(bs, i), if j > i then j + 1 else j;
      |t| == |bs| - 1 && t[j] == bs[k] && NextOf(t, j) == NextOf(bs, k)
  {
  }

  lemma SplitRepresented(mem: seq<byte>, mem': seq<byte>, bs: seq<Block>, lo: nat, hi: nat, i: nat, n: nat)
    requires Represented(mem, bs, lo, hi) && i < |bs| && bs[i].size > n + HEADER + 4
    requires SameOutside(mem, mem', bs[i].addr, End(bs[i]))
    requires HeaderAt(mem', Take(bs, i, n)[i], Take(bs, i, n)[i + 1].addr)
    requires HeaderAt(mem', Take(bs, i, n)[i + 1], NextOf(bs, i))
    ensures Represented(mem', Take(bs, i, n), lo, hi)
  {
    var t := Take(bs, i, n);
    TakeTiles(bs, lo, hi, i, n);
    forall j | 0 <= j < |t|
      ensures Linked(mem', t, j)
    {
      if j != i && j != i + 1 {
        SplitAt(bs, i, n, j);
        OtherHeader(mem, mem', bs, lo, hi, i, if j > i then j - 1 else j);
      }
    }
  }

  lemma FlagRepresented(mem: seq<byte>, bs: seq<Block>, lo: nat, hi: nat, i: nat, free: bool)
    requires Represented(mem, bs, lo, hi) && i < |bs|
    ensures End(bs[i]) <= hi
    ensures var mem' := mem[bs[i].addr + 8 := if free then 1 else 0];
      Represented(mem', bs[i := bs[i].(free := free)], lo, hi)
  {
    hide Get32, Linked, HeaderAt;
    InBounds(bs, lo, hi, i);
    var mem', t := mem[bs[i].addr + 8 := if free then 1 else 0], bs[i := bs[i].(free := free)];
    forall j | 0 <= j < |t| - 1
      ensures Follows(t, j)
    {
      assert Follows(bs, j);
    }
    forall j | 0 <= j < |t|
      ensures Linked(mem', t, j)
    {
      assert Linked(mem, bs, j);
      InBounds(bs, lo, hi, j);
      if j != i {
        Apart(bs, lo, hi, i, j);
      }
      FlagLinked(mem, bs, i, free, j);
    }
  }

  lemma FlagLinked(mem: seq<byte>, bs: seq<Block>, i: nat, free: bool, j: nat)
    requires i < |bs| && j < |bs| && Linked(mem, bs, j) && bs[i].addr + HEADER <= |mem|
    requires j == i || bs[j].addr + HEADER <= bs[i].addr || bs[i].addr + HEADER <= bs[j].addr
    ensures Linked(mem[bs[i].addr + 8 := if free then 1 else 0], bs[i := bs[i].(free := free)], j)
  {
    var mem' := mem[bs[i].addr + 8 := if free then 1 else 0];
    var b, next := bs[j], NextOf(bs, j);
    assert NextOf(bs[i := bs[i].(free := free)], j) == next;
    SameWord(mem, mem', b.addr);
    SameWord(mem, mem', b.addr + 4);
  }

  lemma SameWord(mem: seq<byte>, m: seq<byte>, a: nat)
    requires a + 4 <= |mem| == |m|
    ensures (forall x :: a <= x < a + 4 ==> m[x] == mem[x]) ==> Get32(m, a) == Get32(mem, a)
  {
  }

  lemma MergeRepresented(mem: seq<byte>, mem': seq<byte>, bs: seq<Block>, lo: nat, hi: nat, i: nat)
    requires Represented(mem, bs, lo, hi) && i < |bs| && Merges(bs, i)
    requires SameOutside(mem, mem', bs[i].addr, End(bs[i]))
    requires HeaderAt(mem', Release(bs, i)[i], NextOf(bs, i + 1))
    ensures Represented(mem', Release(bs, i), lo, hi)
  {
    var t := Release(bs, i);
    assert NextOf(t, i) == NextOf(bs, i + 1);
    ReleaseTiles(bs, lo, hi, i);
    assert Follows(bs, i);
    forall j | 0 <= j < |t|
      ensures Linked(mem', t, j)
    {
      if j != i {
        MergedAt(bs, i, j);
        OtherHeader(mem, mem', bs, lo, hi, i, if j > i then j + 1 else j);
      }
    }
  }

  lemma TakeRepresented(mem: seq<byte>, bs: seq<Block>, lo: nat, hi: nat, i: nat, n: nat)
    requires Represented(mem, bs, lo, hi) && i < |bs| && bs[i].size >= n
    ensures NextOf(bs, i) < hi && End(bs[i]) <= hi
    ensures var mem' := TakeMem(mem, bs, i, n);
      Represented(mem', Take(bs, i, n), lo, hi) && SameOutside(mem, mem', bs[i].addr, End(bs[i]))
  {
    NextBound(bs, lo, hi, i);
    var b := bs[i];
    if b.size > n + HEADER + 4 {
      var tail := Block(b.addr + HEADER + n, b.size - n - HEADER, true);
      var m1 := PutHeader(mem, tail, NextOf(bs, i));
      var m2 := PutHeader(m1, Block(b.addr, n, false), tail.addr);
      HeaderKept(m1, m2, tail, NextOf(bs, i));
      SplitRepresented(mem, m2, bs, lo, hi, i, n);
    } else {
      FlagRepresented(mem, bs, lo, hi, i, false);
    }
  }

  lemma ReleaseRepresented(mem: seq<byte>, bs: seq<Block>, lo: nat, hi: nat, i: nat)
    requires Represented(mem, bs, lo, hi) && i < |bs|
    ensures End(bs[i]) <= hi
    ensures Merges(bs, i) ==> bs[i].size + bs[i + 1].size + HEADER < 0x1_0000_0000 && NextOf(bs, i + 1) < hi
    ensures var mem' := ReleaseMem(mem, bs, i);
      Represented(mem', Release(bs, i), lo, hi) && SameOutside(mem, mem', bs[i].addr, bs[i].addr + HEADER)
  {
    InBounds(bs, lo, hi, i);
    if Merges(bs, i) {
      NextBound(bs, lo, hi, i + 1);
      assert Follows(bs, i);
      var mem' := PutHeader(mem, Release(bs, i)[i], NextOf(bs, i + 1));
      MergeRepresented(mem, mem', bs, lo, hi, i);
    } else {
      FlagRepresented(mem, bs, lo, hi, i, true);
    }
  }

  // ----- runs -----

  /** Memory, its blocks, and what clients last stored in payload bytes they still own. */
  datatype Heap = Heap(mem: seq<byte>, blocks: seq<Block>, stored: map<nat, byte>)

  datatype Op = Alloc(size: u32) | Dealloc(p: nat) | Store(at: nat, v: byte)

  /** Byte `a` belongs to a live payload. */
  ghost predicate Owned(bs: seq<Block>, a: nat) {
    exists i :: 0 <= i < |bs| && !bs[i].free && Payload(bs[i]) <= a < End(bs[i])
  }

  /** A valid client releases only live payloads (or NULL) and stores only in its own payloads. */
  ghost predicate Allowed(h: Heap, op: Op) {
    match op
    case Alloc(_) => true
    case Dealloc(p) => p == 0 || p in Live(h.blocks)
    case Store(a, _) => Owned(h.blocks, a)
  }

  ghost predicate Sound(h: Heap, lo: nat, hi: nat) {
    && Represented(h.mem, h.blocks, lo, hi)
    && forall a :: a in h.stored ==> Owned(h.blocks, a) && a < |h.mem| && h.mem[a] == h.stored[a]
  }

  /** Memory after kmalloc(size). */
  ghost function AllocMem(mem: seq<byte>, bs: seq<Block>, size: u32, lo: nat, hi: nat): (m: seq<byte>)
    requires Represented(mem, bs, lo, hi)
    ensures |m| == |mem|
  {
    var i := FirstFit(bs, Round4(size));
    if i == |bs| then mem
    else
      TakeRepresented(mem, bs, lo, hi, i, Round4(size));
      TakeMem(mem, bs, i, Round4(size))
  }

  /** Memory after kfree of a live payload or NULL. */
  ghost function FreeMem(mem: seq<byte>, bs: seq<Block>, p: nat, lo: nat, hi: nat): (m: seq<byte>)
    requires Represented(mem, bs, lo, hi) && (p == 0 || p in Live(bs))
    ensures |m| == |mem|
  {
    if p == 0 then mem
    else
      FreeLive(bs, lo, hi, p);
      ReleaseRepresented(mem, bs, lo, hi, IndexOf(bs, p));
      ReleaseMem(mem, bs, IndexOf(bs, p))
  }

  lemma AllocRepresented(mem: seq<byte>, bs: seq<Block>, size: u32, lo: nat, hi: nat)
    requires Represented(mem, bs, lo, hi)
    ensures var m := AllocMem(mem, bs, size, lo, hi);
      Represented(m, Malloc(bs, size).0, lo, hi) && SameOutside(mem, m, lo, hi)
  {
    hide Represented, TakeMem, Take;
    var i := FirstFit(bs, Round4(size));
    if i < |bs| {
      TakeRepresented(mem, bs, lo, hi, i, Round4(size));
      TilesOf(mem, bs, lo, hi);
      InBounds(bs, lo, hi, i);
    }
  }

  lemma FreeRepresented(mem: seq<byte>, bs: seq<Block>, p: nat, lo: nat, hi: nat)
    requires Represented(mem, bs, lo, hi) && (p == 0 || p in Live(bs))
    ensures var m := FreeMem(mem, bs, p, lo, hi);
      Represented(m, Free(bs, p), lo, hi) && SameOutside(mem, m, lo, hi)
  {
    hide Represented, ReleaseMem, Release;
    if p != 0 {
      TilesOf(mem, bs, lo, hi);
      FreeLive(bs, lo, hi, p);
      ReleaseRepresented(mem, bs, lo, hi, IndexOf(bs, p));
      InBounds(bs, lo, hi, IndexOf(bs, p));
    }
  }

  lemma TilesOf(mem: seq<byte>, bs: seq<Block>, lo: nat, hi: nat)
    requires Represented(mem, bs, lo, hi)
    ensures Tiles(bs, lo, hi) && Arena(lo, hi) && hi <= |mem|
  {
  }

  /** Stores inside the payload of a block leave every header alone. */
  lemma PayloadStores(mem: seq<byte>, mem': seq<byte>, bs: seq<Block>, lo: nat, hi: nat, i: nat)
    requires Represented(mem, bs, lo, hi) && i < |bs| && SameOutside(mem, mem', Payload(bs[i]), End(bs[i]))
    ensures Represented(mem', bs, lo, hi)
  {
    forall k | 0 <= k < |bs|
      ensures Linked(mem', bs, k)
    {
      assert Linked(mem, bs, k);
      if k != i {
        Apart(bs, lo, hi, i, k);
      }
      HeaderKept(mem, mem', bs[k], NextOf(bs, k));
    }
  }

  /** So do stores outside the arena. */
  lemma OutsideStores(mem: seq<byte>, mem': seq<byte>, bs: seq<Block>, lo: nat, hi: nat)
    requires Represented(mem, bs, lo, hi) && |mem'| == |mem| && forall a :: lo <= a < hi ==> mem'[a] == mem[a]
    ensures Represented(mem', bs, lo, hi)
  {
    forall k | 0 <= k < |bs|
      ensures Linked(mem', bs, k)
    {
      assert Linked(mem, bs, k);
      InBounds(bs, lo, hi, k);
      HeaderKept(mem, mem', bs[k], NextOf(bs, k));
    }
  }

  ghost function Step(h: Heap, op: Op, lo: nat, hi: nat): Heap
    requires Sound(h, lo, hi) && Allowed(h, op)
  {
    match op
    case Alloc(size) => Heap(AllocMem(h.mem, h.blocks, size, lo, hi), Malloc(h.blocks, size).0, h.stored)
    case Dealloc(p) =>
      if p == 0 then h
      else
        FreeLive(h.blocks, lo, hi, p);
        var i := IndexOf(h.blocks, p);
        Heap(FreeMem(h.mem, h.blocks, p, lo, hi), Free(h.blocks, p),
             map a | a in h.stored && !(p <= a < End(h.blocks[i])) :: h.stored[a])
    case Store(a, v) =>
      OwnedInside(h.blocks, lo, hi, a);
      Heap(h.mem[a := v], h.blocks, h.stored[a := v])
  }

  lemma OwnedInside(bs: seq<Block>, lo: nat, hi: nat, a: nat)
    requires Tiles(bs, lo, hi) && Owned(bs, a)
    ensures lo + HEADER <= a < hi
  {
    var i :| 0 <= i < |bs| && !bs[i].free && Payload(bs[i]) <= a < End(bs[i]);
    InBounds(bs, lo, hi, i);
  }

  lemma TakeOwned(bs: seq<Block>, lo: nat, hi: nat, i: nat, n: nat, a: nat)
    requires Tiles(bs, lo, hi) && i < |bs| && bs[i].free && bs[i].size >= n && Owned(bs, a)
    ensures Owned(Take(bs, i, n), a) && !(bs[i].addr <= a < End(bs[i]))
  {
    var j :| 0 <= j < |bs| && !bs[j].free && Payload(bs[j]) <= a < End(bs[j]);
    Apart(bs, lo, hi, i, j);
    var k := if bs[i].size > n + HEADER + 4 && j > i then j + 1 else j;
    assert Take(bs, i, n)[k] == bs[j];
  }

  lemma ReleaseOwned(bs: seq<Block>, lo: nat, hi: nat, i: nat, a: nat)
    requires Tiles(bs, lo, hi) && i < |bs| && !bs[i].free && Owned(bs, a)
    requires !(Payload(bs[i]) <= a < End(bs[i]))
    ensures Owned(Release(bs, i), a) && !(bs[i].addr <= a < End(bs[i]))
  {
    var j :| 0 <= j < |bs| && !bs[j].free && Payload(bs[j]) <= a < End(bs[j]);
    Apart(bs, lo, hi, i, j);
    var k := if Merges(bs, i) && j > i then j - 1 else j;
    assert Release(bs, i)[k] == bs[j];
  }

  lemma HeaderNotOwned(bs: seq<Block>, lo: nat, hi: nat, i: nat, a: nat)
    requires Tiles(bs, lo, hi) && i < |bs| && Owned(bs, a)
    ensures !(bs[i].addr <= a < bs[i].addr + HEADER)
  {
    var j :| 0 <= j < |bs| && !bs[j].free && Payload(bs[j]) <= a < End(bs[j]);
    if i != j {
      Apart(bs, lo, hi, i, j);
    }
  }

  /** Each step keeps the headers consistent and every owned byte as its owner last stored it. */
  lemma StepSound(h: Heap, op: Op, lo: nat, hi: nat)
    requires Sound(h, lo, hi) && Allowed(h, op)
    ensures Sound(Step(h, op, lo, hi), lo, hi)
  {
    var h' := Step(h, op, lo, hi);
    match op
    case Alloc(size) =>
      var n := Round4(size);
      var i := FirstFit(h.blocks, n);
      if i < |h.blocks| {
        TakeRepresented(h.mem, h.blocks, lo, hi, i, n);
        forall a | a in h.stored
          ensures Owned(h'.blocks, a) && h'.mem[a] == h.mem[a]
        {
          TakeOwned(h.blocks, lo, hi, i, n, a);
        }
      }
    case Dealloc(p) =>
      if p != 0 {
        FreeLive(h.blocks, lo, hi, p);
        var i := IndexOf(h.blocks, p);
        ReleaseRepresented(h.mem, h.blocks, lo, hi, i);
        forall a | a in h'.stored
          ensures Owned(h'.blocks, a) && h'.mem[a] == h.mem[a]
        {
          ReleaseOwned(h.blocks, lo, hi, i, a);
        }
      }
    case Store(a, v) =>
      OwnedInside(h.blocks, lo, hi, a);
      forall j | 0 <= j < |h.blocks|
        ensures Linked(h'.mem, h.blocks, j)
      {
        HeaderNotOwned(h.blocks, lo, hi, j, a);
        InBounds(h.blocks, lo, hi, j);
        assert Linked(h.mem, h.blocks, j);
        HeaderKept(h.mem, h'.mem, h.blocks[j], NextOf(h.blocks, j));
      }
  }

  function InitialBlocks(lo: nat, hi: nat): seq<Block>
    requires lo + HEADER <= hi
  {
    [Block(lo, hi - lo - HEADER, true)]
  }

  /** heap_init on memory `m0`. */
  function Fresh(m0: seq<byte>, lo: nat, hi: nat): Heap
    requires Arena(lo, hi) && hi <= |m0|
  {
    Heap(PutHeader(m0, InitialBlocks(lo, hi)[0], 0), InitialBlocks(lo, hi), map[])
  }

  lemma FreshSound(m0: seq<byte>, lo: nat, hi: nat)
    requires Arena(lo, hi) && hi <= |m0|
    ensures Sound(Fresh(m0, lo, hi), lo, hi)
  {
    var b := InitialBlocks(lo, hi)[0];
    var mem := PutHeader(m0, b, 0);
    assert HeaderAt(mem, b, 0);
    assert Linked(mem, InitialBlocks(lo, hi), 0);
  }

  /** The heap after `ops` from a fresh heap; None as soon as a client breaks its obligations. */
  ghost function Run(m0: seq<byte>, ops: seq<Op>, lo: nat, hi: nat): (r: Option<Heap>)
    requires Arena(lo, hi) && hi <= |m0|
    ensures r.Some? ==> Sound(r.value, lo, hi)
  {
    if ops == [] then
      FreshSound(m0, lo, hi);
      Some(Fresh(m0, lo, hi))
    else
      var g := Run(m0, ops[..|ops| - 1], lo, hi);
      var op := ops[|ops| - 1];
      if g.Some? && Allowed(g.value, op) then
        StepSound(g.value, op, lo, hi);
        Some(Step(g.value, op, lo, hi))
      else None
  }

  /** The heap theorem: tiling, consistent headers, owned bytes intact and conservation, in every run. */
  lemma {:induction false} RunSound(m0: seq<byte>, ops: seq<Op>, lo: nat, hi: nat)
    requires Arena(lo, hi) && hi <= |m0| && Run(m0, ops, lo, hi).Some?
    ensures var h := Run(m0, ops, lo, hi).value;
      && Tiles(h.blocks, lo, hi) && Represented(h.mem, h.blocks, lo, hi)
      && (forall a :: a in h.stored ==> Owned(h.blocks, a) && a < |h.mem| && h.mem[a] == h.stored[a])
      && UsedBytes(h.blocks) + FreeBytes(h.blocks) + HEADER * |h.blocks| == hi - lo
      && (lo % 4 == 0 ==> Aligned(h.blocks))
      && |h.mem| == |m0| && (forall a :: 0 <= a < |m0| && !(lo <= a < hi) ==> h.mem[a] == m0[a])
    decreases |ops|
  {
    var h := Run(m0, ops, lo, hi).value;
    if ops != [] {
      var init, op := ops[..|ops| - 1], ops[|ops| - 1];
      RunSound(m0, init, lo, hi);
      var g := Run(m0, init, lo, hi).value;
      StepFrame(g, op, lo, hi);
      if lo % 4 == 0 {
        StepAligned(g, op, lo, hi);
      }
    }
    Conservation(h.blocks, lo, hi);
  }

  /** No step touches memory outside the arena. */
  lemma StepFrame(h: Heap, op: Op, lo: nat, hi: nat)
    requires Sound(h, lo, hi) && Allowed(h, op)
    ensures SameOutside(h.mem, Step(h, op, lo, hi).mem, lo, hi)
  {
    match op
    case Alloc(size) => AllocRepresented(h.mem, h.blocks, size, lo, hi);
    case Dealloc(p) => FreeRepresented(h.mem, h.blocks, p, lo, hi);
    case Store(a, v) =>
      OwnedInside(h.blocks, lo, hi, a);
  }

  lemma StepAligned(h: Heap, op: Op, lo: nat, hi: nat)
    requires Sound(h, lo, hi) && Allowed(h, op) && Aligned(h.blocks)
    ensures Aligned(Step(h, op, lo, hi).blocks)
  {
    match op
    case Alloc(size) => MallocAligned(h.blocks, size);
    case Dealloc(p) =>
      if p != 0 {
        FreeLive(h.blocks, lo, hi, p);
        FreeAligned(h.blocks, IndexOf(h.blocks, p));
      }
    case Store(_, _) =>
  }

  lemma AlignedPayload(bs: seq<Block>, i: nat)
    requires Aligned(bs) && i < |bs|
    ensures Payload(bs[i]) % 4 == 0
  {
  }

  /** In every run live payloads are inside the arena, pairwise disjoint, and aligned if the arena is. */
  lemma LivePayloads(m0: seq<byte>, ops: seq<Op>, lo: nat, hi: nat, i: nat, j: nat)
    requires Arena(lo, hi) && hi <= |m0| && Run(m0, ops, lo, hi).Some?
    requires i < |Run(m0, ops, lo, hi).value.blocks| && j < |Run(m0, ops, lo, hi).value.blocks| && i != j
    ensures var bs := Run(m0, ops, lo, hi).value.blocks;
      && lo + HEADER <= Payload(bs[i]) && End(bs[i]) <= hi
      && (End(bs[i]) <= bs[j].addr || End(bs[j]) <= bs[i].addr)
      && (lo % 4 == 0 ==> Payload(bs[i]) % 4 == 0)
  {
    hide Step, Represented, Run;
    RunSound(m0, ops, lo, hi);
    var bs := Run(m0, ops, lo, hi).value.blocks;
    InBounds(bs, lo, hi, i);
    Apart(bs, lo, hi, i, j);
    if lo % 4 == 0 {
      AlignedPayload(bs, i);
    }
  }
}
