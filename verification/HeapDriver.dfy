/** kmalloc, kfree and heap_stats as written: they walk and patch the headers found in memory. */
module HeapDriver {
  import opened Bytes
  import opened HeapModel
  import opened HeapMemory

  class KernelHeap {
    const mem: array<byte>
    var heapStart: u32          // 0 until heap_init
    ghost var blocks: seq<Block>
    ghost var limit: nat

    ghost predicate Valid()
      reads this, mem
    {
      heapStart != 0 ==> Represented(mem[..], blocks, heapStart, limit)
    }

    constructor (memory: array<byte>)
      ensures Valid() && heapStart == 0 && mem == memory
    {
      mem, heapStart := memory, 0;
    }

    method WriteHeader(b: Block, next: u32)
      requires b.addr + HEADER <= mem.Length && b.size < 0x1_0000_0000
      modifies mem
      ensures mem[..] == PutHeader(old(mem[..]), b, next)
    {
      hide Put32;
      StoreWord(mem, b.addr, b.size);
      StoreWord(mem, b.addr + 4, next);
      mem[b.addr + 8] := if b.free then 1 else 0;
    }

    /** Fields of the header at `at`, which is that of block `i`. */
    method ReadHeader(at: nat, ghost i: nat) returns (size: u32, next: u32, free: bool)
      requires i < |blocks| && blocks[i].addr == at && Linked(mem[..], blocks, i)
      ensures size == blocks[i].size && next == NextOf(blocks, i) && free == blocks[i].free
    {
      size, next, free := Get32(mem[..], at), Get32(mem[..], at + 4), mem[at + 8] != 0;
    }

    method Init(start: u32, size: u32)
      requires Arena(start, start + size) && start + size <= mem.Length
      modifies this, mem
      ensures Valid() && heapStart == start && limit == start + size
      ensures mem[..] == Fresh(old(mem[..]), start, start + size).mem && blocks == InitialBlocks(start, start + size)
    {
      hide PutHeader, Represented;
      FreshSound(mem[..], start, start + size);
      heapStart := start;
      WriteHeader(Block(start, size - HEADER, true), 0);
      blocks, limit := InitialBlocks(start, start + size), start + size;
    }

    /** Returns 0 exactly when no free block fits; otherwise the first one that does. */
    method Kmalloc(size: u32) returns (p: u32)
      requires Valid()
      modifies this`blocks, mem
      ensures Valid()
      ensures heapStart == 0 ==> p == 0 && mem[..] == old(mem[..]) && blocks == old(blocks)
      ensures heapStart != 0 ==>
                var r := Malloc(old(blocks), size).1;
                && blocks == Malloc(old(blocks), size).0 && p == (if r.Some? then r.value else 0)
                && mem[..] == AllocMem(old(mem[..]), old(blocks), size, heapStart, limit)
      ensures forall a :: 0 <= a < mem.Length && (Owned(old(blocks), a) || !(heapStart <= a < limit)) ==> mem[a] == old(mem[a])
    {
      hide Represented, TakeMem, Linked, AllocMem, Wrap;
      if heapStart == 0 {
        return 0;
      }
      TilesOf(mem[..], blocks, heapStart, limit);
      var n := Round4(size);
      var curr: u32 := heapStart;
      ghost var i, before := 0, mem[..];
      while curr != 0
        invariant mem[..] == before && blocks == old(blocks)
        invariant i <= |blocks| && FirstFit(blocks, n) == FirstFit(blocks, n, i)
        invariant curr == if i < |blocks| then blocks[i].addr else 0
        decreases |blocks| - i
      {
        LinkedOf(mem[..], blocks, heapStart, limit, i);
        var currSize, next, free := ReadHeader(curr, i);
        if free && currSize >= n {
          NextBound(blocks, heapStart, limit, i);
          InBounds(blocks, heapStart, limit, i);
          Claim(curr, currSize, next, n, i);
          Claimed(before, blocks, heapStart, limit, i, size);
          blocks := Take(blocks, i, n);
          return curr + HEADER;
        }
        NextPositive(blocks, heapStart, limit, i);
        curr := next;
        i := i + 1;
      }
      FirstPositive(blocks, heapStart, limit, i);
      NothingClaimed(before, blocks, heapStart, limit, size);
      return 0;
    }

    /** Takes block `i`, splitting it when the rest can hold a header and more than 4 bytes. */
    method Claim(curr: u32, currSize: u32, link: u32, n: u32, ghost i: nat)
      requires i < |blocks| && blocks[i].size >= n && End(blocks[i]) <= mem.Length && End(blocks[i]) < 0x1_0000_0000
      requires currSize + HEADER + 4 < 0x1_0000_0000
      requires curr == blocks[i].addr && currSize == blocks[i].size && link == NextOf(blocks, i)
      modifies mem
      ensures mem[..] == TakeMem(old(mem[..]), blocks, i, n)
    {
      hide PutHeader, Get32, Put32, Wrap;
      WrapSmall(n + HEADER + 4);
      if currSize > Wrap(n + HEADER + 4) {
        var tail := Block(curr + HEADER + n, currSize - n - HEADER, true);
        WriteHeader(tail, link);
        WriteHeader(Block(curr, n, false), tail.addr);
      } else {
        mem[curr + 8] := 0;
      }
    }

    /** Marks the block free and absorbs the next one when that is free; nothing looks backwards. */
    method Kfree(p: u32)
      requires Valid()
      requires p != 0 ==> heapStart != 0 && p in Live(blocks)
      modifies this`blocks, mem
      ensures Valid()
      ensures p == 0 ==> mem[..] == old(mem[..]) && blocks == old(blocks)
      ensures p != 0 ==> blocks == Free(old(blocks), p) && mem[..] == FreeMem(old(mem[..]), old(blocks), p, heapStart, limit)
      ensures p != 0 ==> p >= HEADER && SameOutside(old(mem[..]), mem[..], p - HEADER, p)
    {
      if p == 0 {
        return;
      }
      hide Represented, ReleaseMem, Linked, Release;
      TilesOf(mem[..], blocks, heapStart, limit);
      FreeLive(blocks, heapStart, limit, p);
      ghost var i, before := IndexOf(blocks, p), mem[..];
      ReleaseRepresented(before, blocks, heapStart, limit, i);
      NextPositive(blocks, heapStart, limit, i);
      LinkedOf(mem[..], blocks, heapStart, limit, i);
      var size, next, wasFree := ReadHeader(p - HEADER, i);
      var nextSize: u32, nextNext: u32, nextFree := 0, 0, false;
      if next != 0 {
        LinkedOf(mem[..], blocks, heapStart, limit, i + 1);
        nextSize, nextNext, nextFree := ReadHeader(next, i + 1);
      }
      Absorb(p - HEADER, size, nextSize, nextNext, nextFree, i);
      assert mem[..] == ReleaseMem(before, blocks, i);
      blocks := Free(blocks, p);
    }

    /** Header writes of a release: the flag alone, or the header of the merged block. */
    method Absorb(at: u32, size: u32, nextSize: u32, nextNext: u32, nextFree: bool, ghost i: nat)
      requires i < |blocks| && at == blocks[i].addr && size == blocks[i].size && End(blocks[i]) <= mem.Length
      requires nextFree <==> Merges(blocks, i)
      requires nextFree ==> nextSize == blocks[i + 1].size && nextNext == NextOf(blocks, i + 1) && size + nextSize + HEADER < 0x1_0000_0000
      modifies mem
      ensures mem[..] == ReleaseMem(old(mem[..]), blocks, i)
    {
      hide PutHeader, Get32, Put32;
      if nextFree {
        WriteHeader(Block(at, size + nextSize + HEADER, true), nextNext);
      } else {
        mem[at + 8] := 1;
      }
    }

    method Stats() returns (used: nat, free: nat)
      requires Valid()
      ensures heapStart == 0 ==> used == free == 0
      ensures heapStart != 0 ==> used == UsedBytes(blocks) && free == FreeBytes(blocks)
      ensures heapStart != 0 ==> used + free + HEADER * |blocks| == limit - heapStart
    {
      used, free := 0, 0;
      if heapStart == 0 {
        return;
      }
      var curr: u32 := heapStart;
      ghost var i := 0;
      while curr != 0
        invariant i <= |blocks|
        invariant curr == if i < |blocks| then blocks[i].addr else 0
        invariant used == UsedBytes(blocks[..i]) && free == FreeBytes(blocks[..i])
        decreases |blocks| - i
      {
        assert Linked(mem[..], blocks, i);
        var size, next, isFree := ReadHeader(curr, i);
        assert blocks[..i + 1][..i] == blocks[..i];
        if isFree {
          free := free + size;
        } else {
          used := used + size;
        }
        NextPositive(blocks, heapStart, limit, i);
        curr := next;
        i := i + 1;
      }
      FirstPositive(blocks, heapStart, limit, i);
      assert blocks[..i] == blocks;
      Conservation(blocks, heapStart, limit);
    }
  }

  /** Only the last block has a null link. */
  lemma NextPositive(bs: seq<Block>, lo: nat, hi: nat, i: nat)
    requires Tiles(bs, lo, hi) && lo > 0 && i < |bs|
    ensures NextOf(bs, i) == 0 <==> i + 1 == |bs|
  {
    if i + 1 < |bs| {
      InBounds(bs, lo, hi, i + 1);
    }
  }

  lemma FirstPositive(bs: seq<Block>, lo: nat, hi: nat, i: nat)
    requires Tiles(bs, lo, hi) && lo > 0 && i <= |bs|
    requires i < |bs| ==> bs[i].addr == 0
    ensures i == |bs|
  {
    if i < |bs| {
      InBounds(bs, lo, hi, i);
    }
  }

  lemma LinkedOf(mem: seq<byte>, bs: seq<Block>, lo: nat, hi: nat, i: nat)
    requires Represented(mem, bs, lo, hi) && i < |bs|
    ensures Linked(mem, bs, i) && End(bs[i]) <= |mem| && bs[i].addr < 0x1_0000_0000 && bs[i].size < 0x1_0000_0000
  {
    InBounds(bs, lo, hi, i);
  }

  /** The block taken is the first fit, so memory and list are those of the allocation. */
  lemma Claimed(mem: seq<byte>, bs: seq<Block>, lo: nat, hi: nat, i: nat, size: u32)
    requires Represented(mem, bs, lo, hi) && i == FirstFit(bs, Round4(size)) < |bs|
    ensures NextOf(bs, i) < hi && End(bs[i]) <= hi
    ensures var m := TakeMem(mem, bs, i, Round4(size));
      && m == AllocMem(mem, bs, size, lo, hi) && Represented(m, Take(bs, i, Round4(size)), lo, hi)
      && forall a :: 0 <= a < |mem| && (Owned(bs, a) || !(lo <= a < hi)) ==> m[a] == mem[a]
  {
    hide Represented, TakeMem, Take;
    TilesOf(mem, bs, lo, hi);
    TakeRepresented(mem, bs, lo, hi, i, Round4(size));
    InBounds(bs, lo, hi, i);
    forall a | 0 <= a < |mem| && (Owned(bs, a) || !(lo <= a < hi))
      ensures !(bs[i].addr <= a < End(bs[i]))
    {
      if Owned(bs, a) {
        TakeOwned(bs, lo, hi, i, Round4(size), a);
      }
    }
  }

  lemma NothingClaimed(mem: seq<byte>, bs: seq<Block>, lo: nat, hi: nat, size: u32)
    requires Represented(mem, bs, lo, hi) && FirstFit(bs, Round4(size)) == |bs|
    ensures AllocMem(mem, bs, size, lo, hi) == mem
  {
  }
}
