/**
  The kernel heap of kernel/mem.c seen as its list of blocks: first-fit allocation with splitting,
  and release with forward-only coalescing.
*/
module HeapModel {
  import opened Bytes

  const HEADER := 12   // sizeof(header_t) on i386

  datatype Block = Block(addr: nat, size: nat, free: bool)

  function Payload(b: Block): nat {
    b.addr + HEADER
  }

  function End(b: Block): nat {
    b.addr + HEADER + b.size
  }

  /** Block i + 1 starts where block i ends. */
  predicate Follows(bs: seq<Block>, i: nat)
    requires i + 1 < |bs|
  {
    bs[i + 1].addr == End(bs[i])
  }

  /** The blocks cover [lo, hi) exactly, each starting where the previous one ends. */
  ghost predicate Tiles(bs: seq<Block>, lo: nat, hi: nat) {
    && |bs| > 0 && bs[0].addr == lo && End(bs[|bs| - 1]) == hi
    && forall i :: 0 <= i < |bs| - 1 ==> Follows(bs, i)
  }

  /** Size after the 4-byte rounding, in 32-bit arithmetic. */
  function Round4(size: u32): u32 {
    Wrap(size + 3) / 4 * 4
  }

  /** First free block at or after `i` with room for `n` bytes, or |bs|. */
  function FirstFit(bs: seq<Block>, n: nat, i: nat := 0): (r: nat)
    requires i <= |bs|
    ensures i <= r <= |bs|
    ensures forall j :: i <= j < r ==> !(bs[j].free && bs[j].size >= n)
    ensures r < |bs| ==> bs[r].free && bs[r].size >= n
    decreases |bs| - i
  {
    if i == |bs| || (bs[i].free && bs[i].size >= n) then i else FirstFit(bs, n, i + 1)
  }

  function Take(bs: seq<Block>, i: nat, n: nat): seq<Block>
    requires i < |bs| && bs[i].size >= n
  {
    var b := bs[i];
    if b.size > n + HEADER + 4 then
      bs[..i] + [Block(b.addr, n, false), Block(b.addr + HEADER + n, b.size - n - HEADER, true)] + bs[i + 1..]
    else bs[i := b.(free := false)]
  }

  function Malloc(bs: seq<Block>, size: u32): (seq<Block>, Option<nat>) {
    var n := Round4(size);
    var i := FirstFit(bs, n);
    if i == |bs| then (bs, None) else (Take(bs, i, n), Some(Payload(bs[i])))
  }

  function IndexOf(bs: seq<Block>, p: nat, i: nat := 0): (r: nat)
    requires i <= |bs|
    ensures i <= r <= |bs|
    ensures forall j :: i <= j < r ==> Payload(bs[j]) != p
    ensures r < |bs| ==> Payload(bs[r]) == p
    decreases |bs| - i
  {
    if i == |bs| || Payload(bs[i]) == p then i else IndexOf(bs, p, i + 1)
  }

  predicate Merges(bs: seq<Block>, i: nat) {
    i + 1 < |bs| && bs[i + 1].free
  }

  function Release(bs: seq<Block>, i: nat): seq<Block>
    requires i < |bs|
  {
    if Merges(bs, i) then
      bs[..i] + [Block(bs[i].addr, bs[i].size + bs[i + 1].size + HEADER, true)] + bs[i + 2..]
    else bs[i := bs[i].(free := true)]
  }

  ghost function Live(bs: seq<Block>): set<nat> {
    set i | 0 <= i < |bs| && !bs[i].free :: Payload(bs[i])
  }

  /** kfree; a pointer that is no block's payload has no effect in the model. */
  function Free(bs: seq<Block>, p: nat): seq<Block> {
    if p == 0 || IndexOf(bs, p) == |bs| then bs else Release(bs, IndexOf(bs, p))
  }

  function UsedBytes(bs: seq<Block>): nat {
    if bs == [] then 0 else UsedBytes(bs[..|bs| - 1]) + if bs[|bs| - 1].free then 0 else bs[|bs| - 1].size
  }

  function FreeBytes(bs: seq<Block>): nat {
    if bs == [] then 0 else FreeBytes(bs[..|bs| - 1]) + if bs[|bs| - 1].free then bs[|bs| - 1].size else 0
  }

  // ----- geometry of a tiling -----

  lemma {:induction false} Ordered(bs: seq<Block>, lo: nat, hi: nat, i: nat, j: nat)
    requires Tiles(bs, lo, hi) && i < j < |bs|
    ensures End(bs[i]) <= bs[j].addr
    decreases j
  {
    assert Follows(bs, j - 1);
    if i + 1 < j {
      Ordered(bs, lo, hi, i, j - 1);
    }
  }

  lemma InBounds(bs: seq<Block>, lo: nat, hi: nat, i: nat)
    requires Tiles(bs, lo, hi) && i < |bs|
    ensures lo <= bs[i].addr && End(bs[i]) <= hi
  {
    if 0 < i {
      Ordered(bs, lo, hi, 0, i);
    }
    if i < |bs| - 1 {
      Ordered(bs, lo, hi, i, |bs| - 1);
    }
  }

  /** Any two blocks, headers included, are disjoint; in particular payloads are. */
  lemma Apart(bs: seq<Block>, lo: nat, hi: nat, i: nat, j: nat)
    requires Tiles(bs, lo, hi) && i < |bs| && j < |bs| && i != j
    ensures End(bs[i]) <= bs[j].addr || End(bs[j]) <= bs[i].addr
  {
    if i < j {
      Ordered(bs, lo, hi, i, j);
    } else {
      Ordered(bs, lo, hi, j, i);
    }
  }

  lemma LiveBlock(bs: seq<Block>, p: nat) returns (i: nat)
    requires p in Live(bs)
    ensures i < |bs| && !bs[i].free && Payload(bs[i]) == p
  {
    i :| 0 <= i < |bs| && !bs[i].free && Payload(bs[i]) == p;
  }

  lemma IndexOfPayload(bs: seq<Block>, lo: nat, hi: nat, i: nat)
    requires Tiles(bs, lo, hi) && i < |bs|
    ensures IndexOf(bs, Payload(bs[i])) == i
  {
    var r := IndexOf(bs, Payload(bs[i]));
    if r != i {
      Apart(bs, lo, hi, r, i);
    }
  }

  // ----- the operations keep the tiling -----

  lemma TakeTiles(bs: seq<Block>, lo: nat, hi: nat, i: nat, n: nat)
    requires Tiles(bs, lo, hi) && i < |bs| && bs[i].size >= n
    ensures Tiles(Take(bs, i, n), lo, hi)
  {
    var t := Take(bs, i, n);
    var split := bs[i].size > n + HEADER + 4;
    forall k | 0 <= k < |t| - 1
      ensures Follows(t, k)
    {
      if !split || k < i {
        assert Follows(bs, k);
      } else if k > i {
        assert Follows(bs, k - 1);
      }
    }
  }

  lemma ReleaseTiles(bs: seq<Block>, lo: nat, hi: nat, i: nat)
    requires Tiles(bs, lo, hi) && i < |bs|
    ensures Tiles(Release(bs, i), lo, hi)
  {
    var t := Release(bs, i);
    forall k | 0 <= k < |t| - 1
      ensures Follows(t, k)
    {
      if !Merges(bs, i) || k < i {
        assert Follows(bs, k);
      } else {
        assert Follows(bs, k + 1);
      }
    }
    if Merges(bs, i) {
      assert Follows(bs, i);
    }
  }

  lemma TakeLive(bs: seq<Block>, lo: nat, hi: nat, i: nat, n: nat)
    requires Tiles(bs, lo, hi) && i < |bs| && bs[i].free && bs[i].size >= n
    ensures Live(Take(bs, i, n)) == Live(bs) + {Payload(bs[i])}
    ensures Payload(bs[i]) !in Live(bs)
  {
    var t, p := Take(bs, i, n), Payload(bs[i]);
    if p in Live(bs) {
      var j :| 0 <= j < |bs| && !bs[j].free && Payload(bs[j]) == p;
      Apart(bs, lo, hi, i, j);
    }
    var split := bs[i].size > n + HEADER + 4;
    forall x | x in Live(bs) + {p}
      ensures x in Live(t)
    {
      if x == p {
        assert !t[i].free && Payload(t[i]) == p;
      } else {
        var j :| 0 <= j < |bs| && !bs[j].free && Payload(bs[j]) == x;
        assert t[if split && j > i then j + 1 else j] == bs[j];
      }
    }
    forall x | x in Live(t)
      ensures x in Live(bs) + {p}
    {
      var j :| 0 <= j < |t| && !t[j].free && Payload(t[j]) == x;
      if j != i {
        assert t[j] == bs[if split && j > i then j - 1 else j];
      }
    }
  }

  lemma ReleaseLive(bs: seq<Block>, lo: nat, hi: nat, i: nat)
    requires Tiles(bs, lo, hi) && i < |bs| && !bs[i].free
    ensures Live(Release(bs, i)) == Live(bs) - {Payload(bs[i])}
  {
    var t, p := Release(bs, i), Payload(bs[i]);
    var merge := Merges(bs, i);
    forall x | x in Live(bs) - {p}
      ensures x in Live(t)
    {
      var j :| 0 <= j < |bs| && !bs[j].free && Payload(bs[j]) == x;
      assert t[if merge && j > i then j - 1 else j] == bs[j];
    }
    forall x | x in Live(t)
      ensures x in Live(bs) - {p}
    {
      var j :| 0 <= j < |t| && !t[j].free && Payload(t[j]) == x;
      var k := if merge && j > i then j + 1 else j;
      assert j != i && t[j] == bs[k];
      Apart(bs, lo, hi, i, k);
    }
  }

  // ----- what a caller gets -----

  /** kmalloc: the live payloads gain exactly the returned one, inside the arena. */
  lemma MallocLive(bs: seq<Block>, lo: nat, hi: nat, size: u32)
    requires Tiles(bs, lo, hi)
    ensures var (bs', r) := Malloc(bs, size);
      && Tiles(bs', lo, hi)
      && (r.None? ==> bs' == bs)
      && (r.Some? ==> r.value !in Live(bs) && Live(bs') == Live(bs) + {r.value} && lo + HEADER <= r.value <= hi)
  {
    var n := Round4(size);
    var i := FirstFit(bs, n);
    if i < |bs| {
      TakeTiles(bs, lo, hi, i, n);
      TakeLive(bs, lo, hi, i, n);
      InBounds(bs, lo, hi, i);
    }
  }

  lemma FreeLive(bs: seq<Block>, lo: nat, hi: nat, p: nat)
    requires Tiles(bs, lo, hi) && p in Live(bs)
    ensures p != 0 && IndexOf(bs, p) < |bs| && !bs[IndexOf(bs, p)].free
    ensures Tiles(Free(bs, p), lo, hi) && Live(Free(bs, p)) == Live(bs) - {p}
  {
    var i :| 0 <= i < |bs| && !bs[i].free && Payload(bs[i]) == p;
    IndexOfPayload(bs, lo, hi, i);
    ReleaseTiles(bs, lo, hi, i);
    ReleaseLive(bs, lo, hi, i);
  }

  /** The block handed out holds the requested bytes exactly when the rounding does not wrap. */
  lemma MallocRoom(bs: seq<Block>, lo: nat, hi: nat, size: u32)
    requires Tiles(bs, lo, hi) && hi <= 0x1_0000_0000 && 0 < lo && hi - lo < 0xFFFF_FFFC
    requires Malloc(bs, size).1.Some?
    ensures var (bs', r) := Malloc(bs, size);
      var i := IndexOf(bs', r.value);
      i < |bs'| && (bs'[i].size >= size <==> size <= 0xFFFF_FFFC)
  {
    var n := Round4(size);
    var i := FirstFit(bs, n);
    var bs' := Malloc(bs, size).0;
    TakeTiles(bs, lo, hi, i, n);
    IndexOfPayload(bs', lo, hi, i);
    InBounds(bs', lo, hi, i);
  }

  // ----- conservation -----

  /** Asked for 2^32 - 3 bytes, a fresh heap hands out an empty block. */
  lemma RoundingWraps(lo: nat, hi: nat)
    requires lo + 2 * HEADER + 5 <= hi
    ensures Malloc([Block(lo, hi - lo - HEADER, true)], 0xFFFF_FFFD)
         == ([Block(lo, 0, false), Block(lo + HEADER, hi - lo - 2 * HEADER, true)], Some(lo + HEADER))
  {
    var bs := [Block(lo, hi - lo - HEADER, true)];
    assert Round4(0xFFFF_FFFD) == 0 && FirstFit(bs, 0) == 0;
    assert bs[..0] == [] && bs[1..] == [];
    assert Take(bs, 0, 0) == [Block(lo, 0, false), Block(lo + HEADER, hi - lo - 2 * HEADER, true)];
  }

  /** Rounding gives the least multiple of 4 that holds the request. */
  lemma Round4Least(size: u32)
    requires size <= 0xFFFF_FFFC
    ensures Round4(size) % 4 == 0 && size <= Round4(size) < size + 4
  {
  }

  /** Block `i` of `bs` has become a used block of at least `n` bytes; what remains of it is free if it is worth a header. */
  predicate TakenAt(bs: seq<Block>, t: seq<Block>, i: nat, n: nat) {
    && i < |bs| && i < |t| && t[..i] == bs[..i] && t[i].addr == bs[i].addr && !t[i].free
    && if bs[i].size <= n + 16 then
         t[i].size == bs[i].size && t[i + 1..] == bs[i + 1..]
       else
         && t[i].size == n && |t| == |bs| + 1 && t[i + 2..] == bs[i + 1..]
         && t[i + 1] == Block(bs[i].addr + 12 + n, bs[i].size - n - 12, true)
  }

  /** kmalloc succeeds exactly when some free block holds the rounded request, and takes the lowest such block. */
  lemma MallocExact(bs: seq<Block>, size: u32)
    ensures var (t, r) := Malloc(bs, size);
            var n := Round4(size);
      && (r.Some? <==> exists i :: 0 <= i < |bs| && bs[i].free && bs[i].size >= n)
      && (r.None? ==> t == bs)
      && (r.Some? ==> exists i :: 0 <= i < |bs| && bs[i].free && bs[i].size >= n && r.value == bs[i].addr + 12 && TakenAt(bs, t, i, n)
                                  && forall j :: 0 <= j < i ==> !(bs[j].free && bs[j].size >= n))
  {
    hide Round4;
    var i := FirstFit(bs, Round4(size));
    if i < |bs| {
      assert TakenAt(bs, Malloc(bs, size).0, i, Round4(size));
    }
  }

  /** Only used blocks count as used, and only free ones as free. */
  lemma {:induction false} StatsMeaning(bs: seq<Block>)
    ensures (forall i :: 0 <= i < |bs| ==> bs[i].free) ==> UsedBytes(bs) == 0
    ensures (forall i :: 0 <= i < |bs| ==> !bs[i].free) ==> FreeBytes(bs) == 0
  {
    if bs != [] {
      StatsMeaning(bs[..|bs| - 1]);
    }
  }

  lemma {:induction false} Conservation(bs: seq<Block>, lo: nat, hi: nat)
    requires Tiles(bs, lo, hi)
    ensures UsedBytes(bs) + FreeBytes(bs) + HEADER * |bs| == hi - lo
  {
    if |bs| == 1 {
      assert bs[..0] == [];
    } else {
      var init := bs[..|bs| - 1];
      assert Follows(bs, |bs| - 2);
      forall k | 0 <= k < |init| - 1
        ensures Follows(init, k)
      {
        assert Follows(bs, k);
      }
      Conservation(init, lo, End(init[|init| - 1]));
    }
  }

  // ----- alignment -----

  ghost predicate Aligned(bs: seq<Block>) {
    forall i :: 0 <= i < |bs| ==> bs[i].addr % 4 == 0
  }

  lemma MallocAligned(bs: seq<Block>, size: u32)
    requires Aligned(bs)
    ensures Aligned(Malloc(bs, size).0)
    ensures Malloc(bs, size).1.Some? ==> Malloc(bs, size).1.value % 4 == 0
  {
  }

  lemma FreeAligned(bs: seq<Block>, i: nat)
    requires Aligned(bs) && i < |bs|
    ensures Aligned(Release(bs, i))
  {
  }
}
