/**
  Last-in first-out use of the heap: although coalescing is forward-only, the arena never
  fragments, and releasing everything gives back the single initial block.
*/
module HeapStack {
  import opened Bytes
  import opened HeapModel
  import opened HeapMemory

  datatype Op = Push(size: u32) | Pop

  /** The block list and the live payloads, most recent last. */
  datatype Nest = Nest(blocks: seq<Block>, stack: seq<nat>)

  function Step(s: Nest, op: Op): Nest {
    match op
    case Push(size) =>
      var (bs, r) := Malloc(s.blocks, size);
      if r.Some? then Nest(bs, s.stack + [r.value]) else s
    case Pop =>
      if s.stack == [] then s
      else Nest(Free(s.blocks, s.stack[|s.stack| - 1]), s.stack[..|s.stack| - 1])
  }

  /** Used blocks in stack order, then at most one free block, at the end of the arena. */
  ghost predicate Nested(s: Nest, lo: nat, hi: nat) {
    && Tiles(s.blocks, lo, hi)
    && |s.stack| <= |s.blocks| <= |s.stack| + 1
    && (forall i :: 0 <= i < |s.stack| ==> !s.blocks[i].free && Payload(s.blocks[i]) == s.stack[i])
    && (|s.blocks| == |s.stack| + 1 ==> s.blocks[|s.stack|].free)
  }

  lemma TopIndex(s: Nest, lo: nat, hi: nat)
    requires Nested(s, lo, hi) && s.stack != []
    ensures IndexOf(s.blocks, s.stack[|s.stack| - 1]) == |s.stack| - 1
  {
    IndexOfPayload(s.blocks, lo, hi, |s.stack| - 1);
  }

  lemma PushNested(s: Nest, size: u32, lo: nat, hi: nat)
    requires Nested(s, lo, hi)
    ensures Nested(Step(s, Push(size)), lo, hi)
  {
    MallocLive(s.blocks, lo, hi, size);
    var i := FirstFit(s.blocks, Round4(size));
    assert i < |s.blocks| ==> i == |s.stack|;
  }

  lemma PopNested(s: Nest, lo: nat, hi: nat)
    requires Nested(s, lo, hi)
    ensures Nested(Step(s, Pop), lo, hi)
  {
    if s.stack != [] {
      var k := |s.stack| - 1;
      TopIndex(s, lo, hi);
      ReleaseTiles(s.blocks, lo, hi, k);
      assert Payload(s.blocks[k]) != 0;
      assert Step(s, Pop) == Nest(Release(s.blocks, k), s.stack[..k]);
    }
  }

  function Run(ops: seq<Op>, lo: nat, hi: nat): Nest
    requires lo + HEADER <= hi
  {
    if ops == [] then Nest(InitialBlocks(lo, hi), []) else Step(Run(ops[..|ops| - 1], lo, hi), ops[|ops| - 1])
  }

  /** Any nested run leaves at most one free block, the last; with nothing live, the initial block. */
  lemma {:induction false} StackDiscipline(ops: seq<Op>, lo: nat, hi: nat)
    requires lo + HEADER <= hi
    ensures var s := Run(ops, lo, hi);
      && Nested(s, lo, hi)
      && (forall i :: 0 <= i < |s.blocks| && s.blocks[i].free ==> i == |s.blocks| - 1)
      && (s.stack == [] ==> s.blocks == InitialBlocks(lo, hi))
  {
    hide Step, Nested;
    if ops == [] {
      FreshNested(lo, hi);
    } else {
      StackDiscipline(ops[..|ops| - 1], lo, hi);
      var s := Run(ops[..|ops| - 1], lo, hi);
      match ops[|ops| - 1]
      case Push(size) => PushNested(s, size, lo, hi);
      case Pop => PopNested(s, lo, hi);
    }
    OneFree(Run(ops, lo, hi), lo, hi);
  }

  lemma FreshNested(lo: nat, hi: nat)
    requires lo + HEADER <= hi
    ensures Nested(Nest(InitialBlocks(lo, hi), []), lo, hi)
  {
  }

  lemma OneFree(s: Nest, lo: nat, hi: nat)
    requires lo + HEADER <= hi && Nested(s, lo, hi)
    ensures forall i :: 0 <= i < |s.blocks| && s.blocks[i].free ==> i == |s.blocks| - 1
    ensures s.stack == [] ==> s.blocks == InitialBlocks(lo, hi)
  {
  }

  // ----- which release orders restore the arena -----

  function FreeAll(bs: seq<Block>, order: seq<nat>): seq<Block>
    decreases |order|
  {
    if order == [] then bs else FreeAll(Free(bs, order[0]), order[1..])
  }

  /** Distinct live payloads. */
  ghost predicate Releasable(bs: seq<Block>, order: seq<nat>) {
    && (forall k :: 0 <= k < |order| ==> order[k] in Live(bs))
    && (forall i, j :: 0 <= i < j < |order| ==> order[i] != order[j])
  }

  ghost predicate Decreasing(order: seq<nat>) {
    forall i, j :: 0 <= i < j < |order| ==> order[i] > order[j]
  }

  /** Two neighbouring free blocks. */
  predicate PairAt(bs: seq<Block>, j: nat) {
    j + 1 < |bs| && bs[j].free && bs[j + 1].free
  }

  lemma RestReleasable(bs: seq<Block>, lo: nat, hi: nat, order: seq<nat>)
    requires Tiles(bs, lo, hi) && Releasable(bs, order) && order != []
    ensures Tiles(Free(bs, order[0]), lo, hi) && Releasable(Free(bs, order[0]), order[1..])
  {
    hide Tiles, Free, Live;
    assert order[0] in Live(bs);
    FreeLive(bs, lo, hi, order[0]);
  }

  /** Only forward merges: a pair of free neighbours never disappears. */
  lemma PairStays(bs: seq<Block>, lo: nat, hi: nat, j: nat, p: nat) returns (j': nat)
    requires Tiles(bs, lo, hi) && PairAt(bs, j) && p in Live(bs)
    ensures PairAt(Free(bs, p), j')
  {
    FreeLive(bs, lo, hi, p);
    var i := IndexOf(bs, p);
    j' := if Merges(bs, i) && i < j then j - 1 else j;
  }

  lemma {:induction false} PairRemains(bs: seq<Block>, lo: nat, hi: nat, j: nat, order: seq<nat>) returns (j': nat)
    requires Tiles(bs, lo, hi) && PairAt(bs, j) && Releasable(bs, order)
    ensures PairAt(FreeAll(bs, order), j')
    decreases |order|
  {
    j' := j;
    if order != [] {
      RestReleasable(bs, lo, hi, order);
      j' := PairStays(bs, lo, hi, j, order[0]);
      j' := PairRemains(Free(bs, order[0]), lo, hi, j', order[1..]);
    }
  }

  /** A live block after a free one keeps a free predecessor until it is released, and then they form a pair. */
  lemma AfterFree(bs: seq<Block>, lo: nat, hi: nat, t: nat, p: nat) returns (t': nat)
    requires Tiles(bs, lo, hi) && 0 < t < |bs| && !bs[t].free && bs[t - 1].free && p in Live(bs)
    ensures p == Payload(bs[t]) ==> PairAt(Free(bs, p), t - 1)
    ensures p != Payload(bs[t]) ==>
              0 < t' < |Free(bs, p)| && Free(bs, p)[t'] == bs[t] && Free(bs, p)[t' - 1].free
  {
    FreeLive(bs, lo, hi, p);
    var i := IndexOf(bs, p);
    t' := if Merges(bs, i) && i < t then t - 1 else t;
    if p == Payload(bs[t]) {
      IndexOfPayload(bs, lo, hi, t);
    }
  }

  lemma {:induction false} Doomed(bs: seq<Block>, lo: nat, hi: nat, t: nat, order: seq<nat>) returns (j: nat)
    requires Tiles(bs, lo, hi) && Releasable(bs, order)
    requires 0 < t < |bs| && !bs[t].free && bs[t - 1].free && Payload(bs[t]) in order
    ensures PairAt(FreeAll(bs, order), j)
    decreases |order|
  {
    hide Tiles, Free, Live, PairAt;
    RestReleasable(bs, lo, hi, order);
    assert order[0] in Live(bs);
    var t' := AfterFree(bs, lo, hi, t, order[0]);
    if order[0] == Payload(bs[t]) {
      j := PairRemains(Free(bs, order[0]), lo, hi, t - 1, order[1..]);
    } else {
      j := Doomed(Free(bs, order[0]), lo, hi, t', order[1..]);
    }
  }

  lemma StackIncreasing(s: Nest, lo: nat, hi: nat)
    requires Nested(s, lo, hi)
    ensures forall i, j :: 0 <= i < j < |s.stack| ==> s.stack[i] < s.stack[j]
    ensures forall i :: 0 <= i < |s.stack| ==> s.stack[i] in Live(s.blocks)
  {
    forall i, j | 0 <= i < j < |s.stack|
      ensures s.stack[i] < s.stack[j]
    {
      Ordered(s.blocks, lo, hi, i, j);
    }
  }

  /** Any order in which the live blocks can be released consists of distinct live payloads. */
  lemma PermutationReleasable(s: Nest, lo: nat, hi: nat, order: seq<nat>)
    requires Nested(s, lo, hi) && multiset(order) == multiset(s.stack)
    ensures Releasable(s.blocks, order)
    ensures forall k :: 0 <= k < |order| ==> order[k] in s.stack
    ensures forall k :: 0 <= k < |s.stack| ==> s.stack[k] in order
  {
    StackIncreasing(s, lo, hi);
    forall k | 0 <= k < |order|
      ensures order[k] in s.stack
    {
      assert order[k] in multiset(order);
    }
    forall k | 0 <= k < |s.stack|
      ensures s.stack[k] in order
    {
      assert s.stack[k] in multiset(s.stack);
    }
    forall i, j | 0 <= i < j < |order|
      ensures order[i] != order[j]
    {
      if order[i] == order[j] {
        Twice(order, i, j);
        Once(s.stack, order[i]);
      }
    }
  }

  lemma Twice(q: seq<nat>, i: nat, j: nat)
    requires i < j < |q| && q[i] == q[j]
    ensures multiset(q)[q[i]] >= 2
  {
    assert q == q[..j] + [q[j]] + q[j + 1..];
    assert q[i] in q[..j];
    assert multiset(q) == multiset(q[..j]) + multiset{q[j]} + multiset(q[j + 1..]);
  }

  lemma {:induction false} Once(q: seq<nat>, x: nat)
    requires forall i, j :: 0 <= i < j < |q| ==> q[i] != q[j]
    ensures multiset(q)[x] == if x in q then 1 else 0
  {
    if q != [] {
      var n := |q| - 1;
      assert q == q[..n] + [q[n]];
      assert multiset(q) == multiset(q[..n]) + multiset{q[n]};
      Once(q[..n], x);
      if x == q[n] {
        assert x !in q[..n];
      }
    }
  }

  /**
    From a nested state, releasing all live blocks in some order gives back the single initial block if
    and only if the order is decreasing in address, that is last in, first out.
  */
  lemma {:induction false} OrderExact(s: Nest, lo: nat, hi: nat, order: seq<nat>)
    requires lo + HEADER <= hi && Nested(s, lo, hi) && multiset(order) == multiset(s.stack)
    ensures FreeAll(s.blocks, order) == InitialBlocks(lo, hi) <==> Decreasing(order)
    decreases |s.stack|
  {
    PermutationReleasable(s, lo, hi, order);
    StackIncreasing(s, lo, hi);
    assert |multiset(order)| == |order| && |multiset(s.stack)| == |s.stack|;
    if order == [] {
      assert |s.blocks| == 1;
    } else if order[0] == s.stack[|s.stack| - 1] {
      TopFirst(s, lo, hi, order);
    } else {
      OtherFirst(s, lo, hi, order);
    }
  }

  /** Every block but the last is in use. */
  predicate Packed(bs: seq<Block>) {
    forall i :: 0 <= i < |bs| - 1 ==> !bs[i].free
  }

  /**
    From any state at all, releasing everything gives back the single initial block if and only if no free
    block precedes another block and the order is decreasing in address.
  */
  lemma AnyOrderExact(bs: seq<Block>, lo: nat, hi: nat, order: seq<nat>)
    requires lo + HEADER <= hi && Tiles(bs, lo, hi) && Releasable(bs, order) && forall x :: x in Live(bs) ==> x in order
    ensures FreeAll(bs, order) == InitialBlocks(lo, hi) <==> Packed(bs) && Decreasing(order)
  {
    hide FreeAll, Decreasing;
    if Packed(bs) {
      var n := if bs[|bs| - 1].free then |bs| - 1 else |bs|;
      var s := Nest(bs, seq(n, i requires 0 <= i < n => Payload(bs[i])));
      assert Nested(s, lo, hi);
      SameMultiset(s, lo, hi, order);
      OrderExact(s, lo, hi, order);
    } else {
      var i :| 0 <= i < |bs| - 1 && bs[i].free;
      var j := GapRemains(bs, lo, hi, i, order);
    }
  }

  lemma GapRemains(bs: seq<Block>, lo: nat, hi: nat, i: nat, order: seq<nat>) returns (j: nat)
    requires Tiles(bs, lo, hi) && Releasable(bs, order) && (forall x :: x in Live(bs) ==> x in order)
    requires i < |bs| - 1 && bs[i].free
    ensures PairAt(FreeAll(bs, order), j)
  {
    if bs[i + 1].free {
      j := PairRemains(bs, lo, hi, i, order);
    } else {
      assert Payload(bs[i + 1]) in Live(bs);
      j := Doomed(bs, lo, hi, i + 1, order);
    }
  }

  lemma SameMultiset(s: Nest, lo: nat, hi: nat, order: seq<nat>)
    requires Nested(s, lo, hi) && Releasable(s.blocks, order) && forall x :: x in Live(s.blocks) ==> x in order
    ensures multiset(order) == multiset(s.stack)
  {
    StackIncreasing(s, lo, hi);
    forall x: nat
      ensures multiset(order)[x] == multiset(s.stack)[x]
    {
      Once(order, x);
      Once(s.stack, x);
      if x in order {
        var i := LiveBlock(s.blocks, x);
        assert x == s.stack[i];
      }
    }
  }

  lemma {:induction false} TopFirst(s: Nest, lo: nat, hi: nat, order: seq<nat>)
    requires lo + HEADER <= hi && Nested(s, lo, hi) && multiset(order) == multiset(s.stack)
    requires s.stack != [] && order != [] && order[0] == s.stack[|s.stack| - 1]
    ensures FreeAll(s.blocks, order) == InitialBlocks(lo, hi) <==> Decreasing(order)
    decreases |s.stack|, 0
  {
    hide Nested, Releasable, Decreasing, Free;
    var n := |s.stack| - 1;
    var t := Step(s, Pop);
    PopNested(s, lo, hi);
    TailMultiset(order, s.stack);
    OrderExact(t, lo, hi, order[1..]);
    TopGreatest(s, lo, hi, order);
    DecreasingCons(order);
  }

  lemma Cancel(a: multiset<nat>, b: multiset<nat>, x: nat)
    requires multiset{x} + a == b + multiset{x}
    ensures a == b
  {
    forall y: nat
      ensures a[y] == b[y]
    {
      assert (multiset{x} + a)[y] == (b + multiset{x})[y];
    }
  }

  lemma TailMultiset(order: seq<nat>, stack: seq<nat>)
    requires multiset(order) == multiset(stack) && stack != [] && order != [] && order[0] == stack[|stack| - 1]
    ensures multiset(order[1..]) == multiset(stack[..|stack| - 1])
  {
    var n := |stack| - 1;
    assert order == [order[0]] + order[1..] && stack == stack[..n] + [stack[n]];
    var a, b := multiset(order[1..]), multiset(stack[..n]);
    assert multiset(order) == multiset{order[0]} + a;
    assert multiset(stack) == b + multiset{order[0]};
    Cancel(a, b, order[0]);
  }

  lemma TopGreatest(s: Nest, lo: nat, hi: nat, order: seq<nat>)
    requires Nested(s, lo, hi) && multiset(order) == multiset(s.stack)
    requires s.stack != [] && order != [] && order[0] == s.stack[|s.stack| - 1]
    ensures forall k :: 1 <= k < |order| ==> order[0] > order[k]
  {
    hide Nested;
    PermutationReleasable(s, lo, hi, order);
    StackIncreasing(s, lo, hi);
    forall k | 1 <= k < |order|
      ensures order[0] > order[k]
    {
      assert order[k] in s.stack && order[0] != order[k];
    }
  }

  lemma DecreasingCons(order: seq<nat>)
    requires order != [] && forall k :: 1 <= k < |order| ==> order[0] > order[k]
    ensures Decreasing(order) <==> Decreasing(order[1..])
  {
    if Decreasing(order[1..]) {
      forall i, j | 0 <= i < j < |order|
        ensures order[i] > order[j]
      {
        if i > 0 {
          assert order[1..][i - 1] > order[1..][j - 1];
        }
      }
    }
  }

  /** Releasing another block first leaves the one after it with a free predecessor. */
  lemma OtherFirst(s: Nest, lo: nat, hi: nat, order: seq<nat>)
    requires lo + HEADER <= hi && Nested(s, lo, hi) && multiset(order) == multiset(s.stack)
    requires s.stack != [] && order != [] && order[0] != s.stack[|s.stack| - 1]
    ensures FreeAll(s.blocks, order) != InitialBlocks(lo, hi) && !Decreasing(order)
  {
    hide Nested, Releasable, FreeAll;
    PermutationReleasable(s, lo, hi, order);
    StackIncreasing(s, lo, hi);
    var i :| 0 <= i < |s.stack| && s.stack[i] == order[0];
    var j := GapBefore(s, lo, hi, order, i);
    var n := |s.stack| - 1;
    assert s.stack[n] in order;
    var k :| 0 <= k < |order| && order[k] == s.stack[n];
    assert order[0] < order[k];
  }

  lemma GapBefore(s: Nest, lo: nat, hi: nat, order: seq<nat>, i: nat) returns (j: nat)
    requires Nested(s, lo, hi) && order != [] && i + 1 < |s.stack| && s.stack[i] == order[0] && s.stack[i + 1] in order
    requires Releasable(s.blocks, order)
    ensures PairAt(FreeAll(s.blocks, order), j)
  {
    var bs := s.blocks;
    IndexOfPayload(bs, lo, hi, i);
    assert Free(bs, order[0]) == bs[i := bs[i].(free := true)];
    Ordered(bs, lo, hi, i, i + 1);
    assert s.stack[i + 1] in order[1..] by {
      assert order == [order[0]] + order[1..];
    }
    RestReleasable(bs, lo, hi, order);
    j := Doomed(Free(bs, order[0]), lo, hi, i + 1, order[1..]);
  }

  /** The shortest failing order: two blocks released first in, first out leave two adjacent free blocks. */
  lemma FifoFragments(lo: nat, hi: nat)
    requires lo + 200 <= hi
    ensures var (b1, p) := Malloc(InitialBlocks(lo, hi), 40);
            var (b2, q) := Malloc(b1, 40);
      && p.Some? && q.Some?
      && var b4 := Free(Free(b2, p.value), q.value);
         |b4| == 2 && b4[0].free && b4[1].free && b4 != InitialBlocks(lo, hi)
  {
    var b0 := InitialBlocks(lo, hi);
    var b1 := Malloc(b0, 40).0;
    assert b1 == [Block(lo, 40, false), Block(lo + 52, hi - lo - 64, true)];
    var b2 := Malloc(b1, 40).0;
    assert FirstFit(b1, 40) == FirstFit(b1, 40, 1) == 1;
    assert b2 == [Block(lo, 40, false), Block(lo + 52, 40, false), Block(lo + 104, hi - lo - 116, true)];
    var b3 := Free(b2, lo + 12);
    assert IndexOf(b2, lo + 12) == 0;
    assert b3 == b2[0 := Block(lo, 40, true)];
    assert IndexOf(b3, lo + 64) == IndexOf(b3, lo + 64, 1) == 1;
  }
}
