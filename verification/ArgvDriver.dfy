/** The in-place word splitter of the shell and the table builder of exec, as written. */
module ArgvDriver {
  import opened Bytes
  import opened ArgvModel

  /** A C string equal to `w` starts at `p`. */
  ghost predicate PointsTo(buf: seq<byte>, p: nat, w: seq<byte>) {
    p + |w| < |buf| && buf[p..p + |w|] == w && buf[p + |w|] == 0
  }

  /** Cuts the text at [from, n) into at most eight C strings by overwriting separators with NULs. */
  method SplitArguments(buf: array<byte>, from: nat, n: nat) returns (argv: seq<nat>)
    requires from <= n < buf.Length && buf[n] == 0 && forall i :: from <= i < n ==> buf[i] != 0
    modifies buf
    ensures var words := Take8(Words(old(buf[from..n])));
      |argv| == |words| && forall k :: 0 <= k < |words| ==> PointsTo(buf[..], argv[k], words[k])
  {
    hide Words, PointsTo;
    ghost var was, all := buf[..], Words(buf[from..n]);
    ghost var done: seq<seq<byte>> := [];
    argv := [];
    var p := SkipSpaces(buf, from, n);
    WordsFromHere(was, from, p, n);
    assert was[from..n] == buf[from..n];
    assert all == done + Words(was[p..n]);
    while buf[p] != 0 && |argv| < MAX_ARGS
      invariant from <= p <= n && buf[n] == 0 && |argv| == |done| <= MAX_ARGS
      invariant forall i :: p <= i < n ==> buf[i] == was[i] && buf[i] != 0
      invariant p < n ==> buf[p] != SPACE
      invariant all == done + Words(was[p..n])
      invariant Cut(buf[..], argv, done, p, n)
      decreases n - p
    {
      ghost var before, w := buf[..], [];
      argv := argv + [p];
      p, w := CutWord(buf, p, n, was);
      CutMore(before, buf[..], argv, done, w, p, n);
      assert done + ([w] + Words(was[p..n])) == (done + [w]) + Words(was[p..n]);
      done := done + [w];
    }
    EndOfWords(was, p, n);
    FirstEight(all, done, Words(was[p..n]));
  }

  lemma FirstEight(all: seq<seq<byte>>, done: seq<seq<byte>>, rest: seq<seq<byte>>)
    requires all == done + rest && |done| <= MAX_ARGS && (|done| == MAX_ARGS || rest == [])
    ensures Take8(all) == done
  {
  }

  /** The words cut so far are in place, all before `p` except that the last may end at the final NUL. */
  ghost predicate Cut(buf: seq<byte>, argv: seq<nat>, done: seq<seq<byte>>, p: nat, n: nat) {
    && |argv| == |done|
    && forall k :: 0 <= k < |done| ==> PointsTo(buf, argv[k], done[k]) && (argv[k] + |done[k]| < p || argv[k] + |done[k]| == p == n)
  }

  lemma CutMore(before: seq<byte>, after: seq<byte>, argv: seq<nat>, done: seq<seq<byte>>, w: seq<byte>, p: nat, n: nat)
    requires argv != [] && |after| == |before|
    requires var start := argv[|argv| - 1];
      && start < n && Cut(before, argv[..|argv| - 1], done, start, n)
      && PointsTo(after, start, w) && (start + |w| < p || start + |w| == p == n) && start <= p
      && forall i :: 0 <= i < |before| && i != start + |w| ==> after[i] == before[i]
    ensures Cut(after, argv, done + [w], p, n)
  {
    var start, init := argv[|argv| - 1], argv[..|argv| - 1];
    forall k | 0 <= k < |done|
      ensures PointsTo(after, argv[k], done[k]) && argv[k] + |done[k]| < start
    {
      assert init[k] == argv[k] && PointsTo(before, init[k], done[k]);
      assert after[argv[k]..argv[k] + |done[k]|] == before[argv[k]..argv[k] + |done[k]|];
    }
  }

  /** One turn of the loop: the word at `start` is terminated and the next one found. */
  method CutWord(buf: array<byte>, start: nat, n: nat, ghost was: seq<byte>) returns (p: nat, ghost w: seq<byte>)
    requires start < n < buf.Length && |was| == buf.Length && buf[n] == 0 && buf[start] != SPACE
    requires forall i :: start <= i < n ==> buf[i] == was[i] && buf[i] != 0
    modifies buf
    ensures start < p <= n && (p < n ==> buf[p] != SPACE) && buf[n] == 0
    ensures forall i :: p <= i < n ==> buf[i] == was[i] && buf[i] != 0
    ensures start + |w| < p || start + |w| == p == n
    ensures PointsTo(buf[..], start, w)
    ensures forall i :: 0 <= i < buf.Length && i != start + |w| ==> buf[i] == old(buf[i])
    ensures Words(was[start..n]) == [w] + Words(was[p..n])
  {
    hide Words;
    p := SkipWord(buf, start, n);
    w := was[start..p];
    HeadWord(was, start, p, n);
    if buf[p] == SPACE {
      ghost var end := p;
      buf[p] := 0;
      p := SkipSpaces(buf, p + 1, n);
      assert forall i :: end < i < p ==> was[i] == buf[i];
      TailWords(was, end, p, n);
    }
    assert buf[start..start + |w|] == w;
  }

  method SkipSpaces(buf: array<byte>, from: nat, n: nat) returns (p: nat)
    requires from <= n < buf.Length && buf[n] == 0
    ensures from <= p <= n && (p < n ==> buf[p] != SPACE) && forall i :: from <= i < p ==> buf[i] == SPACE
  {
    p := from;
    while buf[p] == SPACE
      invariant from <= p <= n && forall i :: from <= i < p ==> buf[i] == SPACE
      decreases n - p
    {
      p := p + 1;
    }
  }

  method SkipWord(buf: array<byte>, from: nat, n: nat) returns (p: nat)
    requires from < n < buf.Length && buf[n] == 0 && buf[from] != 0 && buf[from] != SPACE
    requires forall i :: from <= i < n ==> buf[i] != 0
    ensures from < p <= n && (p < n ==> buf[p] == SPACE) && forall i :: from <= i < p ==> buf[i] != SPACE
  {
    p := from;
    while buf[p] != 0 && buf[p] != SPACE
      invariant from <= p <= n && forall i :: from <= i < p ==> buf[i] != SPACE
      decreases n - p
    {
      p := p + 1;
    }
  }

  // ----- what the scans mean for Words -----

  /** Leading spaces do not matter. */
  lemma WordsFromHere(was: seq<byte>, from: nat, p: nat, n: nat)
    requires from <= p <= n <= |was| && (p < n ==> was[p] != SPACE) && forall i :: from <= i < p ==> was[i] == SPACE
    ensures Words(was[from..n]) == Words(was[p..n])
  {
    hide Words;
    SkipLeading(was[from..n], p - from);
    assert was[from..n][p - from..] == was[p..n];
  }

  lemma HeadWord(was: seq<byte>, start: nat, p: nat, n: nat)
    requires start < p <= n <= |was| && (p < n ==> was[p] == SPACE) && forall i :: start <= i < p ==> was[i] != SPACE
    ensures Words(was[start..n]) == [was[start..p]] + Words(was[p..n])
  {
    hide Words;
    var s := was[start..n];
    FirstWord(s, p - start);
    assert s[..p - start] == was[start..p] && s[p - start..] == was[p..n];
  }

  lemma TailWords(was: seq<byte>, end: nat, p: nat, n: nat)
    requires end < p <= n <= |was| && was[end] == SPACE
    requires (p < n ==> was[p] != SPACE) && forall i :: end < i < p ==> was[i] == SPACE
    ensures Words(was[end..n]) == Words(was[p..n])
  {
    WordsFromHere(was, end, p, n);
  }

  lemma EndOfWords(was: seq<byte>, p: nat, n: nat)
    requires p <= n <= |was|
    ensures p == n ==> Words(was[p..n]) == []
  {
  }

  // ----- building the table -----

  method BuildArguments(mem: array<byte>, base: u32, args: seq<seq<byte>>) returns (table: u32)
    requires base + AREA <= mem.Length && base + AREA < 0x1_0000_0000 && Table(|args|) <= AREA
    modifies mem
    ensures mem[..] == Build(old(mem[..]), base, args, 0, Table(|args|)) && table == base
  {
    hide Get32, Put32, PutString, ClearTable;
    var used, i := Table(|args|), 0;
    while i < |args|
      invariant 0 <= i <= |args| && Table(|args|) <= used <= AREA
      invariant Build(old(mem[..]), base, args, 0, Table(|args|)) == Build(mem[..], base, args, i, used)
    {
      var len := |args[i]| + 1;
      if used + len > AREA {
        break;
      }
      CopyString(mem, base + used, args[i]);
      StoreWord(mem, base + 4 * i, base + used);
      used := used + len;
      i := i + 1;
    }
    ghost var result := ClearTable(mem[..], base, |args|, i);
    ClearRest(mem, base, |args|, i);
    assert mem[..] == result;
    return base;
  }

  method ClearRest(mem: array<byte>, base: u32, argc: nat, i: nat)
    requires i <= argc && base + Table(argc) <= mem.Length
    modifies mem
    ensures mem[..] == ClearTable(old(mem[..]), base, argc, i)
  {
    hide Get32, Put32;
    for j := i to argc + 1
      invariant ClearTable(old(mem[..]), base, argc, i) == ClearTable(mem[..], base, argc, j)
    {
      StoreWord(mem, base + 4 * j, 0);
    }
  }

  method CopyString(mem: array<byte>, a: nat, text: seq<byte>)
    requires a + |text| + 1 <= mem.Length
    modifies mem
    ensures mem[..] == PutString(old(mem[..]), a, text)
  {
    for k := 0 to |text|
      invariant forall x :: 0 <= x < mem.Length ==> mem[x] == if a <= x < a + k then text[x - a] else old(mem[x])
    {
      mem[a + k] := text[k];
    }
    mem[a + |text|] := 0;
  }
}
