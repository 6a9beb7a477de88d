/**
  Arguments of an exec'd program: the command line cut into words (kernel/shell.c) and laid out as a
  pointer table followed by the strings in the first 512 bytes of the program's stack (kernel/exec.c).
*/
module ArgvModel {
  import opened Bytes

  const SPACE := 32
  const MAX_ARGS := 8
  const AREA := 512       // ARGV_AREA_SIZE

  // ----- words -----

  /** Length of the leading run of spaces. */
  function Spaces(s: seq<byte>): (n: nat)
    ensures n <= |s| && (n < |s| ==> s[n] != SPACE) && forall i :: 0 <= i < n ==> s[i] == SPACE
  {
    if s != [] && s[0] == SPACE then 1 + Spaces(s[1..]) else 0
  }

  /** Length of the leading run of non-spaces. */
  function WordLength(s: seq<byte>): (n: nat)
    ensures n <= |s| && (n < |s| ==> s[n] == SPACE) && forall i :: 0 <= i < n ==> s[i] != SPACE
  {
    if s != [] && s[0] != SPACE then 1 + WordLength(s[1..]) else 0
  }

  /** The maximal space-free pieces of a line, in order. */
  function Words(s: seq<byte>): seq<seq<byte>>
    decreases |s|
  {
    var t := s[Spaces(s)..];
    if t == [] then [] else
    assert t[0] != SPACE;
    var n := WordLength(t);
    assert 0 < n;
    [t[..n]] + Words(t[n..])
  }

  lemma SpacesAre(s: seq<byte>, k: nat)
    requires k <= |s| && (k < |s| ==> s[k] != SPACE) && forall i :: 0 <= i < k ==> s[i] == SPACE
    ensures Spaces(s) == k
  {
  }

  lemma WordLengthIs(s: seq<byte>, k: nat)
    requires k <= |s| && (k < |s| ==> s[k] == SPACE) && forall i :: 0 <= i < k ==> s[i] != SPACE
    ensures WordLength(s) == k
  {
  }

  /** Leading spaces do not matter. */
  lemma SkipLeading(s: seq<byte>, n: nat)
    requires n <= |s| && forall i :: 0 <= i < n ==> s[i] == SPACE
    ensures Words(s) == Words(s[n..])
  {
    hide Words, WordsOf, Spaces, WordLength;
    var k := Spaces(s);
    assert n <= k;
    SpacesAre(s[n..], k - n);
    SliceOfTail(s, n, k);
    WordsFrom(s, k);
    WordsFrom(s[n..], k - n);
  }

  lemma SliceOfTail(s: seq<byte>, n: nat, k: nat)
    requires n <= k <= |s|
    ensures s[n..][k - n..] == s[k..]
  {
  }

  /** The words of a line are those of what follows its leading spaces. */
  lemma WordsFrom(s: seq<byte>, k: nat)
    requires k == Spaces(s)
    ensures Words(s) == WordsOf(s[k..])
  {
  }

  /** Words of a line that is empty or starts with a word. */
  function WordsOf(t: seq<byte>): seq<seq<byte>> {
    if t == [] || t[0] == SPACE then []
    else
      var n := WordLength(t);
      assert 0 < n;
      [t[..n]] + Words(t[n..])
  }

  lemma FirstWord(s: seq<byte>, n: nat)
    requires 0 < n <= |s| && (n < |s| ==> s[n] == SPACE) && forall i :: 0 <= i < n ==> s[i] != SPACE
    ensures Words(s) == [s[..n]] + Words(s[n..])
  {
    SpacesAre(s, 0);
    assert s[0..] == s;
    WordLengthIs(s, n);
  }

  /** Words are determined by two laws: a space-free piece is one word, and a space separates. */
  lemma OneWord(w: seq<byte>)
    requires w != [] && SPACE !in w
    ensures Words(w) == [w]
  {
    FirstWord(w, |w|);
    assert w[..|w|] == w && Words(w[|w|..]) == [];
  }

  lemma {:induction false} SpaceSeparates(a: seq<byte>, b: seq<byte>)
    ensures Words(a + [SPACE] + b) == Words(a) + Words(b)
    decreases |a|
  {
    hide Words, Spaces, WordLength;
    var n0 := Spaces(a);
    var t := a[n0..];
    SkipLeading(a, n0);
    SkipLeading(a + [SPACE] + b, n0);
    Tail(a, b, n0);
    if t == [] {
      NoWords();
      SkipLeading(t + [SPACE] + b, 1);
      assert (t + [SPACE] + b)[1..] == b;
    } else {
      var n := WordLength(t);
      FirstWord(t, n);
      FirstWord(t + [SPACE] + b, n);
      Tail(t, b, n);
      SpaceSeparates(t[n..], b);
    }
  }

  lemma Tail(a: seq<byte>, b: seq<byte>, n: nat)
    requires n <= |a|
    ensures (a + [SPACE] + b)[n..] == a[n..] + [SPACE] + b && (a + [SPACE] + b)[..n] == a[..n]
  {
    var s := a + [SPACE] + b;
    assert s == a[..n] + (a[n..] + [SPACE] + b);
  }

  lemma NoWords()
    ensures Words([]) == []
  {
  }

  function Take8(ws: seq<seq<byte>>): seq<seq<byte>> {
    ws[..Min(MAX_ARGS, |ws|)]
  }

  /** Bytes taken by some arguments, each with its NUL. */
  function Room(args: seq<seq<byte>>): nat {
    if args == [] then 0 else Room(args[..|args| - 1]) + |args[|args| - 1]| + 1
  }

  lemma {:induction false} RoomCons(a: seq<byte>, args: seq<seq<byte>>)
    ensures Room([a] + args) == |a| + 1 + Room(args)
  {
    if args == [] {
      assert [a] + args == [a];
      assert [a][..0] == [];
      assert Room([a]) == Room([]) + |a| + 1;
    } else {
      var n := |args| - 1;
      RoomCons(a, args[..n]);
      assert ([a] + args)[..n + 1] == [a] + args[..n];
    }
  }

  /** The words of a line need at most its length plus one byte. */
  lemma {:induction false} WordsRoom(s: seq<byte>)
    ensures Room(Words(s)) <= |s| + 1
    decreases |s|
  {
    var t := s[Spaces(s)..];
    if t != [] {
      var n := WordLength(t);
      WordsRoom(t[n..]);
      RoomCons(t[..n], Words(t[n..]));
      if t[n..] != [] {
        AfterWord(t[n..]);
      }
    }
  }

  /** After a word comes a space, so the rest loses at least one byte to it. */
  lemma AfterWord(s: seq<byte>)
    requires s != [] && s[0] == SPACE
    ensures Room(Words(s)) <= |s|
    decreases |s|
  {
    WordsRoom(s[1..]);
    assert Spaces(s) == 1 + Spaces(s[1..]);
    assert s[Spaces(s)..] == s[1..][Spaces(s[1..])..];
  }

  lemma {:induction false} RoomPrefix(args: seq<seq<byte>>, k: nat)
    requires k <= |args|
    ensures Room(args[..k]) <= Room(args)
  {
    if k < |args| {
      RoomPrefix(args[..|args| - 1], k);
      assert args[..|args| - 1][..k] == args[..k];
    } else {
      assert args[..k] == args;
    }
  }

  // ----- the table and the strings -----

  function Table(argc: nat): nat {
    4 * (argc + 1)
  }

  /** Memory after copying an argument and its NUL to `a`. */
  function PutString(mem: seq<byte>, a: nat, text: seq<byte>): (m: seq<byte>)
    requires a + |text| + 1 <= |mem|
    ensures |m| == |mem|
    ensures m[a..a + |text|] == text && m[a + |text|] == 0
    ensures forall k :: 0 <= k < |mem| && !(a <= k <= a + |text|) ==> m[k] == mem[k]
  {
    mem[..a] + text + [0] + mem[a + |text| + 1..]
  }

  /** Entries i..argc of the pointer table set to NULL. */
  function ClearTable(mem: seq<byte>, base: nat, argc: nat, i: nat): (m: seq<byte>)
    requires i <= argc + 1 && base + Table(argc) <= |mem|
    ensures |m| == |mem|
    decreases argc + 1 - i
  {
    if i == argc + 1 then mem else ClearTable(Put32(mem, base + 4 * i, 0), base, argc, i + 1)
  }

  /** Memory after argument i is copied and its table entry set. */
  function PutArgument(mem: seq<byte>, base: nat, args: seq<seq<byte>>, i: nat, used: nat): (m: seq<byte>)
    requires i < |args| && base + AREA <= |mem| && base + AREA < 0x1_0000_0000
    requires Table(|args|) <= used && used + |args[i]| + 1 <= AREA
    ensures |m| == |mem|
  {
    Put32(PutString(mem, base + used, args[i]), base + 4 * i, base + used)
  }

  /** build_argv from argument i on, with `used` bytes of the area taken. */
  function Build(mem: seq<byte>, base: nat, args: seq<seq<byte>>, i: nat, used: nat): (m: seq<byte>)
    requires i <= |args| && base + AREA <= |mem| && base + AREA < 0x1_0000_0000
    requires Table(|args|) <= used <= AREA
    ensures |m| == |mem|
    decreases |args| - i
  {
    if i == |args| || used + |args[i]| + 1 > AREA then ClearTable(mem, base, |args|, i)
    else Build(PutArgument(mem, base, args, i, used), base, args, i + 1, used + |args[i]| + 1)
  }

  /** Argument `k` is readable through the table: a pointer to a NUL-terminated copy inside the area. */
  ghost predicate Readable(mem: seq<byte>, base: nat, args: seq<seq<byte>>, k: nat, at: nat)
    requires k < |args| && base + AREA <= |mem|
  {
    && Table(|args|) <= at && at + |args[k]| + 1 <= AREA && 4 * k + 4 <= AREA
    && Get32(mem, base + 4 * k) == base + at
    && mem[base + at..base + at + |args[k]|] == args[k] && mem[base + at + |args[k]|] == 0
  }

  ghost predicate SameOutside(mem: seq<byte>, m: seq<byte>, from: nat, to: nat) {
    |m| == |mem| && forall a :: 0 <= a < |mem| && !(from <= a < to) ==> m[a] == mem[a]
  }

  lemma {:induction false} ClearEffect(mem: seq<byte>, base: nat, argc: nat, i: nat)
    requires i <= argc + 1 && base + Table(argc) <= |mem|
    ensures SameOutside(mem, ClearTable(mem, base, argc, i), base + 4 * i, base + Table(argc))
    ensures forall k :: i <= k <= argc ==> Get32(ClearTable(mem, base, argc, i), base + 4 * k) == 0
    decreases argc + 1 - i
  {
    hide Get32;
    if i < argc + 1 {
      var m1 := Put32(mem, base + 4 * i, 0);
      ClearEffect(m1, base, argc, i + 1);
      WordKept(m1, ClearTable(m1, base, argc, i + 1), base + 4 * i);
    }
  }

  lemma WordKept(m: seq<byte>, n: seq<byte>, a: nat)
    requires |n| == |m| && a + 4 <= |m| && forall k :: a <= k < a + 4 ==> n[k] == m[k]
    ensures Get32(n, a) == Get32(m, a)
  {
  }

  /** Building from argument i on touches only table entries from i and the area from `used`. */
  lemma {:induction false} BuildFrame(mem: seq<byte>, base: nat, args: seq<seq<byte>>, i: nat, used: nat)
    requires i <= |args| && base + AREA <= |mem| && base + AREA < 0x1_0000_0000
    requires Table(|args|) <= used <= AREA
    ensures var m := Build(mem, base, args, i, used);
      && SameOutside(mem, m, base, base + AREA)
      && (forall a :: base <= a < base + 4 * i ==> m[a] == mem[a])
      && (forall a :: base + Table(|args|) <= a < base + used ==> m[a] == mem[a])
    decreases |args| - i
  {
    hide Get32, Put32, PutString, ClearTable;
    if i == |args| || used + |args[i]| + 1 > AREA {
      ClearEffect(mem, base, |args|, i);
    } else {
      var m2 := Put32(PutString(mem, base + used, args[i]), base + 4 * i, base + used);
      BuildFrame(m2, base, args, i + 1, used + |args[i]| + 1);
    }
  }

  /** Offset of argument k when everything fits: the table, then the earlier strings. */
  function OffsetOf(args: seq<seq<byte>>, k: nat): nat
    requires k <= |args|
  {
    Table(|args|) + Room(args[..k])
  }

  lemma ArgumentReadable(mem: seq<byte>, base: nat, args: seq<seq<byte>>, i: nat, used: nat)
    requires i < |args| && base + AREA <= |mem| && base + AREA < 0x1_0000_0000
    requires Table(|args|) <= used && used + |args[i]| + 1 <= AREA
    ensures Readable(PutArgument(mem, base, args, i, used), base, args, i, used)
  {
    hide Get32, Put32, PutString;
    var m1, n := PutString(mem, base + used, args[i]), |args[i]|;
    var m := PutArgument(mem, base, args, i, used);
    assert m == Put32(m1, base + 4 * i, base + used);
    assert m[base + used..base + used + n] == m1[base + used..base + used + n];
  }

  lemma {:induction false} BuildLayout(mem: seq<byte>, base: nat, args: seq<seq<byte>>, i: nat, k: nat)
    requires i <= k < |args| && base + AREA <= |mem| && base + AREA < 0x1_0000_0000
    requires OffsetOf(args, |args|) <= AREA && OffsetOf(args, i) <= AREA && OffsetOf(args, k) + |args[k]| + 1 <= AREA
    ensures Readable(Build(mem, base, args, i, OffsetOf(args, i)), base, args, k, OffsetOf(args, k))
    decreases |args| - i
  {
    hide Get32, ClearTable, PutArgument, Room;
    var used := OffsetOf(args, i);
    OffsetStep(args, i);
    OffsetMono(args, i + 1, |args|);
    var m2 := PutArgument(mem, base, args, i, used);
    if i < k {
      BuildLayout(m2, base, args, i + 1, k);
    } else {
      ArgumentReadable(mem, base, args, i, used);
      BuildFrame(m2, base, args, i + 1, used + |args[i]| + 1);
      var m, n := Build(m2, base, args, i + 1, used + |args[i]| + 1), |args[i]|;
      WordKept(m2, m, base + 4 * i);
      assert m[base + used..base + used + n] == m2[base + used..base + used + n];
    }
  }

  lemma OffsetZero(args: seq<seq<byte>>)
    ensures OffsetOf(args, 0) == Table(|args|)
  {
  }

  lemma OffsetStep(args: seq<seq<byte>>, i: nat)
    requires i < |args|
    ensures OffsetOf(args, i + 1) == OffsetOf(args, i) + |args[i]| + 1
  {
    assert args[..i + 1][..i] == args[..i];
  }

  lemma OffsetMono(args: seq<seq<byte>>, i: nat, j: nat)
    requires i <= j <= |args|
    ensures OffsetOf(args, i) <= OffsetOf(args, j)
  {
    RoomPrefix(args[..j], i);
    assert args[..j][..i] == args[..i];
  }

  lemma {:induction false} BuildNull(mem: seq<byte>, base: nat, args: seq<seq<byte>>, i: nat, used: nat)
    requires i <= |args| && base + AREA <= |mem| && base + AREA < 0x1_0000_0000
    requires Table(|args|) <= used <= AREA
    ensures Get32(Build(mem, base, args, i, used), base + 4 * |args|) == 0
    decreases |args| - i
  {
    hide Get32, Le32, Put32, PutString;
    if i == |args| || used + |args[i]| + 1 > AREA {
      ClearEffect(mem, base, |args|, i);
    } else {
      BuildNull(Put32(PutString(mem, base + used, args[i]), base + 4 * i, base + used), base, args, i + 1, used + |args[i]| + 1);
    }
  }

  /**
    End to end: for a line of at most 255 bytes the truncation is never taken; each of the first
    eight words is readable through the table, in disjoint copies, and a NULL follows them.
  */
  lemma ArgumentsDelivered(mem: seq<byte>, base: nat, line: seq<byte>)
    requires |line| <= 255 && base + AREA <= |mem| && base + AREA < 0x1_0000_0000
    ensures var args := Take8(Words(line));
      var m := Build(mem, base, args, 0, Table(|args|));
      && |args| <= MAX_ARGS && OffsetOf(args, |args|) <= AREA
      && (forall k :: 0 <= k < |args| ==> Readable(m, base, args, k, OffsetOf(args, k)))
      && (forall j, k :: 0 <= j < k < |args| ==> OffsetOf(args, j) + |args[j]| + 1 <= OffsetOf(args, k))
      && Get32(m, base + 4 * |args|) == 0
      && SameOutside(mem, m, base, base + AREA)
  {
    hide Get32, Words, Readable, Build, Room;
    var args := Take8(Words(line));
    WordsRoom(line);
    RoomPrefix(Words(line), |args|);
    OffsetZero(args);
    assert args[..|args|] == args;
    forall k | 0 <= k < |args|
      ensures Readable(Build(mem, base, args, 0, Table(|args|)), base, args, k, OffsetOf(args, k))
    {
      OffsetStep(args, k);
      OffsetMono(args, k + 1, |args|);
      BuildLayout(mem, base, args, 0, k);
    }
    forall j, k | 0 <= j < k < |args|
      ensures OffsetOf(args, j) + |args[j]| + 1 <= OffsetOf(args, k)
    {
      OffsetStep(args, j);
      OffsetMono(args, j + 1, k);
    }
    BuildNull(mem, base, args, 0, Table(|args|));
    BuildFrame(mem, base, args, 0, Table(|args|));
  }

  /** At most the first eight words are passed. */
  lemma EightWords(ws: seq<seq<byte>>)
    ensures Take8(ws) == if |ws| <= 8 then ws else ws[..8]
  {
    assert |ws| <= 8 ==> ws[..|ws|] == ws;
  }

  /**
    Any argument list whose table fits: exactly the arguments before the first that does not fit in the 512
    bytes are readable, each after the previous one, and all later entries are NULL.
  */
  lemma {:induction false} BuildExact(mem: seq<byte>, base: nat, args: seq<seq<byte>>, i: nat, f: nat, k: nat)
    requires i <= f <= |args| && k <= |args| && base + 512 <= |mem| && base + 512 < 0x1_0000_0000 && Table(|args|) <= 512
    requires OffsetOf(args, f) <= 512 && (f < |args| ==> OffsetOf(args, f) + |args[f]| + 1 > 512)
    ensures OffsetOf(args, i) <= 512
    ensures var m := Build(mem, base, args, i, OffsetOf(args, i));
      && (i <= k < f ==> Readable(m, base, args, k, OffsetOf(args, k)))
      && (f <= k ==> Get32(m, base + 4 * k) == 0)
    decreases f - i
  {
    hide Get32, ClearTable, PutArgument, Room, Readable;
    OffsetMono(args, i, f);
    var used := OffsetOf(args, i);
    if i == f {
      ClearEffect(mem, base, |args|, i);
    } else {
      OffsetStep(args, i);
      OffsetMono(args, i + 1, f);
      var m2 := PutArgument(mem, base, args, i, used);
      BuildExact(m2, base, args, i + 1, f, k);
      if k == i {
        ArgumentReadable(mem, base, args, i, used);
        BuildFrame(m2, base, args, i + 1, used + |args[i]| + 1);
        ReadableAfter(m2, Build(m2, base, args, i + 1, used + |args[i]| + 1), base, args, i, used);
      }
    }
  }

  lemma ReadableAfter(mem: seq<byte>, m: seq<byte>, base: nat, args: seq<seq<byte>>, i: nat, used: nat)
    requires i < |args| && base + AREA <= |mem| == |m| && Readable(mem, base, args, i, used)
    requires forall a :: base <= a < base + 4 * (i + 1) ==> m[a] == mem[a]
    requires forall a :: base + Table(|args|) <= a < base + used + |args[i]| + 1 ==> m[a] == mem[a]
    ensures Readable(m, base, args, i, used)
  {
    hide Get32;
    WordKept(mem, m, base + 4 * i);
    assert m[base + used..base + used + |args[i]|] == mem[base + used..base + used + |args[i]|];
  }
}
