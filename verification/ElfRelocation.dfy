/**
  Programs as a linker sees them, and what the loader's segment copies and patches do to their bytes.
*/
module ElfRelocation {
  import opened Bytes
  import opened ElfModel

  // ----- what a linker produces -----

  datatype Kind = Abs32 | Pc32

  /** A symbol defined at an offset of the window, or with a fixed address (SHN_ABS). */
  datatype Symbol = Local(off: nat) | Absolute(value: int)

  /** A relocated word at window offset `site`, referring to `symbol` plus `addend`. */
  datatype Reloc = Reloc(kind: Kind, site: nat, symbol: Symbol, addend: int)

  /** Placement of a loadable segment in the window. */
  datatype Part = Part(off: nat, filesz: nat, memsz: nat)

  /** A position-independent view of a program: window template, relocations, segments, entry offset. */
  datatype Object = Object(bytes: seq<byte>, relocs: seq<Reloc>, parts: seq<Part>, entry: nat)

  function Address(s: Symbol, base: int): int {
    match s
    case Local(off) => base + off
    case Absolute(value) => value
  }

  /** i386 psABI: R_386_32 is S + A, R_386_PC32 is S + A - P. */
  function Value(r: Reloc, base: int): u32 {
    match r.kind
    case Abs32 => Wrap(Address(r.symbol, base) + r.addend)
    case Pc32 => Wrap(Address(r.symbol, base) + r.addend - (base + r.site))
  }

  /** A uniform shift from `link` to `base` is right for this word. */
  predicate Movable(r: Reloc, link: int, base: int) {
    link == base || r.symbol.Local?
  }

  ghost predicate AllMovable(relocs: seq<Reloc>, link: int, base: int) {
    forall j :: 0 <= j < |relocs| ==> Movable(relocs[j], link, base)
  }

  /** The window contents fixed at link time for base `base`. */
  function Link(bytes: seq<byte>, relocs: seq<Reloc>, base: int): (m: seq<byte>)
    requires forall k :: 0 <= k < |relocs| ==> relocs[k].site + 4 <= |bytes|
    ensures |m| == |bytes|
  {
    if relocs == [] then bytes
    else
      var last := relocs[|relocs| - 1];
      Put32(Link(bytes, relocs[..|relocs| - 1], base), last.site, Value(last, base))
  }

  predicate Apart(x: nat, y: nat) {
    x + 4 <= y || y + 4 <= x
  }

  ghost predicate SitesApart(relocs: seq<Reloc>) {
    forall i, j :: 0 <= i < j < |relocs| ==> Apart(relocs[i].site, relocs[j].site)
  }

  /** The word at `site` lies in the part of segment `p` that comes from the file. */
  predicate InFile(p: Part, site: nat, len: nat) {
    p.off <= site && site + len <= p.off + p.filesz
  }

  ghost predicate WellFormed(o: Object, window: nat) {
    && |o.bytes| == window
    && (forall k :: 0 <= k < |o.relocs| ==> o.relocs[k].site + 4 <= window)
    && SitesApart(o.relocs)
    && (forall k :: 0 <= k < |o.relocs| ==> exists i :: 0 <= i < |o.parts| && InFile(o.parts[i], o.relocs[k].site, 4))
    && (forall i :: 0 <= i < |o.parts| ==> o.parts[i].filesz <= o.parts[i].memsz && o.parts[i].off + o.parts[i].memsz <= window)
    && (forall i, j :: 0 <= i < j < |o.parts| ==> Separate(o.parts[i], o.parts[j]))
  }

  predicate Separate(p: Part, q: Part) {
    p.off + p.memsz <= q.off || q.off + q.memsz <= p.off
  }

  function AbsSites(relocs: seq<Reloc>): seq<nat> {
    if relocs == [] then []
    else
      var last := relocs[|relocs| - 1];
      AbsSites(relocs[..|relocs| - 1]) + (if last.kind.Abs32? then [last.site] else [])
  }

  /** The loadable segments of an image, in header order, from the i-th header on. */
  function Loadable(image: seq<byte>, i: nat := 0): seq<Segment>
    requires PhTableInside(image) && i <= PhNum(image)
    decreases PhNum(image) - i
  {
    if i == PhNum(image) then []
    else (if SegmentAt(image, i).kind == PT_LOAD then [SegmentAt(image, i)] else []) + Loadable(image, i + 1)
  }

  /** Segment `p` of the file is part `q` of the object linked at `link`. */
  predicate Carries(image: seq<byte>, p: Segment, o: Object, q: Part, link: u32)
    requires forall k :: 0 <= k < |o.relocs| ==> o.relocs[k].site + 4 <= |o.bytes|
  {
    && WindowOffset(p.vaddr, link) == q.off && p.filesz == q.filesz && p.memsz == q.memsz
    && p.offset + p.filesz <= |image| && q.off + q.filesz <= |o.bytes|
    && image[p.offset..p.offset + p.filesz] == Link(o.bytes, o.relocs, link)[q.off..q.off + q.filesz]
  }

  /** `image` is an executable obtained by linking `o` at `link`, its R_386_32 entries listed once each. */
  ghost predicate LinkedAt(image: seq<byte>, o: Object, link: u32, window: u32)
    requires WellFormed(o, window)
  {
    && Exact(image) && HeaderOk(image) && PhTableInside(image)
    && Entry(image) == Wrap(link + o.entry)
    && |Loadable(image)| == |o.parts|
    && (forall i :: 0 <= i < |o.parts| ==> Carries(image, Loadable(image)[i], o, o.parts[i], link))
    && Sites(image, link, window) == AbsSites(o.relocs)
  }

  // ----- the linker's bytes -----

  lemma {:induction false} LinkWord(bytes: seq<byte>, relocs: seq<Reloc>, base: int, k: nat)
    requires forall j :: 0 <= j < |relocs| ==> relocs[j].site + 4 <= |bytes|
    requires SitesApart(relocs) && k < |relocs|
    ensures Get32(Link(bytes, relocs, base), relocs[k].site) == Value(relocs[k], base)
  {
    var n := |relocs| - 1;
    if k < n {
      LinkWord(bytes, relocs[..n], base, k);
      assert Apart(relocs[k].site, relocs[n].site);
      Put32Other(Link(bytes, relocs[..n], base), relocs[n].site, Value(relocs[n], base), relocs[k].site);
    }
  }

  /** No relocation covers the byte at `a`. */
  predicate Untouched(relocs: seq<Reloc>, a: nat) {
    forall j :: 0 <= j < |relocs| ==> !(relocs[j].site <= a < relocs[j].site + 4)
  }

  lemma {:induction false} LinkByte(bytes: seq<byte>, relocs: seq<Reloc>, base: int, a: nat)
    requires forall j :: 0 <= j < |relocs| ==> relocs[j].site + 4 <= |bytes|
    requires a < |bytes| && Untouched(relocs, a)
    ensures Link(bytes, relocs, base)[a] == bytes[a]
  {
    if relocs != [] {
      var n := |relocs| - 1;
      assert forall j :: 0 <= j < n ==> relocs[..n][j] == relocs[j];
      LinkByte(bytes, relocs[..n], base, a);
    }
  }

  // ----- the loader's patches -----

  ghost predicate Spaced(sites: seq<nat>) {
    forall i, j :: 0 <= i < j < |sites| ==> Apart(sites[i], sites[j])
  }

  lemma PatchOther(mem: seq<byte>, a: nat, delta: int, b: nat)
    requires a + 4 <= |mem| && b + 4 <= |mem| && (a + 4 <= b || b + 4 <= a)
    ensures Get32(Patch(mem, a, delta), b) == Get32(mem, b)
  {
    Put32Other(mem, a, Wrap(Get32(mem, a) + delta), b);
  }

  lemma PatchSelf(mem: seq<byte>, a: nat, delta: int)
    requires a + 4 <= |mem|
    ensures Get32(Patch(mem, a, delta), a) == Wrap(Get32(mem, a) + delta)
  {
  }

  lemma {:induction false} PatchedWord(mem: seq<byte>, base: nat, sites: seq<nat>, delta: int, k: nat)
    requires forall j :: 0 <= j < |sites| ==> base + sites[j] + 4 <= |mem|
    requires Spaced(sites) && k < |sites|
    ensures Get32(PatchAll(mem, base, sites, delta), base + sites[k]) == Wrap(Get32(mem, base + sites[k]) + delta)
  {
    hide Get32, Wrap, Patch;
    var n := |sites| - 1;
    var before := PatchAll(mem, base, sites[..n], delta);
    if k < n {
      PatchedWord(mem, base, sites[..n], delta, k);
      assert Apart(sites[k], sites[n]);
      PatchOther(before, base + sites[n], delta, base + sites[k]);
    } else {
      UnpatchedWord(mem, base, sites[..n], delta, sites[n]);
      PatchSelf(before, base + sites[n], delta);
    }
  }

  lemma {:induction false} UnpatchedWord(mem: seq<byte>, base: nat, sites: seq<nat>, delta: int, at: nat)
    requires forall j :: 0 <= j < |sites| ==> base + sites[j] + 4 <= |mem|
    requires base + at + 4 <= |mem| && forall j :: 0 <= j < |sites| ==> Apart(sites[j], at)
    ensures Get32(PatchAll(mem, base, sites, delta), base + at) == Get32(mem, base + at)
  {
    hide Get32, Wrap, Patch;
    if sites != [] {
      var n := |sites| - 1;
      assert Apart(sites[n], at);
      UnpatchedWord(mem, base, sites[..n], delta, at);
      PatchOther(PatchAll(mem, base, sites[..n], delta), base + sites[n], delta, base + at);
    }
  }

  lemma {:induction false} UnpatchedByte(mem: seq<byte>, base: nat, sites: seq<nat>, delta: int, a: nat)
    requires forall j :: 0 <= j < |sites| ==> base + sites[j] + 4 <= |mem|
    requires a < |mem| && forall j :: 0 <= j < |sites| ==> !(base + sites[j] <= a < base + sites[j] + 4)
    ensures PatchAll(mem, base, sites, delta)[a] == mem[a]
  {
    if sites != [] {
      var n := |sites| - 1;
      assert forall j :: 0 <= j < n ==> sites[..n][j] == sites[j];
      UnpatchedByte(mem, base, sites[..n], delta, a);
    }
  }

  function Times(sites: seq<nat>, at: nat): nat {
    if sites == [] then 0 else Times(sites[..|sites| - 1], at) + if sites[|sites| - 1] == at then 1 else 0
  }

  /** A word listed n times is shifted n times. */
  lemma {:induction false} PatchedTimes(mem: seq<byte>, base: nat, sites: seq<nat>, delta: int, at: nat)
    requires forall j :: 0 <= j < |sites| ==> base + sites[j] + 4 <= |mem|
    requires base + at + 4 <= |mem| && forall j :: 0 <= j < |sites| ==> sites[j] == at || Apart(sites[j], at)
    ensures Get32(PatchAll(mem, base, sites, delta), base + at) == Wrap(Get32(mem, base + at) + Times(sites, at) * delta)
  {
    hide Get32, Wrap, Patch;
    if sites == [] {
      WrapSmall(Get32(mem, base + at));
    } else {
      var n := |sites| - 1;
      assert forall j :: 0 <= j < n ==> sites[..n][j] == sites[j];
      PatchedTimes(mem, base, sites[..n], delta, at);
      var before := PatchAll(mem, base, sites[..n], delta);
      if sites[n] == at {
        PatchSelf(before, base + at, delta);
        var x, t := Get32(mem, base + at), Times(sites[..n], at);
        WrapShift(x + t * delta, delta);
        assert x + t * delta + delta == x + (t + 1) * delta;
      } else {
        PatchOther(before, base + sites[n], delta, base + at);
      }
    }
  }

  lemma WrapShift(x: int, d: int)
    ensures Wrap(Wrap(x) + d) == Wrap(x + d)
  {
    var q := x / 0x1_0000_0000;
    assert x + d == Wrap(x) + d + q * 0x1_0000_0000;
    ModShift(Wrap(x) + d, q);
  }

  lemma ModShift(y: int, q: int)
    ensures (y + q * 0x1_0000_0000) % 0x1_0000_0000 == y % 0x1_0000_0000
  {
  }

  // ----- absolute sites -----

  lemma {:induction false} AbsSitesSound(relocs: seq<Reloc>, k: nat)
    requires k < |AbsSites(relocs)|
    ensures exists j :: 0 <= j < |relocs| && relocs[j].kind.Abs32? && relocs[j].site == AbsSites(relocs)[k]
  {
    var n := |relocs| - 1;
    if k < |AbsSites(relocs[..n])| {
      AbsSitesSound(relocs[..n], k);
      var j :| 0 <= j < n && relocs[..n][j].kind.Abs32? && relocs[..n][j].site == AbsSites(relocs)[k];
      assert relocs[j] == relocs[..n][j];
    } else {
      assert relocs[n].kind.Abs32? && relocs[n].site == AbsSites(relocs)[k];
    }
  }

  lemma {:induction false} AbsSitesComplete(relocs: seq<Reloc>, j: nat) returns (k: nat)
    requires j < |relocs| && relocs[j].kind.Abs32?
    ensures k < |AbsSites(relocs)| && AbsSites(relocs)[k] == relocs[j].site
  {
    var n := |relocs| - 1;
    if j < n {
      k := AbsSitesComplete(relocs[..n], j);
    } else {
      k := |AbsSites(relocs[..n])|;
    }
  }

  lemma {:induction false} AbsSitesSpaced(relocs: seq<Reloc>)
    requires SitesApart(relocs)
    ensures Spaced(AbsSites(relocs))
  {
    if relocs != [] {
      var n := |relocs| - 1;
      AbsSitesSpaced(relocs[..n]);
      var init := AbsSites(relocs[..n]);
      forall i | 0 <= i < |init|
        ensures Apart(init[i], relocs[n].site)
      {
        AbsSitesSound(relocs[..n], i);
        var j :| 0 <= j < n && relocs[..n][j].kind.Abs32? && relocs[..n][j].site == init[i];
        assert relocs[..n][j] == relocs[j];
        assert Apart(relocs[j].site, relocs[n].site);
      }
    }
  }

  // ----- loading the segments -----

  /** Byte `a` of memory belongs to part `q` of the window at `base`. */
  predicate Inside(q: Part, base: nat, a: nat) {
    base + q.off <= a < base + q.off + q.memsz
  }

  /** Memory holds part `q` of the linked window `w`: its file bytes, then zeros. */
  ghost predicate Holds(mem: seq<byte>, base: nat, w: seq<byte>, q: Part) {
    && base + q.off + q.memsz <= |mem| && q.off + q.filesz <= |w|
    && q.filesz <= q.memsz
    && (forall a :: base + q.off <= a < base + q.off + q.filesz ==> mem[a] == w[a - base])
    && (forall a :: base + q.off + q.filesz <= a < base + q.off + q.memsz ==> mem[a] == 0)
  }

  ghost predicate SameOutside(mem: seq<byte>, mem': seq<byte>, base: nat, parts: seq<Part>) {
    |mem'| == |mem| && forall a :: 0 <= a < |mem| && (forall i :: 0 <= i < |parts| ==> !Inside(parts[i], base, a)) ==> mem'[a] == mem[a]
  }

  lemma CopyHolds(mem: seq<byte>, image: seq<byte>, base: nat, p: Segment, w: seq<byte>, q: Part)
    requires p.filesz == q.filesz && p.memsz == q.memsz && q.filesz <= q.memsz
    requires base + q.off + q.memsz <= |mem| && p.offset + p.filesz <= |image| && q.off + q.filesz <= |w|
    requires image[p.offset..p.offset + p.filesz] == w[q.off..q.off + q.filesz]
    ensures Holds(CopySegment(mem, image, base + q.off, p), base, w, q)
    ensures SameOutside(mem, CopySegment(mem, image, base + q.off, p), base, [q])
  {
    var m := CopySegment(mem, image, base + q.off, p);
    forall a | base + q.off <= a < base + q.off + q.filesz
      ensures m[a] == w[a - base]
    {
      var x := a - base;
      assert image[p.offset..p.offset + p.filesz][x - q.off] == w[q.off..q.off + q.filesz][x - q.off];
    }
    forall a | 0 <= a < |mem| && (forall i :: 0 <= i < |[q]| ==> !Inside([q][i], base, a))
      ensures m[a] == mem[a]
    {
      assert !Inside([q][0], base, a);
    }
  }

  lemma StillHolds(mem: seq<byte>, mem': seq<byte>, base: nat, w: seq<byte>, q: Part, parts: seq<Part>)
    requires Holds(mem, base, w, q) && SameOutside(mem, mem', base, parts)
    requires forall i :: 0 <= i < |parts| ==> Separate(q, parts[i])
    ensures Holds(mem', base, w, q)
  {
    forall a | base + q.off <= a < base + q.off + q.memsz
      ensures mem'[a] == mem[a]
    {
      forall i | 0 <= i < |parts|
        ensures !Inside(parts[i], base, a)
      {
        assert Separate(q, parts[i]);
      }
    }
  }

  ghost predicate Fitting(parts: seq<Part>, window: nat) {
    && (forall i :: 0 <= i < |parts| ==> parts[i].filesz <= parts[i].memsz && parts[i].off + parts[i].memsz <= window)
    && (forall i, j :: 0 <= i < j < |parts| ==> Separate(parts[i], parts[j]))
  }

  lemma {:induction false} SegmentsLoaded(mem: seq<byte>, image: seq<byte>, base: u32, window: u32, link: u32, i: nat, o: Object, parts: seq<Part>)
    requires Exact(image) && PhTableInside(image) && base + window <= |mem| && i <= PhNum(image)
    requires forall k :: 0 <= k < |o.relocs| ==> o.relocs[k].site + 4 <= |o.bytes|
    requires |Loadable(image, i)| == |parts| && Fitting(parts, window)
    requires forall j :: 0 <= j < |parts| ==> Carries(image, Loadable(image, i)[j], o, parts[j], link)
    ensures var (mem', ok) := LoadSegments(mem, image, base, window, link, i);
      && ok && SameOutside(mem, mem', base, parts)
      && forall j :: 0 <= j < |parts| ==> Holds(mem', base, Link(o.bytes, o.relocs, link), parts[j])
    decreases PhNum(image) - i
  {
    if i < PhNum(image) {
      var p := SegmentAt(image, i);
      if p.kind != PT_LOAD {
        SegmentsLoaded(mem, image, base, window, link, i + 1, o, parts);
      } else {
        assert Loadable(image, i)[0] == p && Carries(image, p, o, parts[0], link);
        OneSegment(mem, image, base, window, link, i, o, parts);
      }
    }
  }

  lemma {:induction false} OneSegment(mem: seq<byte>, image: seq<byte>, base: u32, window: u32, link: u32, i: nat, o: Object, parts: seq<Part>)
    requires Exact(image) && PhTableInside(image) && base + window <= |mem| && i < PhNum(image)
    requires forall k :: 0 <= k < |o.relocs| ==> o.relocs[k].site + 4 <= |o.bytes|
    requires SegmentAt(image, i).kind == PT_LOAD
    requires |Loadable(image, i)| == |parts| && Fitting(parts, window)
    requires forall j :: 0 <= j < |parts| ==> Carries(image, Loadable(image, i)[j], o, parts[j], link)
    ensures var (mem', ok) := LoadSegments(mem, image, base, window, link, i);
      && ok && SameOutside(mem, mem', base, parts)
      && forall j :: 0 <= j < |parts| ==> Holds(mem', base, Link(o.bytes, o.relocs, link), parts[j])
    decreases PhNum(image) - i, 0
  {
    hide Get32, Get16, Wrap, Link, CopySegment, SegmentAt, Exact, Holds, SameOutside;
    var p, q, rest, w := SegmentAt(image, i), parts[0], parts[1..], Link(o.bytes, o.relocs, link);
    assert Loadable(image, i) == [p] + Loadable(image, i + 1);
    assert Carries(image, Loadable(image, i)[0], o, parts[0], link);
    assert SegmentFits(image, p, link, window);
    var m1 := CopySegment(mem, image, base + q.off, p);
    CopyHolds(mem, image, base, p, w, q);
    forall j | 0 <= j < |rest|
      ensures Carries(image, Loadable(image, i + 1)[j], o, rest[j], link) && Separate(q, rest[j])
    {
      assert Carries(image, Loadable(image, i)[j + 1], o, parts[j + 1], link);
      assert Separate(parts[0], parts[j + 1]);
    }
    RestFits(parts, window);
    SegmentsLoaded(m1, image, base, window, link, i + 1, o, rest);
    var mem' := LoadSegments(mem, image, base, window, link, i).0;
    assert mem' == LoadSegments(m1, image, base, window, link, i + 1).0;
    StillHolds(m1, mem', base, w, q, rest);
    forall j | 0 <= j < |parts|
      ensures Holds(mem', base, w, parts[j])
    {
      if j > 0 {
        assert Holds(mem', base, w, rest[j - 1]);
      }
    }
    OutsideBoth(mem, m1, mem', base, parts);
  }

  lemma RestFits(parts: seq<Part>, window: nat)
    requires Fitting(parts, window) && parts != []
    ensures Fitting(parts[1..], window)
  {
    var rest := parts[1..];
    forall i, j | 0 <= i < j < |rest|
      ensures Separate(rest[i], rest[j])
    {
      assert Separate(parts[i + 1], parts[j + 1]);
    }
  }

  lemma OutsideBoth(mem: seq<byte>, m1: seq<byte>, mem': seq<byte>, base: nat, parts: seq<Part>)
    requires parts != [] && SameOutside(mem, m1, base, [parts[0]]) && SameOutside(m1, mem', base, parts[1..])
    ensures SameOutside(mem, mem', base, parts)
  {
    forall a | 0 <= a < |mem| && (forall i :: 0 <= i < |parts| ==> !Inside(parts[i], base, a))
      ensures mem'[a] == mem[a]
    {
      assert forall i :: 0 <= i < |parts[1..]| ==> parts[1..][i] == parts[i + 1] && !Inside(parts[i + 1], base, a);
      assert !Inside([parts[0]][0], base, a);
    }
  }
}
