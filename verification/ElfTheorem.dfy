/** The relocation theorem itself, assembled from segments, sites and words. */
module ElfTheorem {
  import opened Bytes
  import opened ElfModel
  import opened ElfRelocation

  lemma WordFromPart(mem: seq<byte>, base: nat, w: seq<byte>, q: Part, site: nat)
    requires Holds(mem, base, w, q) && InFile(q, site, 4)
    ensures Get32(mem, base + site) == Get32(w, site)
  {
    assert mem[base + site] == w[site] && mem[base + site + 1] == w[site + 1];
    assert mem[base + site + 2] == w[site + 2] && mem[base + site + 3] == w[site + 3];
  }

  /**
    Shifting an R_386_32 word by B - L turns its value at L into its value at B, and an R_386_PC32
    word has the same value at both, exactly when nothing moves or the symbol moves along.
  */
  lemma Shifted(r: Reloc, link: u32, base: u32)
    ensures r.kind.Abs32? ==> (Wrap(Value(r, link) + (base - link)) == Value(r, base) <==> Movable(r, link, base))
    ensures r.kind.Pc32? ==> (Value(r, link) == Value(r, base) <==> Movable(r, link, base))
  {
    hide Wrap;
    var d := base - link;
    var x := Address(r.symbol, link) + r.addend;
    if r.kind.Abs32? {
      WrapShift(x, d);
    }
    if r.symbol.Absolute? {
      SameResidue(x, d);
      SameResidue(x - (link + r.site), 0 - d);
    }
  }

  lemma SameResidue(x: int, d: int)
    requires -0x1_0000_0000 < d < 0x1_0000_0000
    ensures Wrap(x + d) == Wrap(x) <==> d == 0
  {
    WrapShift(x, d);
  }

  lemma Basics(o: Object, window: u32)
    requires WellFormed(o, window)
    ensures |o.bytes| == window
    ensures forall k :: 0 <= k < |o.relocs| ==> o.relocs[k].site + 4 <= |o.bytes|
    ensures forall i :: 0 <= i < |o.parts| ==> o.parts[i].filesz <= o.parts[i].memsz && o.parts[i].off + o.parts[i].memsz <= window
    ensures SitesApart(o.relocs)
  {
  }

  /** The segment whose file part holds the word of relocation `j`. */
  lemma PartOf(o: Object, window: u32, j: nat) returns (i: nat)
    requires WellFormed(o, window) && j < |o.relocs|
    ensures i < |o.parts| && InFile(o.parts[i], o.relocs[j].site, 4)
  {
    var r := o.relocs[j];
    assert exists i :: 0 <= i < |o.parts| && InFile(o.parts[i], r.site, 4);
    i :| 0 <= i < |o.parts| && InFile(o.parts[i], r.site, 4);
  }

  /** Before the patches, the word of relocation `j` is its value at the link address. */
  lemma UnrelocatedWord(mem: seq<byte>, o: Object, base: u32, link: u32, window: u32, j: nat)
    requires WellFormed(o, window) && base + window <= |mem| && j < |o.relocs|
    requires forall i :: 0 <= i < |o.parts| ==> Holds(mem, base, Link(o.bytes, o.relocs, link), o.parts[i])
    ensures o.relocs[j].site + 4 <= window
    ensures Get32(mem, base + o.relocs[j].site) == Value(o.relocs[j], link)
  {
    hide Get32, Link, Value, Holds;
    var r := o.relocs[j];
    var i := PartOf(o, window, j);
    assert Holds(mem, base, Link(o.bytes, o.relocs, link), o.parts[i]);
    WordFromPart(mem, base, Link(o.bytes, o.relocs, link), o.parts[i], r.site);
    LinkWord(o.bytes, o.relocs, link, j);
    assert Get32(mem, base + r.site) == Value(r, link);
  }

  /** Memory after every R_386_32 site of the object is shifted. */
  ghost function Patched(mem: seq<byte>, o: Object, base: u32, link: u32, window: u32): (m: seq<byte>)
    requires WellFormed(o, window) && base + window <= |mem|
    ensures |m| == |mem|
  {
    AbsInside(o, window);
    PatchAll(mem, base, AbsSites(o.relocs), base - link)
  }

  /** After the patches the word of relocation `j` is its value at `base` exactly when it is movable. */
  lemma RelocatedWord(mem: seq<byte>, o: Object, base: u32, link: u32, window: u32, j: nat)
    requires WellFormed(o, window) && base + window <= |mem| && j < |o.relocs|
    requires forall i :: 0 <= i < |o.parts| ==> Holds(mem, base, Link(o.bytes, o.relocs, link), o.parts[i])
    ensures o.relocs[j].site + 4 <= window
    ensures Get32(Patched(mem, o, base, link, window), base + o.relocs[j].site) == Value(o.relocs[j], base)
            <==> Movable(o.relocs[j], link, base)
  {
    hide Get32, Wrap, Link, PatchAll, Value, WellFormed, Holds, SitesApart, Spaced, Movable;
    var r, sites := o.relocs[j], AbsSites(o.relocs);
    Basics(o, window);
    AbsInside(o, window);
    UnrelocatedWord(mem, o, base, link, window, j);
    Shifted(r, link, base);
    AbsSitesSpaced(o.relocs);
    match r.kind
    case Abs32 =>
      var k := AbsSitesComplete(o.relocs, j);
      PatchedWord(mem, base, sites, base - link, k);
    case Pc32 =>
      forall k | 0 <= k < |sites|
        ensures Apart(sites[k], r.site)
      {
        AbsSitesSound(o.relocs, k);
        var m :| 0 <= m < |o.relocs| && o.relocs[m].kind.Abs32? && o.relocs[m].site == sites[k];
        SitesDistinct(o.relocs, m, j);
      }
      UnpatchedWord(mem, base, sites, base - link, r.site);
  }

  lemma SitesDistinct(relocs: seq<Reloc>, m: nat, j: nat)
    requires SitesApart(relocs) && m < |relocs| && j < |relocs| && m != j
    ensures Apart(relocs[m].site, relocs[j].site)
  {
    if m < j {
      assert Apart(relocs[m].site, relocs[j].site);
    } else {
      assert Apart(relocs[j].site, relocs[m].site);
    }
  }

  lemma AbsInside(o: Object, window: u32)
    requires WellFormed(o, window)
    ensures forall k :: 0 <= k < |AbsSites(o.relocs)| ==> AbsSites(o.relocs)[k] + 4 <= window
  {
    forall k | 0 <= k < |AbsSites(o.relocs)|
      ensures AbsSites(o.relocs)[k] + 4 <= window
    {
      AbsSitesSound(o.relocs, k);
    }
  }

  /** A byte in no relocated word is left alone by the patches. */
  lemma UntouchedByte(mem: seq<byte>, o: Object, base: u32, link: u32, window: u32, a: nat)
    requires WellFormed(o, window) && base + window <= |mem| && a < |mem|
    requires a < base || Untouched(o.relocs, a - base)
    ensures Patched(mem, o, base, link, window)[a] == mem[a]
  {
    hide PatchAll, AbsSites, WellFormed;
    AbsInside(o, window);
    var sites := AbsSites(o.relocs);
    forall k | 0 <= k < |sites|
      ensures !(base + sites[k] <= a < base + sites[k] + 4)
    {
      AbsSitesSound(o.relocs, k);
    }
    UnpatchedByte(mem, base, sites, base - link, a);
  }

  /** A byte outside the file parts is in no relocated word. */
  lemma OutsideFile(o: Object, window: u32, x: nat)
    requires WellFormed(o, window)
    requires forall i :: 0 <= i < |o.parts| ==> !(o.parts[i].off <= x < o.parts[i].off + o.parts[i].filesz)
    ensures Untouched(o.relocs, x)
  {
    forall j | 0 <= j < |o.relocs|
      ensures !(o.relocs[j].site <= x < o.relocs[j].site + 4)
    {
      var i := PartOf(o, window, j);
    }
  }

  /** After the patches memory holds the object as linked at `base`, when every word is movable. */
  lemma PatchedPart(mem: seq<byte>, o: Object, base: u32, link: u32, window: u32, i: nat)
    requires WellFormed(o, window) && base + window <= |mem| && i < |o.parts| && AllMovable(o.relocs, link, base)
    requires forall k :: 0 <= k < |o.parts| ==> Holds(mem, base, Link(o.bytes, o.relocs, link), o.parts[k])
    ensures Holds(Patched(mem, o, base, link, window), base, Link(o.bytes, o.relocs, base), o.parts[i])
  {
    hide Get32, Link, Patched, Value, WellFormed, SitesApart, AllMovable;
    Basics(o, window);
    var q, m, w := o.parts[i], Patched(mem, o, base, link, window), Link(o.bytes, o.relocs, base);
    assert Holds(mem, base, Link(o.bytes, o.relocs, link), q);
    forall a | base + q.off <= a < base + q.off + q.filesz
      ensures m[a] == w[a - base]
    {
      PatchedByte(mem, o, base, link, window, i, a - base);
    }
    forall a | base + q.off + q.filesz <= a < base + q.off + q.memsz
      ensures m[a] == 0
    {
      BssByte(mem, o, base, link, window, i, a);
    }
    assert Holds(m, base, w, q);
  }

  lemma BssByte(mem: seq<byte>, o: Object, base: u32, link: u32, window: u32, i: nat, a: nat)
    requires WellFormed(o, window) && base + window <= |mem| && i < |o.parts|
    requires Holds(mem, base, Link(o.bytes, o.relocs, link), o.parts[i])
    requires base + o.parts[i].off + o.parts[i].filesz <= a < base + o.parts[i].off + o.parts[i].memsz
    ensures Patched(mem, o, base, link, window)[a] == 0
  {
    hide Link, Patched, WellFormed;
    BssOutside(o, window, i, a - base);
    OutsideFile(o, window, a - base);
    UntouchedByte(mem, o, base, link, window, a);
  }

  lemma BssOutside(o: Object, window: u32, i: nat, x: nat)
    requires WellFormed(o, window) && i < |o.parts|
    requires o.parts[i].off + o.parts[i].filesz <= x < o.parts[i].off + o.parts[i].memsz
    ensures forall k :: 0 <= k < |o.parts| ==> !(o.parts[k].off <= x < o.parts[k].off + o.parts[k].filesz)
  {
    forall k | 0 <= k < |o.parts|
      ensures !(o.parts[k].off <= x < o.parts[k].off + o.parts[k].filesz)
    {
      if k < i {
        assert Separate(o.parts[k], o.parts[i]);
      } else if k > i {
        assert Separate(o.parts[i], o.parts[k]);
      }
    }
  }

  lemma PatchedByte(mem: seq<byte>, o: Object, base: u32, link: u32, window: u32, i: nat, x: nat)
    requires WellFormed(o, window) && base + window <= |mem| && i < |o.parts| && AllMovable(o.relocs, link, base)
    requires forall k :: 0 <= k < |o.parts| ==> Holds(mem, base, Link(o.bytes, o.relocs, link), o.parts[k])
    requires o.parts[i].off <= x < o.parts[i].off + o.parts[i].filesz
    ensures Patched(mem, o, base, link, window)[base + x] == Link(o.bytes, o.relocs, base)[x]
  {
    hide Get32, Link, Patched, Value, WellFormed, SitesApart, Holds, Movable;
    Basics(o, window);
    if Untouched(o.relocs, x) {
      assert Holds(mem, base, Link(o.bytes, o.relocs, link), o.parts[i]);
      FixedByte(mem, o, base, link, window, o.parts[i], x);
    } else {
      var j :| 0 <= j < |o.relocs| && o.relocs[j].site <= x < o.relocs[j].site + 4;
      assert Movable(o.relocs[j], link, base);
      RelocatedWord(mem, o, base, link, window, j);
      LinkWord(o.bytes, o.relocs, base, j);
      var site := o.relocs[j].site;
      ByteOfWord(Patched(mem, o, base, link, window), Link(o.bytes, o.relocs, base), base + site, site, x - site);
    }
  }

  /** A byte no relocation touches is the template's, at any base. */
  lemma FixedByte(mem: seq<byte>, o: Object, base: u32, link: u32, window: u32, q: Part, x: nat)
    requires WellFormed(o, window) && base + window <= |mem|
    requires Holds(mem, base, Link(o.bytes, o.relocs, link), q)
    requires q.off <= x < q.off + q.filesz && x < window && Untouched(o.relocs, x)
    ensures Patched(mem, o, base, link, window)[base + x] == Link(o.bytes, o.relocs, base)[x]
  {
    hide Link, Patched, WellFormed, SitesApart, Untouched;
    Basics(o, window);
    UntouchedByte(mem, o, base, link, window, base + x);
    LinkByte(o.bytes, o.relocs, link, x);
    LinkByte(o.bytes, o.relocs, base, x);
  }

  lemma ByteOfWord(m: seq<byte>, w: seq<byte>, a: nat, b: nat, k: nat)
    requires a + 4 <= |m| && b + 4 <= |w| && Get32(m, a) == Get32(w, b) && k < 4
    ensures m[a + k] == w[b + k]
  {
    hide Get32;
    WordBytes(m, w, a, b);
    assert m[a..a + 4][k] == w[b..b + 4][k];
  }

  /** A load of a linked image: its segments as linked at `link`, then the patches. */
  lemma LoadShape(mem: seq<byte>, image: seq<byte>, o: Object, base: u32, link: u32, window: u32) returns (loaded: seq<byte>)
    requires WellFormed(o, window) && LinkedAt(image, o, link, window) && base + window <= |mem|
    ensures |loaded| == |mem| && SameOutside(mem, loaded, base, o.parts)
    ensures forall i :: 0 <= i < |o.parts| ==> Holds(loaded, base, Link(o.bytes, o.relocs, link), o.parts[i])
    ensures Load(mem, image, base, window, link) == (Patched(loaded, o, base, link, window), Some(Wrap(base + o.entry)))
  {
    hide Get32, Get16, Link, PatchAll, AbsSites, Sites, LoadSegments, HeaderOk, Exact, Loadable, Carries, Holds;
    SegmentsLoaded(mem, image, base, window, link, 0, o, o.parts);
    loaded := LoadSegments(mem, image, base, window, link).0;
    EntryShift(o.entry, link, base);
  }

  /** Every word of the file that the loader relocates: exactly right, or off by B - L. */
  lemma LoadedWords(mem: seq<byte>, image: seq<byte>, o: Object, base: u32, link: u32, window: u32, j: nat)
    requires WellFormed(o, window) && LinkedAt(image, o, link, window) && base + window <= |mem| && j < |o.relocs|
    ensures Get32(Load(mem, image, base, window, link).0, base + o.relocs[j].site) == Value(o.relocs[j], base)
            <==> Movable(o.relocs[j], link, base)
  {
    hide Get32, Link, Load, LinkedAt, Patched, Value, Holds, Movable;
    var loaded := LoadShape(mem, image, o, base, link, window);
    RelocatedWord(loaded, o, base, link, window, j);
  }

  /**
    Loading at `base` an image linked at `link` succeeds, gives the entry point of a link at `base`
    and touches nothing but the segments. These hold the bytes of a link at `base` followed by zeros
    exactly when nothing moves or no relocation refers to an absolute symbol.
  */
  lemma LoadIsLink(mem: seq<byte>, image: seq<byte>, o: Object, base: u32, link: u32, window: u32)
    requires WellFormed(o, window) && LinkedAt(image, o, link, window) && base + window <= |mem|
    ensures var (mem', entry) := Load(mem, image, base, window, link);
      && entry == Some(Wrap(base + o.entry))
      && SameOutside(mem, mem', base, o.parts)
      && ((forall i :: 0 <= i < |o.parts| ==> Holds(mem', base, Link(o.bytes, o.relocs, base), o.parts[i]))
          <==> AllMovable(o.relocs, link, base))
  {
    hide Get32, Link, Load, LinkedAt, Patched, AllMovable, WellFormed, SitesApart;
    var loaded := LoadShape(mem, image, o, base, link, window);
    Basics(o, window);
    var m, w := Patched(loaded, o, base, link, window), Link(o.bytes, o.relocs, base);
    PatchesInside(mem, loaded, o, base, link, window);
    if AllMovable(o.relocs, link, base) {
      forall i | 0 <= i < |o.parts|
        ensures Holds(m, base, w, o.parts[i])
      {
        PatchedPart(loaded, o, base, link, window, i);
      }
    }
    if forall i :: 0 <= i < |o.parts| ==> Holds(m, base, w, o.parts[i]) {
      HeldMeansMovable(loaded, o, base, link, window);
    }
  }

  lemma PatchesInside(mem: seq<byte>, loaded: seq<byte>, o: Object, base: u32, link: u32, window: u32)
    requires WellFormed(o, window) && base + window <= |mem| == |loaded| && SameOutside(mem, loaded, base, o.parts)
    ensures SameOutside(mem, Patched(loaded, o, base, link, window), base, o.parts)
  {
    hide Patched, WellFormed;
    Basics(o, window);
    var m := Patched(loaded, o, base, link, window);
    forall a | 0 <= a < |mem| && (forall i :: 0 <= i < |o.parts| ==> !Inside(o.parts[i], base, a))
      ensures m[a] == mem[a]
    {
      if a >= base {
        forall i | 0 <= i < |o.parts|
          ensures !(o.parts[i].off <= a - base < o.parts[i].off + o.parts[i].filesz)
        {
          assert !Inside(o.parts[i], base, a);
        }
        OutsideFile(o, window, a - base);
      }
      UntouchedByte(loaded, o, base, link, window, a);
    }
  }

  lemma HeldMeansMovable(mem: seq<byte>, o: Object, base: u32, link: u32, window: u32)
    requires WellFormed(o, window) && base + window <= |mem|
    requires forall k :: 0 <= k < |o.parts| ==> Holds(mem, base, Link(o.bytes, o.relocs, link), o.parts[k])
    requires forall k :: 0 <= k < |o.parts| ==>
               Holds(Patched(mem, o, base, link, window), base, Link(o.bytes, o.relocs, base), o.parts[k])
    ensures AllMovable(o.relocs, link, base)
  {
    hide Get32, Link, Patched, Value, Holds, Movable, WellFormed, SitesApart;
    Basics(o, window);
    var m, w := Patched(mem, o, base, link, window), Link(o.bytes, o.relocs, base);
    forall j | 0 <= j < |o.relocs|
      ensures Movable(o.relocs[j], link, base)
    {
      var i := PartOf(o, window, j);
      assert Holds(m, base, w, o.parts[i]);
      WordFromPart(m, base, w, o.parts[i], o.relocs[j].site);
      LinkWord(o.bytes, o.relocs, base, j);
      RelocatedWord(mem, o, base, link, window, j);
    }
  }

  lemma EntryShift(entry: nat, link: u32, base: u32)
    ensures Wrap(base + Wrap(Wrap(link + entry) - link)) == Wrap(base + entry)
  {
    WrapShift(link + entry, 0 - link);
    WrapShift(entry, base);
  }

  /** So the file linked at L and the file linked at B load identically at B, exactly under that condition. */
  lemma RelocationPreservesMeaning(mem: seq<byte>, imageL: seq<byte>, imageB: seq<byte>, o: Object, base: u32, link: u32, window: u32)
    requires WellFormed(o, window) && base + window <= |mem|
    requires LinkedAt(imageL, o, link, window) && LinkedAt(imageB, o, base, window)
    ensures Load(mem, imageL, base, window, link) == Load(mem, imageB, base, window, base) <==> AllMovable(o.relocs, link, base)
  {
    hide Get32, Get16, Link, Load, Holds, WellFormed, SitesApart, Exact, HeaderOk, Loadable, Carries, Sites, AbsSites;
    Basics(o, window);
    LoadIsLink(mem, imageL, o, base, link, window);
    LoadIsLink(mem, imageB, o, base, base, window);
    assert AllMovable(o.relocs, base, base);
    if AllMovable(o.relocs, link, base) {
      SameWindow(mem, Load(mem, imageL, base, window, link).0, Load(mem, imageB, base, window, base).0,
                 base, Link(o.bytes, o.relocs, base), o.parts);
    }
  }

  lemma SameWindow(mem: seq<byte>, m: seq<byte>, n: seq<byte>, base: nat, w: seq<byte>, parts: seq<Part>)
    requires SameOutside(mem, m, base, parts) && SameOutside(mem, n, base, parts)
    requires forall i :: 0 <= i < |parts| ==> Holds(m, base, w, parts[i]) && Holds(n, base, w, parts[i])
    ensures m == n
  {
    forall a | 0 <= a < |mem|
      ensures m[a] == n[a]
    {
      if i :| 0 <= i < |parts| && Inside(parts[i], base, a) {
        assert Holds(m, base, w, parts[i]) && Holds(n, base, w, parts[i]);
      } else {
        assert m[a] == mem[a] && n[a] == mem[a];
      }
    }
  }

  // ----- any image, well linked or not, stays inside its window -----

  ghost predicate SameBeyond(mem: seq<byte>, m: seq<byte>, from: nat, to: nat) {
    |m| == |mem| && forall a :: 0 <= a < |mem| && !(from <= a < to) ==> m[a] == mem[a]
  }

  lemma {:induction false} SegmentsFrame(mem: seq<byte>, image: seq<byte>, base: u32, window: u32, link: u32, i: nat)
    requires Exact(image) && PhTableInside(image) && base + window <= |mem| && i <= PhNum(image)
    ensures SameBeyond(mem, LoadSegments(mem, image, base, window, link, i).0, base, base + window)
    decreases PhNum(image) - i
  {
    hide Get32, Get16, CopySegment, Wrap;
    if i < PhNum(image) {
      var p := SegmentAt(image, i);
      if p.kind != PT_LOAD {
        SegmentsFrame(mem, image, base, window, link, i + 1);
      } else if SegmentFits(image, p, link, window) {
        var m1 := CopySegment(mem, image, base + WindowOffset(p.vaddr, link), p);
        CopyFrame(mem, image, base + WindowOffset(p.vaddr, link), p);
        SegmentsFrame(m1, image, base, window, link, i + 1);
      }
    }
  }

  lemma CopyFrame(mem: seq<byte>, image: seq<byte>, lo: nat, p: Segment)
    requires p.filesz <= p.memsz && lo + p.memsz <= |mem| && p.offset + p.filesz <= |image|
    ensures SameBeyond(mem, CopySegment(mem, image, lo, p), lo, lo + p.memsz)
  {
  }

  /** elf_load writes nothing outside [base, base + window), whether it succeeds or fails. */
  lemma LoadFrame(mem: seq<byte>, image: seq<byte>, base: u32, window: u32, link: u32)
    requires Exact(image) && base + window <= |mem|
    ensures SameBeyond(mem, Load(mem, image, base, window, link).0, base, base + window)
  {
    hide Get32, Get16, LoadSegments, Sites, PatchAll, Exact, HeaderOk;
    if HeaderOk(image) && PhTableInside(image) {
      SegmentsFrame(mem, image, base, window, link, 0);
      var (loaded, ok) := LoadSegments(mem, image, base, window, link);
      if ok {
        SitesInside(image, link, window);
        var sites := Sites(image, link, window);
        forall a | 0 <= a < |mem| && !(base <= a < base + window)
          ensures PatchAll(loaded, base, sites, base - link)[a] == mem[a]
        {
          UnpatchedByte(loaded, base, sites, base - link, a);
        }
        assert SameBeyond(mem, PatchAll(loaded, base, sites, base - link), base, base + window);
      }
    }
  }

  /**
    Any image that loads: a word whose site the relocation sections list n times is shifted n times,
    which is the one shift it needs exactly when (n - 1) * (B - L) vanishes modulo 2^32.
  */
  lemma ListedTimes(mem: seq<byte>, image: seq<byte>, base: u32, link: u32, window: u32, at: nat)
    requires Exact(image) && base + window <= |mem| && at + 4 <= window
    requires Load(mem, image, base, window, link).1.Some?
    requires forall k :: 0 <= k < |Sites(image, link, window)| ==> Sites(image, link, window)[k] == at || Apart(Sites(image, link, window)[k], at)
    ensures var before := Get32(LoadSegments(mem, image, base, window, link).0, base + at);
            var after := Get32(Load(mem, image, base, window, link).0, base + at);
            var n := Times(Sites(image, link, window), at);
      && after == Wrap(before + n * (base - link))
      && (after == Wrap(before + (base - link)) <==> Wrap((n - 1) * (base - link)) == 0)
  {
    hide Get32, Get16, Wrap, LoadSegments, PatchAll, Sites, HeaderOk, Exact, Times;
    var loaded, sites, d := LoadSegments(mem, image, base, window, link).0, Sites(image, link, window), base - link;
    SitesInside(image, link, window);
    PatchedTimes(loaded, base, sites, d, at);
    var x, n := Get32(loaded, base + at) + d, Times(sites, at);
    assert x + (n - 1) * d == Get32(loaded, base + at) + n * d;
    SameResidues(x, (n - 1) * d);
  }

  lemma SameResidues(x: int, d: int)
    ensures Wrap(x + d) == Wrap(x) <==> Wrap(d) == 0
  {
    WrapShift(x, d);
    WrapShift(d, Wrap(x));
    assert Wrap(Wrap(d) + Wrap(x)) == Wrap(Wrap(x) + d);
    SameResidue(Wrap(x), Wrap(d));
    WrapSmall(Wrap(x));
  }
}
