/**
  elf_load in terms of the bytes of the file alone. The ELF32 fields are read here at their offsets in the
  format (file header 52 bytes, program header 32, section header 40, relocation entry 8), without any of
  the loader's own readers: which files are accepted, which byte ends up where, and which words are shifted.
*/
module ElfFile {
  import opened Bytes
  import opened ElfModel
  import opened ElfRelocation
  import ElfTheorem

  /** e_ident, ELFCLASS32 and EM_386. */
  predicate Elf386(image: seq<byte>) {
    |image| >= 52 && image[..5] == [0x7F, 0x45, 0x4C, 0x46, 1] && image[18..20] == [3, 0]
  }

  // ----- program headers -----

  predicate HasPrograms(image: seq<byte>) {
    |image| >= 52 && Get32(image, 28) + 32 * Get16(image, 44) <= |image|
  }

  /** Field at byte `f` of program header `i`. */
  function ProgramField(image: seq<byte>, i: nat, f: nat): u32
    requires HasPrograms(image) && i < Get16(image, 44) && f <= 28
  {
    Get32(image, Get32(image, 28) + 32 * i + f)
  }

  predicate Loads(image: seq<byte>, i: nat) {
    HasPrograms(image) && i < Get16(image, 44) && ProgramField(image, i, 0) == 1
  }

  /** Where the segment of header `i` goes in the window. */
  function Place(image: seq<byte>, link: u32, i: nat): u32
    requires Loads(image, i)
  {
    Wrap(ProgramField(image, i, 8) - link)
  }

  /** Window offset `x` belongs to the segment of header `i`. */
  predicate Covers(image: seq<byte>, link: u32, i: nat, x: int)
    requires Loads(image, i)
  {
    Place(image, link, i) <= x < Place(image, link, i) + ProgramField(image, i, 20)
  }

  /** Every loadable segment lies in the window and its file part in the file. */
  ghost predicate Accepted(image: seq<byte>, link: u32, window: u32) {
    && Elf386(image) && HasPrograms(image)
    && forall i :: 0 <= i < Get16(image, 44) && Loads(image, i) ==>
         && Place(image, link, i) + ProgramField(image, i, 20) <= window
         && ProgramField(image, i, 4) + ProgramField(image, i, 16) <= |image|
  }

  // ----- relocation entries -----

  predicate HasSections(image: seq<byte>) {
    |image| >= 52 && Get32(image, 32) != 0 && Get32(image, 32) + 40 * Get16(image, 48) <= |image|
  }

  function SectionField(image: seq<byte>, s: nat, f: nat): u32
    requires HasSections(image) && s < Get16(image, 48) && f <= 36
  {
    Get32(image, Get32(image, 32) + 40 * s + f)
  }

  /** Section `s` has type 9 (SHT_REL) and lies in the file. */
  predicate Relocation(image: seq<byte>, s: nat) {
    && HasSections(image) && s < Get16(image, 48) && SectionField(image, s, 4) == 9
    && SectionField(image, s, 16) + SectionField(image, s, 20) <= |image|
  }

  /** Entry `r` of section `s` is an R_386_32, whatever its symbol, for the word at window offset `w`. */
  predicate Lists(image: seq<byte>, link: u32, window: u32, s: nat, r: nat, w: int) {
    && Relocation(image, s) && 8 * r + 8 <= SectionField(image, s, 20)
    && var at := SectionField(image, s, 16) + 8 * r;
    && Get32(image, at + 4) % 256 == 1 && Wrap(Get32(image, at) - link) == w && w + 4 <= window
  }

  /** How many entries list `w`: of section `s` from entry `r` on, and of all sections from `s` on. */
  function InSection(image: seq<byte>, link: u32, window: u32, s: nat, r: nat, w: int): nat
    requires Relocation(image, s)
    decreases SectionField(image, s, 20) - 8 * r
  {
    if 8 * r + 8 > SectionField(image, s, 20) then 0
    else (if Lists(image, link, window, s, r, w) then 1 else 0) + InSection(image, link, window, s, r + 1, w)
  }

  function Listings(image: seq<byte>, link: u32, window: u32, w: int, s: nat := 0): nat
    requires HasSections(image) && s <= Get16(image, 48)
    decreases Get16(image, 48) - s
  {
    if s == Get16(image, 48) then 0
    else (if Relocation(image, s) then InSection(image, link, window, s, 0, w) else 0) + Listings(image, link, window, w, s + 1)
  }

  // ----- the loader's readers read those fields -----

  lemma SameSegment(image: seq<byte>, i: nat)
    requires PhTableInside(image) && i < PhNum(image)
    ensures HasPrograms(image) && i < Get16(image, 44)
    ensures SegmentAt(image, i) == Segment(ProgramField(image, i, 0), ProgramField(image, i, 4), ProgramField(image, i, 8),
                                           ProgramField(image, i, 16), ProgramField(image, i, 20))
  {
    hide Get32, Get16;
  }

  lemma SameHeader(image: seq<byte>)
    ensures HeaderOk(image) <==> Elf386(image)
  {
    hide Get32;
    if |image| >= 52 {
      assert image[..5] == [image[0], image[1], image[2], image[3], image[4]];
      assert image[18..20] == [image[18], image[19]];
      assert Get16(image, 18) == 3 <==> image[18] == 3 && image[19] == 0;
    }
  }

  lemma {:induction false} SegmentsAccepted(mem: seq<byte>, image: seq<byte>, base: u32, window: u32, link: u32, i: nat)
    requires Exact(image) && PhTableInside(image) && base + window <= |mem| && i <= PhNum(image)
    ensures HasPrograms(image) && PhNum(image) == Get16(image, 44)
    ensures LoadSegments(mem, image, base, window, link, i).1 <==>
            forall j :: i <= j < Get16(image, 44) && Loads(image, j) ==>
              && Place(image, link, j) + ProgramField(image, j, 20) <= window
              && ProgramField(image, j, 4) + ProgramField(image, j, 16) <= |image|
    decreases PhNum(image) - i
  {
    hide Get32, Get16, Wrap, CopySegment, Exact;
    if i < PhNum(image) {
      SameSegment(image, i);
      ExactSegment(image, i);
      var p := SegmentAt(image, i);
      if p.kind != PT_LOAD {
        SegmentsAccepted(mem, image, base, window, link, i + 1);
      } else {
        assert Loads(image, i);
        if SegmentFits(image, p, link, window) {
          SegmentsAccepted(CopySegment(mem, image, base + WindowOffset(p.vaddr, link), p), image, base, window, link, i + 1);
        }
      }
    }
  }

  lemma ExactSegment(image: seq<byte>, i: nat)
    requires Exact(image) && PhTableInside(image) && i < PhNum(image)
    ensures SegmentAt(image, i).kind == PT_LOAD ==> SegmentAt(image, i).filesz <= SegmentAt(image, i).memsz
  {
    hide Get32, Get16, SegmentAt;
  }

  /** elf_load accepts exactly those files, and enters them where e_entry says, moved along. */
  lemma AcceptedExact(mem: seq<byte>, image: seq<byte>, base: u32, window: u32, link: u32)
    requires Exact(image) && base + window <= |mem|
    ensures var entry := Load(mem, image, base, window, link).1;
      && (entry.Some? <==> Accepted(image, link, window))
      && (entry.Some? ==> |image| >= 52 && entry.value == Wrap(base + Wrap(Get32(image, 24) - link)))
  {
    hide Get32, Get16, Wrap, LoadSegments, PatchAll, Sites, HeaderOk, Exact;
    SameHeader(image);
    if HeaderOk(image) && PhTableInside(image) {
      SegmentsAccepted(mem, image, base, window, link, 0);
    }
  }

  // ----- bytes -----

  /** After the headers from `i` on: the last segment that covers a byte decides it; other bytes are kept. */
  lemma {:induction false} SegmentByte(mem: seq<byte>, image: seq<byte>, base: u32, window: u32, link: u32, i: nat, j: nat, x: nat)
    requires Exact(image) && PhTableInside(image) && base + window <= |mem| && i <= j < PhNum(image) && x < window
    requires LoadSegments(mem, image, base, window, link, i).1
    requires Loads(image, j) && Covers(image, link, j, x)
    requires forall h :: j < h < Get16(image, 44) && Loads(image, h) ==> !Covers(image, link, h, x)
    ensures var d := x - Place(image, link, j);
      && ProgramField(image, j, 4) + ProgramField(image, j, 16) <= |image|
      && LoadSegments(mem, image, base, window, link, i).0[base + x] == if d < ProgramField(image, j, 16) then image[ProgramField(image, j, 4) + d] else 0
    decreases j - i
  {
    hide Get32, Get16, Wrap, Exact, LoadSegments, CopySegment, ProgramField, SegmentAt;
    SegmentsAccepted(mem, image, base, window, link, i);
    SegmentStep(mem, image, base, window, link, i);
    var m := AfterHeader(mem, image, base, window, link, i);
    if i < j {
      SegmentByte(m, image, base, window, link, i + 1, j, x);
    } else {
      OtherByte(m, image, base, window, link, i + 1, x);
      SameSegment(image, i);
      ExactSegment(image, i);
      CopiedByte(mem, image, base + Place(image, link, i), SegmentAt(image, i), base + x);
    }
  }

  /** Memory after header `i`. */
  function AfterHeader(mem: seq<byte>, image: seq<byte>, base: u32, window: u32, link: u32, i: nat): (m: seq<byte>)
    requires Exact(image) && PhTableInside(image) && base + window <= |mem| && i < PhNum(image)
    ensures |m| == |mem|
  {
    var p := SegmentAt(image, i);
    if p.kind == PT_LOAD && SegmentFits(image, p, link, window) then CopySegment(mem, image, base + WindowOffset(p.vaddr, link), p) else mem
  }

  lemma SegmentStep(mem: seq<byte>, image: seq<byte>, base: u32, window: u32, link: u32, i: nat)
    requires Exact(image) && PhTableInside(image) && base + window <= |mem| && i < PhNum(image)
    requires LoadSegments(mem, image, base, window, link, i).1
    ensures LoadSegments(mem, image, base, window, link, i) == LoadSegments(AfterHeader(mem, image, base, window, link, i), image, base, window, link, i + 1)
    ensures SegmentAt(image, i).kind == PT_LOAD ==> SegmentFits(image, SegmentAt(image, i), link, window)
  {
    hide Get32, Get16, Wrap, Exact, CopySegment, SegmentAt;
  }

  lemma CopiedByte(mem: seq<byte>, image: seq<byte>, lo: nat, p: Segment, a: nat)
    requires p.filesz <= p.memsz && lo + p.memsz <= |mem| && p.offset + p.filesz <= |image| && lo <= a < lo + p.memsz
    ensures CopySegment(mem, image, lo, p)[a] == if a - lo < p.filesz then image[p.offset + a - lo] else 0
  {
  }

  lemma {:induction false} OtherByte(mem: seq<byte>, image: seq<byte>, base: u32, window: u32, link: u32, i: nat, x: nat)
    requires Exact(image) && PhTableInside(image) && base + window <= |mem| && i <= PhNum(image) && x < window
    requires LoadSegments(mem, image, base, window, link, i).1
    requires forall h :: i <= h < Get16(image, 44) && Loads(image, h) ==> !Covers(image, link, h, x)
    ensures LoadSegments(mem, image, base, window, link, i).0[base + x] == mem[base + x]
    decreases PhNum(image) - i
  {
    hide Get32, Get16, Wrap, Exact;
    if i < PhNum(image) {
      SameSegment(image, i);
      ExactSegment(image, i);
      var p := SegmentAt(image, i);
      if p.kind == PT_LOAD {
        assert Loads(image, i) && !Covers(image, link, i, x);
        OtherByte(CopySegment(mem, image, base + WindowOffset(p.vaddr, link), p), image, base, window, link, i + 1, x);
      } else {
        OtherByte(mem, image, base, window, link, i + 1, x);
      }
    }
  }

  // ----- which words are shifted -----

  lemma SameSection(image: seq<byte>, s: nat)
    requires ShTableInside(image) && s < ShNum(image)
    ensures HasSections(image) && s < Get16(image, 48)
    ensures SectionAt(image, s) == Section(SectionField(image, s, 4), SectionField(image, s, 16), SectionField(image, s, 20), SectionField(image, s, 36))
    ensures Relocates(image, SectionAt(image, s)) <==> Relocation(image, s)
  {
    hide Get32, Get16;
  }

  /** The patch test on an entry is the listing of its word. */
  lemma SameEntry(image: seq<byte>, link: u32, window: u32, s: nat, r: nat)
    requires ShTableInside(image) && s < ShNum(image) && Relocates(image, SectionAt(image, s)) && 8 * r + 8 <= SectionAt(image, s).size
    ensures Relocation(image, s) && 8 * r + 8 <= SectionField(image, s, 20)
    ensures var x := RelAt(image, SectionAt(image, s), r);
      && (forall w :: Lists(image, link, window, s, r, w) <==> Patches(x, link, window) && w == WindowOffset(x.offset, link))
  {
    hide Get32, Get16, Wrap, SectionAt;
    SameSection(image, s);
  }

  lemma {:induction false} TimesConcat(a: seq<nat>, b: seq<nat>, x: nat)
    ensures Times(a + b, x) == Times(a, x) + Times(b, x)
  {
    if b == [] {
      assert a + b == a;
    } else {
      var n := |b| - 1;
      assert (a + b)[..|a + b| - 1] == a + b[..n];
      TimesConcat(a, b[..n], x);
    }
  }

  lemma OneTime(y: nat, x: nat)
    ensures Times([y], x) == if y == x then 1 else 0
  {
    assert [y][..0] == [];
    assert Times([], x) == 0;
  }

  lemma {:induction false} SectionTimes(image: seq<byte>, link: u32, window: u32, s: nat, r: nat, w: nat)
    requires ShTableInside(image) && s < ShNum(image) && Relocates(image, SectionAt(image, s)) && r <= SectionAt(image, s).size / 8
    ensures Relocation(image, s)
    ensures Times(SectionSites(image, SectionAt(image, s), link, window, r), w) == InSection(image, link, window, s, r, w)
    decreases SectionAt(image, s).size / 8 - r
  {
    hide Get32, Get16, Wrap, SectionAt, RelAt, Patches, Times, Lists;
    SameSection(image, s);
    var h := SectionAt(image, s);
    if r < h.size / 8 {
      SectionTimes(image, link, window, s, r + 1, w);
      SameEntry(image, link, window, s, r);
      var x, rest := RelAt(image, h, r), SectionSites(image, h, link, window, r + 1);
      var head: seq<nat> := if Patches(x, link, window) then [WindowOffset(x.offset, link)] else [];
      TimesConcat(head, rest, w);
      OneTime(WindowOffset(x.offset, link), w);
      NoTimes(w);
    } else {
      NoTimes(w);
    }
  }

  lemma NoTimes(w: nat)
    ensures Times([], w) == 0
  {
  }

  lemma {:induction false} AllTimes(image: seq<byte>, link: u32, window: u32, s: nat, w: nat)
    requires ShTableInside(image) && s <= ShNum(image)
    ensures HasSections(image) && Times(SitesFrom(image, link, window, s), w) == Listings(image, link, window, w, s)
    decreases ShNum(image) - s
  {
    hide Get32, Get16, SectionAt, SectionSites, InSection, Times;
    NoTimes(w);
    if s < ShNum(image) {
      SameSection(image, s);
      AllTimes(image, link, window, s + 1, w);
      var h, rest := SectionAt(image, s), SitesFrom(image, link, window, s + 1);
      if Relocates(image, h) {
        SectionTimes(image, link, window, s, 0, w);
        TimesConcat(SectionSites(image, h, link, window), rest, w);
      } else {
        assert [] + rest == rest;
      }
    }
  }

  lemma {:induction false} SectionSiteListed(image: seq<byte>, link: u32, window: u32, s: nat, r: nat, k: nat) returns (q: nat)
    requires ShTableInside(image) && s < ShNum(image) && Relocates(image, SectionAt(image, s)) && r <= SectionAt(image, s).size / 8
    requires k < |SectionSites(image, SectionAt(image, s), link, window, r)|
    ensures Lists(image, link, window, s, q, SectionSites(image, SectionAt(image, s), link, window, r)[k])
    decreases SectionAt(image, s).size / 8 - r
  {
    hide Get32, Get16, Wrap, SectionAt, RelAt, Patches, Lists;
    var h := SectionAt(image, s);
    SameEntry(image, link, window, s, r);
    var x := RelAt(image, h, r);
    if Patches(x, link, window) && k == 0 {
      q := r;
    } else {
      q := SectionSiteListed(image, link, window, s, r + 1, if Patches(x, link, window) then k - 1 else k);
    }
  }

  lemma {:induction false} SiteListed(image: seq<byte>, link: u32, window: u32, s: nat, k: nat) returns (t: nat, q: nat)
    requires ShTableInside(image) && s <= ShNum(image) && k < |SitesFrom(image, link, window, s)|
    ensures Lists(image, link, window, t, q, SitesFrom(image, link, window, s)[k])
    decreases ShNum(image) - s
  {
    hide Get32, Get16, SectionAt, SectionSites, Lists;
    var h := SectionAt(image, s);
    var head := if Relocates(image, h) then SectionSites(image, h, link, window) else [];
    if k < |head| {
      t := s;
      q := SectionSiteListed(image, link, window, s, 0, k);
    } else {
      t, q := SiteListed(image, link, window, s + 1, k - |head|);
    }
  }

  /** Every word the relocation pass shifts is listed by some entry of the file. */
  lemma ShiftedIsListed(image: seq<byte>, link: u32, window: u32, k: nat)
    requires k < |Sites(image, link, window)|
    ensures exists s, r :: Lists(image, link, window, s, r, Sites(image, link, window)[k])
  {
    hide SitesFrom, Lists, Get32, Get16;
    var t, q := SiteListed(image, link, window, 0, k);
  }

  // ----- the loaded memory -----

  /** No entry of the file lists a word that contains window offset `x`. */
  ghost predicate Unlisted(image: seq<byte>, link: u32, window: u32, x: int) {
    forall s, r, w :: Lists(image, link, window, s, r, w) ==> !(w <= x < w + 4)
  }

  lemma UnlistedKept(mem: seq<byte>, image: seq<byte>, base: u32, window: u32, link: u32, x: nat)
    requires Exact(image) && base + window <= |mem| && x < window && Accepted(image, link, window) && Unlisted(image, link, window, x)
    ensures PhTableInside(image) && LoadSegments(mem, image, base, window, link).1
    ensures Load(mem, image, base, window, link).0[base + x] == LoadSegments(mem, image, base, window, link).0[base + x]
  {
    hide Get32, Get16, LoadSegments, PatchAll, Sites, Exact, Lists, HeaderOk;
    SameHeader(image);
    SegmentsAccepted(mem, image, base, window, link, 0);
    SitesInside(image, link, window);
    var sites := Sites(image, link, window);
    forall k | 0 <= k < |sites|
      ensures !(base + sites[k] <= base + x < base + sites[k] + 4)
    {
      ShiftedIsListed(image, link, window, k);
    }
    UnpatchedByte(LoadSegments(mem, image, base, window, link).0, base, sites, base - link, base + x);
  }

  /** A byte of a loaded segment that no entry lists is the byte of the file, or zero past its file part. */
  lemma LoadedByte(mem: seq<byte>, image: seq<byte>, base: u32, window: u32, link: u32, j: nat, x: nat)
    requires Exact(image) && base + window <= |mem| && x < window && Accepted(image, link, window) && Unlisted(image, link, window, x)
    requires Loads(image, j) && Covers(image, link, j, x)
    requires forall h :: j < h < Get16(image, 44) && Loads(image, h) ==> !Covers(image, link, h, x)
    ensures var d := x - Place(image, link, j);
      && ProgramField(image, j, 4) + ProgramField(image, j, 16) <= |image|
      && Load(mem, image, base, window, link).0[base + x] == if d < ProgramField(image, j, 16) then image[ProgramField(image, j, 4) + d] else 0
  {
    hide Get32, Get16, Load, LoadSegments, Exact, Unlisted;
    UnlistedKept(mem, image, base, window, link, x);
    SegmentByte(mem, image, base, window, link, 0, j, x);
  }

  /** A byte of the window in no loaded segment that no entry lists is left alone. */
  lemma KeptByte(mem: seq<byte>, image: seq<byte>, base: u32, window: u32, link: u32, x: nat)
    requires Exact(image) && base + window <= |mem| && x < window && Accepted(image, link, window) && Unlisted(image, link, window, x)
    requires forall h :: 0 <= h < Get16(image, 44) && Loads(image, h) ==> !Covers(image, link, h, x)
    ensures Load(mem, image, base, window, link).0[base + x] == mem[base + x]
  {
    hide Get32, Get16, Load, LoadSegments, Exact, Unlisted;
    UnlistedKept(mem, image, base, window, link, x);
    OtherByte(mem, image, base, window, link, 0, x);
  }

  /**
    A word in the file part of a loaded segment is shifted by B - L once for every entry, with whatever symbol
    and in whatever section, that lists it.
  */
  lemma ListedWord(mem: seq<byte>, image: seq<byte>, base: u32, window: u32, link: u32, j: nat, at: nat)
    requires Exact(image) && base + window <= |mem| && at + 4 <= window && Accepted(image, link, window) && HasSections(image)
    requires Loads(image, j) && Place(image, link, j) <= at && at + 4 <= Place(image, link, j) + ProgramField(image, j, 16)
    requires forall h, x :: j < h < Get16(image, 44) && Loads(image, h) && at <= x < at + 4 ==> !Covers(image, link, h, x)
    requires forall s, r, w :: Lists(image, link, window, s, r, w) ==> w == at || w + 4 <= at || at + 4 <= w
    ensures var from := ProgramField(image, j, 4) + (at - Place(image, link, j));
      && from + 4 <= |image|
      && Get32(Load(mem, image, base, window, link).0, base + at)
         == Wrap(Get32(image, from) + Listings(image, link, window, at) * (base - link))
  {
    hide Get32, Get16, Wrap, LoadSegments, PatchAll, SitesFrom, Exact, Lists, Times, Listings, HeaderOk, Place;
    SameHeader(image);
    SegmentsAccepted(mem, image, base, window, link, 0);
    AcceptedExact(mem, image, base, window, link);
    var sites, loaded := Sites(image, link, window), LoadSegments(mem, image, base, window, link).0;
    SitesInside(image, link, window);
    forall k | 0 <= k < |sites|
      ensures sites[k] == at || Apart(sites[k], at)
    {
      ShiftedIsListed(image, link, window, k);
    }
    PatchedTimes(loaded, base, sites, base - link, at);
    AllTimes(image, link, window, 0, at);
    SegmentWord(mem, image, base, window, link, j, at);
  }

  lemma SegmentWord(mem: seq<byte>, image: seq<byte>, base: u32, window: u32, link: u32, j: nat, at: nat)
    requires Exact(image) && PhTableInside(image) && base + window <= |mem| && at + 4 <= window && j < PhNum(image)
    requires LoadSegments(mem, image, base, window, link).1
    requires Loads(image, j) && Place(image, link, j) <= at && at + 4 <= Place(image, link, j) + ProgramField(image, j, 16)
    requires forall h, x :: j < h < Get16(image, 44) && Loads(image, h) && at <= x < at + 4 ==> !Covers(image, link, h, x)
    ensures var from := ProgramField(image, j, 4) + (at - Place(image, link, j));
      && from + 4 <= |image|
      && Get32(LoadSegments(mem, image, base, window, link).0, base + at) == Get32(image, from)
  {
    hide Get32, Get16, Wrap, LoadSegments, Exact, Place;
    SameSegment(image, j);
    ExactSegment(image, j);
    var loaded, from := LoadSegments(mem, image, base, window, link).0, ProgramField(image, j, 4) + (at - Place(image, link, j));
    SegmentByte(mem, image, base, window, link, 0, j, at);
    SegmentByte(mem, image, base, window, link, 0, j, at + 1);
    SegmentByte(mem, image, base, window, link, 0, j, at + 2);
    SegmentByte(mem, image, base, window, link, 0, j, at + 3);
    SameWords(loaded, image, base + at, from);
  }

  lemma SameWords(m: seq<byte>, n: seq<byte>, a: nat, b: nat)
    requires a + 4 <= |m| && b + 4 <= |n|
    requires m[a] == n[b] && m[a + 1] == n[b + 1] && m[a + 2] == n[b + 2] && m[a + 3] == n[b + 3]
    ensures Get32(m, a) == Get32(n, b)
  {
  }
}
