/** elf_load as written: byte loops into memory, then words patched in place. */
module ElfDriver {
  import opened Bytes
  import opened ElfModel

  /** Loads into [base, base + window) of `mem`; reports failure or the absolute entry point. */
  method ElfLoad(mem: array<byte>, image: seq<byte>, base: u32, window: u32, link: u32) returns (entry: Option<u32>)
    requires Exact(image) && base + window <= mem.Length
    modifies mem
    ensures (mem[..], entry) == Load(old(mem[..]), image, base, window, link)
  {
    hide Exact;
    if |image| < EHDR {
      return None;
    }
    if !HeaderOk(image) {
      return None;
    }
    if !PhTableInside(image) {
      return None;
    }
    var ok := CopySegments(mem, image, base, window, link);
    if !ok {
      return None;
    }
    if ShTableInside(image) {
      ApplyRelocations(mem, image, base, window, link);
    }
    return Some(Wrap(base + Wrap(Entry(image) - link)));
  }

  method CopySegments(mem: array<byte>, image: seq<byte>, base: u32, window: u32, link: u32) returns (ok: bool)
    requires Exact(image) && PhTableInside(image) && base + window <= mem.Length
    modifies mem
    ensures (mem[..], ok) == LoadSegments(old(mem[..]), image, base, window, link)
  {
    hide Get32, Get16, CopySegment, Wrap;
    for i := 0 to PhNum(image)
      invariant LoadSegments(old(mem[..]), image, base, window, link) == LoadSegments(mem[..], image, base, window, link, i)
    {
      var p := SegmentAt(image, i);
      if p.kind == PT_LOAD {
        var off := WindowOffset(p.vaddr, link);
        if !InWindow(off, p.memsz, window) {
          return false;
        }
        if p.offset + p.filesz > |image| {
          return false;
        }
        CopyBytes(mem, image, base + off, p);
      }
    }
    return true;
  }

  method CopyBytes(mem: array<byte>, image: seq<byte>, lo: nat, p: Segment)
    requires p.filesz <= p.memsz && lo + p.memsz <= mem.Length && p.offset + p.filesz <= |image|
    modifies mem
    ensures mem[..] == CopySegment(old(mem[..]), image, lo, p)
  {
    for k := 0 to p.filesz
      invariant forall a :: 0 <= a < mem.Length ==>
                  mem[a] == if lo <= a < lo + k then image[p.offset + a - lo] else old(mem[a])
    {
      mem[lo + k] := image[p.offset + k];
    }
    for k := p.filesz to p.memsz
      invariant forall a :: 0 <= a < mem.Length ==>
                  mem[a] == if lo <= a < lo + p.filesz then image[p.offset + a - lo]
                            else if lo + p.filesz <= a < lo + k then 0 else old(mem[a])
    {
      mem[lo + k] := 0;
    }
  }

  /** The sections and entries are visited in file order; each qualifying word is shifted in place. */
  method ApplyRelocations(mem: array<byte>, image: seq<byte>, base: u32, window: u32, link: u32)
    requires Exact(image) && ShTableInside(image) && base + window <= mem.Length
    modifies mem
    ensures forall k :: 0 <= k < |Sites(image, link, window)| ==> base + Sites(image, link, window)[k] + 4 <= mem.Length
    ensures mem[..] == PatchAll(old(mem[..]), base, Sites(image, link, window), base - link)
  {
    hide Get32, Get16, PatchAll, SectionSites, Wrap;
    SitesInside(image, link, window);
    ghost var before := mem[..];
    ghost var done: seq<nat> := [];
    assert PatchAll(before, base, [], base - link) == before by {
      PatchNone(before, base, base - link);
    }
    for s := 0 to ShNum(image)
      invariant Sites(image, link, window) == done + SitesFrom(image, link, window, s)
      invariant Within(done, window) && mem[..] == PatchAll(before, base, done, base - link)
    {
      var h := SectionAt(image, s);
      if h.kind == SHT_REL && h.offset + h.size <= |image| {
        ghost var prior, rest := done, SitesFrom(image, link, window, s + 1);
        done := ApplySection(mem, image, h, base, window, link, before, done);
        assert done + rest == prior + (SectionSites(image, h, link, window) + rest);
      } else {
        assert [] + SitesFrom(image, link, window, s + 1) == SitesFrom(image, link, window, s + 1);
      }
    }
    assert SitesFrom(image, link, window, ShNum(image)) == [];
    assert done + [] == done;
  }

  ghost predicate Within(sites: seq<nat>, window: nat) {
    forall k :: 0 <= k < |sites| ==> sites[k] + 4 <= window
  }

  lemma PatchNone(mem: seq<byte>, base: nat, delta: int)
    ensures PatchAll(mem, base, [], delta) == mem
  {
  }

  lemma PatchOneMore(mem: seq<byte>, base: nat, sites: seq<nat>, site: nat, delta: int)
    requires forall k :: 0 <= k < |sites| ==> base + sites[k] + 4 <= |mem|
    requires base + site + 4 <= |mem|
    ensures PatchAll(mem, base, sites + [site], delta) == Patch(PatchAll(mem, base, sites, delta), base + site, delta)
  {
    hide Patch;
    assert (sites + [site])[..|sites|] == sites;
  }

  lemma SectionStep(image: seq<byte>, h: Section, link: u32, window: u32, r: nat)
    requires Relocates(image, h) && r < h.size / 8
    ensures var x, rest := RelAt(image, h, r), SectionSites(image, h, link, window, r + 1);
      SectionSites(image, h, link, window, r) == if Patches(x, link, window) then [WindowOffset(x.offset, link)] + rest else rest
  {
    hide RelAt, Patches;
    assert [] + SectionSites(image, h, link, window, r + 1) == SectionSites(image, h, link, window, r + 1);
  }

  method ApplySection(mem: array<byte>, image: seq<byte>, h: Section, base: u32, window: u32, link: u32,
                      ghost before: seq<byte>, ghost prior: seq<nat>) returns (ghost done: seq<nat>)
    requires Relocates(image, h) && h.entsize == 8 && base + window <= mem.Length && |before| == mem.Length
    requires Within(prior, window) && mem[..] == PatchAll(before, base, prior, base - link)
    modifies mem
    ensures done == prior + SectionSites(image, h, link, window) && Within(done, window)
    ensures mem[..] == PatchAll(before, base, done, base - link)
  {
    hide Get32, PatchAll, Patch, RelAt, SectionSites, Wrap;
    done := prior;
    for r := 0 to h.size / h.entsize
      invariant done + SectionSites(image, h, link, window, r) == prior + SectionSites(image, h, link, window)
      invariant Within(done, window) && mem[..] == PatchAll(before, base, done, base - link)
    {
      SectionStep(image, h, link, window, r);
      ghost var rest := SectionSites(image, h, link, window, r + 1);
      var x := RelAt(image, h, r);
      if x.info % 256 == R_386_32 {
        var off := WindowOffset(x.offset, link);
        if InWindow(off, 4, window) {
          PatchOneMore(before, base, done, off, base - link);
          PatchWord(mem, base + off, base - link);
          assert (done + [off]) + rest == done + ([off] + rest);
          done := done + [off];
        }
      }
    }
    NoMoreSites(image, h, link, window);
    assert done + [] == done;
  }

  lemma NoMoreSites(image: seq<byte>, h: Section, link: u32, window: u32)
    requires Relocates(image, h)
    ensures SectionSites(image, h, link, window, h.size / 8) == []
  {
  }

  method PatchWord(mem: array<byte>, a: nat, delta: int)
    requires a + 4 <= mem.Length
    modifies mem
    ensures mem[..] == Patch(old(mem[..]), a, delta)
  {
    StoreWord(mem, a, Wrap(Get32(mem[..], a) + delta));
  }
}
