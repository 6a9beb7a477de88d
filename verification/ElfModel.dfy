/** kernel/elf.c: loading an ELF32 image into a memory window, with relocation by a uniform shift. */
module ElfModel {
  import opened Bytes

  const EHDR := 52
  const PHDR := 32
  const SHDR := 40
  const PT_LOAD := 1
  const SHT_REL := 9
  const R_386_32 := 1

  // ----- header fields -----

  datatype Segment = Segment(kind: u32, offset: u32, vaddr: u32, filesz: u32, memsz: u32)

  datatype Section = Section(kind: u32, offset: u32, size: u32, entsize: u32)

  datatype Rel = Rel(offset: u32, info: u32)

  predicate HeaderOk(image: seq<byte>) {
    && |image| >= EHDR
    && image[0] == 0x7F && image[1] == 'E' as int && image[2] == 'L' as int && image[3] == 'F' as int
    && image[4] == 1 && Get16(image, 18) == 3
  }

  function Entry(image: seq<byte>): u32
    requires |image| >= EHDR
  {
    Get32(image, 24)
  }

  function PhOff(image: seq<byte>): u32
    requires |image| >= EHDR
  {
    Get32(image, 28)
  }

  function PhNum(image: seq<byte>): nat
    requires |image| >= EHDR
  {
    Get16(image, 44)
  }

  function ShOff(image: seq<byte>): u32
    requires |image| >= EHDR
  {
    Get32(image, 32)
  }

  function ShNum(image: seq<byte>): nat
    requires |image| >= EHDR
  {
    Get16(image, 48)
  }

  predicate PhTableInside(image: seq<byte>) {
    |image| >= EHDR && PhOff(image) + PHDR * PhNum(image) <= |image|
  }

  predicate ShTableInside(image: seq<byte>) {
    |image| >= EHDR && ShOff(image) != 0 && ShOff(image) + SHDR * ShNum(image) <= |image|
  }

  function SegmentAt(image: seq<byte>, i: nat): Segment
    requires PhTableInside(image) && i < PhNum(image)
  {
    var at := PhOff(image) + PHDR * i;
    Segment(Get32(image, at), Get32(image, at + 4), Get32(image, at + 8), Get32(image, at + 16), Get32(image, at + 20))
  }

  function SectionAt(image: seq<byte>, s: nat): Section
    requires ShTableInside(image) && s < ShNum(image)
  {
    var at := ShOff(image) + SHDR * s;
    Section(Get32(image, at + 4), Get32(image, at + 16), Get32(image, at + 20), Get32(image, at + 36))
  }

  /**
    Images on which the loader's unchecked 32-bit arithmetic stays exact: no bounds sum wraps,
    p_filesz <= p_memsz, and relocation entries are 8 bytes.
  */
  ghost predicate Exact(image: seq<byte>) {
    && |image| < 0x1_0000_0000
    && (|image| >= EHDR ==>
          && PhOff(image) + PHDR * PhNum(image) < 0x1_0000_0000
          && ShOff(image) + SHDR * ShNum(image) < 0x1_0000_0000)
    && (PhTableInside(image) ==> forall i :: 0 <= i < PhNum(image) ==>
          var p := SegmentAt(image, i);
          p.kind == PT_LOAD ==> p.offset + p.filesz < 0x1_0000_0000 && p.filesz <= p.memsz)
    && (ShTableInside(image) ==> forall s :: 0 <= s < ShNum(image) ==>
          var h := SectionAt(image, s);
          h.kind == SHT_REL ==> h.offset + h.size < 0x1_0000_0000 && h.entsize == 8)
  }

  predicate InWindow(off: int, len: int, window: int) {
    len <= window && off <= window - len
  }

  /** Where a linked address falls in the window, in 32-bit arithmetic. */
  function WindowOffset(addr: u32, link: u32): u32 {
    Wrap(addr - link)
  }

  // ----- segments -----

  predicate SegmentFits(image: seq<byte>, p: Segment, link: u32, window: u32) {
    InWindow(WindowOffset(p.vaddr, link), p.memsz, window) && p.offset + p.filesz <= |image|
  }

  /** Memory after copying the file part of a segment to `lo` and zeroing the rest of it. */
  function CopySegment(mem: seq<byte>, image: seq<byte>, lo: nat, p: Segment): (m: seq<byte>)
    requires p.filesz <= p.memsz && lo + p.memsz <= |mem| && p.offset + p.filesz <= |image|
    ensures |m| == |mem|
  {
    seq(|mem|, a requires 0 <= a < |mem| =>
          if lo <= a < lo + p.filesz then image[p.offset + a - lo]
          else if lo + p.filesz <= a < lo + p.memsz then 0
          else mem[a])
  }

  /** PT_LOAD segments from the i-th header on; false at the first one that does not fit. */
  function LoadSegments(mem: seq<byte>, image: seq<byte>, base: u32, window: u32, link: u32, i: nat := 0): (r: (seq<byte>, bool))
    requires Exact(image) && PhTableInside(image) && base + window <= |mem| && i <= PhNum(image)
    ensures |r.0| == |mem|
    decreases PhNum(image) - i
  {
    if i == PhNum(image) then (mem, true)
    else
      var p := SegmentAt(image, i);
      if p.kind != PT_LOAD then LoadSegments(mem, image, base, window, link, i + 1)
      else if !SegmentFits(image, p, link, window) then (mem, false)
      else LoadSegments(CopySegment(mem, image, base + WindowOffset(p.vaddr, link), p), image, base, window, link, i + 1)
  }

  // ----- relocations -----

  /** The entries of one SHT_REL section that lies inside the file. */
  predicate Relocates(image: seq<byte>, h: Section) {
    h.kind == SHT_REL && h.offset + h.size <= |image|
  }

  function RelAt(image: seq<byte>, h: Section, r: nat): Rel
    requires Relocates(image, h) && 8 * r + 8 <= h.size
  {
    Rel(Get32(image, h.offset + 8 * r), Get32(image, h.offset + 8 * r + 4))
  }

  predicate Patches(x: Rel, link: u32, window: u32) {
    x.info % 256 == R_386_32 && InWindow(WindowOffset(x.offset, link), 4, window)
  }

  /** Window offsets patched by the entries of a section, from the r-th on. */
  function SectionSites(image: seq<byte>, h: Section, link: u32, window: u32, r: nat := 0): seq<nat>
    requires Relocates(image, h) && r <= h.size / 8
    decreases h.size / 8 - r
  {
    if r == h.size / 8 then []
    else
      var x := RelAt(image, h, r);
      (if Patches(x, link, window) then [WindowOffset(x.offset, link)] else [])
      + SectionSites(image, h, link, window, r + 1)
  }

  function SitesFrom(image: seq<byte>, link: u32, window: u32, s: nat): seq<nat>
    requires ShTableInside(image) && s <= ShNum(image)
    decreases ShNum(image) - s
  {
    if s == ShNum(image) then []
    else
      var h := SectionAt(image, s);
      (if Relocates(image, h) then SectionSites(image, h, link, window) else []) + SitesFrom(image, link, window, s + 1)
  }

  /** Every window offset the relocation pass patches, in order. */
  function Sites(image: seq<byte>, link: u32, window: u32): seq<nat> {
    if ShTableInside(image) then SitesFrom(image, link, window, 0) else []
  }

  function Patch(mem: seq<byte>, a: nat, delta: int): (m: seq<byte>)
    requires a + 4 <= |mem|
    ensures |m| == |mem|
  {
    Put32(mem, a, Wrap(Get32(mem, a) + delta))
  }

  function PatchAll(mem: seq<byte>, base: nat, sites: seq<nat>, delta: int): (m: seq<byte>)
    requires forall k :: 0 <= k < |sites| ==> base + sites[k] + 4 <= |mem|
    ensures |m| == |mem|
  {
    if sites == [] then mem
    else Patch(PatchAll(mem, base, sites[..|sites| - 1], delta), base + sites[|sites| - 1], delta)
  }

  lemma {:induction false} SectionSitesInside(image: seq<byte>, h: Section, link: u32, window: u32, r: nat)
    requires Relocates(image, h) && r <= h.size / 8
    ensures forall k :: 0 <= k < |SectionSites(image, h, link, window, r)| ==> SectionSites(image, h, link, window, r)[k] + 4 <= window
    decreases h.size / 8 - r
  {
    if r < h.size / 8 {
      SectionSitesInside(image, h, link, window, r + 1);
    }
  }

  lemma {:induction false} SitesFromInside(image: seq<byte>, link: u32, window: u32, s: nat)
    requires ShTableInside(image) && s <= ShNum(image)
    ensures forall k :: 0 <= k < |SitesFrom(image, link, window, s)| ==> SitesFrom(image, link, window, s)[k] + 4 <= window
    decreases ShNum(image) - s
  {
    hide Get32, Get16, SectionAt, SectionSites;
    if s < ShNum(image) {
      var h := SectionAt(image, s);
      if Relocates(image, h) {
        SectionSitesInside(image, h, link, window, 0);
      }
      SitesFromInside(image, link, window, s + 1);
    }
  }

  lemma SitesInside(image: seq<byte>, link: u32, window: u32)
    ensures forall k :: 0 <= k < |Sites(image, link, window)| ==> Sites(image, link, window)[k] + 4 <= window
  {
    if ShTableInside(image) {
      SitesFromInside(image, link, window, 0);
    }
  }

  // ----- the whole load -----

  /** Memory afterwards, and the absolute entry point when the load succeeds. */
  function Load(mem: seq<byte>, image: seq<byte>, base: u32, window: u32, link: u32): (r: (seq<byte>, Option<u32>))
    requires Exact(image) && base + window <= |mem|
    ensures |r.0| == |mem|
  {
    if !HeaderOk(image) || !PhTableInside(image) then (mem, None)
    else
      var (loaded, ok) := LoadSegments(mem, image, base, window, link);
      if !ok then (loaded, None)
      else
        SitesInside(image, link, window);
        (PatchAll(loaded, base, Sites(image, link, window), base - link), Some(Wrap(base + Wrap(Entry(image) - link))))
  }
}
