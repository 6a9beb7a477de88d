/**
  Concrete files: one four-byte segment linked at 0x300000 whose only word, 5, is an R_386_32 relocation
  against an absolute symbol. Loaded anywhere else that word is no longer 5; and in the variant whose
  relocation section lists it twice, it is not even shifted once.
*/
module ElfWitness {
  import opened Bytes
  import opened ElfModel
  import opened ElfRelocation
  import ElfTheorem

  const LINK := 0x300000
  const WINDOW := 0x20000

  /** The non-zero bytes of the headers: file (0), program (52), and section (96) with `n` entries. */
  function HeaderByte(i: nat, n: nat): byte
    requires 1 <= n <= 2
  {
    match i
    case 0 => 0x7F  case 1 => 0x45  case 2 => 0x4C  case 3 => 0x46  case 4 => 1     // magic, 32-bit
    case 18 => 3                                                                    // e_machine
    case 26 => 0x30  case 28 => 52  case 32 => 96  case 44 => 1  case 48 => 1       // entry, tables
    case 52 => 1  case 56 => 84  case 62 => 0x30  case 68 => 4  case 72 => 4        // PT_LOAD
    case 100 => 9  case 112 => 136  case 116 => 8 * n  case 132 => 8                // SHT_REL
    case _ => 0
  }

  /** The segment at 84 holds the word 5; the relocation entries at 136, for symbol 7, list it. */
  function ImageByte(i: nat, n: nat): byte
    requires 1 <= n <= 2
  {
    if i == 84 then 5
    else if i == 138 || i == 146 then 0x30
    else if i == 140 || i == 148 then 1
    else if i == 141 || i == 149 then 7
    else HeaderByte(i, n)
  }

  function Image(n: nat): (image: seq<byte>)
    requires 1 <= n <= 2
    ensures |image| == 136 + 8 * n && forall i :: 0 <= i < |image| ==> image[i] == ImageByte(i, n)
  {
    seq(136 + 8 * n, i requires 0 <= i < 136 + 8 * n => ImageByte(i, n))
  }

  function Program(): Object {
    Object(seq(WINDOW, i => 0), [Reloc(Abs32, 0, Absolute(5), 0)], [Part(0, 4, 4)], 0)
  }

  lemma WordAt(a: nat, n: nat)
    requires 1 <= n <= 2 && a + 4 <= 136 + 8 * n
    ensures Get32(Image(n), a) == Word(ImageByte(a, n), ImageByte(a + 1, n), ImageByte(a + 2, n), ImageByte(a + 3, n))
  {
  }

  lemma Fields(n: nat)
    requires 1 <= n <= 2
    ensures HeaderOk(Image(n)) && Entry(Image(n)) == LINK
    ensures PhOff(Image(n)) == 52 && PhNum(Image(n)) == 1 && ShOff(Image(n)) == 96 && ShNum(Image(n)) == 1
  {
    hide Image, Get32;
    WordAt(24, n);
    WordAt(28, n);
    WordAt(32, n);
  }

  lemma ProgramHeaderWords(n: nat)
    requires 1 <= n <= 2
    ensures Get32(Image(n), 52) == PT_LOAD && Get32(Image(n), 56) == 84 && Get32(Image(n), 60) == LINK
    ensures Get32(Image(n), 68) == 4 && Get32(Image(n), 72) == 4
  {
    hide Image, Get32;
    WordAt(52, n);
    WordAt(56, n);
    WordAt(60, n);
    WordAt(68, n);
    WordAt(72, n);
  }

  lemma OneSegment(n: nat)
    requires 1 <= n <= 2
    ensures PhTableInside(Image(n)) && PhNum(Image(n)) == 1 && SegmentAt(Image(n), 0) == Segment(PT_LOAD, 84, LINK, 4, 4)
  {
    hide Image, Get32, Get16, HeaderOk, ImageByte;
    Fields(n);
    ProgramHeaderWords(n);
  }

  lemma SectionHeaderWords(n: nat)
    requires 1 <= n <= 2
    ensures Get32(Image(n), 100) == SHT_REL && Get32(Image(n), 112) == 136 && Get32(Image(n), 116) == 8 * n && Get32(Image(n), 132) == 8
  {
    hide Image, Get32;
    WordAt(100, n);
    WordAt(112, n);
    WordAt(116, n);
    WordAt(132, n);
  }

  lemma OneSection(n: nat)
    requires 1 <= n <= 2
    ensures ShTableInside(Image(n)) && ShNum(Image(n)) == 1 && SectionAt(Image(n), 0) == Section(SHT_REL, 136, 8 * n, 8)
  {
    hide Image, Get32, Get16, HeaderOk, ImageByte;
    Fields(n);
    SectionHeaderWords(n);
  }

  lemma SegmentWord(n: nat)
    requires 1 <= n <= 2
    ensures Get32(Image(n), 84) == 5
  {
    hide Image, Get32;
    WordAt(84, n);
  }

  lemma EntryWords(n: nat, r: nat)
    requires 1 <= n <= 2 && r < n
    ensures Get32(Image(n), 136 + 8 * r) == LINK && Get32(Image(n), 140 + 8 * r) == 7 * 256 + R_386_32
  {
    hide Image, Get32;
    WordAt(136 + 8 * r, n);
    WordAt(140 + 8 * r, n);
  }

  /** Every relocation entry lists window offset 0. */
  lemma ListedSites(n: nat)
    requires 1 <= n <= 2
    ensures Sites(Image(n), LINK, WINDOW) == if n == 1 then [0] else [0, 0]
  {
    hide Image, Get32, Get16, HeaderOk, SectionAt, ImageByte;
    OneSection(n);
    var h := SectionAt(Image(n), 0);
    EntryWords(n, n - 1);
    EntryWords(n, 0);
    assert RelAt(Image(n), h, n - 1) == Rel(LINK, 7 * 256 + R_386_32) && RelAt(Image(n), h, 0) == Rel(LINK, 7 * 256 + R_386_32);
    assert SectionSites(Image(n), h, LINK, WINDOW, n) == [];
    assert SectionSites(Image(n), h, LINK, WINDOW, n - 1) == [0];
    assert SectionSites(Image(n), h, LINK, WINDOW) == if n == 1 then [0] else [0, 0];
    assert SitesFrom(Image(n), LINK, WINDOW, 1) == [];
  }

  lemma ImageExact(n: nat)
    requires 1 <= n <= 2
    ensures Exact(Image(n))
  {
    hide Image, Get32, Get16, SegmentAt, SectionAt;
    Fields(n);
    OneSegment(n);
    OneSection(n);
  }

  /** The segment holds what linking the program at 0x300000 gives. */
  lemma SegmentCarried(n: nat)
    requires 1 <= n <= 2
    ensures PhTableInside(Image(n)) && PhNum(Image(n)) == 1
    ensures Carries(Image(n), SegmentAt(Image(n), 0), Program(), Part(0, 4, 4), LINK)
    ensures Loadable(Image(n)) == [SegmentAt(Image(n), 0)]
  {
    hide Image, SegmentAt, Get32, Get16, ImageByte, Put32, HeaderOk;
    OneSegment(n);
    SegmentWord(n);
    var o := Program();
    var w := Link(o.bytes, o.relocs, LINK);
    LinkWord(o.bytes, o.relocs, LINK, 0);
    WordBytes(Image(n), w, 84, 0);
    assert Loadable(Image(n), 1) == [];
  }

  /** The file with one entry is a linked image in the sense of the relocation theorems. */
  lemma Inhabited()
    ensures WellFormed(Program(), WINDOW) && LinkedAt(Image(1), Program(), LINK, WINDOW)
  {
    hide Image, Get32, Get16, SegmentAt, SectionAt, HeaderOk, Exact, Carries, Sites;
    var o := Program();
    assert InFile(o.parts[0], o.relocs[0].site, 4);
    Fields(1);
    OneSegment(1);
    ImageExact(1);
    SegmentCarried(1);
    ListedSites(1);
    assert AbsSites(o.relocs) == [0] by {
      assert o.relocs[..0] == [] && AbsSites([]) == [];
    }
  }

  /** Loaded at any base, the word is still 5 only at the link address: it is wrong in every slot but the first. */
  lemma AbsoluteWordWrong(mem: seq<byte>, base: u32)
    requires base + WINDOW <= |mem|
    ensures Exact(Image(1))
    ensures Get32(Load(mem, Image(1), base, WINDOW, LINK).0, base) == 5 <==> base == LINK
  {
    hide Image, Get32, Load, LinkedAt, Exact;
    Inhabited();
    ImageExact(1);
    ElfTheorem.LoadedWords(mem, Image(1), Program(), base, LINK, WINDOW, 0);
  }

  /** With the entry listed twice, the word is 5 plus one shift only at the link address. */
  lemma TwiceListedWrong(mem: seq<byte>, base: u32)
    requires base + WINDOW <= |mem|
    ensures Exact(Image(2))
    ensures Get32(Load(mem, Image(2), base, WINDOW, LINK).0, base) == Wrap(5 + (base - LINK)) <==> base == LINK
  {
    hide Image, Get32, LoadSegments, Exact, HeaderOk, Sites, Wrap, Times;
    ImageExact(2);
    Fields(2);
    ListedSites(2);
    LoadedFive(mem, base);
    ElfTheorem.ListedTimes(mem, Image(2), base, LINK, WINDOW, 0);
    assert Times([0, 0], 0) == 2 by {
      TwoTimes();
    }
    ElfTheorem.SameResidue(0, base - LINK);
    WrapSmall(0);
  }

  lemma TwoTimes()
    ensures Times([0, 0], 0) == 2
  {
    assert [0, 0][..1] == [0] && [0][..0] == [];
    assert Times([0], 0) == 1;
  }

  lemma LoadedFive(mem: seq<byte>, base: u32)
    requires base + WINDOW <= |mem|
    ensures Exact(Image(2)) && HeaderOk(Image(2)) && PhTableInside(Image(2))
    ensures var (loaded, ok) := LoadSegments(mem, Image(2), base, WINDOW, LINK);
      ok && Get32(loaded, base) == 5
  {
    hide Image, Get32, Get16, LoadSegments, Exact, HeaderOk, Link, Carries, SegmentAt;
    var o := Program();
    ImageExact(2);
    Fields(2);
    SegmentCarried(2);
    SegmentsLoaded(mem, Image(2), base, WINDOW, LINK, 0, o, o.parts);
    var loaded, w := LoadSegments(mem, Image(2), base, WINDOW, LINK).0, Link(o.bytes, o.relocs, LINK);
    assert Holds(loaded, base, w, o.parts[0]);
    ElfTheorem.WordFromPart(loaded, base, w, o.parts[0], 0);
    LinkWord(o.bytes, o.relocs, LINK, 0);
  }
}
