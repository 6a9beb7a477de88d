/**
  What every reachable file-system state satisfies: the bitmap marks exactly the union of the
  listed extents, extents are disjoint and inside the data area, names are unique, and the
  disk mirrors the directory and the bitmap held in memory.
*/
module FsInvariant {
  import opened Bytes
  import opened FsModel

  predicate Listed(e: Entry) {
    e.name[0] != 0
  }

  predicate EntryOk(e: Entry) {
    Listed(e) ==> e.name[23] == 0 && DATA_LBA <= e.start && 1 <= e.size && e.start + e.size <= DATA_END
  }

  /** Entry `e` is listed and occupies data sector number `k`. */
  predicate Holds(e: Entry, k: nat) {
    Listed(e) && e.start <= DATA_LBA + k < e.start + e.size
  }

  ghost predicate Covered(files: seq<Entry>, k: nat) {
    exists i :: 0 <= i < |files| && Holds(files[i], k)
  }

  ghost predicate EntriesOk(files: seq<Entry>) {
    forall i :: 0 <= i < |files| ==> EntryOk(files[i])
  }

  ghost predicate UniqueNames(files: seq<Entry>) {
    forall i, j :: 0 <= i < j < |files| && Listed(files[i]) && Listed(files[j]) ==>
                     CStr(files[i].name) != CStr(files[j].name)
  }

  ghost predicate DisjointExtents(files: seq<Entry>) {
    forall i, j, k :: 0 <= i < j < |files| && Holds(files[i], k) ==> !Holds(files[j], k)
  }

  ghost predicate BitmapExact(files: seq<Entry>, b: Sector) {
    forall k :: 0 <= k < DATA_BITS ==> b[k] == (if Covered(files, k) then 1 else 0)
  }

  ghost predicate AllocInv(files: FileTable, b: Sector) {
    EntriesOk(files) && UniqueNames(files) && DisjointExtents(files) && BitmapExact(files, b)
  }

  /** The sectors the file system uses exist and work. */
  ghost predicate Healthy(d: Disk) {
    DATA_END <= |d.sectors| && forall l :: ROOT_LBA <= l < DATA_END ==> l !in d.bad
  }

  ghost predicate Mirrored(s: Fs) {
    && Healthy(s.disk)
    && s.disk.sectors[BITMAP_LBA] == s.bitmap
    && forall k :: 0 <= k < ROOT_SECTORS ==> s.disk.sectors[ROOT_LBA + k] == Chunk(EncodeRoot(s.root), k)
  }

  ghost predicate Inv(s: Fs) {
    s.root.magic == MAGIC && AllocInv(s.root.files, s.bitmap) && Mirrored(s)
  }

  // ----- lookups -----

  lemma ListedMatches(e: Entry, n: seq<byte>)
    requires EntryOk(e)
    ensures Matches(e, n) <==> Listed(e) && CStr(e.name) == n
  {
    if Listed(e) {
      assert e.name[23] == 0;
    }
  }

  /** Lookup by name finds a given listed entry, because names are unique. */
  lemma FindListed(files: FileTable, i: nat)
    requires EntriesOk(files) && UniqueNames(files)
    requires i < MAX_FILES && Listed(files[i])
    ensures Find(files, CStr(files[i].name)) == i
  {
    var n := CStr(files[i].name);
    var r := Find(files, n);
    ListedMatches(files[i], n);
    if r < MAX_FILES {
      ListedMatches(files[r], n);
    }
  }

  lemma FindExact(files: FileTable, n: seq<byte>)
    requires EntriesOk(files)
    ensures Find(files, n) < MAX_FILES ==> Listed(files[Find(files, n)]) && CStr(files[Find(files, n)].name) == n
    ensures Find(files, n) == MAX_FILES ==> forall i :: 0 <= i < MAX_FILES && Listed(files[i]) ==> CStr(files[i].name) != n
  {
    forall i | 0 <= i < MAX_FILES {
      ListedMatches(files[i], n);
    }
  }

  // ----- allocation invariant -----

  lemma RemoveKeepsAlloc(files: FileTable, b: Sector, i: nat)
    requires AllocInv(files, b)
    requires i < MAX_FILES && Listed(files[i])
    ensures AllocInv(files[i := EmptyEntry()], MarkBits(b, files[i].start - DATA_LBA, files[i].size, 0))
  {
    var e := files[i];
    var files' := files[i := EmptyEntry()];
    var b' := MarkBits(b, e.start - DATA_LBA, e.size, 0);
    forall k | 0 <= k < DATA_BITS
      ensures Covered(files', k) <==> Covered(files, k) && !Holds(e, k)
    {
      if Covered(files', k) {
        var j :| 0 <= j < |files'| && Holds(files'[j], k);
        assert Holds(files[j], k) && j != i;
      }
      if Covered(files, k) && !Holds(e, k) {
        var j :| 0 <= j < |files| && Holds(files[j], k);
        assert Holds(files'[j], k);
      }
    }
  }

  lemma AddKeepsAlloc(files: FileTable, b: Sector, i: nat, e: Entry)
    requires AllocInv(files, b)
    requires i < MAX_FILES && !Listed(files[i])
    requires Listed(e) && EntryOk(e) && FreeRun(b, e.start - DATA_LBA, e.size)
    requires forall j :: 0 <= j < MAX_FILES && Listed(files[j]) ==> CStr(files[j].name) != CStr(e.name)
    ensures AllocInv(files[i := e], MarkBits(b, e.start - DATA_LBA, e.size, 1))
  {
    var files' := files[i := e];
    var b' := MarkBits(b, e.start - DATA_LBA, e.size, 1);
    forall j, k | 0 <= j < MAX_FILES && Holds(files[j], k)
      ensures !Holds(e, k)
    {
      assert EntryOk(files[j]);
      assert Covered(files, k);
    }
    forall k | 0 <= k < DATA_BITS
      ensures Covered(files', k) <==> Covered(files, k) || Holds(e, k)
    {
      if Holds(e, k) {
        assert Holds(files'[i], k);
      }
      if Covered(files, k) {
        var j :| 0 <= j < |files| && Holds(files[j], k);
        assert Holds(files'[j], k);
      }
      if Covered(files', k) && !Holds(e, k) {
        var j :| 0 <= j < |files'| && Holds(files'[j], k);
        assert Holds(files[j], k);
      }
    }
  }

  /** Listing one more extent without marking it breaks the invariant, whether its sectors were free or taken. */
  lemma UnmarkedBreaksAlloc(files: FileTable, b: Sector, i: nat, e: Entry)
    requires AllocInv(files, b) && i < MAX_FILES && !Listed(files[i]) && Listed(e)
    ensures !AllocInv(files[i := e], b)
  {
    var files' := files[i := e];
    assert files'[i] == e;
    if EntryOk(e) {
      var k := e.start - DATA_LBA;
      assert Holds(files'[i], k);
      assert Covered(files', k);
      if Covered(files, k) {
        var j :| 0 <= j < |files| && Holds(files[j], k);
        assert Holds(files'[j], k) && j != i;
      }
    }
  }

  lemma UnmarkRestores(b: Sector, at: nat, count: nat)
    requires FreeRun(b, at, count)
    ensures MarkBits(MarkBits(b, at, count, 1), at, count, 0) == b
  {
    var b' := MarkBits(MarkBits(b, at, count, 1), at, count, 0);
    assert forall k :: 0 <= k < 512 ==> b'[k] == b[k];
  }

  // ----- the three-sector root encoding -----

  lemma EncodedEntry(r: Root, i: nat)
    requires i < MAX_FILES
    ensures EncodeRoot(r)[4 + 32 * i..36 + 32 * i] == EncodeEntry(r.files[i])
  {
    var raw := EncodeRoot(r);
    forall t | 0 <= t < 32
      ensures raw[4 + 32 * i + t] == EncodeEntry(r.files[i])[t]
    {
      var j := 32 * i + t;
      assert j / 32 == i && j % 32 == t;
    }
  }

  lemma DecodeEncodedEntry(raw: seq<byte>, at: nat, e: Entry)
    requires at + 32 <= |raw| && raw[at..at + 32] == EncodeEntry(e)
    ensures DecodeEntry(raw, at) == e
  {
    hide Get32, Le32;
    var s := raw[at..at + 32];
    SliceOfSlice(raw, at, at + 32, 0, 24);
    SliceOfSlice(raw, at, at + 32, 24, 28);
    SliceOfSlice(raw, at, at + 32, 28, 32);
    assert s[0..24] == e.name;
    assert s[24..28] == Le32(e.start);
    assert s[28..32] == Le32(e.size);
    LeGet(raw, at + 24, e.start);
    LeGet(raw, at + 28, e.size);
  }

  lemma DecodeEncodeRoot(r: Root)
    ensures DecodeRoot(EncodeRoot(r)) == r
  {
    var raw := EncodeRoot(r);
    forall i | 0 <= i < MAX_FILES
      ensures DecodeEntry(raw, 4 + 32 * i) == r.files[i]
    {
      EncodedEntry(r, i);
      DecodeEncodedEntry(raw, 4 + 32 * i, r.files[i]);
    }
    DecodeFiles(raw, r.files);
    DecodeHeader(r);
  }

  lemma DecodeFiles(raw: seq<byte>, files: FileTable)
    requires |raw| == ROOT_SIZE
    requires forall i :: 0 <= i < MAX_FILES ==> DecodeEntry(raw, 4 + 32 * i) == files[i]
    ensures DecodeRoot(raw).files == files
  {
  }

  lemma DecodeHeader(r: Root)
    ensures var raw := EncodeRoot(r);
      Get32(raw, 0) == r.magic && Get32(raw, 1028) == r.nextFree && raw[1032..1056] == r.reserved
  {
    var raw := EncodeRoot(r);
    var files := raw[4..1028];
    assert raw == Le32(r.magic) + files + Le32(r.nextFree) + r.reserved;
    assert raw[0..4] == Le32(r.magic);
    assert raw[1028..1032] == Le32(r.nextFree);
    LeGet(raw, 0, r.magic);
    LeGet(raw, 1028, r.nextFree);
  }

  /** Where the packed layout puts each field: magic, 32 entries of 32 bytes, the obsolete pointer, the reserve. */
  lemma RootLayout(r: Root, i: nat)
    requires i < 32
    ensures var raw, at := EncodeRoot(r), 4 + 32 * i;
      && Get32(raw, 0) == r.magic && Get32(raw, 1028) == r.nextFree && raw[1032..1056] == r.reserved
      && raw[at..at + 24] == r.files[i].name && Get32(raw, at + 24) == r.files[i].start && Get32(raw, at + 28) == r.files[i].size
  {
    hide Get32, Le32;
    var raw, at := EncodeRoot(r), 4 + 32 * i;
    DecodeHeader(r);
    EncodedEntry(r, i);
    var e := r.files[i];
    SliceOfSlice(raw, at, at + 32, 0, 24);
    SliceOfSlice(raw, at, at + 32, 24, 28);
    SliceOfSlice(raw, at, at + 32, 28, 32);
    LeGet(raw, at + 24, e.start);
    LeGet(raw, at + 28, e.size);
  }

  /** Saving the directory writes exactly its three sectors, the last one partial and zero-padded. */
  lemma SaveRootEffect(d: Disk, r: Root)
    requires RootReadable(d)
    ensures var (d', ok) := SaveRoot(d, r);
      && ok && (Healthy(d) ==> Healthy(d')) && d'.bad == d.bad && |d'.sectors| == |d.sectors|
      && (forall k :: 0 <= k < ROOT_SECTORS ==> d'.sectors[ROOT_LBA + k] == Chunk(EncodeRoot(r), k))
      && (forall l :: 0 <= l < |d.sectors| && !(ROOT_LBA <= l < ROOT_LBA + ROOT_SECTORS) ==> d'.sectors[l] == d.sectors[l])
  {
    var d1 := WriteSector(d, ROOT_LBA, Chunk(EncodeRoot(r), 0));
    var d2 := WriteSector(d1, ROOT_LBA + 1, Chunk(EncodeRoot(r), 1));
    var d3 := WriteSector(d2, ROOT_LBA + 2, Chunk(EncodeRoot(r), 2));
    assert SaveRoot(d, r) == SaveRoot(d1, r, 1) == SaveRoot(d2, r, 2) == SaveRoot(d3, r, 3) == (d3, true);
  }

  lemma MirrorDecodes(s: Fs)
    requires RootReadable(s.disk)
    requires forall k :: 0 <= k < ROOT_SECTORS ==> s.disk.sectors[ROOT_LBA + k] == Chunk(EncodeRoot(s.root), k)
    ensures DecodeRoot(RawRoot(s.disk)) == s.root
  {
    var raw := EncodeRoot(s.root);
    forall j | 0 <= j < ROOT_SIZE
      ensures RawRoot(s.disk)[j] == raw[j]
    {
      var k, i := j / 512, j % 512;
      assert s.disk.sectors[ROOT_LBA + k] == Chunk(raw, k);
    }
    assert RawRoot(s.disk) == raw;
    DecodeEncodeRoot(s.root);
  }

  /** Reboot: fs_init on the disk of a reachable state rebuilds that very state. */
  lemma RebootRestores(s: Fs)
    requires Inv(s)
    ensures Init(s.disk) == s
  {
    MirrorDecodes(s);
  }

  /** With an unreadable bitmap sector a reboot forgets which sectors are taken: safe exactly when none is. */
  lemma RebootWithoutBitmap(s: Fs)
    requires s.root.magic == MAGIC && AllocInv(s.root.files, s.bitmap)
    requires RootReadable(s.disk) && !Working(s.disk, BITMAP_LBA)
    requires forall k :: 0 <= k < ROOT_SECTORS ==> s.disk.sectors[ROOT_LBA + k] == Chunk(EncodeRoot(s.root), k)
    ensures var s' := Init(s.disk);
      && s'.root == s.root
      && (AllocInv(s'.root.files, s'.bitmap) <==> forall i :: 0 <= i < MAX_FILES ==> !Listed(s.root.files[i]))
  {
    hide EncodeRoot, DecodeRoot, RawRoot, Chunk;
    MirrorDecodes(s);
    var files := s.root.files;
    if i :| 0 <= i < MAX_FILES && Listed(files[i]) {
      assert EntryOk(files[i]);
      var k := files[i].start - DATA_LBA;
      assert Holds(files[i], k);
      assert Covered(files, k) && ZeroSector()[k] == 0;
    }
  }

  /** fs_init on a disk without the magic number formats it. */
  lemma FormatInv(d: Disk)
    requires Healthy(d)
    requires DecodeRoot(RawRoot(d)).magic != MAGIC
    ensures Inv(Init(d)) && Init(d).root.files == BlankRoot().files
  {
    var d1 := WriteSector(d, BITMAP_LBA, ZeroSector());
    assert Healthy(d1);
    SaveRootEffect(d1, BlankRoot());
  }
}
