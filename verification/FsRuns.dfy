/**
  Whole runs of the file system, and the exact limits of what it guarantees: long names, failed
  overwrites and failing root sectors.
*/
module FsRuns {
  import opened Bytes
  import opened FsModel
  import opened FsInvariant
  import opened FsRefinement

  datatype Op = WriteOp(name: Name, data: seq<byte>) | DeleteOp(name: Name) | Reboot

  predicate LegalOp(op: Op) {
    op.WriteOp? ==> Legal(op.name) && Storable(op.data)
  }

  function Apply(s: Fs, op: Op): (Fs, bool) {
    match op
    case WriteOp(n, data) => Write(s, n, data)
    case DeleteOp(n) => Delete(s, n)
    case Reboot => (Init(s.disk), true)
  }

  function Run(s: Fs, ops: seq<Op>): (Fs, seq<bool>) {
    if ops == [] then (s, [])
    else
      var (t, oks) := Run(s, ops[..|ops| - 1]);
      var (t', ok) := Apply(t, ops[|ops| - 1]);
      (t', oks + [ok])
  }

  /** The reference: a plain map; a reboot does nothing to it. */
  function MapStep(m: map<Name, seq<byte>>, op: Op, ok: bool): map<Name, seq<byte>> {
    match op
    case WriteOp(n, data) => if ok then m[n := Pad(data)] else if data == [] then m else m - {n}
    case DeleteOp(n) => m - {n}
    case Reboot => m
  }

  function MapRun(m: map<Name, seq<byte>>, ops: seq<Op>, oks: seq<bool>): map<Name, seq<byte>>
    requires |oks| == |ops|
  {
    if ops == [] then m
    else MapStep(MapRun(m, ops[..|ops| - 1], oks[..|oks| - 1]), ops[|ops| - 1], oks[|oks| - 1])
  }

  lemma StepRefines(s: Fs, m: map<Name, seq<byte>>, op: Op)
    requires Inv(s) && Represents(s, m) && LegalOp(op)
    ensures var (s', ok) := Apply(s, op);
      Inv(s') && Represents(s', MapStep(m, op, ok))
  {
    match op
    case WriteOp(n, data) =>
      if data != [] {
        WriteRefines(s, m, n, data);
      }
    case DeleteOp(n) =>
      DeleteRefines(s, m, n);
    case Reboot =>
      RebootRestores(s);
  }

  lemma {:induction false} RunRefines(s: Fs, m: map<Name, seq<byte>>, ops: seq<Op>)
    requires Inv(s) && Represents(s, m)
    requires forall i :: 0 <= i < |ops| ==> LegalOp(ops[i])
    ensures var (s', oks) := Run(s, ops);
      |oks| == |ops| && Inv(s') && Represents(s', MapRun(m, ops, oks))
  {
    if ops != [] {
      var init, op := ops[..|ops| - 1], ops[|ops| - 1];
      RunRefines(s, m, init);
      var (t, oks) := Run(s, init);
      StepRefines(t, MapRun(m, init, oks), op);
      var ok := Apply(t, op).1;
      assert (oks + [ok])[..|oks|] == oks;
    }
  }

  /** Every run from a formatted disk: the invariant holds and the state is that of the map run. */
  lemma FormattedRunRefines(d: Disk, ops: seq<Op>)
    requires Healthy(d) && DecodeRoot(RawRoot(d)).magic != MAGIC
    requires forall i :: 0 <= i < |ops| ==> LegalOp(ops[i])
    ensures var (s, oks) := Run(Init(d), ops);
      |oks| == |ops| && Inv(s) && Represents(s, MapRun(map[], ops, oks))
  {
    FormatInv(d);
    BlankRepresents(Init(d));
    RunRefines(Init(d), map[], ops);
  }

  /** Rebooting after any run changes neither the map nor anything else. */
  lemma RebootTransparent(d: Disk, ops: seq<Op>)
    requires Healthy(d) && DecodeRoot(RawRoot(d)).magic != MAGIC
    requires forall i :: 0 <= i < |ops| ==> LegalOp(ops[i])
    ensures var (s, oks) := Run(Init(d), ops);
      && |oks| == |ops| && Init(s.disk) == s
      && forall n, max: nat :: var m := MapRun(map[], ops, oks);
                          Load(Init(s.disk), n, max) == if n in m && |m[n]| <= max then Some(m[n]) else None
  {
    FormattedRunRefines(d, ops);
    var (s, oks) := Run(Init(d), ops);
    RebootRestores(s);
    forall n, max: nat {
      LoadRefines(s, MapRun(map[], ops, oks), n, max);
    }
  }

  // ----- where a write puts a file -----

  /** A successful write of any name uses the first free slot and the lowest free run. */
  lemma PlaceWhere(s: Fs, n: Name, data: seq<byte>)
    requires Place(s, n, data).1
    ensures var s' := Place(s, n, data).0;
            var i, run := FreeSlot(s.root.files), FindRun(s.bitmap, SectorCount(|data|));
      && i < MAX_FILES && run.Some?
      && s'.root.files == s.root.files[i := Entry(StoredName(s.root.files[i].name, n), DATA_LBA + run.value, SectorCount(|data|))]
  {
  }

  /** Any name, of any length, is stored when a run and a slot are free. */
  lemma PlaceSucceeds(s: Fs, n: Name, data: seq<byte>)
    requires Inv(s) && data != [] && Storable(data) && HasFreeSlot(s.root.files) && HasFreeRun(s.bitmap, SectorCount(|data|))
    ensures Place(s, n, data).1
  {
    hide WriteData, SaveRoot, Chunk, EncodeRoot, StoredName, Staged;
    SectorCountExact(|data|);
    SlotFound(s.root.files);
    var k := FindRun(s.bitmap, SectorCount(|data|)).value;
    StagedEffect(s, k, data);
    PlaceInRun(s, n, data, k);
    var t, i := Staged(s, k, data), FreeSlot(s.root.files);
    SaveRootEffect(t.disk, s.root.(files := s.root.files[i := Entry(StoredName(s.root.files[i].name, n), DATA_LBA + k, SectorCount(|data|))]));
  }

  /** Names longer than 23 bytes: a second entry of the same stored name appears exactly when the cut name is taken. */
  lemma LongNameUnique(s: Fs, n: Name, data: seq<byte>)
    requires Inv(s) && |n| >= 24 && 0 !in n
    requires Write(s, n, data).1
    ensures UniqueNames(Write(s, n, data).0.root.files) <==>
            forall j :: 0 <= j < MAX_FILES ==> !Called(s.root.files[j], n[..23])
  {
    var files := s.root.files;
    FindExact(files, n);
    forall i | 0 <= i < MAX_FILES && Listed(files[i])
      ensures |CStr(files[i].name)| < 24
    {
      assert EntryOk(files[i]);
      CStrShape(files[i].name);
    }
    assert Write(s, n, data) == Place(s, n, data);
    PlaceWhere(s, n, data);
    var i := FreeSlot(files);
    StoredNameReads(files[i].name, n);
    var files' := Write(s, n, data).0.root.files;
    assert Called(files'[i], n[..23]);
    if j :| 0 <= j < MAX_FILES && Called(files[j], n[..23]) {
      assert Called(files'[j], n[..23]) && j != i;
    } else {
      forall x, y | 0 <= x < y < MAX_FILES && Listed(files'[x]) && Listed(files'[y])
        ensures CStr(files'[x].name) != CStr(files'[y].name)
      {
        if x == i {
          assert !Called(files[y], n[..23]);
        } else if y == i {
          assert !Called(files[x], n[..23]);
        }
      }
    }
  }

  /** A formatted disk: an empty directory and every data sector free. */
  lemma FormattedFree(d: Disk)
    requires Healthy(d) && DecodeRoot(RawRoot(d)).magic != MAGIC
    ensures var s := Init(d);
      && Inv(s) && Represents(s, map[]) && HasFreeSlot(s.root.files) && FreeRun(s.bitmap, 0, DATA_BITS)
  {
    hide Init, DecodeRoot, RawRoot;
    FormatInv(d);
    var s := Init(d);
    BlankRepresents(s);
    assert !Listed(s.root.files[0]);
    assert forall k :: 0 <= k < DATA_BITS ==> !Covered(s.root.files, k);
  }

  /** Writing a first file leaves room for another unless it is very large. */
  lemma FirstFile(d: Disk, n: Name, data: seq<byte>)
    requires Healthy(d) && DecodeRoot(RawRoot(d)).magic != MAGIC
    requires Legal(n) && data != [] && |data| <= DATA_BITS * 512
    ensures var (s, ok) := Write(Init(d), n, data);
      && ok && Inv(s) && Represents(s, map[n := Pad(data)]) && HasFreeSlot(s.root.files)
  {
    hide Init, DecodeRoot, RawRoot, Place, Inv, Represents, FreeRun, HasFreeSlot;
    FormattedFree(d);
    var s0 := Init(d);
    var s := Write(s0, n, data).0;
    LookupRefines(s0, map[], n);
    SectorCountExact(|data|);
    RunInside(s0.bitmap, SectorCount(|data|));
    WriteRefines(s0, map[], n, data);
    SlotIffRoom(s, map[n := Pad(data)]);
  }

  lemma RunInside(b: Sector, count: nat)
    requires FreeRun(b, 0, DATA_BITS) && count <= DATA_BITS
    ensures HasFreeRun(b, count)
  {
    assert FreeRun(b, 0, count);
  }

  /**
    Two files with one name: on a formatted disk, a file whose name has 23 bytes and then one whose
    24-byte name starts with it.
  */
  lemma TwoEqualNames(d: Disk, n: Name, x: byte)
    requires Healthy(d) && DecodeRoot(RawRoot(d)).magic != MAGIC
    requires |n| == 23 && 0 !in n && x != 0
    ensures var s := Write(Init(d), n, [1]).0;
            var (s', ok) := Write(s, n + [x], [2]);
      ok && !UniqueNames(s'.root.files)
  {
    hide Init, DecodeRoot, RawRoot, Place, Write, FreeRun, HasFreeSlot, BitmapExact, DisjointExtents, Mirrored, UniqueNames, CStr, Contents;
    FirstFile(d, n, [1]);
    var s, m, long := Write(Init(d), n, [1]).0, map[n := Pad([1])], n + [x];
    LookupRefines(s, m, long);
    assert Write(s, long, [2]) == Place(s, long, [2]) by {
      WriteNew(s, long, [2]);
    }
    SecondRun(s, m, n);
    PlaceSucceeds(s, long, [2]);
    assert long[..23] == n;
    LookupRefines(s, m, n);
    LongNameUnique(s, long, [2]);
  }

  lemma WriteNew(s: Fs, n: Name, data: seq<byte>)
    requires n != [] && data != [] && !Exists(s, n)
    ensures Write(s, n, data) == Place(s, n, data)
  {
  }

  lemma PadOne()
    ensures |Pad([1])| == 512
  {
  }

  /** A one-sector file leaves a free sector. */
  lemma SecondRun(s: Fs, m: map<Name, seq<byte>>, n: Name)
    requires Inv(s) && Represents(s, m) && m == map[n := Pad([1])]
    ensures HasFreeRun(s.bitmap, SectorCount(1)) && HasFreeRun(s.bitmap, SectorCount(|[2]|))
  {
    hide Mirrored, Pad;
    assert SectorCount(1) == 1 && |[2]| == 1 && |Pad([1])| == 512 by {
      PadOne();
    }
    LookupRefines(s, m, n);
    var files, i := s.root.files, Find(s.root.files, n);
    assert EntryOk(files[i]) && |m[n]| == 512 && files[i].size == 1;
    forall j, k | 0 <= j < MAX_FILES && Holds(files[j], k)
      ensures k == files[i].start - DATA_LBA
    {
      var x := CStr(files[j].name);
      assert Called(files[j], x);
      assert x in m;
      assert x == n;
      FindListed(files, j);
      assert j == i;
    }
    var k := if files[i].start == DATA_LBA then 1 else 0;
    assert !Covered(files, k);
    assert FreeRun(s.bitmap, k, 1);
  }

  // ----- failed overwrites -----

  /** A failed write keeps the map exactly when there was no previous version to lose. */
  lemma FailedWriteKeepsMap(s: Fs, m: map<Name, seq<byte>>, n: Name, data: seq<byte>)
    requires Inv(s) && Represents(s, m)
    requires Legal(n) && data != [] && Storable(data) && !Write(s, n, data).1
    ensures Inv(Write(s, n, data).0)
    ensures Represents(Write(s, n, data).0, m) <==> n !in m
  {
    WriteRefines(s, m, n, data);
    var s' := Write(s, n, data).0;
    if n !in m {
      assert m - {n} == m;
    } else if Represents(s', m) {
      RepresentsUnique(s', m, m - {n});
    }
  }

  /** Overwriting with more data than the disk holds always fails, so it loses the old version. */
  lemma OversizeOverwriteLoses(s: Fs, m: map<Name, seq<byte>>, n: Name, data: seq<byte>)
    requires Inv(s) && Represents(s, m) && Legal(n) && n in m
    requires DATA_BITS * 512 < |data| && Storable(data)
    ensures !Write(s, n, data).1 && Inv(Write(s, n, data).0) && Represents(Write(s, n, data).0, m - {n})
  {
    SectorCountExact(|data|);
    WriteRefines(s, m, n, data);
    assert !HasFreeRun(Delete(s, n).0.bitmap, SectorCount(|data|));
  }

  /** Directory full: nothing changes, the bitmap included. */
  lemma FullDirectoryRollsBack(s: Fs, m: map<Name, seq<byte>>, n: Name, data: seq<byte>)
    requires Inv(s) && Represents(s, m) && Legal(n) && data != [] && Storable(data)
    requires !HasFreeSlot(s.root.files) && n !in m
    ensures var (s', ok) := Write(s, n, data);
      !ok && Inv(s') && s'.bitmap == s.bitmap && s'.root == s.root && Represents(s', m)
  {
    LookupRefines(s, m, n);
    SlotFound(s.root.files);
    SectorCountExact(|data|);
    match FindRun(s.bitmap, SectorCount(|data|))
    case None =>
    case Some(k) =>
      StagedEffect(s, k, data);
      PlaceInRun(s, n, data, k);
      RollbackRefines(s, m, k, data);
  }

  lemma NoRun(b: Sector, count: nat)
    requires count >= 1 && forall k :: 0 <= k < DATA_BITS ==> b[k] != 0
    ensures !HasFreeRun(b, count)
  {
    forall k: nat
      ensures !FreeRun(b, k, count)
    {
      if k + count <= DATA_BITS {
        assert b[k] != 0;
      }
    }
  }

  /** A file of 511 sectors on a formatted disk leaves no sector free. */
  lemma DiskFull(d: Disk, n: Name, data: seq<byte>, count: nat)
    requires Healthy(d) && DecodeRoot(RawRoot(d)).magic != MAGIC
    requires Legal(n) && |data| == DATA_BITS * 512 && count >= 1
    ensures !HasFreeRun(Write(Init(d), n, data).0.bitmap, count)
  {
    hide Init, DecodeRoot, RawRoot, Write, HasFreeSlot, Mirrored, UniqueNames, DisjointExtents;
    FirstFile(d, n, data);
    var s, m := Write(Init(d), n, data).0, map[n := Pad(data)];
    LookupRefines(s, m, n);
    var files, i := s.root.files, Find(s.root.files, n);
    assert EntryOk(files[i]) && |m[n]| == DATA_BITS * 512 && files[i].size == DATA_BITS;
    forall k | 0 <= k < DATA_BITS
      ensures s.bitmap[k] != 0
    {
      assert Holds(files[i], k);
      assert Covered(files, k);
    }
    NoRun(s.bitmap, count);
  }

  // ----- failing sectors -----

  lemma SaveSucceeds(d: Disk, r: Root)
    ensures SaveRoot(d, r).1 <==> RootReadable(d)
  {
    if Working(d, ROOT_LBA) {
      var d1 := WriteSector(d, ROOT_LBA, Chunk(EncodeRoot(r), 0));
      assert SaveRoot(d, r) == SaveRoot(d1, r, 1);
      if Working(d1, ROOT_LBA + 1) {
        var d2 := WriteSector(d1, ROOT_LBA + 1, Chunk(EncodeRoot(r), 1));
        assert SaveRoot(d1, r, 1) == SaveRoot(d2, r, 2);
        assert Working(d2, ROOT_LBA + 2) <==> Working(d, ROOT_LBA + 2);
        if Working(d2, ROOT_LBA + 2) {
          var d3 := WriteSector(d2, ROOT_LBA + 2, Chunk(EncodeRoot(r), 2));
          assert SaveRoot(d2, r, 2) == SaveRoot(d3, r, 3) == (d3, true);
        }
      }
    }
  }

  lemma {:induction false} WriteDataWorking(d: Disk, lba: nat, data: seq<byte>, l: nat)
    ensures Working(WriteData(d, lba, data).0, l) <==> Working(d, l)
    decreases |data|
  {
    if data != [] && Working(d, lba) {
      WriteDataWorking(WriteSector(d, lba, Chunk(data, 0)), lba + 1, data[Min(512, |data|)..], l);
    }
  }

  /** Table and bitmap after placing a file on any disk, when the data sectors could be written. */
  lemma PlaceOnAnyDisk(s: Fs, n: Name, data: seq<byte>, k: nat)
    requires FreeSlot(s.root.files) < MAX_FILES
    requires FindRun(s.bitmap, SectorCount(|data|)) == Some(k) && WriteData(s.disk, DATA_LBA + k, data).1
    ensures var s' := Place(s, n, data).0;
            var i, count := FreeSlot(s.root.files), SectorCount(|data|);
      && s'.root.files == s.root.files[i := Entry(StoredName(s.root.files[i].name, n), DATA_LBA + k, count)]
      && s'.bitmap == if RootReadable(s.disk) then MarkBits(s.bitmap, k, count, 1) else s.bitmap
  {
    PlaceInRun(s, n, data, k);
    var t, i, count := Staged(s, k, data), FreeSlot(s.root.files), SectorCount(|data|);
    forall l: nat
      ensures Working(t.disk, l) <==> Working(s.disk, l)
    {
      WriteDataWorking(s.disk, DATA_LBA + k, data, l);
    }
    var e := Entry(StoredName(s.root.files[i].name, n), DATA_LBA + k, count);
    SaveSucceeds(t.disk, s.root.(files := s.root.files[i := e]));
    UnmarkRestores(s.bitmap, k, count);
  }

  /**
    On a disk with failing sectors, placing a file keeps the allocation invariant exactly when
    the directory can be saved; otherwise the entry stays listed while its sectors are released.
  */
  lemma RootFailureBreaksAllocation(s: Fs, n: Name, data: seq<byte>, k: nat)
    requires AllocInv(s.root.files, s.bitmap)
    requires Legal(n) && forall j :: 0 <= j < MAX_FILES ==> !Called(s.root.files[j], n)
    requires data != [] && Storable(data)
    requires FreeSlot(s.root.files) < MAX_FILES
    requires FindRun(s.bitmap, SectorCount(|data|)) == Some(k) && WriteData(s.disk, DATA_LBA + k, data).1
    ensures var s' := Place(s, n, data).0;
      AllocInv(s'.root.files, s'.bitmap) <==> RootReadable(s.disk)
  {
    SectorCountExact(|data|);
    PlaceOnAnyDisk(s, n, data, k);
    AllocAfterPlace(s.root.files, s.bitmap, n, k, SectorCount(|data|), RootReadable(s.disk));
  }

  lemma AllocAfterPlace(files: FileTable, b: Sector, n: Name, k: nat, count: nat, saved: bool)
    requires AllocInv(files, b) && FreeRun(b, k, count) && count >= 1
    requires Legal(n) && forall j :: 0 <= j < MAX_FILES ==> !Called(files[j], n)
    requires FreeSlot(files) < MAX_FILES
    ensures var i := FreeSlot(files);
            var e := Entry(StoredName(files[i].name, n), DATA_LBA + k, count);
      AllocInv(files[i := e], if saved then MarkBits(b, k, count, 1) else b) <==> saved
  {
    var i := FreeSlot(files);
    var e := Entry(StoredName(files[i].name, n), DATA_LBA + k, count);
    StoredNameReads(files[i].name, n);
    assert n[..|n|] == n;
    if saved {
      forall j | 0 <= j < MAX_FILES && Listed(files[j])
        ensures CStr(files[j].name) != CStr(e.name)
      {
        assert !Called(files[j], n);
      }
      AddKeepsAlloc(files, b, i, e);
    } else {
      UnmarkedBreaksAlloc(files, b, i, e);
    }
  }

  /** Such a disk: only the first root sector fails, and the first file written stays listed on unmarked sectors. */
  lemma BadRootSector(d: Disk, n: Name)
    requires DATA_END <= |d.sectors| && d.bad == {ROOT_LBA} && Legal(n)
    ensures var s := Init(d);
      AllocInv(s.root.files, s.bitmap) && !AllocInv(Write(s, n, [1]).0.root.files, Write(s, n, [1]).0.bitmap)
  {
    hide EncodeRoot, DecodeRoot, RawRoot, Chunk, Place;
    var s := Init(d);
    assert !Working(d, ROOT_LBA) && s.root == BlankRoot() && s.bitmap == ZeroSector();
    BlankPlace(s, n);
    WriteNew(s, n, [1]);
    RootFailureBreaksAllocation(s, n, [1], 0);
  }

  /** fs_create_file keeps the allocation invariant exactly when it lists nothing. */
  lemma CreateFileBreaks(s: Fs, n: Name, start: u32, size: u32)
    requires AllocInv(s.root.files, s.bitmap) && 0 !in n
    ensures var s' := CreateFile(s, n, start, size);
      AllocInv(s'.root.files, s'.bitmap) <==> n == [] || start < DATA_LBA || size == 0 || !HasFreeSlot(s.root.files)
  {
    hide AllocInv, SaveRoot, StoredName;
    SlotFound(s.root.files);
    var i := FreeSlot(s.root.files);
    if n != [] && i < MAX_FILES {
      StoredNameReads(s.root.files[i].name, n);
      UnmarkedBreaksAlloc(s.root.files, s.bitmap, i, Entry(StoredName(s.root.files[i].name, n), start, size));
    }
  }

  /** On a formatted disk, listing a single free sector already breaks it. */
  lemma CreateFileOnFormatted(d: Disk, n: Name)
    requires Healthy(d) && DecodeRoot(RawRoot(d)).magic != MAGIC && Legal(n)
    ensures var s := Init(d);
            var s' := CreateFile(s, n, DATA_LBA, 1);
      AllocInv(s.root.files, s.bitmap) && !AllocInv(s'.root.files, s'.bitmap)
  {
    hide Init, DecodeRoot, RawRoot, CreateFile, Healthy;
    FormattedFree(d);
    CreateFileBreaks(Init(d), n, DATA_LBA, 1);
  }

  /** A file placed on a disk whose root sectors work is in the directory that disk holds. */
  lemma PlaceMirrored(s: Fs, n: Name, data: seq<byte>, k: nat)
    requires FreeSlot(s.root.files) < MAX_FILES && RootReadable(s.disk)
    requires FindRun(s.bitmap, SectorCount(|data|)) == Some(k) && WriteData(s.disk, DATA_LBA + k, data).1
    ensures var s' := Place(s, n, data).0;
      && s'.root.magic == s.root.magic && s'.disk.bad == s.disk.bad && RootReadable(s'.disk) && |s'.disk.sectors| == |s.disk.sectors|
      && forall j :: 0 <= j < ROOT_SECTORS ==> s'.disk.sectors[ROOT_LBA + j] == Chunk(EncodeRoot(s'.root), j)
  {
    hide WriteData, SaveRoot, Chunk, EncodeRoot, StoredName, MarkBits, SectorCount;
    PlaceInRun(s, n, data, k);
    var t, i, count := Staged(s, k, data), FreeSlot(s.root.files), SectorCount(|data|);
    StagedDisk(s, k, data);
    var e := Entry(StoredName(s.root.files[i].name, n), DATA_LBA + k, count);
    SaveRootEffect(t.disk, s.root.(files := s.root.files[i := e]));
  }

  lemma StagedDisk(s: Fs, k: nat, data: seq<byte>)
    ensures var t := Staged(s, k, data);
      && t.root == s.root && t.disk.bad == s.disk.bad && |t.disk.sectors| == |s.disk.sectors|
  {
    hide Chunk, SectorCount, MarkBits;
    WriteDataShape(s.disk, DATA_LBA + k, data);
  }

  lemma {:induction false} WriteDataShape(d: Disk, lba: nat, data: seq<byte>)
    ensures var d' := WriteData(d, lba, data).0;
      d'.bad == d.bad && |d'.sectors| == |d.sectors|
    decreases |data|
  {
    if data != [] && Working(d, lba) {
      WriteDataShape(WriteSector(d, lba, Chunk(data, 0)), lba + 1, data[Min(512, |data|)..]);
    }
  }

  /** A formatted disk whose only bad sector is the bitmap's: the first file is forgotten by the next boot's bitmap. */
  lemma BadBitmapSector(d: Disk, n: Name)
    requires DATA_END <= |d.sectors| && d.bad == {BITMAP_LBA} && DecodeRoot(RawRoot(d)).magic != MAGIC && Legal(n)
    ensures var s := Write(Init(d), n, [1]).0;
      AllocInv(s.root.files, s.bitmap) && !AllocInv(Init(s.disk).root.files, Init(s.disk).bitmap)
  {
    hide EncodeRoot, DecodeRoot, RawRoot, Chunk, Place, SaveRoot;
    var s0 := Init(d);
    SaveRootEffect(WriteSector(d, BITMAP_LBA, ZeroSector()), BlankRoot());
    assert s0.root == BlankRoot() && s0.bitmap == ZeroSector() && s0.disk.bad == d.bad && RootReadable(s0.disk);
    BlankPlace(s0, n);
    var s := Place(s0, n, [1]).0;
    WriteNew(s0, n, [1]);
    RootFailureBreaksAllocation(s0, n, [1], 0);
    PlaceMirrored(s0, n, [1], 0);
    PlaceOnAnyDisk(s0, n, [1], 0);
    StoredNameReads(s0.root.files[0].name, n);
    assert Listed(s.root.files[0]);
    RebootWithoutBitmap(s);
  }

  /** With an empty directory and bitmap any one-byte file goes to the first slot and the first sector. */
  lemma BlankPlace(s: Fs, n: Name)
    requires s.root == BlankRoot() && s.bitmap == ZeroSector() && Working(s.disk, DATA_LBA) && Legal(n)
    ensures AllocInv(s.root.files, s.bitmap) && !Exists(s, n) && FreeSlot(s.root.files) == 0
    ensures forall j :: 0 <= j < MAX_FILES ==> !Called(s.root.files[j], n)
    ensures FindRun(s.bitmap, SectorCount(1)) == Some(0) && SectorCount(|[1]|) == 1 && WriteData(s.disk, DATA_LBA + 0, [1]).1
  {
    var files := s.root.files;
    assert forall j :: 0 <= j < MAX_FILES ==> !Listed(files[j]);
    assert forall k :: 0 <= k < DATA_BITS ==> !Covered(files, k);
    assert Find(files, n) == MAX_FILES;
    assert SectorCount(1) == 1 && FreeRun(s.bitmap, 0, 1);
    assert AllWorking(s.disk, DATA_LBA, 1);
    WriteDataEffect(s.disk, DATA_LBA, [1]);
  }

  // ----- refusals and failures on any disk -----

  /** Empty names and empty data are refused without effect. */
  lemma Refused(s: Fs, n: Name, data: seq<byte>, start: u32, size: u32, max: nat)
    ensures Write(s, [], data) == (s, false) && Write(s, n, []) == (s, false)
    ensures Delete(s, []) == (s, false) && !Exists(s, []) && Load(s, [], max) == None
    ensures CreateFile(s, [], start, size) == s && CreateFile(s, n, start, 0) == s
  {
  }

  /** The data loop succeeds exactly when every sector it needs works. */
  lemma {:induction false} WriteDataExact(d: Disk, lba: nat, data: seq<byte>)
    ensures WriteData(d, lba, data).1 <==> forall l :: lba <= l < lba + (|data| + 511) / 512 ==> Working(d, l)
    decreases |data|
  {
    hide Chunk;
    if data != [] && Working(d, lba) {
      var d1, rest := WriteSector(d, lba, Chunk(data, 0)), data[Min(512, |data|)..];
      OneSectorLess(|data|);
      WriteDataExact(d1, lba + 1, rest);
      assert forall l: nat :: Working(d1, l) <==> Working(d, l);
    }
  }

  /** A data sector that fails makes the write fail and leaves directory and bitmap as they were. */
  lemma DataFailure(s: Fs, n: Name, data: seq<byte>, k: nat, l: nat)
    requires FindRun(s.bitmap, SectorCount(|data|)) == Some(k)
    requires DATA_LBA + k <= l < DATA_LBA + k + (|data| + 511) / 512 && !Working(s.disk, l)
    ensures var (s', ok) := Place(s, n, data);
      !ok && s'.root == s.root && s'.bitmap == s.bitmap
  {
    hide SectorCount;
    WriteDataExact(s.disk, DATA_LBA + k, data);
  }

  /** Deletion on any disk: the entry and its bits are cleared in memory; it reports whether the directory could be saved. */
  lemma DeleteOnAnyDisk(s: Fs, i: nat)
    requires AllocInv(s.root.files, s.bitmap) && i < MAX_FILES && Listed(s.root.files[i])
    ensures var e := s.root.files[i];
            var (s', ok) := Delete(s, CStr(e.name));
      && (ok <==> RootReadable(s.disk))
      && s'.root == s.root.(files := s.root.files[i := EmptyEntry()])
      && (forall k :: 0 <= k < DATA_BITS ==> s'.bitmap[k] == if e.start <= DATA_LBA + k < e.start + e.size then 0 else s.bitmap[k])
  {
    hide EncodeRoot, Chunk, SaveRoot, UniqueNames, CStr;
    var e := s.root.files[i];
    assert EntryOk(e);
    FindNamed(s.root.files, i);
    var marked := Mark(s, e.start, e.size, 0);
    SaveSucceeds(marked.disk, s.root.(files := s.root.files[i := EmptyEntry()]));
  }

  lemma FindNamed(files: FileTable, i: nat)
    requires EntriesOk(files) && UniqueNames(files) && i < MAX_FILES && Listed(files[i])
    ensures CStr(files[i].name) != [] && Find(files, CStr(files[i].name)) == i
  {
    FindListed(files, i);
    assert files[i].name[0] != 0;
  }

  /** fs_load_file on any disk: found, plausible, small enough, readable throughout; then exactly the bytes of the extent. */
  lemma LoadExact(s: Fs, n: Name, max: nat)
    ensures var r := Load(s, n, max);
      && (r.Some? <==>
            n != [] && Find(s.root.files, n) < 32 &&
            var e := s.root.files[Find(s.root.files, n)];
            && 86 <= e.start && 1 <= e.size <= 0x100000 && e.start + e.size <= 0xFFFF_FFFF && e.size * 512 <= max
            && forall l :: e.start <= l < e.start + e.size ==> Working(s.disk, l))
      && (r.Some? ==>
            var e := s.root.files[Find(s.root.files, n)];
            |r.value| == 512 * e.size && e.start + e.size <= |s.disk.sectors| &&
            forall j :: 0 <= j < e.size ==> r.value[512 * j..512 * j + 512] == s.disk.sectors[e.start + j])
  {
    if Find(s.root.files, n) < MAX_FILES {
      var e := s.root.files[Find(s.root.files, n)];
      if e.size >= 1 {
        AllSectors(s.disk, e);
      }
      if e.start + e.size <= |s.disk.sectors| {
        forall j | 0 <= j < e.size
          ensures Contents(s.disk, e)[512 * j..512 * j + 512] == s.disk.sectors[e.start + j]
        {
          ExtentSector(s.disk, e, j);
        }
      }
    }
  }

  lemma AllSectors(d: Disk, e: Entry)
    requires e.size >= 1
    ensures AllWorking(d, e.start, e.size) <==> forall l :: e.start <= l < e.start + e.size ==> Working(d, l)
  {
    if forall l :: e.start <= l < e.start + e.size ==> Working(d, l) {
      assert Working(d, e.start + e.size - 1);
    }
  }

  lemma ExtentSector(d: Disk, e: Entry, j: nat)
    requires e.start + e.size <= |d.sectors| && j < e.size
    ensures Contents(d, e)[512 * j..512 * j + 512] == d.sectors[e.start + j]
  {
    var c := Contents(d, e);
    var sector := c[512 * j..512 * j + 512];
    forall t | 0 <= t < 512
      ensures sector[t] == d.sectors[e.start + j][t]
    {
      assert (512 * j + t) / 512 == j && (512 * j + t) % 512 == t && sector[t] == c[512 * j + t];
    }
  }

  /** An unreadable root directory is taken for an unformatted disk. */
  lemma UnreadableFormats(d: Disk)
    requires !RootReadable(d)
    ensures Init(d).root == BlankRoot() && Init(d).bitmap == ZeroSector() && Init(d).root.magic == 0x3153464D && Init(d).root.nextFree == 86
  {
    hide EncodeRoot, Chunk, SaveRoot;
  }

  /** Writes and deletions change nothing of the root directory but its entries. */
  lemma OtherFieldsKept(s: Fs, n: Name, data: seq<byte>)
    ensures Delete(s, n).0.root == s.root.(files := Delete(s, n).0.root.files)
    ensures Write(s, n, data).0.root == s.root.(files := Write(s, n, data).0.root.files)
  {
    hide EncodeRoot, Chunk, SaveRoot, WriteData, StoredName, SectorCount, FindRun, MarkBits;
    PlaceFields(Delete(s, n).0, n, data);
  }

  lemma PlaceFields(s: Fs, n: Name, data: seq<byte>)
    ensures Place(s, n, data).0.root == s.root.(files := Place(s, n, data).0.root.files)
  {
    hide EncodeRoot, Chunk, SaveRoot, WriteData, StoredName, SectorCount, FindRun, MarkBits;
  }
}
