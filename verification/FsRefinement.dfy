/**
  The file system refines a map from names to zero-padded contents, over every run of writes,
  deletions and reboots on a healthy disk.
*/
module FsRefinement {
  import opened Bytes
  import opened FsModel
  import opened FsInvariant

  type Name = seq<byte>

  /** A C string that fits the name field without truncation. */
  predicate Legal(n: Name) {
    1 <= |n| <= 23 && 0 !in n
  }

  /** Sizes whose rounding up to sectors does not wrap. */
  predicate Storable(data: seq<byte>) {
    |data| + 511 < 0x1_0000_0000
  }

  function Pad(data: seq<byte>): seq<byte> {
    seq((|data| + 511) / 512 * 512, j requires 0 <= j => if j < |data| then data[j] else 0)
  }

  predicate Called(e: Entry, n: Name) {
    Listed(e) && CStr(e.name) == n
  }

  /** State `s` stands for the map `m`: same names, and for each name the bytes of its extent. */
  ghost predicate Represents(s: Fs, m: map<Name, seq<byte>>)
    requires EntriesOk(s.root.files) && Healthy(s.disk)
  {
    && (forall i, n :: 0 <= i < MAX_FILES && Called(s.root.files[i], n) ==> n in m && m[n] == Contents(s.disk, s.root.files[i]))
    && (forall n :: n in m ==> exists i :: 0 <= i < MAX_FILES && Called(s.root.files[i], n))
  }

  lemma RepresentsUnique(s: Fs, m: map<Name, seq<byte>>, m': map<Name, seq<byte>>)
    requires EntriesOk(s.root.files) && Healthy(s.disk)
    requires Represents(s, m) && Represents(s, m')
    ensures m == m'
  {
    hide CStr, Contents;
    forall n | n in m
      ensures n in m' && m'[n] == m[n]
    {
      var i :| 0 <= i < MAX_FILES && Called(s.root.files[i], n);
    }
    forall n | n in m'
      ensures n in m
    {
      var i :| 0 <= i < MAX_FILES && Called(s.root.files[i], n);
    }
    assert m == m';
  }

  lemma BlankRepresents(s: Fs)
    requires Inv(s) && s.root.files == BlankRoot().files
    ensures Represents(s, map[])
  {
    assert forall i :: 0 <= i < MAX_FILES ==> s.root.files[i] == EmptyEntry();
    assert ZeroName()[0] == 0;
    assert forall i, n :: 0 <= i < MAX_FILES ==> !Called(s.root.files[i], n);
  }

  // ----- queries -----

  lemma LookupRefines(s: Fs, m: map<Name, seq<byte>>, n: Name)
    requires Inv(s) && Represents(s, m)
    ensures Exists(s, n) <==> n in m
    ensures n in m ==> var i := Find(s.root.files, n);
                       Called(s.root.files[i], n) && m[n] == Contents(s.disk, s.root.files[i])
  {
    hide Contents;
    var files := s.root.files;
    FindExact(files, n);
    if Find(files, n) < MAX_FILES {
      assert Called(files[Find(files, n)], n);
    }
    if n in m {
      var i :| 0 <= i < MAX_FILES && Called(files[i], n);
      FindListed(files, i);
      assert files[i].name[0] != 0;
    }
  }

  /** fs_load_file returns exactly the mapped bytes, and fails exactly when absent or too large. */
  lemma LoadRefines(s: Fs, m: map<Name, seq<byte>>, n: Name, max: nat)
    requires Inv(s) && Represents(s, m)
    ensures Load(s, n, max) == (if n in m && |m[n]| <= max then Some(m[n]) else None)
  {
    LookupRefines(s, m, n);
    if n in m {
      var e := s.root.files[Find(s.root.files, n)];
      assert EntryOk(e);
      assert AllWorking(s.disk, e.start, e.size);
      assert |Contents(s.disk, e)| == 512 * e.size;
    }
  }

  // ----- effect of the disk writes -----

  /** Data sectors other than `count` of them starting at data sector `k` are the same on both disks. */
  ghost predicate SameOutside(d: Disk, d': Disk, k: nat, count: nat) {
    && |d'.sectors| == |d.sectors|
    && forall l :: DATA_LBA <= l < |d.sectors| && !(DATA_LBA + k <= l < DATA_LBA + k + count) ==> d'.sectors[l] == d.sectors[l]
  }

  lemma SameContents(d: Disk, d': Disk, e: Entry)
    requires EntryOk(e) && Listed(e) && Healthy(d) && Healthy(d')
    requires forall l :: e.start <= l < e.start + e.size ==> d'.sectors[l] == d.sectors[l]
    ensures Contents(d', e) == Contents(d, e)
  {
    forall j | 0 <= j < 512 * e.size
      ensures Contents(d', e)[j] == Contents(d, e)[j]
    {
      assert e.start <= e.start + j / 512 < e.start + e.size;
    }
  }

  lemma ChunkShift(data: seq<byte>, k: nat)
    requires |data| >= 512
    ensures Chunk(data[512..], k) == Chunk(data, k + 1)
  {
  }

  lemma OneSectorLess(n: nat)
    requires n > 0
    ensures (n - Min(512, n) + 511) / 512 == (n + 511) / 512 - 1
  {
  }

  lemma {:induction false} WriteDataEffect(d: Disk, lba: nat, data: seq<byte>)
    requires AllWorking(d, lba, (|data| + 511) / 512)
    ensures var (d', ok) := WriteData(d, lba, data);
      && ok && d'.bad == d.bad && |d'.sectors| == |d.sectors|
      && (forall l :: lba <= l < lba + (|data| + 511) / 512 ==> d'.sectors[l] == Chunk(data, l - lba))
      && (forall l :: 0 <= l < |d.sectors| && !(lba <= l < lba + (|data| + 511) / 512) ==> d'.sectors[l] == d.sectors[l])
    decreases |data|
  {
    if data != [] {
      assert Working(d, lba);
      var rest := data[Min(512, |data|)..];
      var d1 := WriteSector(d, lba, Chunk(data, 0));
      OneSectorLess(|data|);
      forall l | lba + 1 <= l < lba + 1 + (|rest| + 511) / 512
        ensures Working(d1, l)
      {
        assert Working(d, l);
      }
      WriteDataEffect(d1, lba + 1, rest);
      var d' := WriteData(d, lba, data).0;
      forall l | lba < l < lba + (|data| + 511) / 512
        ensures d'.sectors[l] == Chunk(data, l - lba)
      {
        ChunkShift(data, l - lba - 1);
      }
    }
  }

  lemma WrittenContents(d: Disk, e: Entry, data: seq<byte>)
    requires Healthy(d) && EntryOk(e) && Listed(e) && e.size == (|data| + 511) / 512
    requires forall l :: e.start <= l < e.start + e.size ==> d.sectors[l] == Chunk(data, l - e.start)
    ensures Contents(d, e) == Pad(data)
  {
    forall j | 0 <= j < 512 * e.size
      ensures Contents(d, e)[j] == Pad(data)[j]
    {
      var k := j / 512;
      assert d.sectors[e.start + k] == Chunk(data, k);
      assert 512 * k + j % 512 == j;
    }
  }

  // ----- deletion -----

  lemma DeleteEffect(s: Fs, i: nat)
    requires Inv(s) && i < MAX_FILES && Listed(s.root.files[i])
    ensures Find(s.root.files, CStr(s.root.files[i].name)) == i
    ensures var (s', ok) := Delete(s, CStr(s.root.files[i].name));
      && ok && Inv(s') && s'.root.files == s.root.files[i := EmptyEntry()]
      && SameOutside(s.disk, s'.disk, 0, 0)
  {
    var files, e := s.root.files, s.root.files[i];
    assert EntryOk(e);
    FindListed(files, i);
    RemoveKeepsAlloc(files, s.bitmap, i);
    var marked := Mark(s, e.start, e.size, 0);
    assert Healthy(marked.disk);
    assert SameOutside(s.disk, marked.disk, 0, 0);
    SaveRootEffect(marked.disk, s.root.(files := files[i := EmptyEntry()]));
  }

  /** fs_delete_file removes exactly `n` from the map, and reports whether it was there. */
  lemma DeleteRefines(s: Fs, m: map<Name, seq<byte>>, n: Name)
    requires Inv(s) && Represents(s, m)
    ensures var (s', ok) := Delete(s, n);
      Inv(s') && (ok <==> n in m) && Represents(s', m - {n})
  {
    LookupRefines(s, m, n);
    if n in m {
      var i := Find(s.root.files, n);
      DeleteEffect(s, i);
      RemoveRepresents(s, m, Delete(s, n).0, i);
    } else {
      assert m - {n} == m;
    }
  }

  lemma RemoveRepresents(s: Fs, m: map<Name, seq<byte>>, s': Fs, i: nat)
    requires EntriesOk(s.root.files) && UniqueNames(s.root.files) && Healthy(s.disk) && Represents(s, m)
    requires EntriesOk(s'.root.files) && Healthy(s'.disk)
    requires i < MAX_FILES && Listed(s.root.files[i]) && s'.root.files == s.root.files[i := EmptyEntry()]
    requires SameOutside(s.disk, s'.disk, 0, 0)
    ensures Represents(s', m - {CStr(s.root.files[i].name)})
  {
    hide CStr, Contents;
    var files, files', n := s.root.files, s'.root.files, CStr(s.root.files[i].name);
    var m' := m - {n};
    forall j, x | 0 <= j < MAX_FILES && Called(files'[j], x)
      ensures x in m' && m'[x] == Contents(s'.disk, files'[j])
    {
      StillCalled(files, i, j, x);
      SameContents(s.disk, s'.disk, files[j]);
    }
    forall x | x in m'
      ensures exists j :: 0 <= j < MAX_FILES && Called(files'[j], x)
    {
      var j :| 0 <= j < MAX_FILES && Called(files[j], x);
      assert files'[j] == files[j];
    }
  }

  lemma StillCalled(files: FileTable, i: nat, j: nat, x: Name)
    requires UniqueNames(files)
    requires i < MAX_FILES && j < MAX_FILES && Listed(files[i]) && Called(files[i := EmptyEntry()][j], x)
    ensures j != i && Called(files[j], x) && x != CStr(files[i].name)
  {
    assert ZeroName()[0] == 0;
  }

  // ----- writing -----

  lemma StoredNameReads(old24: NameBuf, n: Name)
    requires 0 !in n && n != []
    ensures CStr(StoredName(old24, n)) == n[..Min(23, |n|)]
    ensures StoredName(old24, n)[0] != 0 && StoredName(old24, n)[23] == 0
  {
    CStrPrefix(n[..Min(23, |n|)], StoredName(old24, n));
  }

  /** The 32-bit rounding is exact precisely below the wrap-around; at the wrap it loses whole sectors. */
  lemma SectorCountExact(bytes: nat)
    requires 1 <= bytes < 0x1_0000_0000
    ensures SectorCount(bytes) == (bytes + 511) / 512 <==> bytes + 511 < 0x1_0000_0000
    ensures bytes + 511 >= 0x1_0000_0000 ==> SectorCount(bytes) == 0
  {
  }

  /** State after the data sectors are written and the run is marked, before the directory is searched. */
  ghost function Staged(s: Fs, k: nat, data: seq<byte>): Fs {
    Mark(s.(disk := WriteData(s.disk, DATA_LBA + k, data).0), DATA_LBA + k, SectorCount(|data|), 1)
  }

  lemma StagedEffect(s: Fs, k: nat, data: seq<byte>)
    requires Inv(s) && data != [] && Storable(data) && FreeRun(s.bitmap, k, SectorCount(|data|))
    ensures WriteData(s.disk, DATA_LBA + k, data).1
    ensures var t := Staged(s, k, data);
      && Mirrored(t) && t.root == s.root && t.bitmap == MarkBits(s.bitmap, k, SectorCount(|data|), 1)
      && SameOutside(s.disk, t.disk, k, SectorCount(|data|))
      && (forall l :: DATA_LBA + k <= l < DATA_LBA + k + SectorCount(|data|) ==>
            t.disk.sectors[l] == Chunk(data, l - DATA_LBA - k))
  {
    hide WriteData, Chunk, EncodeRoot, SectorCount, AllocInv;
    var count := SectorCount(|data|);
    SectorCountExact(|data|);
    assert AllWorking(s.disk, DATA_LBA + k, count) by {
      assert Healthy(s.disk);
    }
    WriteDataEffect(s.disk, DATA_LBA + k, data);
  }

  /** A free run lies outside every listed extent. */
  lemma FreeRunApart(files: FileTable, b: Sector, k: nat, count: nat, i: nat, l: nat)
    requires AllocInv(files, b) && FreeRun(b, k, count)
    requires i < MAX_FILES && Listed(files[i]) && files[i].start <= l < files[i].start + files[i].size
    ensures !(DATA_LBA + k <= l < DATA_LBA + k + count)
  {
    assert EntryOk(files[i]);
    assert Holds(files[i], l - DATA_LBA);
    assert Covered(files, l - DATA_LBA);
  }

  lemma FilesApart(s: Fs, k: nat, count: nat, d: Disk, i: nat)
    requires Inv(s) && FreeRun(s.bitmap, k, count)
    requires Healthy(d) && SameOutside(s.disk, d, k, count)
    requires i < MAX_FILES && Listed(s.root.files[i])
    ensures EntryOk(s.root.files[i]) && Contents(d, s.root.files[i]) == Contents(s.disk, s.root.files[i])
  {
    var e := s.root.files[i];
    assert EntryOk(e);
    forall l | e.start <= l < e.start + e.size
      ensures d.sectors[l] == s.disk.sectors[l]
    {
      FreeRunApart(s.root.files, s.bitmap, k, count, i, l);
    }
    SameContents(s.disk, d, e);
  }

  lemma AddEffect(s: Fs, k: nat, n: Name, data: seq<byte>)
    requires Inv(s) && Legal(n) && forall j :: 0 <= j < MAX_FILES ==> !Called(s.root.files[j], n)
    requires data != [] && Storable(data) && FreeRun(s.bitmap, k, SectorCount(|data|))
    requires FreeSlot(s.root.files) < MAX_FILES
    ensures var i := FreeSlot(s.root.files);
            var e := Entry(StoredName(s.root.files[i].name, n), DATA_LBA + k, SectorCount(|data|));
            var (s', ok) := AddEntry(Staged(s, k, data), n, DATA_LBA + k, SectorCount(|data|));
      && ok && Inv(s') && s'.root.files == s.root.files[i := e]
      && Called(e, n) && EntryOk(e) && SameOutside(s.disk, s'.disk, k, e.size)
      && Contents(s'.disk, e) == Pad(data)
  {
    hide WriteData, SaveRoot, Chunk, EncodeRoot, CStr, StoredName, MarkBits, Contents, Pad, Staged, UniqueNames, DisjointExtents, BitmapExact;
    var t := Staged(s, k, data);
    StagedEffect(s, k, data);
    SectorCountExact(|data|);
    var files, i := s.root.files, FreeSlot(s.root.files);
    var e := Entry(StoredName(files[i].name, n), DATA_LBA + k, SectorCount(|data|));
    StoredNameReads(files[i].name, n);
    assert n[..|n|] == n;
    forall j | 0 <= j < MAX_FILES && Listed(files[j])
      ensures CStr(files[j].name) != CStr(e.name)
    {
      assert !Called(files[j], n);
    }
    AddKeepsAlloc(files, s.bitmap, i, e);
    var r := s.root.(files := files[i := e]);
    SaveRootEffect(t.disk, r);
    var d := SaveRoot(t.disk, r).0;
    assert AddEntry(t, n, DATA_LBA + k, SectorCount(|data|)) == (Fs(d, r, t.bitmap), true);
    WrittenContents(d, e, data);
  }

  lemma AddRefines(s: Fs, m: map<Name, seq<byte>>, k: nat, n: Name, data: seq<byte>)
    requires Inv(s) && Represents(s, m) && Legal(n) && n !in m
    requires data != [] && Storable(data) && FreeRun(s.bitmap, k, SectorCount(|data|))
    requires FreeSlot(s.root.files) < MAX_FILES
    ensures var (s', ok) := AddEntry(Staged(s, k, data), n, DATA_LBA + k, SectorCount(|data|));
      ok && Inv(s') && Represents(s', m[n := Pad(data)])
  {
    hide AddEntry, Staged, Contents, Pad, UniqueNames, DisjointExtents, BitmapExact, StoredName, FreeRun;
    AddEffect(s, k, n, data);
    var i := FreeSlot(s.root.files);
    var e := Entry(StoredName(s.root.files[i].name, n), DATA_LBA + k, SectorCount(|data|));
    AddRepresents(s, m, AddEntry(Staged(s, k, data), n, DATA_LBA + k, SectorCount(|data|)).0, i, e, k);
  }

  lemma AddRepresents(s: Fs, m: map<Name, seq<byte>>, s': Fs, i: nat, e: Entry, k: nat)
    requires Inv(s) && Represents(s, m) && CStr(e.name) !in m
    requires EntriesOk(s'.root.files) && Healthy(s'.disk)
    requires FreeRun(s.bitmap, k, e.size) && SameOutside(s.disk, s'.disk, k, e.size)
    requires i < MAX_FILES && !Listed(s.root.files[i]) && s'.root.files == s.root.files[i := e]
    requires Listed(e) && EntryOk(e)
    ensures Represents(s', m[CStr(e.name) := Contents(s'.disk, e)])
  {
    hide CStr, Contents;
    var n := CStr(e.name);
    var files, files', m' := s.root.files, s'.root.files, m[n := Contents(s'.disk, e)];
    forall j, x | 0 <= j < MAX_FILES && Called(files'[j], x)
      ensures x in m' && m'[x] == Contents(s'.disk, files'[j])
    {
      if j != i {
        assert Called(files[j], x);
        FilesApart(s, k, e.size, s'.disk, j);
      }
    }
    forall x | x in m'
      ensures exists j :: 0 <= j < MAX_FILES && Called(files'[j], x)
    {
      if x == n {
        assert Called(files'[i], n);
      } else {
        var j :| 0 <= j < MAX_FILES && Called(files[j], x);
        assert Called(files'[j], x);
      }
    }
  }

  /** With a full directory the allocation is undone: the bitmap and every file are as before. */
  lemma RollbackRefines(s: Fs, m: map<Name, seq<byte>>, k: nat, data: seq<byte>)
    requires Inv(s) && Represents(s, m)
    requires data != [] && Storable(data) && FreeRun(s.bitmap, k, SectorCount(|data|))
    ensures var s' := Mark(Staged(s, k, data), DATA_LBA + k, SectorCount(|data|), 0);
      Inv(s') && s'.bitmap == s.bitmap && s'.root == s.root && Represents(s', m)
  {
    hide CStr, Contents, WriteData, SectorCount;
    var s' := Mark(Staged(s, k, data), DATA_LBA + k, SectorCount(|data|), 0);
    StagedEffect(s, k, data);
    UnmarkRestores(s.bitmap, k, SectorCount(|data|));
    forall i | 0 <= i < MAX_FILES && Listed(s.root.files[i])
      ensures Contents(s'.disk, s.root.files[i]) == Contents(s.disk, s.root.files[i])
    {
      FilesApart(s, k, SectorCount(|data|), s'.disk, i);
    }
  }

  ghost predicate HasFreeRun(b: Sector, count: nat) {
    exists k :: FreeRun(b, k, count)
  }

  ghost predicate HasFreeSlot(files: FileTable) {
    exists i :: 0 <= i < MAX_FILES && !Listed(files[i])
  }

  lemma PlaceInRun(s: Fs, n: Name, data: seq<byte>, k: nat)
    requires FindRun(s.bitmap, SectorCount(|data|)) == Some(k)
    requires WriteData(s.disk, DATA_LBA + k, data).1
    ensures var count := SectorCount(|data|);
            var (s', added) := AddEntry(Staged(s, k, data), n, DATA_LBA + k, count);
            Place(s, n, data) == if added then (s', true) else (Mark(s', DATA_LBA + k, count, 0), false)
  {
  }

  /** What fs_write_file does once no entry is called `n`. */
  lemma PlaceRefines(s: Fs, m: map<Name, seq<byte>>, n: Name, data: seq<byte>)
    requires Inv(s) && Represents(s, m) && Legal(n) && n !in m
    requires data != [] && Storable(data)
    ensures var (s', ok) := Place(s, n, data);
      && Inv(s')
      && Represents(s', if ok then m[n := Pad(data)] else m)
      && (ok <==> HasFreeRun(s.bitmap, SectorCount(|data|)) && HasFreeSlot(s.root.files))
  {
    var count := SectorCount(|data|);
    SectorCountExact(|data|);
    match FindRun(s.bitmap, count)
    case None =>
      assert !HasFreeRun(s.bitmap, count);
    case Some(k) =>
      assert HasFreeRun(s.bitmap, count);
      StagedEffect(s, k, data);
      PlaceInRun(s, n, data, k);
      SlotFound(s.root.files);
      if HasFreeSlot(s.root.files) {
        AddRefines(s, m, k, n, data);
      } else {
        RollbackRefines(s, m, k, data);
      }
  }

  lemma SlotFound(files: FileTable)
    ensures HasFreeSlot(files) <==> FreeSlot(files) < MAX_FILES
  {
    if FreeSlot(files) < MAX_FILES {
      assert !Listed(files[FreeSlot(files)]);
    }
  }

  /**
    fs_write_file: the invariant holds again; on success exactly `n` is set, to the padded data;
    on failure exactly the previous version of `n`, if any, is gone. It succeeds exactly when,
    once the old version is removed, a long enough free run and a directory slot exist.
  */
  lemma WriteRefines(s: Fs, m: map<Name, seq<byte>>, n: Name, data: seq<byte>)
    requires Inv(s) && Represents(s, m)
    requires Legal(n) && data != [] && Storable(data)
    ensures var (s', ok) := Write(s, n, data);
      && Inv(s')
      && Represents(s', if ok then m[n := Pad(data)] else m - {n})
      && (ok <==> var s1 := Delete(s, n).0;
                  HasFreeRun(s1.bitmap, SectorCount(|data|)) && HasFreeSlot(s1.root.files))
  {
    DeleteRefines(s, m, n);
    var s1, m1 := Delete(s, n).0, m - {n};
    assert m1[n := Pad(data)] == m[n := Pad(data)];
    PlaceRefines(s1, m1, n, data);
    assert Write(s, n, data) == Place(s1, n, data);
  }

  // ----- the directory slot, seen from the map -----

  ghost function NamesUpTo(files: FileTable, k: nat): set<Name>
    requires k <= MAX_FILES
  {
    if k == 0 then {}
    else NamesUpTo(files, k - 1) + (if Listed(files[k - 1]) then {CStr(files[k - 1].name)} else {})
  }

  function ListedUpTo(files: FileTable, k: nat): nat
    requires k <= MAX_FILES
  {
    if k == 0 then 0 else ListedUpTo(files, k - 1) + if Listed(files[k - 1]) then 1 else 0
  }

  lemma {:induction false} NamesMembers(files: FileTable, k: nat, n: Name)
    requires k <= MAX_FILES
    ensures n in NamesUpTo(files, k) <==> exists i :: 0 <= i < k && Called(files[i], n)
  {
    hide CStr;
    if k > 0 {
      NamesMembers(files, k - 1, n);
      if Called(files[k - 1], n) {
        assert n in NamesUpTo(files, k);
      }
    }
  }

  lemma {:induction false} NamesCount(files: FileTable, k: nat)
    requires UniqueNames(files) && k <= MAX_FILES
    ensures |NamesUpTo(files, k)| == ListedUpTo(files, k) <= k
    ensures ListedUpTo(files, k) == k <==> forall i :: 0 <= i < k ==> Listed(files[i])
  {
    hide CStr;
    if k > 0 {
      NamesCount(files, k - 1);
      if Listed(files[k - 1]) {
        var n := CStr(files[k - 1].name);
        NamesMembers(files, k - 1, n);
        assert n !in NamesUpTo(files, k - 1);
      }
    }
  }

  /** A directory slot is free exactly when the map has fewer than 32 names. */
  lemma SlotIffRoom(s: Fs, m: map<Name, seq<byte>>)
    requires Inv(s) && Represents(s, m)
    ensures HasFreeSlot(s.root.files) <==> |m| < MAX_FILES
  {
    hide CStr, Contents, BitmapExact, DisjointExtents, Mirrored;
    var files := s.root.files;
    NamesCount(files, MAX_FILES);
    forall n
      ensures n in NamesUpTo(files, MAX_FILES) <==> n in m
    {
      NamesMembers(files, MAX_FILES, n);
    }
    assert NamesUpTo(files, MAX_FILES) == m.Keys;
    assert |m| == |m.Keys|;
  }
}
