/** The driver as written: state updated in place, loops over sectors, bytes and directory slots. */
module FsDriver {
  import opened Bytes
  import opened FsModel

  /** One sector buffer: `chunk` bytes of `data` from `off` on, then zeros. */
  method FillSector(data: seq<byte>, off: nat, chunk: nat) returns (buf: Sector)
    requires off + chunk <= |data| && chunk <= 512
    ensures forall i :: 0 <= i < 512 ==> buf[i] == if i < chunk then data[off + i] else 0
  {
    var b: seq<byte> := [];
    for i := 0 to 512
      invariant |b| == i
      invariant forall j :: 0 <= j < i ==> b[j] == if j < chunk then data[off + j] else 0
    {
      b := b + [if i < chunk then data[off + i] else 0];
    }
    buf := b;
  }

  class FileSystem {
    var disk: Disk
    var root: Root
    var bitmap: Sector

    ghost function State(): Fs
      reads this
    {
      Fs(disk, root, bitmap)
    }

    constructor (d: Disk)
      ensures State() == Init(d)
    {
      disk := d;
      root := BlankRoot();
      bitmap := ZeroSector();
      new;
      var loaded := RootLoad();
      if !loaded || root.magic != MAGIC {
        root := BlankRoot();
        bitmap := ZeroSector();
        BitmapPersist();
        var saved := RootSave();
      } else if Working(disk, BITMAP_LBA) {
        bitmap := disk.sectors[BITMAP_LBA];
      } else {
        bitmap := ZeroSector();
      }
    }

    method AtaWrite(lba: nat, s: Sector) returns (ok: bool)
      modifies this`disk
      ensures disk == WriteSector(old(disk), lba, s) && ok == Working(old(disk), lba)
    {
      ok := lba < |disk.sectors| && lba !in disk.bad;
      if ok {
        disk := disk.(sectors := disk.sectors[lba := s]);
      }
    }

    method RootLoad() returns (ok: bool)
      modifies this`root
      ensures ok <==> RootReadable(disk)
      ensures ok ==> root == DecodeRoot(RawRoot(disk))
    {
      var raw: seq<byte> := [];
      for s := 0 to ROOT_SECTORS
        invariant |raw| == Min(512 * s, ROOT_SIZE)
        invariant forall l :: ROOT_LBA <= l < ROOT_LBA + s ==> Working(disk, l)
        invariant forall j :: 0 <= j < |raw| ==> ROOT_LBA + j / 512 < |disk.sectors| && raw[j] == disk.sectors[ROOT_LBA + j / 512][j % 512]
      {
        if !Working(disk, ROOT_LBA + s) {
          return false;
        }
        var buf := disk.sectors[ROOT_LBA + s];
        var chunk := Min(512, ROOT_SIZE - 512 * s);
        for i := 0 to chunk
          invariant |raw| == 512 * s + i
          invariant forall j :: 0 <= j < |raw| ==> ROOT_LBA + j / 512 < |disk.sectors| && raw[j] == disk.sectors[ROOT_LBA + j / 512][j % 512]
        {
          raw := raw + [buf[i]];
        }
      }
      assert Working(disk, ROOT_LBA) && Working(disk, ROOT_LBA + 1) && Working(disk, ROOT_LBA + 2);
      assert raw == RawRoot(disk);
      root := DecodeRoot(raw);
      return true;
    }

    method RootSave() returns (ok: bool)
      modifies this`disk
      ensures (disk, ok) == SaveRoot(old(disk), root)
    {
      var raw := EncodeRoot(root);
      for s := 0 to ROOT_SECTORS
        invariant SaveRoot(old(disk), root) == SaveRoot(disk, root, s)
      {
        var buf := FillSector(raw, 512 * s, Min(512, ROOT_SIZE - 512 * s));
        assert buf == Chunk(raw, s);
        ok := AtaWrite(ROOT_LBA + s, buf);
        if !ok {
          return;
        }
      }
      ok := true;
    }

    method BitmapPersist()
      modifies this`disk
      ensures disk == WriteSector(old(disk), BITMAP_LBA, bitmap)
    {
      var ok := AtaWrite(BITMAP_LBA, bitmap);
    }

    /** One left-to-right scan finds the lowest run of `count` free sectors; 0 when there is none. */
    method BitmapFindFreeRun(count: nat) returns (lba: nat)
      ensures lba == match FindRun(bitmap, count) case Some(k) => DATA_LBA + k case None => 0
    {
      ghost var want := if count == 0 then 1 else count;
      var runStart, runLen := 0, 0;
      for i := 0 to DATA_BITS
        invariant runLen < want && runLen <= i
        invariant runLen > 0 ==> runStart == i - runLen
        invariant forall k :: i - runLen <= k < i ==> bitmap[k] == 0
        invariant runLen < i ==> bitmap[i - runLen - 1] != 0
        invariant forall j: nat :: j + want <= i ==> !FreeRun(bitmap, j, want)
      {
        if bitmap[i] == 0 {
          if runLen == 0 {
            runStart := i;
          }
          runLen := runLen + 1;
          if runLen >= count {
            assert FreeRun(bitmap, runStart, want);
            return DATA_LBA + runStart;
          }
        } else {
          runLen := 0;
        }
      }
      return 0;
    }

    method BitmapMark(start: nat, count: nat, used: byte)
      modifies this`bitmap, this`disk
      ensures State() == Mark(old(State()), start, count, used)
    {
      if start < DATA_LBA {
        return;
      }
      var idx, i := start - DATA_LBA, 0;
      while i < count && idx + i < DATA_BITS
        invariant 0 <= i <= count && disk == old(disk)
        invariant i > 0 ==> idx + i <= DATA_BITS
        invariant forall k :: 0 <= k < 512 ==> bitmap[k] == if idx <= k < idx + i then used else old(bitmap[k])
        decreases count - i
      {
        bitmap := bitmap[idx + i := used];
        i := i + 1;
      }
      assert bitmap == MarkBits(old(bitmap), idx, count, used);
      BitmapPersist();
    }

    method FileExists(name: seq<byte>) returns (found: bool)
      requires 0 !in name
      ensures found == Exists(State(), name)
    {
      if name == [] {
        return false;
      }
      for i := 0 to MAX_FILES
        invariant Find(root.files, name) == Find(root.files, name, i)
      {
        var same := SameName(root.files[i].name, name);
        if same {
          return true;
        }
      }
      return false;
    }

    method LoadFile(name: seq<byte>, max: nat) returns (r: Option<seq<byte>>)
      requires 0 !in name
      ensures r == Load(State(), name, max)
    {
      if name == [] {
        return None;
      }
      for i := 0 to MAX_FILES
        invariant Find(root.files, name) == Find(root.files, name, i)
      {
        var same := SameName(root.files[i].name, name);
        if same {
          var e := root.files[i];
          if e.start < DATA_LBA || e.size == 0 || e.size > 0x100000 || e.start > 0xFFFFFFFF - e.size {
            return None;
          }
          if e.size * 512 > max {
            return None;
          }
          r := ReadExtent(e);
          return;
        }
      }
      return None;
    }

    method ReadExtent(e: Entry) returns (r: Option<seq<byte>>)
      ensures r == if AllWorking(disk, e.start, e.size) then Some(Contents(disk, e)) else None
    {
      var out: seq<byte> := [];
      for s := 0 to e.size
        invariant |out| == 512 * s
        invariant forall l :: e.start <= l < e.start + s ==> Working(disk, l)
        invariant forall j :: 0 <= j < |out| ==> e.start + j / 512 < |disk.sectors| && out[j] == disk.sectors[e.start + j / 512][j % 512]
      {
        if !Working(disk, e.start + s) {
          return None;
        }
        out := AppendSector(out, disk.sectors[e.start + s]);
      }
      if e.size == 0 && e.start > |disk.sectors| {
        return None;
      }
      if e.size > 0 {
        assert Working(disk, e.start + e.size - 1);
      }
      assert out == Contents(disk, e);
      return Some(out);
    }

    method AddEntryTo(name: seq<byte>, start: u32, size: u32) returns (ok: bool)
      requires 0 !in name && name != []
      modifies this`root, this`disk
      ensures (State(), ok) == AddEntry(old(State()), name, start, size)
    {
      for i := 0 to MAX_FILES
        invariant root == old(root) && disk == old(disk)
        invariant FreeSlot(root.files) == FreeSlot(root.files, i)
      {
        if root.files[i].name[0] == 0 {
          var stored := CopyName(root.files[i].name, name);
          root := root.(files := root.files[i := Entry(stored, start, size)]);
          ok := RootSave();
          return;
        }
      }
      return false;
    }

    /** fs_create_file. */
    method CreateFileAt(name: seq<byte>, start: u32, size: u32)
      requires 0 !in name
      modifies this`root, this`disk
      ensures State() == CreateFile(old(State()), name, start, size)
    {
      if name == [] || start < DATA_LBA || size == 0 {
        return;
      }
      var ok := AddEntryTo(name, start, size);
    }

    method DeleteFile(name: seq<byte>) returns (ok: bool)
      requires 0 !in name
      modifies this
      ensures (State(), ok) == Delete(old(State()), name)
    {
      if name == [] {
        return false;
      }
      for i := 0 to MAX_FILES
        invariant State() == old(State())
        invariant Find(root.files, name) == Find(root.files, name, i)
      {
        var same := SameName(root.files[i].name, name);
        if same {
          var e := root.files[i];
          BitmapMark(e.start, e.size, 0);
          root := root.(files := root.files[i := EmptyEntry()]);
          ok := RootSave();
          return;
        }
      }
      return false;
    }

    method WriteFile(name: seq<byte>, data: seq<byte>) returns (ok: bool)
      requires 0 !in name && |data| < 0x1_0000_0000
      modifies this
      ensures (State(), ok) == Write(old(State()), name, data)
    {
      if name == [] || data == [] {
        return false;
      }
      var present := FileExists(name);
      if present {
        var removed := DeleteFile(name);
      }
      ok := PlaceFile(name, data);
    }

    /** The part of fs_write_file_impl after the old version is gone. */
    method PlaceFile(name: seq<byte>, data: seq<byte>) returns (ok: bool)
      requires 0 !in name && name != [] && |data| < 0x1_0000_0000
      modifies this
      ensures (State(), ok) == Place(old(State()), name, data)
    {
      var count := SectorCount(|data|);
      assert count < 0x1_0000_0000;
      var start := BitmapFindFreeRun(count);
      if start == 0 {
        return false;
      }
      ok := WriteSectors(start, data);
      if !ok {
        return;
      }
      BitmapMark(start, count, 1);
      ok := AddEntryTo(name, start, count);
      if !ok {
        BitmapMark(start, count, 0);
      }
    }

    method WriteSectors(start: nat, data: seq<byte>) returns (ok: bool)
      modifies this`disk
      ensures (disk, ok) == WriteData(old(disk), start, data)
    {
      var lba, off := start, 0;
      while off < |data|
        invariant off <= |data|
        invariant WriteData(old(disk), start, data) == WriteData(disk, lba, data[off..])
        decreases |data| - off
      {
        var chunk := Min(512, |data| - off);
        var buf := FillSector(data, off, chunk);
        assert buf == Chunk(data[off..], 0);
        ok := AtaWrite(lba, buf);
        if !ok {
          return;
        }
        assert data[off..][chunk..] == data[off + chunk..];
        off := off + chunk;
        lba := lba + 1;
      }
      assert data[off..] == [];
      ok := true;
    }
  }

  method AppendSector(out: seq<byte>, s: Sector) returns (r: seq<byte>)
    ensures r == out + s
  {
    r := out;
    for k := 0 to 512
      invariant r == out + s[..k]
    {
      r := r + [s[k]];
    }
    assert s[..512] == s;
  }

  /** The byte loop of fs_add_entry: copies at most 23 bytes, stopping after the NUL. */
  method CopyName(old24: NameBuf, name: seq<byte>) returns (r: NameBuf)
    requires 0 !in name && name != []
    ensures r == StoredName(old24, name)
  {
    r := old24;
    var j := 0;
    while j < 23
      invariant 0 <= j <= 23 && j <= |name|
      invariant forall x :: 0 <= x < 24 ==> r[x] == if x < j then name[x] else old24[x]
    {
      var c: byte := if j < |name| then name[j] else 0;
      r := r[j := c];
      if c == 0 {
        break;
      }
      j := j + 1;
    }
    r := r[23 := 0];
    StoredNameBytes(old24, name);
    assert r == StoredName(old24, name);
  }

  lemma StoredNameBytes(old24: NameBuf, name: seq<byte>)
    ensures forall x :: 0 <= x < 24 ==>
              StoredName(old24, name)[x] == if x == 23 then 0 else if x < |name| then name[x] else if x == |name| then 0 else old24[x]
  {
  }

  /** valid_name: a NUL is met within the 24 bytes, and not at once. */
  method ValidNameField(name: NameBuf) returns (ok: bool)
    ensures ok == ValidName(name)
  {
    for i := 0 to 24
      invariant forall j :: 0 <= j < i ==> name[j] != 0
    {
      if name[i] == 0 {
        return i > 0;
      }
    }
    return false;
  }

  /** The guard of every lookup: valid_name on the field, then m_strcmp with the C string `n`. */
  method SameName(name: NameBuf, n: seq<byte>) returns (same: bool)
    requires 0 !in n
    ensures same == (ValidName(name) && CStr(name) == n)
  {
    var valid := ValidNameField(name);
    if !valid {
      return false;
    }
    CStrShape(name);
    ghost var c := CStr(name);
    assert |c| < 24;
    var j := 0;
    while name[j] != 0 && j < |n| && name[j] == n[j]
      invariant 0 <= j <= |c| && j <= |n| && name[..j] == n[..j]
      decreases 24 - j
    {
      j := j + 1;
    }
    same := name[j] == 0 && j == |n|;
    assert c == name[..|c|];
    assert same ==> n[..j] == n;
  }
}
