/**
  The file system of drivers/fs.c as a state and its operations: a root directory and a
  sector bitmap, both held in memory and mirrored on the disk. Disk sectors listed as bad
  (or beyond the end of the disk) make the sector I/O fail, so every error path is present.
*/
module FsModel {
  import opened Bytes

  const ROOT_LBA := 81
  const BITMAP_LBA := 85
  const DATA_LBA := 86
  const DATA_BITS := 511        // sectors the bitmap describes: FS_DATA_SECTORS - 1
  const DATA_END := 597         // first LBA after the data area
  const MAX_FILES := 32
  const MAGIC := 0x3153464D
  const ROOT_SIZE := 1056       // sizeof(RootDirectory), packed
  const ROOT_SECTORS := 3

  type Sector = s: seq<byte> | |s| == 512 witness seq(512, i => 0)
  type NameBuf = s: seq<byte> | |s| == 24 witness seq(24, i => 0)

  function ZeroSector(): Sector {
    seq(512, i => 0)
  }

  function ZeroName(): NameBuf {
    seq(24, i => 0)
  }

  datatype Disk = Disk(sectors: seq<Sector>, bad: set<nat>)

  datatype Entry = Entry(name: NameBuf, start: u32, size: u32)

  function EmptyEntry(): Entry {
    Entry(ZeroName(), 0, 0)
  }

  type FileTable = s: seq<Entry> | |s| == MAX_FILES witness seq(MAX_FILES, i => EmptyEntry())

  datatype Root = Root(magic: u32, files: FileTable, nextFree: u32, reserved: NameBuf)

  datatype Fs = Fs(disk: Disk, root: Root, bitmap: Sector)

  // ----- sector I/O -----

  predicate Working(d: Disk, lba: nat) {
    lba < |d.sectors| && lba !in d.bad
  }

  predicate AllWorking(d: Disk, lba: nat, count: nat) {
    lba + count <= |d.sectors| && forall l :: lba <= l < lba + count ==> Working(d, l)
  }

  function WriteSector(d: Disk, lba: nat, s: Sector): Disk {
    if Working(d, lba) then d.(sectors := d.sectors[lba := s]) else d
  }

  // ----- packed layout of the root directory -----

  function EncodeEntry(e: Entry): (s: seq<byte>)
    ensures |s| == 32
  {
    e.name + Le32(e.start) + Le32(e.size)
  }

  function EncodeRoot(r: Root): (s: seq<byte>)
    ensures |s| == ROOT_SIZE
  {
    Le32(r.magic)
    + seq(1024, j requires 0 <= j < 1024 => EncodeEntry(r.files[j / 32])[j % 32])
    + Le32(r.nextFree)
    + r.reserved
  }

  function DecodeEntry(raw: seq<byte>, at: nat): Entry
    requires at + 32 <= |raw|
  {
    Entry(raw[at..at + 24], Get32(raw, at + 24), Get32(raw, at + 28))
  }

  function DecodeRoot(raw: seq<byte>): Root
    requires |raw| == ROOT_SIZE
  {
    Root(Get32(raw, 0),
         seq(MAX_FILES, i requires 0 <= i < MAX_FILES => DecodeEntry(raw, 4 + 32 * i)),
         Get32(raw, 1028),
         raw[1032..1056])
  }

  /** The 512-byte slice of `data` number `k`, zero-padded past its end. */
  function Chunk(data: seq<byte>, k: nat): Sector {
    seq(512, i requires 0 <= i < 512 => if 512 * k + i < |data| then data[512 * k + i] else 0)
  }

  function SaveRoot(d: Disk, r: Root, s: nat := 0): (Disk, bool)
    requires s <= ROOT_SECTORS
    decreases ROOT_SECTORS - s
  {
    if s == ROOT_SECTORS then (d, true)
    else if !Working(d, ROOT_LBA + s) then (d, false)
    else SaveRoot(WriteSector(d, ROOT_LBA + s, Chunk(EncodeRoot(r), s)), r, s + 1)
  }

  predicate RootReadable(d: Disk) {
    Working(d, ROOT_LBA) && Working(d, ROOT_LBA + 1) && Working(d, ROOT_LBA + 2)
  }

  function RawRoot(d: Disk): (raw: seq<byte>)
    requires RootReadable(d)
    ensures |raw| == ROOT_SIZE
  {
    seq(ROOT_SIZE, j requires 0 <= j < ROOT_SIZE => d.sectors[ROOT_LBA + j / 512][j % 512])
  }

  function SaveTable(s: Fs): (Fs, bool) {
    var (d, ok) := SaveRoot(s.disk, s.root);
    (s.(disk := d), ok)
  }

  // ----- directory lookups -----

  predicate ValidName(name: NameBuf) {
    name[0] != 0 && 0 in name
  }

  predicate Matches(e: Entry, n: seq<byte>) {
    ValidName(e.name) && CStr(e.name) == n
  }

  /** Index of the first entry called `n` at or after `i`, or |files|. */
  function Find(files: seq<Entry>, n: seq<byte>, i: nat := 0): (r: nat)
    requires i <= |files|
    ensures i <= r <= |files|
    ensures forall j :: i <= j < r ==> !Matches(files[j], n)
    ensures r < |files| ==> Matches(files[r], n)
    decreases |files| - i
  {
    if i == |files| || Matches(files[i], n) then i else Find(files, n, i + 1)
  }

  /** Index of the first unused entry at or after `i`, or |files|. */
  function FreeSlot(files: seq<Entry>, i: nat := 0): (r: nat)
    requires i <= |files|
    ensures i <= r <= |files|
    ensures forall j :: i <= j < r ==> files[j].name[0] != 0
    ensures r < |files| ==> files[r].name[0] == 0
    decreases |files| - i
  {
    if i == |files| || files[i].name[0] == 0 then i else FreeSlot(files, i + 1)
  }

  predicate Exists(s: Fs, n: seq<byte>) {
    n != [] && Find(s.root.files, n) < MAX_FILES
  }

  // ----- bitmap -----

  predicate FreeRun(b: Sector, at: nat, count: nat) {
    at + count <= DATA_BITS && forall k :: at <= k < at + count ==> b[k] == 0
  }

  /** Lowest data-sector index of a free run of `count` sectors at or after `i`. */
  function LowestRun(b: Sector, count: nat, i: nat := 0): (r: Option<nat>)
    ensures r.Some? ==> i <= r.value && FreeRun(b, r.value, count)
    ensures forall j :: i <= j && (r.Some? ==> j < r.value) ==> !FreeRun(b, j, count)
    decreases DATA_BITS - i
  {
    if i + count > DATA_BITS then None
    else if FreeRun(b, i, count) then Some(i)
    else LowestRun(b, count, i + 1)
  }

  /** The run fs_write_file looks for; asked for 0 sectors, the scan still wants one. */
  function FindRun(b: Sector, count: nat): Option<nat> {
    LowestRun(b, if count == 0 then 1 else count)
  }

  function MarkBits(b: Sector, at: nat, count: nat, used: byte): Sector {
    seq(512, k requires 0 <= k < 512 => if at <= k < at + count && k < DATA_BITS then used else b[k])
  }

  function Mark(s: Fs, start: nat, count: nat, used: byte): Fs {
    if start < DATA_LBA then s
    else
      var b := MarkBits(s.bitmap, start - DATA_LBA, count, used);
      s.(bitmap := b, disk := WriteSector(s.disk, BITMAP_LBA, b))
  }

  // ----- operations -----

  /** A freshly formatted root directory. */
  function BlankRoot(): Root {
    Root(MAGIC, seq(MAX_FILES, i => EmptyEntry()), DATA_LBA, ZeroName())
  }

  /** fs_init: adopt the directory found on the disk, or format it. */
  function Init(d: Disk): Fs {
    if RootReadable(d) && DecodeRoot(RawRoot(d)).magic == MAGIC then
      Fs(d, DecodeRoot(RawRoot(d)), if Working(d, BITMAP_LBA) then d.sectors[BITMAP_LBA] else ZeroSector())
    else
      SaveTable(Fs(WriteSector(d, BITMAP_LBA, ZeroSector()), BlankRoot(), ZeroSector())).0
  }

  /** Name field after fs_add_entry: at most 23 bytes copied, the rest of the old buffer kept, a final NUL. */
  function StoredName(old24: NameBuf, n: seq<byte>): NameBuf {
    if |n| >= 23 then n[..23] + [0] else n + [0] + old24[|n| + 1..23] + [0]
  }

  function AddEntry(s: Fs, n: seq<byte>, start: u32, size: u32): (Fs, bool) {
    var i := FreeSlot(s.root.files);
    if i == MAX_FILES then (s, false)
    else
      var e := Entry(StoredName(s.root.files[i].name, n), start, size);
      SaveTable(s.(root := s.root.(files := s.root.files[i := e])))
  }

  /** fs_create_file: an entry over sectors the caller chose, which it does not mark. */
  function CreateFile(s: Fs, n: seq<byte>, start: u32, size: u32): Fs {
    if n == [] || start < DATA_LBA || size == 0 then s else AddEntry(s, n, start, size).0
  }

  function Delete(s: Fs, n: seq<byte>): (Fs, bool) {
    if !Exists(s, n) then (s, false)
    else
      var i := Find(s.root.files, n);
      var e := s.root.files[i];
      var marked := Mark(s, e.start, e.size, 0);
      SaveTable(marked.(root := s.root.(files := s.root.files[i := EmptyEntry()])))
  }

  /** Sector count computed in 32-bit arithmetic. */
  function SectorCount(bytes: nat): nat {
    Wrap(bytes + 511) / 512
  }

  function WriteData(d: Disk, lba: nat, data: seq<byte>): (Disk, bool)
    decreases |data|
  {
    if data == [] then (d, true)
    else if !Working(d, lba) then (d, false)
    else WriteData(WriteSector(d, lba, Chunk(data, 0)), lba + 1, data[Min(512, |data|)..])
  }

  /** Allocation, data sectors and directory entry of a file whose name is not listed. */
  function Place(s: Fs, n: seq<byte>, data: seq<byte>): (Fs, bool) {
    var count := SectorCount(|data|);
    match FindRun(s.bitmap, count)
    case None => (s, false)
    case Some(k) =>
      var (d, written) := WriteData(s.disk, DATA_LBA + k, data);
      if !written then (s.(disk := d), false)
      else
        var marked := Mark(s.(disk := d), DATA_LBA + k, count, 1);
        var (s', added) := AddEntry(marked, n, DATA_LBA + k, count);
        if added then (s', true) else (Mark(s', DATA_LBA + k, count, 0), false)
  }

  function Write(s: Fs, n: seq<byte>, data: seq<byte>): (Fs, bool) {
    if n == [] || data == [] then (s, false) else Place(Delete(s, n).0, n, data)
  }

  /** fs_load_file: the bytes of the file, or nothing when one of its checks fails. */
  function Load(s: Fs, n: seq<byte>, max: nat): Option<seq<byte>> {
    if !Exists(s, n) then None
    else
      var e := s.root.files[Find(s.root.files, n)];
      if e.start < DATA_LBA || e.size == 0 || e.size > 0x100000 || e.start > 0xFFFFFFFF - e.size then None
      else if e.size * 512 > max then None
      else if !AllWorking(s.disk, e.start, e.size) then None
      else Some(Contents(s.disk, e))
  }

  /** The bytes stored in an entry's extent. */
  function Contents(d: Disk, e: Entry): seq<byte>
    requires e.start + e.size <= |d.sectors|
  {
    seq(512 * e.size, j requires 0 <= j < 512 * e.size => d.sectors[e.start + j / 512][j % 512])
  }
}
