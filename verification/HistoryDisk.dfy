/** The history kept in history.dat: what is saved is what the next boot loads. */
module HistoryDisk {
  import opened Bytes
  import opened HistoryModel
  import Fs = FsModel
  import FsInvariant
  import FsRefinement
  import FsRuns

  /** "history.dat" */
  const HISTORY_FILE: seq<byte> := [104, 105, 115, 116, 111, 114, 121, 46, 100, 97, 116]

  const LOAD_MAX := 2048

  /** history_save: nothing for an empty history, else delete and rewrite the file. */
  function Save(s: Fs.Fs, sh: Shell): (Fs.Fs, bool)
    requires |sh.ring| == RING
  {
    var text := Serialize(Recent(sh));
    if text == [] then (s, false) else Fs.Write(Fs.Delete(s, HISTORY_FILE).0, HISTORY_FILE, text)
  }

  function PushAll(sh: Shell, cs: seq<Text>): (r: Shell)
    requires |sh.ring| == RING
    ensures |r.ring| == RING && r.input == sh.input && r.nav == sh.nav && r.saved == sh.saved
  {
    if cs == [] then sh else Push(PushAll(sh, cs[..|cs| - 1]), cs[|cs| - 1])
  }

  /** history_load_from_disk: the file up to its first NUL, line by line. */
  function LoadAtBoot(s: Fs.Fs, sh: Shell): Shell
    requires |sh.ring| == RING
  {
    if !Fs.Exists(s, HISTORY_FILE) then sh
    else
      match Fs.Load(s, HISTORY_FILE, LOAD_MAX)
      case None => sh
      case Some(bytes) => PushAll(sh, Parse(CStr(bytes)))
  }

  function FreshShell(): Shell {
    Shell([], seq(RING, i => []), 0, -1, [])
  }

  lemma {:induction false} PushAllInv(cs: seq<Text>)
    requires forall i :: 0 <= i < |cs| ==> Command(cs[i])
    ensures Inv(PushAll(FreshShell(), cs))
  {
    if cs != [] {
      PushAllInv(cs[..|cs| - 1]);
      PushInv(PushAll(FreshShell(), cs[..|cs| - 1]), cs[|cs| - 1]);
    }
  }

  lemma {:induction false} PushAllRecent(cs: seq<Text>)
    requires |cs| <= RING && forall i :: 0 <= i < |cs| ==> |cs[i]| <= LINE
    ensures Recent(PushAll(FreshShell(), cs)) == cs
  {
    if cs != [] {
      var init, c := cs[..|cs| - 1], cs[|cs| - 1];
      PushAllRecent(init);
      PushRecent(PushAll(FreshShell(), init), c);
      assert Cut(c) == c && init + [c] == cs;
    }
  }

  /** Padding is recognised: the text ends at the first NUL, or fills its sectors exactly. */
  lemma TrimPadded(data: Text)
    requires 0 !in data
    ensures CStr(FsRefinement.Pad(data)) == data
  {
    CStrPrefix(data, FsRefinement.Pad(data));
  }

  /** Once the old file is gone, a free run for the new text and a directory slot exist. */
  ghost predicate RoomToSave(s: Fs.Fs, sh: Shell)
    requires |sh.ring| == RING
  {
    var s1 := Fs.Delete(s, HISTORY_FILE).0;
    FsRefinement.HasFreeRun(s1.bitmap, Fs.SectorCount(|Serialize(Recent(sh))|)) && FsRefinement.HasFreeSlot(s1.root.files)
  }

  /** A save sets history.dat when there is room, and loses it when there is none; other files are kept. */
  lemma SaveRefines(s: Fs.Fs, m: map<FsRefinement.Name, seq<byte>>, sh: Shell)
    requires FsInvariant.Inv(s) && FsRefinement.Represents(s, m) && Inv(sh)
    ensures var (s', ok) := Save(s, sh);
      && FsInvariant.Inv(s')
      && (sh.count == 0 ==> s' == s && !ok)
      && (sh.count > 0 ==>
            && (ok <==> RoomToSave(s, sh))
            && FsRefinement.Represents(s', if ok then m[HISTORY_FILE := FsRefinement.Pad(Serialize(Recent(sh)))] else m - {HISTORY_FILE}))
  {
    hide Fs.Write, Fs.Delete, FsRefinement.Pad, FsRefinement.Represents, FsInvariant.Inv, Recent, Serialize,
         FsRefinement.HasFreeRun, FsRefinement.HasFreeSlot, Fs.SectorCount;
    var text := Serialize(Recent(sh));
    RecentCommands(sh);
    ParseSerialize(Recent(sh));
    SaveNotEmpty(sh);
    if sh.count > 0 {
      FsRefinement.DeleteRefines(s, m, HISTORY_FILE);
      var s1, m1 := Fs.Delete(s, HISTORY_FILE).0, m - {HISTORY_FILE};
      FsRefinement.WriteRefines(s1, m1, HISTORY_FILE, text);
      DeleteAbsent(s1, m1);
      assert m1[HISTORY_FILE := FsRefinement.Pad(text)] == m[HISTORY_FILE := FsRefinement.Pad(text)];
      assert m1 - {HISTORY_FILE} == m1;
    }
  }

  lemma DeleteAbsent(s: Fs.Fs, m: map<FsRefinement.Name, seq<byte>>)
    requires FsInvariant.Inv(s) && FsRefinement.Represents(s, m) && HISTORY_FILE !in m
    ensures Fs.Delete(s, HISTORY_FILE).0 == s
  {
    hide FsInvariant.Inv, FsRefinement.Represents, Fs.Exists;
    FsRefinement.LookupRefines(s, m, HISTORY_FILE);
  }

  /** A disk holding the text of `cs` makes the next boot push exactly `cs`. */
  lemma BootLoads(s: Fs.Fs, m: map<FsRefinement.Name, seq<byte>>, cs: seq<Text>)
    requires FsInvariant.Inv(s) && FsRefinement.Represents(s, m)
    requires |cs| <= RING && forall i :: 0 <= i < |cs| ==> Command(cs[i])
    requires HISTORY_FILE in m && m[HISTORY_FILE] == FsRefinement.Pad(Serialize(cs))
    ensures LoadAtBoot(Fs.Init(s.disk), FreshShell()) == PushAll(FreshShell(), cs)
  {
    hide Fs.Init, Fs.Load, Fs.Exists, FsRefinement.Represents, FsInvariant.Inv, Serialize, Parse, PushAll, CStr, FsRefinement.Pad, FreshShell;
    var text := Serialize(cs);
    FsInvariant.RebootRestores(s);
    FsRefinement.LookupRefines(s, m, HISTORY_FILE);
    FsRefinement.LoadRefines(s, m, HISTORY_FILE, LOAD_MAX);
    ParseSerialize(cs);
    PadLength(text);
    TrimPadded(text);
  }

  /** Without the file the next boot starts with an empty history. */
  lemma BootEmpty(s: Fs.Fs, m: map<FsRefinement.Name, seq<byte>>)
    requires FsInvariant.Inv(s) && FsRefinement.Represents(s, m) && HISTORY_FILE !in m
    ensures LoadAtBoot(Fs.Init(s.disk), FreshShell()) == FreshShell()
  {
    hide Fs.Init, Fs.Load, Fs.Exists, FsRefinement.Represents, FsInvariant.Inv, FreshShell;
    FsInvariant.RebootRestores(s);
    FsRefinement.LookupRefines(s, m, HISTORY_FILE);
  }

  lemma FreshRecent()
    ensures Recent(FreshShell()) == [] && Inv(FreshShell())
    ensures FreshShell().input == [] && FreshShell().nav == -1 && FreshShell().saved == []
  {
  }

  /**
    Whatever the history, the shell started after a save and a reboot remembers the same commands in
    the same order exactly when the disk has room for them; otherwise it remembers none.
  */
  lemma HistorySurvivesReboot(s: Fs.Fs, m: map<FsRefinement.Name, seq<byte>>, sh: Shell)
    requires FsInvariant.Inv(s) && FsRefinement.Represents(s, m) && Inv(sh) && sh.count > 0
    ensures var sh' := LoadAtBoot(Fs.Init(Save(s, sh).0.disk), FreshShell());
      && |sh'.ring| == RING && Inv(sh')
      && (Recent(sh') == Recent(sh) <==> RoomToSave(s, sh))
      && (!RoomToSave(s, sh) ==> Recent(sh') == [])
  {
    hide Fs.Init, Save, LoadAtBoot, FsRefinement.Represents, FsInvariant.Inv, Serialize, Recent, PushAll, FsRefinement.Pad, FreshShell,
         Command, RoomToSave;
    var s', cs := Save(s, sh).0, Recent(sh);
    SaveRefines(s, m, sh);
    FreshRecent();
    if RoomToSave(s, sh) {
      RecentCommands(sh);
      BootLoads(s', m[HISTORY_FILE := FsRefinement.Pad(Serialize(cs))], cs);
      CommandLengths(cs);
      PushAllRecent(cs);
      PushAllInv(cs);
    } else {
      BootEmpty(s', m - {HISTORY_FILE});
    }
  }

  /** One file of 511 sectors on a formatted disk is enough to lose any history at the next reboot. */
  lemma FullDiskLosesHistory(d: Fs.Disk, n: FsRefinement.Name, data: seq<byte>, sh: Shell)
    requires FsInvariant.Healthy(d) && Fs.DecodeRoot(Fs.RawRoot(d)).magic != Fs.MAGIC
    requires FsRefinement.Legal(n) && n != HISTORY_FILE && |data| == Fs.DATA_BITS * 512
    requires Inv(sh) && sh.count > 0
    ensures var s := Fs.Write(Fs.Init(d), n, data).0;
      Recent(sh) != [] && Recent(LoadAtBoot(Fs.Init(Save(s, sh).0.disk), FreshShell())) == []
  {
    hide Fs.Init, Fs.Write, Fs.Delete, Fs.DecodeRoot, Fs.RawRoot, Save, LoadAtBoot, FsRefinement.Represents, FsInvariant.Inv, Serialize,
         FsRefinement.Pad, FreshShell, Fs.SectorCount, FsRefinement.HasFreeRun, FsInvariant.Healthy;
    var s, m := Fs.Write(Fs.Init(d), n, data).0, map[n := FsRefinement.Pad(data)];
    FsRuns.FirstFile(d, n, data);
    DeleteAbsent(s, m);
    SaveNotEmpty(sh);
    RecentCommands(sh);
    ParseSerialize(Recent(sh));
    var bytes := |Serialize(Recent(sh))|;
    OneSector(bytes);
    FsRuns.DiskFull(d, n, data, Fs.SectorCount(bytes));
    HistorySurvivesReboot(s, m, sh);
  }

  lemma OneSector(bytes: nat)
    requires 1 <= bytes <= SAVE_MAX
    ensures Fs.SectorCount(bytes) >= 1
  {
  }

  lemma CommandLengths(cs: seq<Text>)
    requires forall i :: 0 <= i < |cs| ==> Command(cs[i])
    ensures forall i :: 0 <= i < |cs| ==> |cs[i]| <= LINE
  {
  }

  lemma PadLength(text: Text)
    requires |text| <= SAVE_MAX
    ensures |FsRefinement.Pad(text)| <= LOAD_MAX
  {
  }

  /** In particular for everything typed at the keyboard since boot. */
  lemma TypedHistorySurvives(s: Fs.Fs, m: map<FsRefinement.Name, seq<byte>>, keys: seq<byte>)
    requires FsInvariant.Inv(s) && FsRefinement.Represents(s, m)
    requires forall i :: 0 <= i < |keys| ==> keys[i] != 0
    ensures var sh := TypeAll(FreshShell(), keys);
      && Inv(sh)
      && (sh.count > 0 ==>
            var sh' := LoadAtBoot(Fs.Init(Save(s, sh).0.disk), FreshShell());
            |sh'.ring| == RING && (Recent(sh') == Recent(sh) <==> RoomToSave(s, sh)))
  {
    hide Save, LoadAtBoot, Fs.Init, TypeAll, RoomToSave;
    TypingInv(FreshShell(), keys);
    var sh := TypeAll(FreshShell(), keys);
    if sh.count > 0 {
      HistorySurvivesReboot(s, m, sh);
    }
  }

  /** The save is attempted with something to write exactly when a command was ever entered. */
  lemma SaveNotEmpty(sh: Shell)
    requires Inv(sh)
    ensures Serialize(Recent(sh)) != [] <==> sh.count > 0
  {
    RecentCommands(sh);
    ParseSerialize(Recent(sh));
    ParseEnd([]);
  }
}
