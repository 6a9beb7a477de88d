/**
  Many sessions of the shell: keys typed, commands saved as they are entered, other files written
  and deleted in between, and reboots. The history shown is always the last eight commands entered.
*/
module HistorySessions {
  import opened Bytes
  import opened HistoryModel
  import opened HistoryEditor
  import opened HistoryDisk
  import Fs = FsModel
  import FsInvariant
  import FsRefinement
  import FsRuns

  /**
    The machine, and beside it what the keys alone say: a reference editor, all commands entered since the
    disk was formatted, those of them the shell should remember now, and those the disk should hold.
  */
  datatype Machine = Machine(fs: Fs.Fs, shell: Shell, editor: Editor, entered: seq<Text>, now: seq<Text>, saved: seq<Text>)

  datatype Act = Key(c: byte) | Other(op: FsRuns.Op) | Restart

  predicate Enters(y: Machine, c: byte) {
    c == 10 && y.editor.line != []
  }

  /** Any key; any legal operation on files other than the history; a reboot at any time. */
  predicate Allowed(act: Act) {
    match act
    case Key(c) => c != 0
    case Other(op) => !op.Reboot? && op.name != HISTORY_FILE && FsRuns.LegalOp(op)
    case Restart => true
  }

  /** Entering a command saves the history: all of it if there is room on the disk, else none of it. */
  ghost function Step(y: Machine, act: Act): Machine
    requires |y.shell.ring| == RING
  {
    match act
    case Key(c) =>
      var sh, editor, line := Update(y.shell, c), Press(y.editor, c), y.editor.line;
      var fs := if c == NEWLINE && y.shell.input != [] && |sh.ring| == RING then Save(y.fs, sh).0 else y.fs;
      if Enters(y, c) && |sh.ring| == RING then
        Machine(fs, sh, editor, y.entered + [line], y.now + [line], if RoomToSave(y.fs, sh) then y.now + [line] else [])
      else y.(fs := fs, shell := sh, editor := editor)
    case Other(op) => y.(fs := FsRuns.Apply(y.fs, op).0)
    case Restart =>
      var fs := Fs.Init(y.fs.disk);
      y.(fs := fs, shell := LoadAtBoot(fs, FreshShell()), editor := HistoryEditor.Fresh(Last8(y.saved)), now := y.saved)
  }

  /** The files are those of `m`, the shell remembers the end of `now`, history.dat holds the end of `saved`. */
  ghost predicate Good(y: Machine, m: map<FsRefinement.Name, seq<byte>>) {
    && FsInvariant.Inv(y.fs) && FsRefinement.Represents(y.fs, m) && Inv(y.shell)
    && Seen(y.shell) == y.editor && Recent(y.shell) == Last8(y.now)
    && (HISTORY_FILE in m <==> y.saved != [])
    && (y.saved != [] ==> m[HISTORY_FILE] == FsRefinement.Pad(Serialize(Last8(y.saved))) && Commands8(y.saved))
  }

  ghost predicate Commands8(cs: seq<Text>) {
    forall i :: 0 <= i < |Last8(cs)| ==> Command(Last8(cs)[i])
  }

  lemma Last8Twice(cs: seq<Text>, c: Text)
    ensures Last8(Last8(cs) + [c]) == Last8(cs + [c])
  {
  }

  lemma RecentCount(sh: Shell)
    requires Inv(sh)
    ensures Recent(sh) != [] <==> sh.count > 0
  {
  }

  lemma KeyGood(y: Machine, m: map<FsRefinement.Name, seq<byte>>, c: byte) returns (m': map<FsRefinement.Name, seq<byte>>)
    requires Good(y, m) && |y.shell.ring| == RING && c != 0
    ensures Good(Step(y, Key(c)), m')
  {
    hide Save, Update, Press, Recent, Inv, Serialize, FsInvariant.Inv, FsRefinement.Represents, FsRefinement.Pad, RoomToSave, Last8;
    KeyRecent(y.shell, c);
    UpdateRefines(y.shell, c);
    var sh := Update(y.shell, c);
    InvRing(sh);
    m' := m;
    if Enters(y, c) {
      SaveRefines(y.fs, m, sh);
      Last8Twice(y.now, y.shell.input);
      RecentCount(sh);
      Last8NotEmpty(y.now, y.shell.input);
      RecentCommands(sh);
      m' := if RoomToSave(y.fs, sh) then m[HISTORY_FILE := FsRefinement.Pad(Serialize(Recent(sh)))] else m - {HISTORY_FILE};
    }
    assert Good(Step(y, Key(c)), m');
  }

  lemma Last8NotEmpty(cs: seq<Text>, c: Text)
    ensures Last8(cs + [c]) != []
  {
  }

  lemma OtherGood(y: Machine, m: map<FsRefinement.Name, seq<byte>>, op: FsRuns.Op) returns (m': map<FsRefinement.Name, seq<byte>>)
    requires Good(y, m) && |y.shell.ring| == RING && Allowed(Other(op))
    ensures Good(Step(y, Other(op)), m')
  {
    hide FsRuns.Apply, Recent, Inv, Serialize, FsInvariant.Inv, FsRefinement.Represents, FsRefinement.Pad;
    FsRuns.StepRefines(y.fs, m, op);
    m' := FsRuns.MapStep(m, op, FsRuns.Apply(y.fs, op).1);
    assert HISTORY_FILE in m' <==> HISTORY_FILE in m;
    assert HISTORY_FILE in m ==> m'[HISTORY_FILE] == m[HISTORY_FILE];
  }

  lemma RestartGood(y: Machine, m: map<FsRefinement.Name, seq<byte>>)
    requires Good(y, m) && |y.shell.ring| == RING
    ensures Good(Step(y, Restart), m)
  {
    hide Recent, Inv, Serialize, FsInvariant.Inv, FsRefinement.Represents, FsRefinement.Pad, Fs.Init, PushAll, FreshShell, Command, LoadAtBoot;
    FsInvariant.RebootRestores(y.fs);
    FreshRecent();
    if y.saved == [] {
      BootEmpty(y.fs, m);
    } else {
      var cs := Last8(y.saved);
      BootLoads(y.fs, m, cs);
      CommandLengths(cs);
      PushAllRecent(cs);
      PushAllInv(cs);
    }
  }

  lemma StepGood(y: Machine, m: map<FsRefinement.Name, seq<byte>>, act: Act) returns (m': map<FsRefinement.Name, seq<byte>>)
    requires Good(y, m) && |y.shell.ring| == RING && Allowed(act)
    ensures Good(Step(y, act), m')
  {
    match act
    case Key(c) => m' := KeyGood(y, m, c);
    case Other(op) => m' := OtherGood(y, m, op);
    case Restart =>
      RestartGood(y, m);
      m' := m;
  }

  /** The machine after `acts` on a freshly formatted disk. */
  ghost function Run(d: Fs.Disk, acts: seq<Act>): Machine {
    if acts == [] then Machine(Fs.Init(d), FreshShell(), HistoryEditor.Fresh([]), [], [], [])
    else
      var y := Run(d, acts[..|acts| - 1]);
      if |y.shell.ring| == RING then Step(y, acts[|acts| - 1]) else y
  }

  ghost predicate Blank(d: Fs.Disk) {
    FsInvariant.Healthy(d) && Fs.DecodeRoot(Fs.RawRoot(d)).magic != Fs.MAGIC
  }

  lemma {:induction false} RunGood(d: Fs.Disk, acts: seq<Act>) returns (m: map<FsRefinement.Name, seq<byte>>)
    requires Blank(d) && forall i :: 0 <= i < |acts| ==> Allowed(acts[i])
    ensures Good(Run(d, acts), m)
    decreases |acts|
  {
    hide Fs.Init, FsInvariant.Inv, FsRefinement.Represents, Allowed, Step;
    if acts == [] {
      FsInvariant.FormatInv(d);
      FsRefinement.BlankRepresents(Fs.Init(d));
      FreshRecent();
      m := map[];
    } else {
      var init := acts[..|acts| - 1];
      m := RunGood(d, init);
      InvRing(Run(d, init).shell);
      m := StepGood(Run(d, init), m, acts[|acts| - 1]);
    }
  }

  /**
    Over any number of sessions the shell shows what the keys say, and remembers the last eight commands
    since the last loss of the file.
  */
  lemma HistoryAcrossSessions(d: Fs.Disk, acts: seq<Act>)
    requires Blank(d) && forall i :: 0 <= i < |acts| ==> Allowed(acts[i])
    ensures var y := Run(d, acts);
      && |y.shell.ring| == RING && Recent(y.shell) == Last8(y.now) && Seen(y.shell) == y.editor
  {
    hide Run, Recent, Last8;
    var m := RunGood(d, acts);
    InvRing(Run(d, acts).shell);
  }

  /** Every command entered in the run found room on the disk. */
  ghost predicate AlwaysRoom(d: Fs.Disk, acts: seq<Act>) {
    acts == [] ||
    (var y, act := Run(d, acts[..|acts| - 1]), acts[|acts| - 1];
     && AlwaysRoom(d, acts[..|acts| - 1])
     && (act.Key? && |y.shell.ring| == RING && Enters(y, act.c) && |Update(y.shell, act.c).ring| == RING ==>
           RoomToSave(y.fs, Update(y.shell, act.c))))
  }

  /** When the disk always had room, nothing is lost: the last eight commands ever entered, reboots included. */
  lemma {:induction false} NothingLost(d: Fs.Disk, acts: seq<Act>)
    requires Blank(d) && AlwaysRoom(d, acts) && forall i :: 0 <= i < |acts| ==> Allowed(acts[i])
    ensures var y := Run(d, acts);
      && y.now == y.entered && y.saved == y.entered
      && |y.shell.ring| == RING && Recent(y.shell) == Last8(y.entered)
    decreases |acts|
  {
    hide Blank, RoomToSave, Save, Update, Recent, Last8, LoadAtBoot, Fs.Init, FsRuns.Apply;
    HistoryAcrossSessions(d, acts);
    if acts != [] {
      NothingLost(d, acts[..|acts| - 1]);
    }
  }
}
