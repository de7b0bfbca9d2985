/** The database as a state machine: writes, snapshots, memtable switches, flushes, trivial moves and
    compactions, with other steps in between a compaction's start and its end.  Two of the code's
    steps can do harm, FlushesIntoGap to the levels and FinishesLosing to the reads; what runs
    without them keep, and that nothing weaker would do, is proved here. */
module Lifecycle {
  import opened Options
  import opened Config
  import opened Keys
  import opened Reads
  import opened Files
  import opened VersionGet
  import opened InputChoice
  import opened DropRules
  import opened Compaction
  import opened CompactionReads
  import opened VersionSteps

  /** A compaction that has chosen its inputs in version `input`, under the memtable entries `top`, and
      not installed its outputs. */
  datatype Running = Running(level: nat, in0: seq<File>, in1: seq<File>, smallest: nat, input: Version, top: set<Entry>)

  /** What the compaction will write. */
  ghost function KeptBy(r: Running): set<Entry> {
    Kept(InputEntries(r.in0, r.in1), r.smallest, BaseKeys(r.input, r.level))
  }

  /** The levels, when the compaction started, were in a state in which it loses a deletion. */
  ghost predicate Loses(r: Running)
    requires r.level + 1 < NUM_LEVELS
  {
    exists k :: LosesDeletion(r.input, r.level, r.in0, r.in1, r.top, r.smallest, k)
  }

  /** `history` holds every write ever made; `floor` the largest smallest-snapshot of any installed
      compaction.  Both only serve the specification. */
  datatype Db = Db(
    history: set<Entry>,
    lastSeq: nat,
    snapshots: seq<nat>,
    mem: seq<Entry>,
    imm: Option<seq<Entry>>,
    version: Version,
    nextFile: nat,
    running: Option<Running>,
    floor: nat)

  ghost function ImmEntries(d: Db): set<Entry> {
    if d.imm.Some? then Listed(d.imm.value) else {}
  }

  ghost function MemEntries(d: Db): set<Entry> {
    Listed(d.mem) + ImmEntries(d)
  }

  /** Everything a read looks at. */
  ghost function Stored(d: Db): set<Entry> {
    MemEntries(d) + VersionEntries(d.version)
  }

  /** snapshots_.oldest(), or the last sequence number if there is none. */
  function SmallestSnapshot(d: Db): nat {
    if d.snapshots == [] then d.lastSeq else d.snapshots[0]
  }

  // ---------------------------------------------------------------------------------------------
  // Steps
  // ---------------------------------------------------------------------------------------------

  ghost predicate Init(d: Db) {
    && d.history == {} && d.lastSeq == 0 && d.snapshots == [] && d.mem == [] && d.imm == None
    && d.version == seq(NUM_LEVELS, i => []) && d.running == None && d.floor == 0
  }

  ghost predicate WriteStep(d: Db, d': Db, e: Entry) {
    && e.seqno == d.lastSeq + 1 < MAX_SEQUENCE
    && Ascending(d'.mem) && Listed(d'.mem) == Listed(d.mem) + {e}
    && d' == d.(history := d.history + {e}, lastSeq := e.seqno, mem := d'.mem)
  }

  ghost predicate NewSnapshotStep(d: Db, d': Db) {
    d' == d.(snapshots := d.snapshots + [d.lastSeq])
  }

  ghost predicate ReleaseSnapshotStep(d: Db, d': Db, i: nat) {
    i < |d.snapshots| && d' == d.(snapshots := d.snapshots[..i] + d.snapshots[i + 1..])
  }

  /** MakeRoomForWrite switches to a new memtable when there is no immutable one. */
  ghost predicate SwitchStep(d: Db, d': Db) {
    d.imm.None? && d' == d.(imm := Some(d.mem), mem := [])
  }

  /** CompactMemTable, also in the middle of a compaction. */
  ghost predicate FlushStep(d: Db, d': Db, size: nat, level: nat) {
    && d.imm.Some? && Ascending(d.imm.value)
    && if d.imm.value == [] then d' == d.(imm := None)
       else
         var f := MakeFile(d.nextFile, size, d.imm.value);
         && FlushLevelOk(d.version, f, level)
         && Installed(d.version, {}, {(level, f)}, d'.version)
         && d' == d.(imm := None, version := d'.version, nextFile := d.nextFile + 1)
  }

  ghost predicate MoveStep(d: Db, d': Db, level: nat, f: File) {
    && d.running.None? && InputsOk(d.version, level, [f], [])
    && Installed(d.version, InputFiles(level, [f], []), Placed(level + 1, [f]), d'.version)
    && d' == d.(version := d'.version)
  }

  /** A compaction starts on inputs as the code chooses them. */
  ghost predicate StartStep(d: Db, d': Db, level: nat, in0: seq<File>, in1: seq<File>) {
    && d.running.None? && InputsOk(d.version, level, in0, in1)
    && d' == d.(running := Some(Running(level, in0, in1, SmallestSnapshot(d), d.version, MemEntries(d))))
  }

  ghost predicate FreshNumbers(v: Version, outputs: seq<File>, next: nat) {
    && (forall f :: f in outputs ==> f.number < next)
    && (forall f, g :: f in outputs && g in outputs && f.number == g.number ==> f == g)
    && (forall f, l, g :: f in outputs && 0 <= l < NUM_LEVELS && g in v[l] ==> g.number != f.number)
  }

  ghost predicate FinishStep(d: Db, d': Db, outputs: seq<File>) {
    && d.running.Some?
    && var r := d.running.value;
       && Disjoint(outputs)
       && LevelEntries(outputs) == KeptBy(r)
       && d.nextFile <= d'.nextFile && FreshNumbers(d.version, outputs, d'.nextFile)
       && Installed(d.version, InputFiles(r.level, r.in0, r.in1), Placed(r.level + 1, outputs), d'.version)
       && d' == d.(version := d'.version, nextFile := d'.nextFile, running := None,
                   floor := if d.floor < r.smallest then r.smallest else d.floor)
  }

  ghost predicate AbandonStep(d: Db, d': Db) {
    d.running.Some? && d' == d.(running := None)
  }

  ghost predicate Next(d: Db, d': Db) {
    || (exists e :: WriteStep(d, d', e))
    || NewSnapshotStep(d, d')
    || (exists i :: ReleaseSnapshotStep(d, d', i))
    || SwitchStep(d, d')
    || (exists size, level :: FlushStep(d, d', size, level))
    || (exists level, f :: MoveStep(d, d', level, f))
    || (exists level, in0, in1 :: StartStep(d, d', level, in0, in1))
    || (exists outputs :: FinishStep(d, d', outputs))
    || AbandonStep(d, d')
  }

  // ---------------------------------------------------------------------------------------------
  // Invariant
  // ---------------------------------------------------------------------------------------------

  ghost predicate HistoryOk(d: Db) {
    && DistinctSeqnos(d.history)
    && (forall e :: e in d.history ==> e.seqno <= d.lastSeq)
    && Stored(d) <= d.history
  }

  ghost predicate MemOk(d: Db) {
    && Ascending(d.mem) && (d.imm.Some? ==> Ascending(d.imm.value))
    && NewerThan(Listed(d.mem), ImmEntries(d))
    && NewerThan(MemEntries(d), VersionEntries(d.version))
  }

  ghost predicate SnapshotsOk(d: Db) {
    && d.floor <= d.lastSeq < MAX_SEQUENCE
    && (forall i :: 0 <= i < |d.snapshots| ==> d.floor <= d.snapshots[i] <= d.lastSeq)
    && (forall i, j :: 0 <= i < j < |d.snapshots| ==> d.snapshots[i] <= d.snapshots[j])
  }

  ghost predicate RunningOk(d: Db) {
    d.running.Some? ==>
      var r := d.running.value;
      && InputsSettled(d.version, r.level, r.in0, r.in1, BaseKeys(r.input, r.level), KeptBy(r))
      && r.smallest <= d.lastSeq
      && forall i :: 0 <= i < |d.snapshots| ==> r.smallest <= d.snapshots[i]
  }

  /** How the running compaction started, and that the smallest snapshot sees outside its inputs what
      it saw then. */
  ghost predicate StartOk(d: Db) {
    d.running.Some? ==>
      var r := d.running.value;
      && ValidVersion(r.input) && InputsOk(r.input, r.level, r.in0, r.in1)
      && NewerThan(r.top, VersionEntries(r.input)) && DistinctSeqnos(r.top + VersionEntries(r.input))
      && r.top !! VersionEntries(r.input)
      && SeenAlike(Outside(d.version, r.in0, r.in1, MemEntries(d)), Outside(r.input, r.in0, r.in1, r.top), r.smallest)
  }

  ghost predicate SeenAlike(es: set<Entry>, fs: set<Entry>, smallest: nat) {
    forall e: Entry :: e.seqno <= smallest ==> (e in es <==> e in fs)
  }

  ghost predicate Inv(d: Db) {
    && WellStored(d.version, d.nextFile)
    && HistoryOk(d)
    && MemOk(d)
    && SnapshotsOk(d)
    && RunningOk(d)
    && StartOk(d)
  }

  /** From `floor` on, reading what is stored is reading the history. */
  ghost predicate ReadsOk(d: Db) {
    forall k :: SameReads(Stored(d), d.history, d.floor, k)
  }

  // ---------------------------------------------------------------------------------------------
  // The two steps that can do harm
  // ---------------------------------------------------------------------------------------------

  /** A memtable lands in the output level of the running compaction, between entries it will write. */
  ghost predicate FlushesIntoGap(d: Db, d': Db) {
    d.running.Some? && d.imm.Some? && Ascending(d.imm.value) && d.imm.value != [] &&
    exists size :: FlushStep(d, d', size, d.running.value.level + 1)
      && !Aside(MakeFile(d.nextFile, size, d.imm.value), KeptBy(d.running.value))
  }

  /** A compaction that started where it loses a deletion installs its outputs. */
  ghost predicate FinishesLosing(d: Db, d': Db) {
    d.running.Some? && d.running.value.level + 1 < NUM_LEVELS && Loses(d.running.value) && exists outputs ::
      FinishStep(d, d', outputs)
  }

  // ---------------------------------------------------------------------------------------------
  // Every step keeps the invariant
  // ---------------------------------------------------------------------------------------------

  lemma InitInv(d: Db)
    requires Init(d)
    ensures Inv(d) && ReadsOk(d)
  {
    assert VersionEntries(d.version) == {};
    assert Stored(d) == {};
  }

  lemma WriteReads(es: set<Entry>, h: set<Entry>, e: Entry, floor: nat, k: UserKey)
    requires DistinctSeqnos(h + {e}) && es <= h && SameReads(es, h, floor, k)
    requires forall a :: a in h ==> a.seqno < e.seqno
    ensures SameReads(es + {e}, h + {e}, floor, k)
  {
    forall s: nat | floor <= s ensures ReadAt(es + {e}, k, s) == ReadAt(h + {e}, k, s) {
      assert {e} + es == es + {e} && {e} + h == h + {e};
      SubsetDistinct(es + {e}, h + {e});
      ReadOfStack({e}, es, k, s);
      ReadOfStack({e}, h, k, s);
    }
  }

  lemma WriteKeepsInv(d: Db, d': Db, e: Entry)
    requires Inv(d) && WriteStep(d, d', e)
    ensures Inv(d') && (ReadsOk(d) ==> ReadsOk(d'))
  {
    hide WellStored, InputsSettled, SameReads, Ascending, Kept, BaseKeys, InputsOk, ValidVersion;
    assert Stored(d') == Stored(d) + {e};
    assert MemEntries(d') == MemEntries(d) + {e};
    assert forall a :: a in d.history ==> a.seqno < e.seqno;
    if ReadsOk(d) {
      forall k ensures SameReads(Stored(d'), d'.history, d'.floor, k) {
        WriteReads(Stored(d), d.history, e, d.floor, k);
      }
    }
  }

  lemma SnapshotKeepsInv(d: Db, d': Db)
    requires Inv(d)
    requires NewSnapshotStep(d, d') || exists i :: ReleaseSnapshotStep(d, d', i)
    ensures Inv(d') && (ReadsOk(d) ==> ReadsOk(d'))
  {
    hide WellStored, InputsSettled, SameReads, HistoryOk, MemOk, Kept, BaseKeys, InputsOk, ValidVersion, SeenAlike;
    assert Stored(d') == Stored(d) && MemEntries(d') == MemEntries(d);
    assert HistoryOk(d') && MemOk(d') by { SameStore(d, d'); }
  }

  lemma SameStore(d: Db, d': Db)
    requires HistoryOk(d) && MemOk(d)
    requires d'.history == d.history && d'.lastSeq == d.lastSeq && d'.mem == d.mem && d'.imm == d.imm
             && d'.version == d.version
    ensures HistoryOk(d') && MemOk(d')
  {
  }

  lemma SwitchKeepsInv(d: Db, d': Db)
    requires Inv(d) && SwitchStep(d, d')
    ensures Inv(d') && (ReadsOk(d) ==> ReadsOk(d'))
  {
    hide WellStored, InputsSettled, SameReads, Kept, BaseKeys, InputsOk, ValidVersion, SeenAlike;
    assert MemEntries(d') == MemEntries(d);
    assert Stored(d') == Stored(d);
  }

  /** A flush keeps the invariant if it does not land in a gap of the running compaction. */
  lemma FlushKeepsInv(d: Db, d': Db, size: nat, level: nat)
    requires Inv(d) && FlushStep(d, d', size, level) && !FlushesIntoGap(d, d')
    ensures Inv(d') && (ReadsOk(d) ==> ReadsOk(d'))
  {
    if d.imm.value == [] {
      EmptyFlushKeepsInv(d, d');
    } else {
      var f := MakeFile(d.nextFile, size, d.imm.value);
      FlushVersion(d, d', f, level);
      FlushRunning(d, d', f, level);
      FlushMemory(d, d', f);
      FlushStart(d, d', f);
    }
  }

  lemma EmptyFlushKeepsInv(d: Db, d': Db)
    requires Inv(d) && d.imm == Some([]) && d' == d.(imm := None)
    ensures Inv(d') && (ReadsOk(d) ==> ReadsOk(d'))
  {
    hide WellStored, InputsSettled, SameReads, Kept, BaseKeys, InputsOk, ValidVersion, SeenAlike;
    assert MemEntries(d') == MemEntries(d);
    assert Stored(d') == Stored(d);
  }

  lemma FlushVersion(d: Db, d': Db, f: File, level: nat)
    requires Inv(d) && d.imm == Some(f.entries) && f.number == d.nextFile && FlushLevelOk(d.version, f, level)
    requires Installed(d.version, {}, {(level, f)}, d'.version) && d'.nextFile == d.nextFile + 1
    ensures WellStored(d'.version, d'.nextFile) && Flushed(d.version, f, level, d'.version)
    ensures VersionEntries(d'.version) == VersionEntries(d.version) + Ents(f)
    ensures NewerThan(Ents(f), VersionEntries(d.version))
  {
    hide WellStored, RunningOk, StartOk, Installed, FlushLevelOk;
    assert Ents(f) == ImmEntries(d) <= MemEntries(d);
    SubsetDistinct(VersionEntries(d.version) + Ents(f), d.history);
    FlushedStored(d.version, d.nextFile, f, level, d'.version, d'.nextFile);
  }

  lemma FlushRunning(d: Db, d': Db, f: File, level: nat)
    requires RunningOk(d) && FlushLevelOk(d.version, f, level) && Flushed(d.version, f, level, d'.version)
    requires NewerThan(Ents(f), VersionEntries(d.version))
    requires d.running.Some? && level == d.running.value.level + 1 ==> Aside(f, KeptBy(d.running.value))
    requires d'.running == d.running && d'.lastSeq == d.lastSeq && d'.snapshots == d.snapshots
    ensures RunningOk(d')
  {
    hide InputsSettled, Flushed, FlushLevelOk, NewerThan, Aside, KeptBy, BaseKeys;
    if d.running.Some? {
      var r := d.running.value;
      FlushKeepsSettledIff(d.version, f, level, d'.version, r.level, r.in0, r.in1, BaseKeys(r.input, r.level),
        KeptBy(r));
    }
  }

  lemma FlushMemory(d: Db, d': Db, f: File)
    requires HistoryOk(d) && MemOk(d)
    requires d.imm == Some(f.entries) && d'.imm == None && d'.mem == d.mem
    requires VersionEntries(d'.version) == VersionEntries(d.version) + Ents(f)
    requires d'.history == d.history && d'.lastSeq == d.lastSeq && d'.floor == d.floor
    ensures HistoryOk(d') && MemOk(d') && (ReadsOk(d) ==> ReadsOk(d'))
  {
    hide SameReads;
    assert Stored(d') == Stored(d);
  }

  /** The flushed entries leave the memtables and enter the version: what is outside the inputs stays. */
  lemma FlushStart(d: Db, d': Db, f: File)
    requires StartOk(d) && RunningOk(d) && NewerThan(Ents(f), VersionEntries(d.version))
    requires d.imm == Some(f.entries) && d'.imm == None && d'.mem == d.mem && d'.running == d.running
    requires VersionEntries(d'.version) == VersionEntries(d.version) + Ents(f)
    ensures StartOk(d')
  {
    if d.running.Some? {
      var r := d.running.value;
      InputLevels(d.version, r.level, r.in0, r.in1, BaseKeys(r.input, r.level), KeptBy(r));
      InLevelInVersion(d.version, r.level);
      InLevelInVersion(d.version, r.level + 1);
      hide RunningOk, KeptBy, BaseKeys, InputsOk, ValidVersion, NewerThan, DistinctSeqnos, SeenAlike;
      TopApart(Ents(f), VersionEntries(d.version));
      FlushOutside(d, d', f, InputEntries(r.in0, r.in1));
      assert Outside(d'.version, r.in0, r.in1, MemEntries(d')) == Outside(d.version, r.in0, r.in1, MemEntries(d));
    }
  }

  lemma FlushOutside(d: Db, d': Db, f: File, es: set<Entry>)
    requires d.imm == Some(f.entries) && d'.imm == None && d'.mem == d.mem
    requires VersionEntries(d'.version) == VersionEntries(d.version) + Ents(f) && Ents(f) !! VersionEntries(d.version)
    requires es <= VersionEntries(d.version)
    ensures MemEntries(d') + (VersionEntries(d'.version) - es) == MemEntries(d) + (VersionEntries(d.version) - es)
  {
  }

  lemma MoveKeepsInv(d: Db, d': Db, level: nat, f: File)
    requires Inv(d) && MoveStep(d, d', level, f)
    ensures Inv(d') && (ReadsOk(d) ==> ReadsOk(d'))
  {
    MoveVersion(d, d', level, f);
    MoveMemory(d, d');
  }

  lemma MoveVersion(d: Db, d': Db, level: nat, f: File)
    requires Inv(d) && MoveStep(d, d', level, f)
    ensures WellStored(d'.version, d'.nextFile) && VersionEntries(d'.version) == VersionEntries(d.version)
  {
    hide WellStored, Installed, InputsSettled;
    StoredIsValid(d.version, d.nextFile);
    assert f in [f];
    assert LevelEntries([f]) == InputEntries([f], []);
    ChosenInputsSettled(d.version, level, [f], [], LevelEntries([f]));
    ChosenInVersion(d.version, level, [f], []);
    assert f in d.version[level];
    MoveNumbers(d.version, d.nextFile, level, f);
    ReplacedStored(d.version, d.nextFile, level, [f], [], BaseKeys(d.version, level), LevelEntries([f]), [f],
      d'.version, d'.nextFile);
  }

  lemma MoveNumbers(v: Version, n: nat, level: nat, f: File)
    requires NumbersOk(v, n) && level < NUM_LEVELS && f in v[level]
    ensures OutputNumbersOk(v, level, [f], [f], n)
  {
  }

  lemma MoveMemory(d: Db, d': Db)
    requires HistoryOk(d) && MemOk(d) && SnapshotsOk(d) && d.running.None?
    requires d' == d.(version := d'.version) && VersionEntries(d'.version) == VersionEntries(d.version)
    ensures HistoryOk(d') && MemOk(d') && SnapshotsOk(d') && RunningOk(d') && StartOk(d')
            && (ReadsOk(d) ==> ReadsOk(d'))
  {
    hide SameReads;
    assert Stored(d') == Stored(d);
  }

  lemma StartKeepsInv(d: Db, d': Db, level: nat, in0: seq<File>, in1: seq<File>)
    requires Inv(d) && StartStep(d, d', level, in0, in1)
    ensures Inv(d') && (ReadsOk(d) ==> ReadsOk(d'))
  {
    StartRuns(d, d', level, in0, in1);
    StartStays(d, d', level, in0, in1);
    hide *;
    SameStore(d, d');
    InvFromParts(d, d');
  }

  lemma StartStays(d: Db, d': Db, level: nat, in0: seq<File>, in1: seq<File>)
    requires SnapshotsOk(d) && StartStep(d, d', level, in0, in1)
    ensures d'.history == d.history && d'.lastSeq == d.lastSeq && d'.mem == d.mem && d'.imm == d.imm
            && d'.version == d.version
    ensures d'.nextFile == d.nextFile && d'.floor == d.floor && SnapshotsOk(d')
  {
    hide InputsOk;
  }

  /** A change of the running compaction alone. */
  lemma InvFromParts(d: Db, d': Db)
    requires Inv(d) && HistoryOk(d') && MemOk(d') && SnapshotsOk(d') && RunningOk(d') && StartOk(d')
    requires d'.history == d.history && d'.mem == d.mem && d'.imm == d.imm && d'.version == d.version
    requires d'.nextFile == d.nextFile && d'.floor == d.floor
    ensures Inv(d') && (ReadsOk(d) ==> ReadsOk(d'))
  {
    hide WellStored, SameReads, HistoryOk, MemOk, SnapshotsOk, RunningOk, StartOk;
    assert Stored(d') == Stored(d);
  }

  lemma StartRuns(d: Db, d': Db, level: nat, in0: seq<File>, in1: seq<File>)
    requires Inv(d) && StartStep(d, d', level, in0, in1)
    ensures RunningOk(d') && StartOk(d')
  {
    StoredIsValid(d.version, d.nextFile);
    StoreFacts(d);
    SmallestOk(d);
    hide Inv, SameReads, InputsSettled, NewerThan, InputsOk, BaseKeys, DistinctSeqnos, ValidVersion, SmallestSnapshot;
    KeptInside(InputEntries(in0, in1), SmallestSnapshot(d), BaseKeys(d.version, level));
    ChosenInputsSettled(d.version, level, in0, in1,
      Kept(InputEntries(in0, in1), SmallestSnapshot(d), BaseKeys(d.version, level)));
    hide Kept, InputEntries;
    assert MemEntries(d') == MemEntries(d);
  }

  lemma SmallestOk(d: Db)
    requires SnapshotsOk(d)
    ensures SmallestSnapshot(d) <= d.lastSeq && forall i :: 0 <= i < |d.snapshots| ==>
            SmallestSnapshot(d) <= d.snapshots[i]
  {
  }

  lemma StoreFacts(d: Db)
    requires HistoryOk(d) && MemOk(d)
    ensures var top, rest := MemEntries(d), VersionEntries(d.version);
            NewerThan(top, rest) && DistinctSeqnos(top + rest) && top !! rest
  {
    SubsetDistinct(MemEntries(d) + VersionEntries(d.version), d.history);
    TopApart(MemEntries(d), VersionEntries(d.version));
  }

  lemma AbandonKeepsInv(d: Db, d': Db)
    requires Inv(d) && AbandonStep(d, d')
    ensures Inv(d') && (ReadsOk(d) ==> ReadsOk(d'))
  {
    hide WellStored, SameReads, HistoryOk, MemOk, RunningOk, StartOk;
    assert Stored(d') == Stored(d);
    SameStore(d, d');
    NoneRunning(d');
  }

  lemma TopApart(top: set<Entry>, rest: set<Entry>)
    requires NewerThan(top, rest)
    ensures top !! rest
  {
    forall e | e in top ensures e !in rest {
    }
  }

  /** Finishing a compaction keeps the invariant, whatever it read and lost. */
  lemma FinishKeepsInv(d: Db, d': Db, outputs: seq<File>)
    requires Inv(d) && FinishStep(d, d', outputs)
    ensures Inv(d')
  {
    FinishVersion(d, d', outputs);
    FinishMemory(d, d', outputs);
  }

  lemma FinishVersion(d: Db, d': Db, outputs: seq<File>)
    requires Inv(d) && FinishStep(d, d', outputs)
    ensures WellStored(d'.version, d'.nextFile)
    ensures var r := d.running.value;
            VersionEntries(d'.version) == (VersionEntries(d.version) - InputEntries(r.in0, r.in1)) +
              LevelEntries(outputs)
  {
    hide WellStored, Installed, InputsSettled, HistoryOk, MemOk, SnapshotsOk, StartOk, Disjoint, Kept, BaseKeys;
    var r := d.running.value;
    FreshOutputs(d.version, r.level, r.in0, outputs, d'.nextFile);
    ReplacedStored(d.version, d.nextFile, r.level, r.in0, r.in1, BaseKeys(r.input, r.level), KeptBy(r), outputs,
      d'.version, d'.nextFile);
  }

  lemma FreshOutputs(v: Version, level: nat, in0: seq<File>, outputs: seq<File>, next: nat)
    requires FreshNumbers(v, outputs, next)
    ensures OutputNumbersOk(v, level, in0, outputs, next)
  {
  }

  lemma FinishMemory(d: Db, d': Db, outputs: seq<File>)
    requires Inv(d) && FinishStep(d, d', outputs)
    requires var r := d.running.value;
             VersionEntries(d'.version) == (VersionEntries(d.version) - InputEntries(r.in0, r.in1)) +
               LevelEntries(outputs)
    ensures HistoryOk(d') && MemOk(d') && SnapshotsOk(d') && RunningOk(d') && StartOk(d')
  {
    hide WellStored, Installed, InputsSettled, Disjoint, FreshNumbers, HistoryOk, MemOk, StartOk, Kept, BaseKeys;
    FinishShrinks(d, d', outputs);
    FinishStore(d, d');
    NoneRunning(d');
  }

  lemma NoneRunning(d: Db)
    requires d.running.None?
    ensures RunningOk(d) && StartOk(d)
  {
  }

  lemma FinishShrinks(d: Db, d': Db, outputs: seq<File>)
    requires RunningOk(d) && FinishStep(d, d', outputs)
    requires var r := d.running.value;
             VersionEntries(d'.version) == (VersionEntries(d.version) - InputEntries(r.in0, r.in1)) +
               LevelEntries(outputs)
    ensures VersionEntries(d'.version) <= VersionEntries(d.version)
  {
    hide Installed, InputsSettled, Disjoint, FreshNumbers, Kept, BaseKeys;
    var r := d.running.value;
    InputLevels(d.version, r.level, r.in0, r.in1, BaseKeys(r.input, r.level), KeptBy(r));
    InLevelInVersion(d.version, r.level);
    InLevelInVersion(d.version, r.level + 1);
  }

  lemma FinishStore(d: Db, d': Db)
    requires HistoryOk(d) && MemOk(d) && VersionEntries(d'.version) <= VersionEntries(d.version)
    requires d'.history == d.history && d'.lastSeq == d.lastSeq && d'.mem == d.mem && d'.imm == d.imm
    ensures HistoryOk(d') && MemOk(d')
  {
  }

  lemma KeptInside(es: set<Entry>, smallest: nat, base: iset<UserKey>)
    ensures Kept(es, smallest, base) <= es
  {
  }

  lemma SameReadsTrans(a: set<Entry>, b: set<Entry>, c: set<Entry>, m: nat, n: nat, k: UserKey)
    requires SameReads(a, b, m, k) && SameReads(b, c, n, k)
    ensures SameReads(a, c, if n < m then m else n, k)
  {
  }

  // ---------------------------------------------------------------------------------------------
  // Exactly when a compaction keeps every read
  // ---------------------------------------------------------------------------------------------

  /** Whether an older value comes back depends only on what the smallest snapshot sees. */
  lemma ResurrectsAlike(inputs: set<Entry>, es: set<Entry>, fs: set<Entry>, smallest: nat, base: iset<UserKey>,
          k: UserKey)
    requires SeenAlike(es, fs, smallest)
    ensures Resurrects(inputs, es, smallest, base, k) <==> Resurrects(inputs, fs, smallest, base, k)
  {
    if Resurrects(inputs, es, smallest, base, k) {
      ResurrectsToo(inputs, es, fs, smallest, base, k);
    }
    if Resurrects(inputs, fs, smallest, base, k) {
      ResurrectsToo(inputs, fs, es, smallest, base, k);
    }
  }

  lemma ResurrectsToo(inputs: set<Entry>, es: set<Entry>, fs: set<Entry>, smallest: nat, base: iset<UserKey>,
          k: UserKey)
    requires SeenAlike(es, fs, smallest) && Resurrects(inputs, es, smallest, base, k)
    ensures Resurrects(inputs, fs, smallest, base, k)
  {
    var t, d :| IsNewest(inputs, k, smallest, t) && ObsoleteTombstone(t, smallest, base)
                && (forall r :: r in es && Visible(r, k, smallest) ==> r.seqno < t.seqno)
                && IsNewest(es, k, t.seqno, d) && d.kind == Value;
    assert IsNewest(fs, k, t.seqno, d);
  }

  /** Installing the outputs keeps what `k` reads at every snapshot from the smallest on, if and only if
      the compaction did not start where it loses a deletion of `k`; whatever was written, flushed or
      released in between. */
  lemma FinishKeepsReadIff(d: Db, d': Db, outputs: seq<File>, k: UserKey)
    requires Inv(d) && FinishStep(d, d', outputs)
    ensures var r := d.running.value;
            r.level + 1 < NUM_LEVELS
            && (SameReads(Stored(d'), Stored(d), r.smallest, k) <==>
              !LosesDeletion(r.input, r.level, r.in0, r.in1, r.top, r.smallest, k))
  {
    FinishVersion(d, d', outputs);
    FinishSplits(d, d', outputs);
    var r := d.running.value;
    var es, base, out := InputEntries(r.in0, r.in1), BaseKeys(r.input, r.level),
      Outside(d.version, r.in0, r.in1, MemEntries(d));
    hide *;
    DropKeepsReadsIff(es, out, r.smallest, base, k);
    ResurrectsAlike(es, out, Outside(r.input, r.in0, r.in1, r.top), r.smallest, base, k);
    ResurrectsIff(r.input, r.level, r.in0, r.in1, r.top, r.smallest, k);
  }

  /** The store before and after, as what is outside the inputs and the inputs or what is kept of them. */
  lemma FinishSplits(d: Db, d': Db, outputs: seq<File>)
    requires Inv(d) && FinishStep(d, d', outputs)
    requires var r := d.running.value;
             VersionEntries(d'.version) == (VersionEntries(d.version) - InputEntries(r.in0, r.in1)) +
               LevelEntries(outputs)
    ensures var r := d.running.value;
            var es, out := InputEntries(r.in0, r.in1), Outside(d.version, r.in0, r.in1, MemEntries(d));
            && r.level + 1 < NUM_LEVELS && es !! out && es + out == Stored(d) && DistinctSeqnos(es + out)
            && Stored(d') == Kept(es, r.smallest, BaseKeys(r.input, r.level)) + out
            && SeenAlike(out, Outside(r.input, r.in0, r.in1, r.top), r.smallest)
            && ValidVersion(r.input) && InputsOk(r.input, r.level, r.in0, r.in1)
            && NewerThan(r.top, VersionEntries(r.input)) && DistinctSeqnos(r.top + VersionEntries(r.input))
            && r.top !! VersionEntries(r.input)
  {
    StoreFacts(d);
    FinishMem(d, d', outputs);
    RunningFacts(d);
    StartFacts(d);
    StoredIs(d);
    StoredIs(d');
    hide *;
    var r := d.running.value;
    OutsideIs(d.version, r.in0, r.in1, MemEntries(d));
    SplitSets(MemEntries(d), VersionEntries(d.version), InputEntries(r.in0, r.in1), KeptBy(r));
  }

  lemma StoredIs(d: Db)
    ensures Stored(d) == MemEntries(d) + VersionEntries(d.version)
  {
  }

  lemma OutsideIs(v: Version, in0: seq<File>, in1: seq<File>, top: set<Entry>)
    ensures Outside(v, in0, in1, top) == top + (VersionEntries(v) - InputEntries(in0, in1))
  {
  }

  lemma RunningFacts(d: Db)
    requires RunningOk(d) && d.running.Some?
    ensures var r := d.running.value;
            r.level + 1 < NUM_LEVELS && InputEntries(r.in0, r.in1) <= VersionEntries(d.version)
  {
    var r := d.running.value;
    hide KeptBy, BaseKeys;
    InputLevels(d.version, r.level, r.in0, r.in1, BaseKeys(r.input, r.level), KeptBy(r));
    InLevelInVersion(d.version, r.level);
    InLevelInVersion(d.version, r.level + 1);
  }

  lemma SplitSets(top: set<Entry>, rest: set<Entry>, es: set<Entry>, kept: set<Entry>)
    requires es <= rest && top !! rest
    ensures es !! (top + (rest - es)) && es + (top + (rest - es)) == top + rest
    ensures top + ((rest - es) + kept) == kept + (top + (rest - es))
  {
  }

  lemma StartFacts(d: Db)
    requires StartOk(d) && d.running.Some?
    ensures var r := d.running.value;
            && ValidVersion(r.input) && InputsOk(r.input, r.level, r.in0, r.in1)
            && NewerThan(r.top, VersionEntries(r.input)) && DistinctSeqnos(r.top + VersionEntries(r.input))
            && r.top !! VersionEntries(r.input)
            && SeenAlike(Outside(d.version, r.in0, r.in1, MemEntries(d)), Outside(r.input, r.in0, r.in1, r.top),
              r.smallest)
  {
  }

  lemma FinishMem(d: Db, d': Db, outputs: seq<File>)
    requires FinishStep(d, d', outputs)
    ensures d.running.Some? && MemEntries(d') == MemEntries(d) && LevelEntries(outputs) == KeptBy(d.running.value)
    ensures KeptBy(d.running.value) ==
            Kept(InputEntries(d.running.value.in0, d.running.value.in1), d.running.value.smallest,
            BaseKeys(d.running.value.input, d.running.value.level))
  {
    hide Installed, Disjoint, FreshNumbers, Kept;
  }

  lemma FinishKeepsReads(d: Db, d': Db, outputs: seq<File>)
    requires Inv(d) && ReadsOk(d) && FinishStep(d, d', outputs) && !FinishesLosing(d, d')
    ensures ReadsOk(d')
  {
    var r := d.running.value;
    FinishFloor(d, d', outputs);
    assert r.level + 1 < NUM_LEVELS ==> !Loses(r);
    hide SameReads, LosesDeletion, Inv, FinishStep, FinishesLosing;
    forall k ensures SameReads(Stored(d'), d'.history, d'.floor, k) {
      FinishKeepsReadIff(d, d', outputs, k);
      assert SameReads(Stored(d), d.history, d.floor, k);
      SameReadsTrans(Stored(d'), Stored(d), d.history, r.smallest, d.floor, k);
    }
  }

  lemma FinishFloor(d: Db, d': Db, outputs: seq<File>)
    requires FinishStep(d, d', outputs)
    ensures var smallest := d.running.value.smallest;
            d'.history == d.history && d'.floor == if d.floor < smallest then smallest else d.floor
  {
  }

  /** Where the next level holds no boundary file of the chosen ones, no deletion is lost. */
  lemma NoBoundaryLosesNothing(r: Running)
    requires r.level + 1 < NUM_LEVELS && NoNextBoundary(r.input, r.level, r.in1)
    ensures !Loses(r)
  {
  }

  // ---------------------------------------------------------------------------------------------
  // All steps
  // ---------------------------------------------------------------------------------------------

  /** Every step but a flush into a gap keeps the invariant; every step but that and a losing finish
      keeps the reads exact. */
  lemma NextKeepsInv(d: Db, d': Db)
    requires Inv(d) && Next(d, d') && !FlushesIntoGap(d, d')
    ensures Inv(d') && (ReadsOk(d) && !FinishesLosing(d, d') ==> ReadsOk(d'))
  {
    hide Inv, ReadsOk, WriteStep, NewSnapshotStep, ReleaseSnapshotStep, SwitchStep, FlushStep, MoveStep, StartStep,
      FinishStep, AbandonStep,
         FlushesIntoGap, FinishesLosing;
    if e :| WriteStep(d, d', e) {
      WriteKeepsInv(d, d', e);
    } else if NewSnapshotStep(d, d') || exists i :: ReleaseSnapshotStep(d, d', i) {
      SnapshotKeepsInv(d, d');
    } else if SwitchStep(d, d') {
      SwitchKeepsInv(d, d');
    } else if size, level :| FlushStep(d, d', size, level) {
      FlushKeepsInv(d, d', size, level);
    } else if level, f :| MoveStep(d, d', level, f) {
      MoveKeepsInv(d, d', level, f);
    } else if level, in0, in1 :| StartStep(d, d', level, in0, in1) {
      StartKeepsInv(d, d', level, in0, in1);
    } else if outputs :| FinishStep(d, d', outputs) {
      FinishKeepsInv(d, d', outputs);
      if ReadsOk(d) && !FinishesLosing(d, d') {
        FinishKeepsReads(d, d', outputs);
      }
    } else {
      AbandonKeepsInv(d, d');
    }
  }

  // ---------------------------------------------------------------------------------------------
  // Runs
  // ---------------------------------------------------------------------------------------------

  ghost predicate IsRunOf(run: seq<Db>) {
    run != [] && Init(run[0]) && forall i :: 0 <= i < |run| - 1 ==> Next(run[i], run[i + 1])
  }

  /** No memtable landed in a gap of a running compaction before state `n`. */
  ghost predicate NoGapFlush(run: seq<Db>, n: nat)
    requires n < |run|
  {
    forall i :: 0 <= i < n ==> !FlushesIntoGap(run[i], run[i + 1])
  }

  /** No compaction that loses a deletion finished before state `n`. */
  ghost predicate NoLoss(run: seq<Db>, n: nat)
    requires n < |run|
  {
    forall i :: 0 <= i < n ==> !FinishesLosing(run[i], run[i + 1])
  }

  /** The inputs of every compaction up to state `n` leave no gap, as those PickCompaction chooses. */
  ghost predicate InputsConnected(run: seq<Db>, n: nat)
    requires n < |run|
  {
    forall i :: 0 <= i <= n && run[i].running.Some? ==> Connected(run[i].running.value.in0 + run[i].running.value.in1)
  }

  lemma {:induction false} ReachableInv(run: seq<Db>, n: nat)
    requires IsRunOf(run) && n < |run| && NoGapFlush(run, n)
    ensures Inv(run[n])
  {
    hide Inv, Next, Init, ReadsOk, FlushesIntoGap, FinishesLosing;
    if n == 0 {
      InitInv(run[0]);
    } else {
      ReachableInv(run, n - 1);
      assert Next(run[n - 1], run[n - 1 + 1]);
      assert !FlushesIntoGap(run[n - 1], run[n - 1 + 1]);
      NextKeepsInv(run[n - 1], run[n]);
    }
  }

  lemma {:induction false} ReachableReads(run: seq<Db>, n: nat)
    requires IsRunOf(run) && n < |run| && NoGapFlush(run, n) && NoLoss(run, n)
    ensures ReadsOk(run[n])
  {
    hide Inv, Next, Init, ReadsOk, FlushesIntoGap, FinishesLosing;
    if n == 0 {
      InitInv(run[0]);
    } else {
      ReachableReads(run, n - 1);
      ReachableInv(run, n - 1);
      assert Next(run[n - 1], run[n - 1 + 1]);
      assert !FlushesIntoGap(run[n - 1], run[n - 1 + 1]) && !FinishesLosing(run[n - 1], run[n - 1 + 1]);
      NextKeepsInv(run[n - 1], run[n]);
    }
  }

  /** Compactions of connected inputs have no gap for a memtable to land in. */
  lemma ConnectedHasNoGap(d: Db, d': Db)
    requires Inv(d) && d.running.Some? && Connected(d.running.value.in0 + d.running.value.in1)
    ensures !FlushesIntoGap(d, d')
  {
    hide WellStored, HistoryOk, MemOk, SnapshotsOk, RunningOk, StartOk, FlushStep, Aside, KeptBy, Connected, Ascending;
    if FlushesIntoGap(d, d') {
      var r := d.running.value;
      var size :| FlushStep(d, d', size, r.level + 1) && !Aside(MakeFile(d.nextFile, size, d.imm.value), KeptBy(r));
      FlushPlace(d, d', size, r.level + 1);
      ConnectedClears(d, MakeFile(d.nextFile, size, d.imm.value), r);
    }
  }

  lemma FlushPlace(d: Db, d': Db, size: nat, level: nat)
    requires FlushStep(d, d', size, level) && d.imm.value != []
    ensures Ascending(d.imm.value) && FlushLevelOk(d.version, MakeFile(d.nextFile, size, d.imm.value), level)
  {
  }

  lemma ConnectedClears(d: Db, f: File, r: Running)
    requires d.running == Some(r) && RunningOk(d) && StartOk(d) && FlushLevelOk(d.version, f, r.level + 1)
    requires Connected(r.in0 + r.in1)
    ensures Aside(f, KeptBy(r))
  {
    FlushClearsInputs(d, f, r);
    hide RunningOk, StartOk, FlushLevelOk, Aside, Kept, BaseKeys, Connected, RangesMeet;
    ClearOfConnected(f, r.in0, r.in1);
    KeptInside(InputEntries(r.in0, r.in1), r.smallest, BaseKeys(r.input, r.level));
    AsideOfFewer(f, InputEntries(r.in0, r.in1), KeptBy(r));
  }

  lemma FlushClearsInputs(d: Db, f: File, r: Running)
    requires d.running == Some(r) && RunningOk(d) && StartOk(d) && FlushLevelOk(d.version, f, r.level + 1)
    ensures r.in0 != [] && forall g :: g in r.in0 + r.in1 ==> !RangesMeet(f, g)
  {
  }

  /** Runs whose compactions all have connected inputs keep the invariant, whenever memtables are
      flushed. */
  lemma {:induction false} ConnectedReachableInv(run: seq<Db>, n: nat)
    requires IsRunOf(run) && n < |run| && InputsConnected(run, n)
    ensures Inv(run[n]) && NoGapFlush(run, n)
  {
    hide Inv, Next, Init, ReadsOk, FlushesIntoGap, FinishesLosing, Connected;
    if n == 0 {
      InitInv(run[0]);
    } else {
      ConnectedReachableInv(run, n - 1);
      if FlushesIntoGap(run[n - 1], run[n]) {
        GapNeedsCompaction(run[n - 1], run[n]);
        ConnectedHasNoGap(run[n - 1], run[n]);
      }
      forall i | 0 <= i < n ensures !FlushesIntoGap(run[i], run[i + 1]) {
      }
      ReachableInv(run, n);
    }
  }

  lemma GapNeedsCompaction(d: Db, d': Db)
    requires FlushesIntoGap(d, d')
    ensures d.running.Some?
  {
  }

  /** A snapshot that a reader may hold: one in the list, or the last sequence number. */
  ghost predicate Live(d: Db, s: nat) {
    s == d.lastSeq || exists i :: 0 <= i < |d.snapshots| && d.snapshots[i] == s
  }

  /** In every state of a run without a flush into a gap and without a losing finish, every live
      snapshot reads exactly the history of writes. */
  lemma ReadsAreExact(run: seq<Db>, n: nat, k: UserKey, s: nat)
    requires IsRunOf(run) && n < |run| && Live(run[n], s) && NoGapFlush(run, n) && NoLoss(run, n)
    ensures ReadAt(Stored(run[n]), k, s) == ReadAt(run[n].history, k, s)
  {
    ReachableInv(run, n);
    ReachableReads(run, n);
    assert SameReads(Stored(run[n]), run[n].history, run[n].floor, k);
  }

  lemma {:induction false} HistoryGrows(run: seq<Db>, m: nat, n: nat)
    requires IsRunOf(run) && m <= n < |run|
    ensures run[m].history <= run[n].history && run[m].lastSeq <= run[n].lastSeq
    ensures forall e :: e in run[n].history && e !in run[m].history ==> e.seqno > run[m].lastSeq
    decreases n - m
  {
    if m < n {
      HistoryGrows(run, m, n - 1);
      assert Next(run[n - 1], run[n - 1 + 1]);
    }
  }

  /** A snapshot reads the same at any two points of a run at which it is live: whatever was
      written, flushed, moved or compacted in between. */
  lemma SnapshotsAreStable(run: seq<Db>, m: nat, n: nat, k: UserKey, s: nat)
    requires IsRunOf(run) && m <= n < |run| && s <= run[m].lastSeq && Live(run[m], s) && Live(run[n], s)
    requires NoGapFlush(run, n) && NoLoss(run, n)
    ensures ReadAt(Stored(run[m]), k, s) == ReadAt(Stored(run[n]), k, s)
  {
    hide Inv, IsRunOf;
    ReadsAreExact(run, m, k, s);
    ReadsAreExact(run, n, k, s);
    HistoryGrows(run, m, n);
    ReachableHistory(run, m);
    ReachableHistory(run, n);
    ReadDependsOnVisible(run[m].history, run[n].history, k, s);
  }

  lemma ReachableHistory(run: seq<Db>, n: nat)
    requires IsRunOf(run) && n < |run| && NoGapFlush(run, n)
    ensures DistinctSeqnos(run[n].history)
  {
    ReachableInv(run, n);
  }

  /** DBImpl::Get: memtable, then immutable memtable, then the version. */
  method Get(d: Db, k: UserKey, s: nat) returns (r: Option<Bytes>)
    requires Inv(d)
    ensures r == ReadAt(Stored(d), k, s)
  {
    GetLayers(d, k, s);
    var hit := SeekEntries(d.mem, k, s);
    if hit.Some? {
      ReadOfNewest(Listed(d.mem), k, s, hit.value);
      return Outcome(hit.value);
    }
    if d.imm.Some? {
      hit := SeekEntries(d.imm.value, k, s);
      if hit.Some? {
        ReadOfNewest(Listed(d.imm.value), k, s, hit.value);
        return Outcome(hit.value);
      }
    }
    r := VersionGet.Get(d.version, k, s);
  }

  lemma GetLayers(d: Db, k: UserKey, s: nat)
    requires Inv(d)
    ensures DistinctSeqnos(Listed(d.mem)) && DistinctSeqnos(ImmEntries(d)) && ValidVersion(d.version)
    ensures Ascending(d.mem) && (d.imm.Some? ==> Ascending(d.imm.value))
    ensures !Invisible(Listed(d.mem), k, s) ==> ReadAt(Stored(d), k, s) == ReadAt(Listed(d.mem), k, s)
    ensures Invisible(Listed(d.mem), k, s) && !Invisible(ImmEntries(d), k, s) ==>
            ReadAt(Stored(d), k, s) == ReadAt(ImmEntries(d), k, s)
    ensures Invisible(Listed(d.mem), k, s) && Invisible(ImmEntries(d), k, s) ==>
              ReadAt(Stored(d), k, s) == ReadAt(VersionEntries(d.version), k, s)
  {
    hide WellStored, RunningOk, StartOk, ValidVersion;
    StoredIsValid(d.version, d.nextFile);
    var m, i, v := Listed(d.mem), ImmEntries(d), VersionEntries(d.version);
    assert Stored(d) == m + (i + v);
    SubsetDistinct(m + (i + v), d.history);
    SubsetDistinct(i + v, d.history);
    SubsetDistinct(m, d.history);
    SubsetDistinct(i, d.history);
    ReadOfStack(m, i + v, k, s);
    ReadOfStack(i, v, k, s);
  }

  // ---------------------------------------------------------------------------------------------
  // What a compaction gets rid of
  // ---------------------------------------------------------------------------------------------

  /** A compaction starts with the oldest live snapshot, or with the last sequence number if there is none. */
  lemma StartsAtOldest(d: Db, d': Db, level: nat, in0: seq<File>, in1: seq<File>)
    requires Inv(d) && StartStep(d, d', level, in0, in1)
    ensures var smallest := d'.running.value.smallest;
            if d.snapshots == [] then smallest == d.lastSeq
            else smallest in d.snapshots && forall s :: s in d.snapshots ==> smallest <= s
  {
    hide InputsOk, WellStored, HistoryOk, MemOk, RunningOk, StartOk;
    assert d.snapshots != [] ==> d.snapshots[0] in d.snapshots;
  }

  /** It installs no entry that a newer one among its inputs hides from that snapshot, and no tombstone that the
      snapshot sees unless some file further down covers its key. */
  lemma FinishDrops(d: Db, d': Db, outputs: seq<File>)
    requires FinishStep(d, d', outputs)
    ensures var r := d.running.value;
            && (forall a, b ::
                  a in LevelEntries(outputs) && b in InputEntries(r.in0, r.in1) && a.key == b.key
                    && a.seqno < b.seqno ==>
                    b.seqno > r.smallest)
            && (forall e :: e in LevelEntries(outputs) && e.kind == Deletion && e.seqno <= r.smallest ==>
                  exists l, f :: r.level + 2 <= l < NUM_LEVELS && f in r.input[l] && Covers(f, e.key))
  {
    var r := d.running.value;
    DropsAll(InputEntries(r.in0, r.in1), r.smallest, BaseKeys(r.input, r.level), LevelEntries(outputs));
    hide Kept, Installed, FreshNumbers, Disjoint;
    forall e | e in LevelEntries(outputs) && e.kind == Deletion && e.seqno <= r.smallest
      ensures exists l, f :: r.level + 2 <= l < NUM_LEVELS && f in r.input[l] && Covers(f, e.key)
    {
      assert !IsBase(r.input, r.level, e.key);
    }
  }
}
