/** A memtable flushed into the output level of a running compaction: it does harm if and only if it
    lands between entries the compaction will write. */
module GapFlush {
  import opened Options
  import opened Config
  import opened Keys
  import opened Files
  import opened InputChoice
  import opened DropRules
  import opened Compaction
  import opened CompactionReads
  import opened VersionBuilder
  import opened VersionSteps
  import opened Lifecycle

  // ---------------------------------------------------------------------------------------------
  // Writing any set of entries as one file
  // ---------------------------------------------------------------------------------------------

  function InsertEntry(s: seq<Entry>, e: Entry): seq<Entry> {
    if s == [] || Before(e, s[0]) then [e] + s else [s[0]] + InsertEntry(s[1..], e)
  }

  lemma {:induction false} InsertEntryOk(s: seq<Entry>, e: Entry)
    requires Ascending(s) && forall x :: x in s ==> Before(x, e) || Before(e, x)
    ensures Ascending(InsertEntry(s, e)) && forall x :: x in InsertEntry(s, e) <==> x in s || x == e
  {
    if s != [] && !Before(e, s[0]) {
      InsertEntryOk(s[1..], e);
      var rest := InsertEntry(s[1..], e);
      assert s == [s[0]] + s[1..];
      forall i | 0 <= i < |rest| ensures Before(s[0], rest[i]) {
        assert rest[i] in rest;
      }
    }
  }

  lemma {:induction false} Listing(es: set<Entry>) returns (s: seq<Entry>)
    requires DistinctSeqnos(es)
    ensures Ascending(s) && Listed(s) == es
  {
    if es == {} {
      s := [];
    } else {
      var e :| e in es;
      s := Listing(es - {e});
      forall x | x in s ensures Before(x, e) || Before(e, x) {
        assert x in Listed(s);
      }
      InsertEntryOk(s, e);
      s := InsertEntry(s, e);
    }
  }

  // ---------------------------------------------------------------------------------------------
  // Installing one file
  // ---------------------------------------------------------------------------------------------

  ghost function AddsOf(l: nat, at: nat, o: File): seq<File> {
    if l == at then [o] else []
  }

  lemma FileOrderOk()
    ensures OrderOk(FILE_ORDER)
  {
  }

  lemma LevelSaved(fs: Level, deleted: set<(nat, File)>, l: nat, at: nat, o: File) returns (r: Level)
    requires Sorted(FILE_ORDER, fs) && forall g :: g in fs ==> g.number != o.number
    ensures Saved(FILE_ORDER, fs, NumbersAt(deleted, l) - NumbersAt({(at, o)}, l), FilesAt({(at, o)}, l), r)
  {
    FileOrderOk();
    hide OrderOk, FileBefore;
    var adds := AddsOf(l, at, o);
    var e := LevelEdit(NumbersAt(deleted, l), adds);
    assert AddsFresh(FILE_ORDER, fs, e);
    SaveIsSaved(FILE_ORDER, fs, e);
    r := Save(FILE_ORDER, fs, ApplyLevel(FILE_ORDER, EmptyState(), e));
    assert (at, o) in {(at, o)};
    assert Numbers(FILE_ORDER, adds) == NumbersAt({(at, o)}, l);
    assert (set f | f in adds) == FilesAt({(at, o)}, l);
  }

  lemma {:induction false} LevelsSaved(v: Version, deleted: set<(nat, File)>, at: nat, o: File, n: nat)
    returns (w: seq<Level>)
    requires n <= NUM_LEVELS && forall l :: 0 <= l < NUM_LEVELS ==> Sorted(FILE_ORDER, v[l])
    requires forall l, g :: 0 <= l < NUM_LEVELS && g in v[l] ==> g.number != o.number
    ensures |w| == n
    ensures forall l :: 0 <= l < n ==>
              Saved(FILE_ORDER, v[l], NumbersAt(deleted, l) - NumbersAt({(at, o)}, l), FilesAt({(at, o)}, l), w[l])
  {
    hide Saved, Sorted;
    if n == 0 {
      w := [];
    } else {
      var init := LevelsSaved(v, deleted, at, o, n - 1);
      var last := LevelSaved(v[n - 1], deleted, n - 1, at, o);
      w := init + [last];
    }
  }

  /** There is a version that saving the edit gives. */
  lemma InstalledExists(v: Version, n: nat, deleted: set<(nat, File)>, at: nat, o: File) returns (w: Version)
    requires WellStored(v, n) && n <= o.number
    ensures Installed(v, deleted, {(at, o)}, w)
  {
    hide ValidVersion, Sorted, Saved;
    w := LevelsSaved(v, deleted, at, o, NUM_LEVELS);
  }

  // ---------------------------------------------------------------------------------------------
  // A cut that overlaps the flushed file
  // ---------------------------------------------------------------------------------------------

  /** A file that holds entries on both sides of another overlaps it. */
  lemma HoldsBothSides(o: File, f: File, es: set<Entry>)
    requires Ents(o) == es && !Aside(f, es)
    requires forall e :: e in es ==> e.key < f.smallest.key || e.key > f.largest.key
    ensures !Apart(o, f) && o != f
  {
    var a :| a in es && !Before(f.largest, a);
    var b :| b in es && !Before(b, f.smallest);
    EntryCovered(f, f.largest);
    EntryCovered(o, a);
    EntryCovered(o, b);
    assert f.smallest in Ents(f);
  }

  /** The state after installing the one output. */
  ghost function WithOutput(d: Db, w: Version): Db
    requires d.running.Some?
  {
    d.(version := w, nextFile := d.nextFile + 1, running := None,
       floor := if d.floor < d.running.value.smallest then d.running.value.smallest else d.floor)
  }

  lemma OneOutput(d: Db, o: File, w: Version)
    requires d.running.Some? && WellStored(d.version, d.nextFile) && o.number == d.nextFile
             && Ents(o) == KeptBy(d.running.value)
    requires var r := d.running.value; Installed(d.version, InputFiles(r.level, r.in0, r.in1), {(r.level + 1, o)}, w)
    ensures FinishStep(d, WithOutput(d, w), [o])
  {
    hide ValidVersion, Sorted, Installed, KeptBy;
    var r := d.running.value;
    assert o in [o];
    assert LevelEntries([o]) == Ents(o);
    assert Placed(r.level + 1, [o]) == {(r.level + 1, o)};
  }

  /** The inputs are in their levels, and `f` is in the output level beside them. */
  ghost predicate Beside(v: Version, level: nat, in0: seq<File>, in1: seq<File>, f: File) {
    && level + 1 < NUM_LEVELS && f in v[level + 1] && f !in in1
    && (forall g :: g in in0 ==> g in v[level]) && (forall g :: g in in1 ==> g in v[level + 1])
  }

  lemma BothInLevel(v: Version, n: nat, level: nat, in0: seq<File>, in1: seq<File>, f: File, o: File, w: Version)
    requires WellStored(v, n) && n <= o.number && Beside(v, level, in0, in1, f)
    requires Installed(v, InputFiles(level, in0, in1), {(level + 1, o)}, w)
    ensures level + 1 < NUM_LEVELS && f in w[level + 1] && o in w[level + 1]
  {
    hide *;
    InputsPlaced(v, n, level, in0, in1, f, o);
    InstalledIsEdited(v, n, InputFiles(level, in0, in1), {(level + 1, o)}, w);
    EditedHasBoth(v, level, in0, in1, f, o, w);
  }

  lemma EditedHasBoth(v: Version, level: nat, in0: seq<File>, in1: seq<File>, f: File, o: File, w: Version)
    requires Beside(v, level, in0, in1, f) && Edited(v, InputFiles(level, in0, in1), {(level + 1, o)}, w)
    ensures level + 1 < NUM_LEVELS && f in w[level + 1] && o in w[level + 1]
  {
    assert Placed(level + 1, [o]) == {(level + 1, o)};
    ReplacedMember(v, level, in0, in1, [o], w, level + 1, f);
    ReplacedMember(v, level, in0, in1, [o], w, level + 1, o);
  }

  lemma InputsPlaced(v: Version, n: nat, level: nat, in0: seq<File>, in1: seq<File>, f: File, o: File)
    requires WellStored(v, n) && n <= o.number && Beside(v, level, in0, in1, f)
    ensures forall p :: p in InputFiles(level, in0, in1) ==> p.0 < NUM_LEVELS && p.1 in v[p.0]
    ensures forall p, l, g :: p in {(level + 1, o)} && 0 <= l < NUM_LEVELS && g in v[l] && g.number == p.1.number ==>
              (l, g) in InputFiles(level, in0, in1) && l != p.0
  {
    hide ValidVersion, Sorted;
  }

  lemma OverlapIsInvalid(w: Version, l: nat, f: File, o: File)
    requires 1 <= l < NUM_LEVELS && f in w[l] && o in w[l] && f != o && !Apart(o, f)
    ensures !ValidVersion(w)
  {
    OverlapIsNotDisjoint(w[l], f, o);
  }

  lemma OverlapIsNotDisjoint(fs: Level, f: File, o: File)
    requires f in fs && o in fs && f != o && !Apart(o, f)
    ensures !Disjoint(fs)
  {
    if Disjoint(fs) {
      FilesApart(fs, o, f);
    }
  }

  /** What the running compaction will write has keys on either side of a file flushed to its output level. */
  lemma KeptBesides(d: Db, f: File)
    requires RunningOk(d) && StartOk(d) && d.running.Some? && FlushLevelOk(d.version, f, d.running.value.level + 1)
    ensures forall e :: e in KeptBy(d.running.value) ==> e.key < f.smallest.key || e.key > f.largest.key
  {
    var r := d.running.value;
    FlushClearsInputs(d, f, r);
    KeptInside(InputEntries(r.in0, r.in1), r.smallest, BaseKeys(r.input, r.level));
    var hull := HullExists(r.in0 + r.in1);
    hide Kept, BaseKeys, RunningOk, StartOk, FlushLevelOk;
    forall e | e in KeptBy(r) ensures e.key < f.smallest.key || e.key > f.largest.key {
      InputEntrySide(f, r.in0, r.in1, hull, e);
    }
  }

  lemma KeptDistinct(d: Db)
    requires RunningOk(d) && HistoryOk(d) && d.running.Some?
    ensures DistinctSeqnos(KeptBy(d.running.value))
  {
    var r := d.running.value;
    RunningFacts(d);
    KeptInside(InputEntries(r.in0, r.in1), r.smallest, BaseKeys(r.input, r.level));
    StoredIs(d);
    hide RunningOk, Kept, BaseKeys, InputEntries, Stored;
    SubsetDistinct(KeptBy(r), d.history);
  }

  lemma KeptNotEmpty(f: File, es: set<Entry>)
    requires !Aside(f, es)
    ensures es != {}
  {
  }

  /** After a flush into a gap, the compaction may write one file that overlaps the flushed one. */
  lemma BadCut(d: Db, d': Db, size: nat) returns (outputs: seq<File>, d'': Db)
    requires Inv(d) && d.running.Some? && FlushStep(d, d', size, d.running.value.level + 1) && d.imm.value != []
    requires !Aside(MakeFile(d.nextFile, size, d.imm.value), KeptBy(d.running.value))
    ensures FinishStep(d', d'', outputs) && !ValidVersion(d''.version)
  {
    var r, f := d.running.value, MakeFile(d.nextFile, size, d.imm.value);
    FlushPlace(d, d', size, r.level + 1);
    FlushFacts(d, d', size, f);
    KeptBesides(d, f);
    KeptDistinct(d);
    KeptNotEmpty(f, KeptBy(r));
    hide *;
    var s := Listing(KeptBy(r));
    var o := OneFile(d'.nextFile, s, KeptBy(r));
    var w := InstalledExists(d'.version, d'.nextFile, InputFiles(r.level, r.in0, r.in1), r.level + 1, o);
    OneOutput(d', o, w);
    BothInLevel(d'.version, d'.nextFile, r.level, r.in0, r.in1, f, o, w);
    HoldsBothSides(o, f, KeptBy(r));
    OverlapIsInvalid(w, r.level + 1, f, o);
    outputs, d'' := [o], WithOutput(d', w);
    WithVersion(d', w);
  }

  lemma WithVersion(d: Db, w: Version)
    requires d.running.Some?
    ensures WithOutput(d, w).version == w
  {
  }

  lemma OneFile(number: nat, s: seq<Entry>, es: set<Entry>) returns (o: File)
    requires Ascending(s) && Listed(s) == es && es != {}
    ensures o.number == number && Ents(o) == es
  {
    assert s != [];
    o := MakeFile(number, 0, s);
  }

  lemma FlushFacts(d: Db, d': Db, size: nat, f: File)
    requires Inv(d) && d.running.Some? && FlushStep(d, d', size, d.running.value.level + 1) && d.imm.value != []
    requires f == MakeFile(d.nextFile, size, d.imm.value)
    ensures var r := d.running.value;
            d'.running == Some(r) && WellStored(d'.version, d'.nextFile) && Beside(d'.version, r.level, r.in0, r.in1, f)
  {
    hide *;
    var r := d.running.value;
    FlushParts(d, d', size, f, r.level + 1);
    SettledNow(d);
    FlushVersion(d, d', f, r.level + 1);
    FlushedBeside(d.version, f, d'.version, r.level, r.in0, r.in1, BaseKeys(r.input, r.level), KeptBy(r));
  }

  lemma FlushedBeside(v: Version, f: File, w: Version, level: nat, in0: seq<File>, in1: seq<File>, base: iset<UserKey>,
          kept: set<Entry>)
    requires InputsSettled(v, level, in0, in1, base, kept)
    requires NewerThan(Ents(f), VersionEntries(v)) && FlushLevelOk(v, f, level + 1) && Flushed(v, f, level + 1, w)
    ensures Beside(w, level, in0, in1, f)
  {
    hide FlushLevelOk, Flushed, NewerThan;
    FlushKeepsFiles(v, f, level + 1, w, level, in0, in1, base, kept);
    NotThereYet(v, f, in1, level);
    FlushedMember(v, f, level + 1, w, level + 1, f);
  }

  lemma FlushParts(d: Db, d': Db, size: nat, f: File, level: nat)
    requires FlushStep(d, d', size, level) && d.imm.value != [] && f == MakeFile(d.nextFile, size, d.imm.value)
    ensures d.imm == Some(f.entries) && f.number == d.nextFile && FlushLevelOk(d.version, f, level)
    ensures Installed(d.version, {}, {(level, f)}, d'.version) && d'.nextFile == d.nextFile + 1
            && d'.running == d.running
  {
    hide Installed, FlushLevelOk;
  }

  lemma SettledNow(d: Db)
    requires Inv(d) && d.running.Some?
    ensures var r := d.running.value;
            InputsSettled(d.version, r.level, r.in0, r.in1, BaseKeys(r.input, r.level), KeptBy(r))
  {
    hide WellStored, HistoryOk, MemOk, SnapshotsOk, StartOk, InputsSettled, KeptBy, BaseKeys;
  }

  /** A flush in the middle of a compaction does no harm, however the compaction's outputs are cut, if
      and only if it does not land in the output level between entries the compaction will write. */
  lemma FlushHarmlessIff(d: Db, d': Db, size: nat, level: nat)
    requires Inv(d) && FlushStep(d, d', size, level)
    ensures (forall outputs, d'' :: FinishStep(d', d'', outputs) ==> ValidVersion(d''.version)) <==>
            !FlushesIntoGap(d, d')
  {
    hide Inv, FlushStep, FinishStep, ValidVersion, KeptBy, Aside, Ascending;
    if FlushesIntoGap(d, d') {
      var n :| FlushStep(d, d', n, d.running.value.level + 1)
        && !Aside(MakeFile(d.nextFile, n, d.imm.value), KeptBy(d.running.value));
      var outputs, d'' := BadCut(d, d', n);
    } else {
      FlushKeepsInv(d, d', size, level);
      forall outputs, d'' | FinishStep(d', d'', outputs) ensures ValidVersion(d''.version) {
        FinishKeepsInv(d', d'', outputs);
        InvIsValid(d'');
      }
    }
  }

  lemma InvIsValid(d: Db)
    requires Inv(d)
    ensures ValidVersion(d.version)
  {
    StoredIsValid(d.version, d.nextFile);
  }
}
