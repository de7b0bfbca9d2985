/** VersionSet: logging and applying edits, so that recovery always gives the current version. */
module VersionSets {
  import opened Options
  import opened Config
  import opened Coding
  import opened LogFormat
  import opened LogWriter
  import LogRoundTrip
  import opened VersionBuilder
  import opened VersionEdits
  import opened Manifest

  // ---------------------------------------------------------------------------------------------
  // The snapshot record
  // ---------------------------------------------------------------------------------------------

  function AtLevel(l: nat, fs: seq<FileMeta>): (r: seq<(nat, FileMeta)>)
    ensures |r| == |fs|
    ensures forall i :: 0 <= i < |fs| ==> r[i] == (l, fs[i])
  {
    seq(|fs|, i requires 0 <= i < |fs| => (l, fs[i]))
  }

  /** The files of the first `n` levels. */
  function FilesBelow(files: Files, n: nat): seq<(nat, FileMeta)>
    requires n <= |files|
  {
    if n == 0 then [] else FilesBelow(files, n - 1) + AtLevel(n - 1, files[n - 1])
  }

  function PointersBelow(pointers: seq<Bytes>, n: nat): seq<(nat, Bytes)>
    requires n <= |pointers|
  {
    if n == 0 then [] else PointersBelow(pointers, n - 1) + if pointers[n - 1] == [] then []
      else [(n - 1, pointers[n - 1])]
  }

  function Snapshot(name: Bytes, pointers: seq<Bytes>, files: Files): VersionEdit {
    VersionEdit(Some(name), None, None, None, None, PointersBelow(pointers, |pointers|), [], FilesBelow(files, |files|))
  }

  /** WriteSnapshot, up to the write. */
  method MakeSnapshot(name: Bytes, pointers: seq<Bytes>, files: Files) returns (e: VersionEdit)
    ensures e == Snapshot(name, pointers, files)
  {
    e := NO_EDIT.(comparator := Some(name));
    for level := 0 to |pointers|
      invariant e == NO_EDIT.(comparator := Some(name), compactPointers := PointersBelow(pointers, level))
    {
      if pointers[level] != [] {
        e := e.(compactPointers := e.compactPointers + [(level, pointers[level])]);
      }
    }
    for level := 0 to |files|
      invariant e == NO_EDIT.(comparator := Some(name), compactPointers :=
                PointersBelow(pointers, |pointers|), newFiles := FilesBelow(files, level))
    {
      for i := 0 to |files[level]|
        invariant e == NO_EDIT.(comparator := Some(name), compactPointers := PointersBelow(pointers, |pointers|),
          newFiles := FilesBelow(files, level) + AtLevel(level, files[level])[..i])
      {
        e := e.(newFiles := e.newFiles + [(level, files[level][i])]);
      }
    }
  }

  lemma {:induction false} AddsConcat(a: seq<(nat, FileMeta)>, b: seq<(nat, FileMeta)>, l: nat)
    ensures AddsAt(a + b, l) == AddsAt(a, l) + AddsAt(b, l)
  {
    if b == [] {
      assert a + b == a;
    } else {
      AddsConcat(a, b[..|b| - 1], l);
      assert (a + b)[..|a + b| - 1] == a + b[..|b| - 1];
    }
  }

  lemma {:induction false} AddsOfLevel(k: nat, fs: seq<FileMeta>, l: nat)
    ensures AddsAt(AtLevel(k, fs), l) == if k == l then fs else []
  {
    if fs != [] {
      AddsOfLevel(k, fs[..|fs| - 1], l);
      assert AtLevel(k, fs)[..|fs| - 1] == AtLevel(k, fs[..|fs| - 1]);
    }
  }

  lemma NoAdds(l: nat)
    ensures AddsAt<FileMeta>([], l) == []
  {
  }

  /** The snapshot adds, at each level, the level's files in order. */
  lemma {:induction false} SnapshotAdds(files: Files, n: nat, l: nat)
    requires n <= |files|
    ensures AddsAt(FilesBelow(files, n), l) == if l < n then files[l] else []
  {
    hide AddsAt, AtLevel;
    if n == 0 {
      NoAdds(l);
    } else {
      SnapshotAdds(files, n - 1, l);
      AddsConcat(FilesBelow(files, n - 1), AtLevel(n - 1, files[n - 1]), l);
      AddsOfLevel(n - 1, files[n - 1], l);
    }
  }

  function PointerAt(ps: seq<(nat, Bytes)>, l: nat): Option<Bytes> {
    if ps == [] then None else if ps[|ps| - 1].0 == l then Some(ps[|ps| - 1].1) else PointerAt(ps[..|ps| - 1], l)
  }

  lemma {:induction false} SetPointersAt(pointers: seq<Bytes>, ps: seq<(nat, Bytes)>, l: nat)
    requires l < |pointers|
    ensures SetPointers(pointers, ps)[l] == if PointerAt(ps, l).Some? then PointerAt(ps, l).value else pointers[l]
  {
    if ps != [] {
      SetPointersAt(pointers, ps[..|ps| - 1], l);
    }
  }

  lemma {:induction false} SnapshotPointerAt(pointers: seq<Bytes>, n: nat, l: nat)
    requires n <= |pointers|
    ensures PointerAt(PointersBelow(pointers, n), l) == if l < n && pointers[l] != [] then Some(pointers[l]) else None
  {
    if n > 0 {
      SnapshotPointerAt(pointers, n - 1, l);
      var ps, before := PointersBelow(pointers, n), PointersBelow(pointers, n - 1);
      if pointers[n - 1] != [] {
        assert ps[..|ps| - 1] == before;
      } else {
        assert ps == before;
      }
    }
  }

  lemma SnapshotPointers(pointers: seq<Bytes>)
    requires |pointers| == NUM_LEVELS
    ensures SetPointers(NoPointers(), PointersBelow(pointers, |pointers|)) == pointers
  {
    forall l | 0 <= l < NUM_LEVELS
      ensures SetPointers(NoPointers(), PointersBelow(pointers, |pointers|))[l] == pointers[l] {
      SetPointersAt(NoPointers(), PointersBelow(pointers, |pointers|), l);
      SnapshotPointerAt(pointers, |pointers|, l);
    }
  }

  lemma SetPointersTwice(pointers: seq<Bytes>, ps: seq<(nat, Bytes)>)
    ensures SetPointers(SetPointers(pointers, ps), ps) == SetPointers(pointers, ps)
  {
    forall l | 0 <= l < |pointers|
      ensures SetPointers(SetPointers(pointers, ps), ps)[l] == SetPointers(pointers, ps)[l] {
      SetPointersAt(pointers, ps, l);
      SetPointersAt(SetPointers(pointers, ps), ps, l);
    }
  }

  // ---------------------------------------------------------------------------------------------
  // Recovery of a snapshot and the edits after it
  // ---------------------------------------------------------------------------------------------

  ghost predicate LevelOk(o: Order<FileMeta>, fs: seq<FileMeta>) {
    Sorted(o, fs) && DistinctNumbers(o, fs)
  }

  ghost predicate FilesOk(o: Order<FileMeta>, files: Files) {
    |files| == NUM_LEVELS && forall l :: 0 <= l < NUM_LEVELS ==> LevelOk(o, files[l])
  }

  /** What LogAndApply fills in before it logs an edit. */
  predicate Complete(e: VersionEdit) {
    e.comparator.None? && e.logNumber.Some? && e.prevLogNumber.Some? && e.nextFileNumber.Some? && e.lastSequence.Some?
  }

  /** No (level, file number) is added twice. */
  ghost predicate NumbersOnce(o: Order<FileMeta>, edits: seq<VersionEdit>) {
    forall l :: 0 <= l < NUM_LEVELS ==> NeverTwice(o, [], LevelEdits(edits, l))
  }

  /** The files of each level after the chain of single-edit versions. */
  lemma RecoveredFiles(o: Order<FileMeta>, name: Bytes, pointers: seq<Bytes>, files: Files, es: seq<VersionEdit>)
    requires OrderOk(o) && FilesOk(o, files) && NumbersOnce(o, [Snapshot(name, pointers, files)] + es)
    ensures Replayed(o, [Snapshot(name, pointers, files)] + es) == Chained(o, files, es)
  {
    hide Save, ApplyLevel, ApplyAll, NeverTwice;
    var edits := [Snapshot(name, pointers, files)] + es;
    forall l | 0 <= l < NUM_LEVELS ensures Replayed(o, edits)[l] == Chained(o, files, es)[l] {
      var les := LevelEdits(edits, l);
      ReplayIsChain(o, [], les);
      SnapshotAdds(files, |files|, l);
      assert les[0] == LevelEdit({}, files[l]);
      assert LevelOk(o, files[l]);
      SnapshotIsWhole(o, files[l]);
      assert les[1..] == LevelEdits(es, l);
    }
  }

  lemma {:induction false} RecoveredNumber(first: VersionEdit, es: seq<VersionEdit>, get: VersionEdit -> Option<uint64>)
    requires es != [] && get(es[|es| - 1]).Some?
    ensures LastSet([first] + es, get) == get(es[|es| - 1])
  {
  }

  lemma {:induction false} RecoveredPointers(name: Bytes, pointers: seq<Bytes>, files: Files, es: seq<VersionEdit>)
    requires |pointers| == NUM_LEVELS
    ensures AllPointers(NoPointers(), [Snapshot(name, pointers, files)] + es) == AllPointers(pointers, es)
  {
    var first := Snapshot(name, pointers, files);
    if es == [] {
      assert [first] + es == [first] && [first][..0] == [];
      SnapshotPointers(pointers);
    } else {
      RecoveredPointers(name, pointers, files, es[..|es| - 1]);
      assert ([first] + es)[..|es|] == [first] + es[..|es| - 1];
    }
  }

  /** Recovering a snapshot and the edits logged after it gives the files that the chain of
      single-edit versions has, and the numbers of the last edit. */
  lemma RecoveryIsLive(less: (Bytes, Bytes) -> bool, name: Bytes, pointers: seq<Bytes>, files: Files,
          es: seq<VersionEdit>)
    requires WeakOrder(less) && FilesOk(MetaOrder(less), files) && |pointers| == NUM_LEVELS && es != []
    requires forall i :: 0 <= i < |es| ==> Complete(es[i])
    requires NumbersOnce(MetaOrder(less), [Snapshot(name, pointers, files)] + es)
    ensures var last := es[|es| - 1];
            && Complete(last)
            && RecoverEdits(MetaOrder(less), name, [Snapshot(name, pointers, files)] + es) ==
            Ok(Recovered(Chained(MetaOrder(less), files, es), AllPointers(pointers, es), last.logNumber.value,
                         last.prevLogNumber.value, last.nextFileNumber.value, last.lastSequence.value))
  {
    hide LastSet, AllPointers, NumbersOnce, FilesOk;
    var first := Snapshot(name, pointers, files);
    var edits := [first] + es;
    MetaOrderOk(less);
    RecoveredFiles(MetaOrder(less), name, pointers, files, es);
    RecoveredPointers(name, pointers, files, es);
    assert Complete(es[|es| - 1]);
    RecoveredNumber(first, es, LOG);
    RecoveredNumber(first, es, PREV_LOG);
    RecoveredNumber(first, es, NEXT_FILE);
    RecoveredNumber(first, es, LAST_SEQ);
    forall i | 0 <= i < |edits| ensures NameOk(name, edits[i]) {
      assert i > 0 ==> edits[i] == es[i - 1] && Complete(es[i - 1]);
    }
  }

  // ---------------------------------------------------------------------------------------------
  // The object
  // ---------------------------------------------------------------------------------------------

  ghost predicate AllEditsOk(edits: seq<VersionEdit>) {
    forall i :: 0 <= i < |edits| ==> EditOk(edits[i])
  }

  /** One single-edit builder on each level. */
  ghost predicate StepsTo(o: Order<FileMeta>, files: Files, e: VersionEdit, next: Files) {
    && |files| == NUM_LEVELS && |next| == NUM_LEVELS
    && forall l :: 0 <= l < NUM_LEVELS ==>
      next[l] == Save(o, files[l], ApplyLevel(o, EmptyState(), EditAt(FilesOf(e), l)))
  }

  lemma ChainSnoc(o: Order<FileMeta>, base: seq<FileMeta>, es: seq<LevelEdit<FileMeta>>, e: LevelEdit<FileMeta>)
    ensures Chain(o, base, es + [e]) == Save(o, Chain(o, base, es), ApplyLevel(o, EmptyState(), e))
    decreases es
  {
    hide Save, ApplyLevel;
    if es == [] {
      assert [] + [e] == [e] && [e][1..] == [];
    } else {
      ChainSnoc(o, Save(o, base, ApplyLevel(o, EmptyState(), es[0])), es[1..], e);
      assert (es + [e])[1..] == es[1..] + [e];
    }
  }

  /** The chain ends in the version that the last single-edit builder saved. */
  lemma ChainedStep(o: Order<FileMeta>, base: Files, es: seq<VersionEdit>, e: VersionEdit, next: Files)
    requires |base| == NUM_LEVELS && StepsTo(o, Chained(o, base, es), e, next)
    ensures next == Chained(o, base, es + [e])
  {
    hide Save, ApplyLevel, Chain;
    forall l | 0 <= l < NUM_LEVELS ensures next[l] == Chained(o, base, es + [e])[l] {
      assert LevelEdits(es + [e], l) == LevelEdits(es, l) + [EditAt(FilesOf(e), l)];
      ChainSnoc(o, base[l], LevelEdits(es, l), EditAt(FilesOf(e), l));
    }
  }

  lemma ChainedSame(o: Order<FileMeta>, base: Files, es: seq<VersionEdit>, e: VersionEdit, f: VersionEdit)
    requires |base| == NUM_LEVELS && FilesOf(e) == FilesOf(f)
    ensures Chained(o, base, es + [e]) == Chained(o, base, es + [f])
  {
    forall l | 0 <= l < NUM_LEVELS ensures LevelEdits(es + [e], l) == LevelEdits(es + [f], l) {
    }
  }

  lemma EmptyChain(o: Order<FileMeta>, files: Files)
    requires |files| == NUM_LEVELS
    ensures Chained(o, files, []) == files
  {
  }

  lemma FirstPointers(was: seq<Bytes>, pointers: seq<Bytes>, e: VersionEdit)
    requires pointers == SetPointers(was, e.compactPointers)
    ensures AllPointers(pointers, [] + [e]) == pointers
  {
    assert ([] + [e])[..0] == [];
    SetPointersTwice(was, e.compactPointers);
  }

  lemma MorePointers(start: seq<Bytes>, es: seq<VersionEdit>, e: VersionEdit)
    ensures AllPointers(start, es + [e]) == SetPointers(AllPointers(start, es), e.compactPointers)
  {
    assert (es + [e])[..|es|] == es;
  }

  /** A builder over the current version, one edit, and the version it saves. */
  method ApplyTo(o: Order<FileMeta>, files: Files, edit: VersionEdit) returns (v: Files)
    requires |files| == NUM_LEVELS && LevelsBelow(FilesOf(edit), NUM_LEVELS)
    ensures StepsTo(o, files, edit, v)
  {
    var builder := new Builder(o, files);
    builder.Apply(FilesOf(edit));
    v := builder.SaveTo();
  }

  method NewManifest(crc: Checksum, name: Bytes, pointers: seq<Bytes>, files: Files) returns (w: Writer)
    ensures fresh(w) && w.crc == crc && w.Holds(Encoded([Snapshot(name, pointers, files)]))
  {
    w := new Writer(crc);
    var e := MakeSnapshot(name, pointers, files);
    var record := EncodeTo(e);
    w.AddRecord(record, []);
    assert Encoded([e]) == [] + [record];
  }

  lemma NumbersOncePrefix(o: Order<FileMeta>, edits: seq<VersionEdit>, m: nat)
    requires NumbersOnce(o, edits) && m <= |edits|
    ensures NumbersOnce(o, edits[..m])
  {
    hide AddsFresh;
    forall l | 0 <= l < NUM_LEVELS ensures NeverTwice(o, [], LevelEdits(edits[..m], l)) {
      assert NeverTwice(o, [], LevelEdits(edits, l));
      assert LevelEdits(edits[..m], l) == LevelEdits(edits, l)[..m];
    }
  }

  lemma ChainedOk(o: Order<FileMeta>, name: Bytes, pointers: seq<Bytes>, files: Files, es: seq<VersionEdit>)
    requires OrderOk(o) && FilesOk(o, files) && NumbersOnce(o, [Snapshot(name, pointers, files)] + es)
    ensures FilesOk(o, Chained(o, files, es))
  {
    var edits := [Snapshot(name, pointers, files)] + es;
    forall l | 0 <= l < NUM_LEVELS ensures LevelOk(o, Chained(o, files, es)[l]) {
      var les := LevelEdits(edits, l);
      assert NeverTwice(o, [], les) && LevelOk(o, files[l]);
      SnapshotAdds(files, |files|, l);
      assert les[0].adds == files[l];
      assert les[1..] == LevelEdits(es, l);
      forall i | 0 <= i < |es| ensures AddsFresh(o, files[l], LevelEdits(es, l)[i]) {
        assert AddsFresh(o, les[0].adds, les[i + 1]);
      }
      forall i, j | 0 <= i < j < |es| ensures AddsFresh(o, LevelEdits(es, l)[i].adds, LevelEdits(es, l)[j]) {
        assert AddsFresh(o, les[i + 1].adds, les[j + 1]);
      }
      ChainDistinct(o, files[l], LevelEdits(es, l));
    }
  }

  class VersionSet {
    const crc: Checksum
    const less: (Bytes, Bytes) -> bool
    const name: Bytes
    var files: Files
    var pointers: seq<Bytes>
    var logNumber: uint64
    var prevLogNumber: uint64
    var nextFileNumber: uint64
    var lastSequence: uint64
    var descriptor: Writer?
    /** The version and pointers the MANIFEST starts from, and the edits logged since. */
    ghost var start: Files
    ghost var startPointers: seq<Bytes>
    ghost var logged: seq<VersionEdit>

    constructor (crc: Checksum, less: (Bytes, Bytes) -> bool, name: Bytes)
      requires WeakOrder(less)
      ensures Valid() && descriptor == null && files == NoFiles() && pointers == NoPointers()
      ensures this.crc == crc && this.less == less && this.name == name
    {
      this.crc, this.less, this.name := crc, less, name;
      files, pointers := NoFiles(), NoPointers();
      logNumber, prevLogNumber, nextFileNumber, lastSequence := 0, 0, 2, 0;
      descriptor := null;
      start, startPointers, logged := NoFiles(), NoPointers(), [];
    }

    /** Installs what Recover found, before any edit is logged. */
    method Install(r: Recovered)
      requires Valid() && descriptor == null
      requires FilesOk(MetaOrder(less), r.files) && |r.pointers| == NUM_LEVELS && r.nextFile + 1 < TWO64
      modifies this
      ensures Valid() && descriptor == null && files == r.files && pointers == r.pointers
      ensures logNumber == r.logNumber && prevLogNumber == r.prevLogNumber && lastSequence == r.lastSequence
      ensures nextFileNumber == r.nextFile + 1
    {
      files, pointers := r.files, r.pointers;
      logNumber, prevLogNumber, nextFileNumber, lastSequence :=
        r.logNumber, r.prevLogNumber, r.nextFile + 1, r.lastSequence;
    }

    ghost function Records(): seq<VersionEdit>
      reads this
    {
      [Snapshot(name, startPointers, start)] + logged
    }

    ghost predicate Valid()
      reads this, descriptor
    {
      && WeakOrder(less) && |files| == NUM_LEVELS && |pointers| == NUM_LEVELS
      && (descriptor == null ==> FilesOk(MetaOrder(less), files))
      && (descriptor != null ==>
            && descriptor.crc == crc && descriptor.Holds(Encoded(Records())) && AllEditsOk(Records())
            && FilesOk(MetaOrder(less), start) && |start| == |startPointers| == NUM_LEVELS
            && NumbersOnce(MetaOrder(less), Records())
            && logged != [] && (forall i :: 0 <= i < |logged| ==> Complete(logged[i]))
            && files == Chained(MetaOrder(less), start, logged)
            && pointers == AllPointers(startPointers, logged)
            && logged[|logged| - 1].logNumber == Some(logNumber)
            && logged[|logged| - 1].prevLogNumber == Some(prevLogNumber))
    }

    /** The edit that is logged for a caller's edit. */
    function Completed(edit: VersionEdit): VersionEdit
      reads this
    {
      edit.(logNumber := if edit.logNumber.Some? then edit.logNumber else Some(logNumber),
            prevLogNumber := if edit.prevLogNumber.Some? then edit.prevLogNumber else Some(prevLogNumber),
            nextFileNumber := Some(nextFileNumber), lastSequence := Some(lastSequence))
    }

    /** The records of the MANIFEST once the edit is logged: a first edit comes after a snapshot. */
    ghost function RecordsWith(edit: VersionEdit): seq<VersionEdit>
      reads this
    {
      (if descriptor == null then [Snapshot(name, SetPointers(pointers, edit.compactPointers), files)] else Records()) +
      [Completed(edit)]
    }

    /** The MANIFEST is open and ends before the record of edit `e`, which the fields `pointers`
        already reflect. */
    ghost predicate Opened(e: VersionEdit)
      reads this, descriptor
    {
      && descriptor != null && descriptor.crc == crc && descriptor.Holds(Encoded(Records()))
      && FilesOk(MetaOrder(less), start) && |start| == |startPointers| == NUM_LEVELS
      && (forall i :: 0 <= i < |logged| ==> Complete(logged[i]))
      && files == Chained(MetaOrder(less), start, logged)
      && pointers == AllPointers(startPointers, logged + [e])
    }

    /** Applies the edit's pointers and, for the first edit, starts a MANIFEST with a snapshot. */
    method OpenManifest(edit: VersionEdit, ghost e: VersionEdit)
      requires Valid() && e == Completed(edit)
      modifies this
      ensures Opened(e) && Records() + [e] == old(RecordsWith(edit))
      ensures (old(descriptor) == null ==> fresh(descriptor))
              && (old(descriptor) != null ==> descriptor == old(descriptor))
      ensures files == old(files) && pointers == SetPointers(old(pointers), edit.compactPointers)
      ensures logNumber == old(logNumber) && prevLogNumber == old(prevLogNumber)
      ensures nextFileNumber == old(nextFileNumber) && lastSequence == old(lastSequence)
    {
      hide WeakOrder, FilesOk, NumbersOnce, EditOk, Chained, AllPointers, SetPointers, Snapshot, LogBytes, LogEnd;
      ghost var was := pointers;
      if descriptor == null {
        pointers := SetPointers(pointers, edit.compactPointers);
        descriptor := NewManifest(crc, name, pointers, files);
        start, startPointers, logged := files, pointers, [];
        EmptyChain(MetaOrder(less), files);
        FirstPointers(was, pointers, e);
        assert Records() == [Snapshot(name, pointers, files)];
      } else {
        MorePointers(startPointers, logged, e);
        pointers := SetPointers(pointers, edit.compactPointers);
        assert Records() == old(Records());
      }
    }

    /** Appends the record of the edit and makes the version current. */
    method LogEdit(e: VersionEdit, v: Files)
      requires Opened(e) && WeakOrder(less) && Complete(e) && |v| == |pointers| == NUM_LEVELS
      requires v == Chained(MetaOrder(less), start, logged + [e])
      requires AllEditsOk(Records() + [e]) && NumbersOnce(MetaOrder(less), Records() + [e])
      modifies this`files, this`logged, this`logNumber, this`prevLogNumber, descriptor
      ensures Valid() && Records() == old(Records()) + [e] && files == v
      ensures logNumber == e.logNumber.value && prevLogNumber == e.prevLogNumber.value
    {
      hide WeakOrder, FilesOk, NumbersOnce, EditOk, Chained, AllPointers, SetPointers, Snapshot, Encode, LogBytes,
        LogEnd;
      ghost var before := Records();
      assert (before + [e])[|before|] == e;
      var record := EncodeTo(e);
      assert Encoded(before + [e]) == Encoded(before) + [record];
      descriptor.AddRecord(record, Encoded(before));
      files, logged := v, logged + [e];
      assert Records() == before + [e];
      logNumber, prevLogNumber := e.logNumber.value, e.prevLogNumber.value;
    }

    method LogAndApply(edit: VersionEdit)
      requires Valid() && edit.comparator.None?
      requires AllEditsOk(RecordsWith(edit)) && NumbersOnce(MetaOrder(less), RecordsWith(edit))
      modifies this, descriptor
      ensures Valid() && descriptor != null && (old(descriptor) == null ==> fresh(descriptor))
              && (old(descriptor) != null ==> descriptor == old(descriptor))
      ensures Records() == old(RecordsWith(edit))
      ensures StepsTo(MetaOrder(less), old(files), edit, files)
      ensures pointers == SetPointers(old(pointers), edit.compactPointers)
      ensures Some(logNumber) == (if edit.logNumber.Some? then edit.logNumber else Some(old(logNumber)))
      ensures Some(prevLogNumber) == (if edit.prevLogNumber.Some? then edit.prevLogNumber else Some(old(prevLogNumber)))
      ensures nextFileNumber == old(nextFileNumber) && lastSequence == old(lastSequence)
    {
      hide WeakOrder, FilesOk, NumbersOnce, EditOk, StepsTo, Chained, AllPointers, SetPointers, Snapshot, Encode,
        LogBytes, LogEnd;
      ghost var records := RecordsWith(edit);
      var e := Completed(edit);
      assert records[|records| - 1] == e;
      EditLevels(e);
      var v := ApplyTo(MetaOrder(less), files, edit);
      OpenManifest(edit, e);
      ChainedStep(MetaOrder(less), start, logged, edit, v);
      ChainedSame(MetaOrder(less), start, logged, edit, e);
      hide Valid, Opened;
      LogEdit(e, v);
    }

    /** Recovering the first `m` records gives the version as it was after the edit of the last of
        them; with all records that is the current version, and the numbers last logged. */
    lemma RecoversLogged(m: nat)
      requires Valid() && descriptor != null && 2 <= m <= |Records()|
      ensures var last := Records()[m - 1];
              && Complete(last)
              && RecoverEdits(MetaOrder(less), name, Records()[..m]) ==
                 Ok(Recovered(Chained(MetaOrder(less), start, logged[..m - 1]),
                   AllPointers(startPointers, logged[..m - 1]),
                              last.logNumber.value, last.prevLogNumber.value, last.nextFileNumber.value,
                                last.lastSequence.value))
      ensures FilesOk(MetaOrder(less), Chained(MetaOrder(less), start, logged[..m - 1]))
      ensures m == |Records()| ==>
                && Chained(MetaOrder(less), start, logged[..m - 1]) == files
                && AllPointers(startPointers, logged[..m - 1]) == pointers
                && Records()[m - 1].logNumber == Some(logNumber)
                && Records()[m - 1].prevLogNumber == Some(prevLogNumber)
    {
      var es := logged[..m - 1];
      var first := Snapshot(name, startPointers, start);
      assert Records()[..m] == [first] + es;
      NumbersOncePrefix(MetaOrder(less), Records(), m);
      RecoveryIsLive(less, name, startPointers, start, es);
      assert m == |Records()| ==> es == logged;
      MetaOrderOk(less);
      ChainedOk(MetaOrder(less), name, startPointers, start, es);
    }
  }

  /** What is in a MANIFEST, and its first `m` records. */
  lemma ManifestFacts(vs: VersionSet, records: seq<VersionEdit>)
    requires vs.Valid() && vs.descriptor != null && records == vs.Records()
    ensures WeakOrder(vs.less) && vs.descriptor.dest == LogBytes(vs.crc, Encoded(records)) && AllEditsOk(records)
    ensures 2 <= |records|
  {
    hide EditOk, LogBytes, LogEnd, WeakOrder, NumbersOnce, FilesOk, Chained, AllPointers, Encode, Encoded;
  }

  /** File numbers do not run out. */
  ghost predicate NumbersFit(records: seq<VersionEdit>) {
    forall i :: 0 <= i < |records| && records[i].nextFileNumber.Some? ==> records[i].nextFileNumber.value + 1 < TWO64
  }

  lemma EncodedFront(records: seq<VersionEdit>, m: nat)
    requires m <= |records|
    ensures Encoded(records)[..m] == Encoded(records[..m])
  {
    hide Encode;
  }

  /** The edits that a prefix of a MANIFEST gives back. */
  method RecoverPrefix(crc: Checksum, o: Order<FileMeta>, name: Bytes, file: Bytes, ghost records: seq<VersionEdit>)
    returns (r: Result<Recovered>, ghost m: nat)
    requires file <= LogBytes(crc, Encoded(records)) && AllEditsOk(records) && 2 <= |records|
    requires |LogBytes(crc, Encoded(records[..2]))| <= |file|
    ensures 2 <= m <= |records| && LogRoundTrip.WholeRecords(crc, Encoded(records), |file|, m)
    ensures r == RecoverEdits(o, name, records[..m])
    ensures file == LogBytes(crc, Encoded(records)) ==> m == |records|
  {
    hide EditOk, LogBytes, Encode, Encoded, LogRoundTrip.WholeRecords, RecoverEdits;
    var found, whole := Recover(crc, o, name, file, records);
    r, m := found, whole;
    EncodedFront(records, 2);
    LogRoundTrip.AmongWhole(crc, Encoded(records), |file|, m, 2);
    if file == LogBytes(crc, Encoded(records)) {
      assert Encoded(records)[..|records|] == Encoded(records);
      LogRoundTrip.AmongWhole(crc, Encoded(records), |file|, m, |records|);
    }
  }

  lemma WholeManifest(vs: VersionSet, m: nat, r: Recovered)
    requires vs.Valid() && vs.descriptor != null && 2 <= m <= |vs.Records()|
    requires RecoverEdits(MetaOrder(vs.less), vs.name, vs.Records()[..m]) == Ok(r)
    ensures FilesOk(MetaOrder(vs.less), r.files) && |r.pointers| == NUM_LEVELS
    ensures r.files == Chained(MetaOrder(vs.less), vs.start, vs.logged[..m - 1])
    ensures m == |vs.Records()| ==>
              r.files == vs.files && r.pointers == vs.pointers && r.logNumber == vs.logNumber
                && r.prevLogNumber == vs.prevLogNumber
  {
    hide EditOk, LogBytes, LogEnd, WeakOrder, NumbersOnce, FilesOk, Chained, AllPointers, Encode, Encoded, RecoverEdits;
    vs.RecoversLogged(m);
  }

  /** Opening a database after a crash: any prefix of the MANIFEST of `vs` that has the records of its first
      edit, after which CURRENT names it, is recovered and installed.  The new version set has the version as
      it was after the last edit whose record is whole, and the current one if all of it is there. */
  method Reopen(vs: VersionSet, file: Bytes) returns (w: VersionSet, r: Recovered, ghost m: nat)
    requires vs.Valid() && vs.descriptor != null && file <= vs.descriptor.dest
    requires |LogBytes(vs.crc, Encoded(vs.Records()[..2]))| <= |file|
    requires NumbersFit(vs.Records())
    ensures 2 <= m <= |vs.Records()| && LogRoundTrip.WholeRecords(vs.crc, Encoded(vs.Records()), |file|, m)
    ensures RecoverEdits(MetaOrder(vs.less), vs.name, vs.Records()[..m]) == Ok(r)
    ensures r.files == Chained(MetaOrder(vs.less), vs.start, vs.logged[..m - 1])
    ensures file == vs.descriptor.dest ==>
              r.files == vs.files && r.pointers == vs.pointers && r.logNumber == vs.logNumber
                && r.prevLogNumber == vs.prevLogNumber
    ensures fresh(w) && w.Valid() && w.descriptor == null && w.files == r.files && w.pointers == r.pointers
    ensures w.logNumber == r.logNumber && w.prevLogNumber == r.prevLogNumber && w.lastSequence == r.lastSequence
    ensures w.nextFileNumber == r.nextFile + 1
  {
    hide EditOk, LogBytes, LogEnd, WeakOrder, NumbersOnce, FilesOk, Chained, AllPointers, Encode, Encoded, RecoverEdits,
      AllEditsOk;
    ManifestFacts(vs, vs.Records());
    hide VersionSet.Valid;
    var found, whole := RecoverPrefix(vs.crc, MetaOrder(vs.less), vs.name, file, vs.Records());
    m := whole;
    vs.RecoversLogged(m);
    r := found.value;
    WholeManifest(vs, m, r);
    w := new VersionSet(vs.crc, vs.less, vs.name);
    w.Install(r);
  }
}
