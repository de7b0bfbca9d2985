/** The MANIFEST: every version change is logged as an edit, and replaying the log gives the version. */
module Manifest {
  import opened Options
  import opened Config
  import opened Coding
  import opened LogFormat
  import LogRoundTrip
  import opened VersionBuilder
  import opened VersionEdits

  /** Internal key order on encoded keys: some strict weak order. */
  ghost predicate WeakOrder(less: (Bytes, Bytes) -> bool) {
    && (forall a :: !less(a, a))
    && (forall a, b, c :: less(a, b) && less(b, c) ==> less(a, c))
    && (forall a, b, c :: less(a, c) ==> less(a, b) || less(b, c))
  }

  predicate MetaBefore(less: (Bytes, Bytes) -> bool, f: FileMeta, g: FileMeta) {
    less(f.smallest, g.smallest) || (!less(g.smallest, f.smallest) && f.number < g.number)
  }

  /** BySmallestKey. */
  function MetaOrder(less: (Bytes, Bytes) -> bool): Order<FileMeta> {
    Order((f: FileMeta) => f.number, (f: FileMeta, g: FileMeta) => MetaBefore(less, f, g))
  }

  lemma MetaOrderOk(less: (Bytes, Bytes) -> bool)
    requires WeakOrder(less)
    ensures OrderOk(MetaOrder(less))
  {
    var o := MetaOrder(less);
    forall f, g, h | o.before(f, g) && o.before(g, h) ensures o.before(f, h) {
      assert MetaBefore(less, f, g) && MetaBefore(less, g, h);
      assert less(h.smallest, f.smallest) ==> less(h.smallest, g.smallest) || less(g.smallest, f.smallest);
      assert MetaBefore(less, f, h);
    }
    forall f ensures !o.before(f, f) {
      assert !MetaBefore(less, f, f);
    }
    forall f, g | o.number(f) != o.number(g) ensures o.before(f, g) || o.before(g, f) {
      assert MetaBefore(less, f, g) || MetaBefore(less, g, f);
    }
  }

  type Files = seq<seq<FileMeta>>

  /** What recovery restores. */
  datatype Recovered = Recovered(files: Files, pointers: seq<Bytes>, logNumber: uint64, prevLogNumber: uint64,
          nextFile: uint64, lastSequence: uint64)

  function FilesOf(e: VersionEdit): FileEdit<FileMeta> {
    FileEdit(e.deletedFiles, e.newFiles)
  }

  function LevelEdits(edits: seq<VersionEdit>, l: nat): (r: seq<LevelEdit<FileMeta>>)
    ensures |r| == |edits|
    ensures forall i :: 0 <= i < |edits| ==> r[i] == EditAt(FilesOf(edits[i]), l)
  {
    seq(|edits|, i requires 0 <= i < |edits| => EditAt(FilesOf(edits[i]), l))
  }

  /** compact_pointer_ after the pointers of an edit. */
  function SetPointers(pointers: seq<Bytes>, ps: seq<(nat, Bytes)>): (r: seq<Bytes>)
    ensures |r| == |pointers|
  {
    if ps == [] then pointers
    else
      var p := ps[|ps| - 1];
      var before := SetPointers(pointers, ps[..|ps| - 1]);
      if p.0 < |before| then before[p.0 := p.1] else before
  }

  function AllPointers(pointers: seq<Bytes>, edits: seq<VersionEdit>): (r: seq<Bytes>)
    ensures |r| == |pointers|
  {
    if edits == [] then pointers
    else SetPointers(AllPointers(pointers, edits[..|edits| - 1]), edits[|edits| - 1].compactPointers)
  }

  /** The last value the edits give to a number. */
  function LastSet(edits: seq<VersionEdit>, get: VersionEdit -> Option<uint64>): Option<uint64> {
    if edits == [] then None
    else if get(edits[|edits| - 1]).Some? then get(edits[|edits| - 1])
    else LastSet(edits[..|edits| - 1], get)
  }

  const LOG: VersionEdit -> Option<uint64> := (e: VersionEdit) => e.logNumber
  const PREV_LOG: VersionEdit -> Option<uint64> := (e: VersionEdit) => e.prevLogNumber
  const NEXT_FILE: VersionEdit -> Option<uint64> := (e: VersionEdit) => e.nextFileNumber
  const LAST_SEQ: VersionEdit -> Option<uint64> := (e: VersionEdit) => e.lastSequence

  predicate NameOk(name: Bytes, e: VersionEdit) {
    e.comparator.Some? ==> e.comparator.value == name
  }

  function NoPointers(): (r: seq<Bytes>)
    ensures |r| == NUM_LEVELS
  {
    seq(NUM_LEVELS, _ => [])
  }

  /** All edits applied to one builder over the empty version. */
  function Replayed(o: Order<FileMeta>, edits: seq<VersionEdit>): (r: Files)
    ensures |r| == NUM_LEVELS
  {
    seq(NUM_LEVELS, l requires 0 <= l => Save(o, [], ApplyAll(o, EmptyState(), LevelEdits(edits, l))))
  }

  /** One builder per edit. */
  function Chained(o: Order<FileMeta>, files: Files, edits: seq<VersionEdit>): (r: Files)
    requires |files| == NUM_LEVELS
    ensures |r| == NUM_LEVELS
  {
    seq(NUM_LEVELS, l requires 0 <= l < NUM_LEVELS => Chain(o, files[l], LevelEdits(edits, l)))
  }

  function NoFiles(): (r: Files)
    ensures |r| == NUM_LEVELS && forall l :: 0 <= l < NUM_LEVELS ==> r[l] == []
  {
    seq(NUM_LEVELS, _ => [])
  }

  /** VersionSet::Recover, on the edits read. */
  function RecoverEdits(o: Order<FileMeta>, name: Bytes, edits: seq<VersionEdit>): Result<Recovered> {
    var next, log, last := LastSet(edits, NEXT_FILE), LastSet(edits, LOG), LastSet(edits, LAST_SEQ);
    var prev := LastSet(edits, PREV_LOG);
    if !forall i :: 0 <= i < |edits| ==> NameOk(name, edits[i]) then Corruption("does not match existing comparator")
    else if next.None? then Corruption("no meta-nextfile entry in descriptor")
    else if log.None? then Corruption("no meta-lognumber entry in descriptor")
    else if last.None? then Corruption("no last-sequence-number entry in descriptor")
    else Ok(Recovered(Replayed(o, edits), AllPointers(NoPointers(), edits), log.value,
                      if prev.Some? then prev.value else 0, next.value, last.value))
  }

  /** The value last given is that of an edit after which no edit gives one. */
  lemma {:induction false} LastSetIs(edits: seq<VersionEdit>, get: VersionEdit -> Option<uint64>) returns (i: nat)
    ensures LastSet(edits, get) == None <==> forall j :: 0 <= j < |edits| ==> get(edits[j]) == None
    ensures LastSet(edits, get).Some? ==>
            && i < |edits| && get(edits[i]) == LastSet(edits, get)
            && forall j :: i < j < |edits| ==> get(edits[j]) == None
  {
    i := 0;
    if edits != [] {
      var n := |edits| - 1;
      i := n;
      if get(edits[n]) == None {
        i := LastSetIs(edits[..n], get);
        assert forall j :: 0 <= j < n ==> edits[..n][j] == edits[j];
      }
    }
  }

  /** Recovery fails exactly if an edit names another comparator, or if no edit gives one of the numbers it needs. */
  lemma RefusedIff(o: Order<FileMeta>, name: Bytes, edits: seq<VersionEdit>)
    ensures RecoverEdits(o, name, edits).Corruption? <==>
            || (exists i :: 0 <= i < |edits| && edits[i].comparator.Some? && edits[i].comparator != Some(name))
            || (forall i :: 0 <= i < |edits| ==> edits[i].nextFileNumber == None)
            || (forall i :: 0 <= i < |edits| ==> edits[i].logNumber == None)
            || (forall i :: 0 <= i < |edits| ==> edits[i].lastSequence == None)
  {
    var a := LastSetIs(edits, NEXT_FILE);
    var b := LastSetIs(edits, LOG);
    var c := LastSetIs(edits, LAST_SEQ);
    hide LastSet, Replayed, AllPointers;
  }

  function Encoded(edits: seq<VersionEdit>): (r: seq<Bytes>)
    ensures |r| == |edits| && forall i :: 0 <= i < |edits| ==> r[i] == Encode(edits[i])
  {
    seq(|edits|, i requires 0 <= i < |edits| => Encode(edits[i]))
  }

  // ---------------------------------------------------------------------------------------------
  // Recovery
  // ---------------------------------------------------------------------------------------------

  lemma ApplyAllSnoc(o: Order<FileMeta>, st: LevelState<FileMeta>, es: seq<LevelEdit<FileMeta>>, e: LevelEdit<FileMeta>)
    ensures ApplyAll(o, st, es + [e]) == ApplyLevel(o, ApplyAll(o, st, es), e)
    decreases es
  {
    hide ApplyLevel;
    if es == [] {
      assert [] + [e] == [e] && [e][1..] == [];
    } else {
      ApplyAllSnoc(o, ApplyLevel(o, st, es[0]), es[1..], e);
      assert (es + [e])[1..] == es[1..] + [e];
    }
  }

  lemma LevelEditsStep(o: Order<FileMeta>, edits: seq<VersionEdit>, i: nat, l: nat)
    requires i < |edits|
    ensures ApplyAll(o, EmptyState(), LevelEdits(edits[..i + 1], l)) ==
            ApplyLevel(o, ApplyAll(o, EmptyState(), LevelEdits(edits[..i], l)), EditAt(FilesOf(edits[i]), l))
  {
    hide ApplyLevel, ApplyAll, EditAt;
    assert LevelEdits(edits[..i + 1], l) == LevelEdits(edits[..i], l) + [EditAt(FilesOf(edits[i]), l)];
    ApplyAllSnoc(o, EmptyState(), LevelEdits(edits[..i], l), EditAt(FilesOf(edits[i]), l));
  }

  lemma LastSetStep(edits: seq<VersionEdit>, i: nat, get: VersionEdit -> Option<uint64>)
    requires i < |edits|
    ensures LastSet(edits[..i + 1], get) == if get(edits[i]).Some? then get(edits[i]) else LastSet(edits[..i], get)
  {
    assert edits[..i + 1][..i] == edits[..i];
  }

  lemma PointersStep(edits: seq<VersionEdit>, i: nat)
    requires i < |edits|
    ensures AllPointers(NoPointers(), edits[..i + 1]) ==
            SetPointers(AllPointers(NoPointers(), edits[..i]), edits[i].compactPointers)
  {
    assert edits[..i + 1][..i] == edits[..i];
  }

  lemma EditLevels(e: VersionEdit)
    requires EditOk(e)
    ensures LevelsBelow(FilesOf(e), NUM_LEVELS)
    ensures forall i :: 0 <= i < |e.compactPointers| ==> e.compactPointers[i].0 < NUM_LEVELS
  {
    forall i | 0 <= i < |e.deletedFiles| ensures e.deletedFiles[i].0 < NUM_LEVELS {
      DeletedItemAt(e.deletedFiles, i);
      assert DeletedItems(e.deletedFiles)[i] in Items(e);
    }
    forall i | 0 <= i < |e.newFiles| ensures e.newFiles[i].0 < NUM_LEVELS {
      NewItemAt(e.newFiles, i);
      assert NewItems(e.newFiles)[i] in Items(e);
    }
    forall i | 0 <= i < |e.compactPointers| ensures e.compactPointers[i].0 < NUM_LEVELS {
      PointerItemAt(e.compactPointers, i);
      assert PointerItems(e.compactPointers)[i] in Items(e);
    }
  }

  lemma DeletedItemAt(ds: seq<(nat, uint64)>, i: nat)
    requires i < |ds|
    ensures |DeletedItems(ds)| == |ds| && DeletedItems(ds)[i] == DeletedFile(ds[i].0, ds[i].1)
    decreases ds
  {
    if i < |ds| - 1 {
      DeletedItemAt(ds[..|ds| - 1], i);
    } else if i > 0 {
      DeletedItemAt(ds[..|ds| - 1], i - 1);
    }
  }

  lemma NewItemAt(fs: seq<(nat, FileMeta)>, i: nat)
    requires i < |fs|
    ensures |NewItems(fs)| == |fs| && NewItems(fs)[i] == NewFile(fs[i].0, fs[i].1)
    decreases fs
  {
    if i < |fs| - 1 {
      NewItemAt(fs[..|fs| - 1], i);
    } else if i > 0 {
      NewItemAt(fs[..|fs| - 1], i - 1);
    }
  }

  lemma PointerItemAt(ps: seq<(nat, Bytes)>, i: nat)
    requires i < |ps|
    ensures |PointerItems(ps)| == |ps| && PointerItems(ps)[i] == CompactPointer(ps[i].0, ps[i].1)
    decreases ps
  {
    if i < |ps| - 1 {
      PointerItemAt(ps[..|ps| - 1], i);
    } else if i > 0 {
      PointerItemAt(ps[..|ps| - 1], i - 1);
    }
  }

  method ReadEdit(record: Bytes, ghost e: VersionEdit) returns (edit: VersionEdit)
    requires EditOk(e) && record == Encode(e)
    ensures edit == e
  {
    EditRoundTrip(e);
    var r := DecodeFrom(record);
    edit := r.value;
  }

  /** The numbers and pointers gathered while replaying. */
  datatype Meta = Meta(log: Option<uint64>, prev: Option<uint64>, next: Option<uint64>, last: Option<uint64>,
          pointers: seq<Bytes>)

  function MetaOf(edits: seq<VersionEdit>): Meta {
    Meta(LastSet(edits, LOG), LastSet(edits, PREV_LOG), LastSet(edits, NEXT_FILE), LastSet(edits, LAST_SEQ),
         AllPointers(NoPointers(), edits))
  }

  function GatherMeta(meta: Meta, e: VersionEdit): Meta {
    Meta(if e.logNumber.Some? then e.logNumber else meta.log,
         if e.prevLogNumber.Some? then e.prevLogNumber else meta.prev,
         if e.nextFileNumber.Some? then e.nextFileNumber else meta.next,
         if e.lastSequence.Some? then e.lastSequence else meta.last,
         SetPointers(meta.pointers, e.compactPointers))
  }

  lemma MetaStep(edits: seq<VersionEdit>, i: nat)
    requires i < |edits|
    ensures MetaOf(edits[..i + 1]) == GatherMeta(MetaOf(edits[..i]), edits[i])
  {
    LastSetStep(edits, i, NEXT_FILE);
    LastSetStep(edits, i, LOG);
    LastSetStep(edits, i, PREV_LOG);
    LastSetStep(edits, i, LAST_SEQ);
    PointersStep(edits, i);
  }

  ghost function ReplayedLevel(o: Order<FileMeta>, edits: seq<VersionEdit>, l: nat): LevelState<FileMeta> {
    ApplyAll(o, EmptyState(), LevelEdits(edits, l))
  }

  method ApplyEdit(builder: Builder<FileMeta>, edit: VersionEdit, ghost edits: seq<VersionEdit>, ghost i: nat)
    requires builder.Valid() && builder.base == NoFiles() && i < |edits| && edit == edits[i] && EditOk(edit)
    requires forall l :: 0 <= l < NUM_LEVELS ==> builder.levels[l] == ReplayedLevel(builder.order, edits[..i], l)
    modifies builder
    ensures builder.Valid()
    ensures forall l :: 0 <= l < NUM_LEVELS ==> builder.levels[l] == ReplayedLevel(builder.order, edits[..i + 1], l)
  {
    hide ApplyAll, ApplyLevel, EditAt;
    EditLevels(edit);
    builder.Apply(FilesOf(edit));
    forall l | 0 <= l < NUM_LEVELS ensures builder.levels[l] == ReplayedLevel(builder.order, edits[..i + 1], l) {
      LevelEditsStep(builder.order, edits, i, l);
    }
  }

  lemma ReplayStart(o: Order<FileMeta>, edits: seq<VersionEdit>)
    ensures forall l :: 0 <= l < NUM_LEVELS ==> ReplayedLevel(o, edits[..0], l) == EmptyState()
    ensures MetaOf(edits[..0]) == Meta(None, None, None, None, NoPointers())
  {
  }

  lemma ReplayEnd(o: Order<FileMeta>, edits: seq<VersionEdit>, files: Files)
    requires |files| == NUM_LEVELS
    requires forall l :: 0 <= l < NUM_LEVELS ==> files[l] == Save(o, [], ReplayedLevel(o, edits, l))
    ensures files == Replayed(o, edits)
  {
  }

  /** Applies the records' edits to one builder, up to a comparator that does not match. */
  method Replay(o: Order<FileMeta>, name: Bytes, records: seq<Bytes>, ghost edits: seq<VersionEdit>)
    returns (ok: bool, files: Files, meta: Meta)
    requires records == Encoded(edits) && forall i :: 0 <= i < |edits| ==> EditOk(edits[i])
    ensures ok <==> forall i :: 0 <= i < |edits| ==> NameOk(name, edits[i])
    ensures ok ==> files == Replayed(o, edits) && meta == MetaOf(edits)
  {
    hide EditOk, Encode, ReplayedLevel, MetaOf, GatherMeta, NameOk, Replayed, Save;
    var builder := new Builder(o, NoFiles());
    meta := Meta(None, None, None, None, NoPointers());
    ReplayStart(o, edits);
    var i := 0;
    while i < |records|
      invariant 0 <= i <= |records| && builder.Valid() && fresh(builder) && builder.order == o
                && builder.base == NoFiles()
      invariant forall l :: 0 <= l < NUM_LEVELS ==> builder.levels[l] == ReplayedLevel(o, edits[..i], l)
      invariant meta == MetaOf(edits[..i])
      invariant forall j :: 0 <= j < i ==> NameOk(name, edits[j])
    {
      var edit := ReadEdit(records[i], edits[i]);
      if !NameOk(name, edit) {
        return false, [], meta;
      }
      ApplyEdit(builder, edit, edits, i);
      MetaStep(edits, i);
      meta := GatherMeta(meta, edit);
      i := i + 1;
    }
    assert edits[..i] == edits;
    files := builder.SaveTo();
    ReplayEnd(o, edits, files);
    ok := true;
  }

  /** VersionSet::Recover on any byte prefix of a MANIFEST: it recovers the edits whose records
      lie wholly in the prefix. */
  method Recover(crc: Checksum, o: Order<FileMeta>, name: Bytes, file: Bytes, ghost edits: seq<VersionEdit>)
    returns (r: Result<Recovered>, ghost m: nat)
    requires file <= LogBytes(crc, Encoded(edits))
    requires forall i :: 0 <= i < |edits| ==> EditOk(edits[i])
    ensures m <= |edits| && LogRoundTrip.WholeRecords(crc, Encoded(edits), |file|, m)
    ensures r == RecoverEdits(o, name, edits[..m])
  {
    hide LogBytes, EditOk, Encode, LogRoundTrip.WholeRecords, LastSet, AllPointers;
    var records, _ := LogRoundTrip.Recover(crc, file, Encoded(edits));
    m := |records|;
    assert m <= |edits|;
    assert records == Encoded(edits[..m]);
    var ok, files, meta := Replay(o, name, records, edits[..m]);
    if !ok {
      r := Corruption("does not match existing comparator");
    } else if meta.next.None? {
      r := Corruption("no meta-nextfile entry in descriptor");
    } else if meta.log.None? {
      r := Corruption("no meta-lognumber entry in descriptor");
    } else if meta.last.None? {
      r := Corruption("no last-sequence-number entry in descriptor");
    } else {
      r := Ok(Recovered(files, meta.pointers, meta.log.value, if meta.prev.Some? then meta.prev.value
        else 0, meta.next.value, meta.last.value));
    }
  }
}
