/** How flushing, moving and compacting change a version, and why each keeps the version valid. */
module VersionSteps {
  import opened Config
  import opened Keys
  import opened Files
  import opened InputChoice
  import opened CompactionReads
  import opened VersionBuilder

  predicate FileBefore(f: File, g: File) {
    Before(f.smallest, g.smallest) || (!Before(g.smallest, f.smallest) && f.number < g.number)
  }

  const FILE_ORDER: Order<File> := Order((f: File) => f.number, (f: File, g: File) => FileBefore(f, g))

  /** Every level lists its files in order, and a file number names one file of one level. */
  ghost predicate WellStored(v: Version, nextFile: nat) {
    && ValidVersion(v)
    && (forall l :: 0 <= l < NUM_LEVELS ==> Sorted(FILE_ORDER, v[l]))
    && NumbersOk(v, nextFile)
  }

  /** File numbers are below the next one and name one file of one level. */
  ghost predicate NumbersOk(v: Version, next: nat) {
    && (forall l, f :: 0 <= l < NUM_LEVELS && f in v[l] ==> f.number < next)
    && (forall l, m, f, g ::
          0 <= l < NUM_LEVELS && 0 <= m < NUM_LEVELS && f in v[l] && g in v[m] && f.number == g.number ==>
          l == m && f == g)
  }

  ghost function NumbersAt(files: set<(nat, File)>, l: nat): set<nat> {
    set p | p in files && p.0 == l :: p.1.number
  }

  ghost function FilesAt(files: set<(nat, File)>, l: nat): set<File> {
    set p | p in files && p.0 == l :: p.1
  }

  /** The version the builder saves for one edit: first the deletions, then the additions. */
  ghost predicate Installed(v: Version, deleted: set<(nat, File)>, added: set<(nat, File)>, w: Version) {
    forall l :: 0 <= l < NUM_LEVELS ==>
      Saved(FILE_ORDER, v[l], NumbersAt(deleted, l) - NumbersAt(added, l), FilesAt(added, l), w[l])
  }

  /** The same by membership. */
  ghost predicate Edited(v: Version, deleted: set<(nat, File)>, added: set<(nat, File)>, w: Version) {
    && (forall l :: 0 <= l < NUM_LEVELS ==> Sorted(FILE_ORDER, w[l]))
    && forall l, f :: 0 <= l < NUM_LEVELS ==> (f in w[l] <==> (f in v[l] && (l, f) !in deleted) || (l, f) in added)
  }

  lemma InstalledIsEdited(v: Version, n: nat, deleted: set<(nat, File)>, added: set<(nat, File)>, w: Version)
    requires WellStored(v, n) && Installed(v, deleted, added, w)
    requires forall p :: p in deleted ==> p.0 < NUM_LEVELS && p.1 in v[p.0]
    requires forall p, l, g :: p in added && 0 <= l < NUM_LEVELS && g in v[l] && g.number == p.1.number ==>
               (l, g) in deleted && l != p.0
    ensures Edited(v, deleted, added, w)
  {
    hide ValidVersion, OrderOk;
    forall l, f | 0 <= l < NUM_LEVELS ensures f in w[l] <==> (f in v[l] && (l, f) !in deleted) || (l, f) in added {
      assert Saved(FILE_ORDER, v[l], NumbersAt(deleted, l) - NumbersAt(added, l), FilesAt(added, l), w[l]);
      assert FILE_ORDER.number(f) == f.number;
      assert (l, f) in added ==> f in FilesAt(added, l) && f.number in NumbersAt(added, l) by {
        assert (l, f).0 == l && (l, f).1 == f;
      }
      assert (l, f) in deleted ==> f.number in NumbersAt(deleted, l) by {
        assert (l, f).0 == l && (l, f).1 == f;
      }
    }
  }

  /** Any two files of the list have disjoint internal key ranges. */
  ghost predicate Apart(f: File, g: File) {
    Before(f.largest, g.smallest) || Before(g.largest, f.smallest)
  }

  lemma SortedApartDisjoint(fs: Level)
    requires Sorted(FILE_ORDER, fs)
    requires forall f, g :: f in fs && g in fs && f != g ==> Apart(f, g)
    ensures Disjoint(fs)
  {
    forall i, j | 0 <= i < j < |fs| ensures Before(fs[i].largest, fs[j].smallest) {
      assert FILE_ORDER.before(fs[i], fs[j]);
      assert FileBefore(fs[i], fs[j]);
      EntryCovered(fs[i], fs[i].largest);
      EntryCovered(fs[j], fs[j].largest);
      assert Apart(fs[i], fs[j]);
    }
  }

  lemma ApartInLevel(v: Version, l: nat, f: File, g: File)
    requires LevelsDisjoint(v) && 1 <= l < NUM_LEVELS && f in v[l] && g in v[l] && f != g
    ensures Apart(f, g)
  {
    FilesApart(v[l], f, g);
  }

  lemma LevelZeroOrdered(fs: Level)
    requires Sorted(FILE_ORDER, fs)
    requires forall f, g :: f in fs && g in fs && f.number == g.number ==> f == g
    requires forall f, g :: f in fs && g in fs && f.number > g.number ==> NewerThan(Ents(f), Ents(g))
    ensures NumberOrdered(fs)
  {
    forall i, j | 0 <= i < j < |fs| ensures fs[i].number != fs[j].number {
      assert FILE_ORDER.before(fs[i], fs[j]);
      assert FileBefore(fs[i], fs[j]);
      assert fs[i] in fs && fs[j] in fs;
    }
  }

  // ---------------------------------------------------------------------------------------------
  // Replacing inputs by outputs
  // ---------------------------------------------------------------------------------------------

  ghost function Placed(l: nat, fs: seq<File>): set<(nat, File)> {
    set f | f in fs :: (l, f)
  }

  ghost function InputFiles(level: nat, in0: seq<File>, in1: seq<File>): set<(nat, File)> {
    Placed(level, in0) + Placed(level + 1, in1)
  }

  /** The version after the files of a compaction at `level` are replaced by its outputs. */
  ghost predicate Replaced(v: Version, level: nat, in0: seq<File>, in1: seq<File>, outputs: seq<File>, w: Version) {
    Edited(v, InputFiles(level, in0, in1), Placed(level + 1, outputs), w)
  }

  lemma ReplacedMember(v: Version, level: nat, in0: seq<File>, in1: seq<File>, outputs: seq<File>, w: Version, l: nat,
          f: File)
    requires Replaced(v, level, in0, in1, outputs, w) && l < NUM_LEVELS
    ensures l == level ==> (f in w[l] <==> f in v[l] && f !in in0)
    ensures l == level + 1 ==> (f in w[l] <==> (f in v[l] && f !in in1) || f in outputs)
    ensures l != level && l != level + 1 ==> (f in w[l] <==> f in v[l])
  {
    assert (l, f) in Placed(level, in0) <==> l == level && f in in0;
    assert (l, f) in Placed(level + 1, in1) <==> l == level + 1 && f in in1;
    assert (l, f) in Placed(level + 1, outputs) <==> l == level + 1 && f in outputs;
  }

  lemma OutputAside(g: File, es: set<Entry>, f: File)
    requires Aside(g, es) && Ents(f) <= es
    ensures Apart(g, f)
  {
    assert f.smallest in Ents(f) && f.largest in Ents(f);
  }

  lemma OutputFileInputs(outputs: seq<File>, es: set<Entry>, f: File)
    requires LevelEntries(outputs) <= es && f in outputs
    ensures Ents(f) <= es
  {
    forall e | e in Ents(f) ensures e in es {
      assert e in LevelEntries(outputs);
    }
  }

  lemma ReplacedDisjoint(v: Version, level: nat, in0: seq<File>, in1: seq<File>, base: iset<UserKey>, kept: set<Entry>,
          outputs: seq<File>, w: Version)
    requires LevelsDisjoint(v) && InputsSettled(v, level, in0, in1, base, kept)
    requires Disjoint(outputs) && LevelEntries(outputs) <= kept
    requires Replaced(v, level, in0, in1, outputs, w)
    ensures LevelsDisjoint(w)
  {
    forall l | 1 <= l < NUM_LEVELS ensures Disjoint(w[l]) {
      forall f, g | f in w[l] && g in w[l] && f != g ensures Apart(f, g) {
        ReplacedMember(v, level, in0, in1, outputs, w, l, f);
        ReplacedMember(v, level, in0, in1, outputs, w, l, g);
        if f in v[l] && g in v[l] {
          ApartInLevel(v, l, f, g);
        } else if f in outputs && g in outputs {
          FilesApart(outputs, f, g);
        } else if f in outputs {
          OutputFileInputs(outputs, kept, f);
          OutputAside(g, kept, f);
        } else {
          OutputFileInputs(outputs, kept, g);
          OutputAside(f, kept, g);
        }
      }
      SortedApartDisjoint(w[l]);
    }
  }

  /** Where an entry of the new version was before: in the same level, or among the inputs. */
  lemma ReplacedEntry(v: Version, level: nat, in0: seq<File>, in1: seq<File>, outputs: seq<File>, w: Version, l: nat,
          e: Entry)
    requires level + 1 < NUM_LEVELS && Replaced(v, level, in0, in1, outputs, w) && l < NUM_LEVELS
    requires LevelEntries(outputs) <= InputEntries(in0, in1)
    requires e in LevelEntries(w[l])
    ensures e in LevelEntries(v[l]) || (l == level + 1 && e in InputEntries(in0, in1))
    ensures l == level ==> exists f :: f in v[l] && f !in in0 && e in Ents(f)
  {
    var f :| f in w[l] && e in f.entries;
    ReplacedMember(v, level, in0, in1, outputs, w, l, f);
    if l == level + 1 && f in outputs {
      OutputFileInputs(outputs, InputEntries(in0, in1), f);
    }
  }

  lemma EntriesByLevel(v: Version, i: nat, j: nat, a: Entry, b: Entry)
    requires ShallowNewer(v) && i < j < NUM_LEVELS
    requires a in LevelEntries(v[i]) && b in LevelEntries(v[j]) && a.key == b.key
    ensures a.seqno > b.seqno
  {
    assert NewerThan(LevelEntries(v[i]), LevelEntries(v[j]));
  }

  lemma LeftBehindNewer(v: Version, level: nat, in0: seq<File>, in1: seq<File>, base: iset<UserKey>, kept: set<Entry>,
          f: File, a: Entry, b: Entry)
    requires InputsSettled(v, level, in0, in1, base, kept)
    requires f in v[level] && f !in in0 && a in Ents(f) && b in LevelEntries(in0) && a.key == b.key
    ensures a.seqno > b.seqno
  {
    assert NewerThan(Ents(f), LevelEntries(in0));
  }

  lemma InputLevels(v: Version, level: nat, in0: seq<File>, in1: seq<File>, base: iset<UserKey>, kept: set<Entry>)
    requires InputsSettled(v, level, in0, in1, base, kept)
    ensures level + 1 < NUM_LEVELS
    ensures LevelEntries(in0) <= LevelEntries(v[level])
    ensures LevelEntries(in1) <= LevelEntries(v[level + 1]) && kept <= InputEntries(in0, in1)
  {
  }

  lemma ReplacedNewer(v: Version, level: nat, in0: seq<File>, in1: seq<File>, base: iset<UserKey>, kept: set<Entry>,
          outputs: seq<File>, w: Version, l: nat, m: nat, a: Entry, b: Entry)
    requires ShallowNewer(v) && InputsSettled(v, level, in0, in1, base, kept)
    requires Replaced(v, level, in0, in1, outputs, w) && l < m < NUM_LEVELS
    requires LevelEntries(outputs) <= kept
    requires a in LevelEntries(w[l]) && b in LevelEntries(w[m]) && a.key == b.key
    ensures a.seqno > b.seqno
  {
    hide InputsSettled, NewerThan, Replaced, ShallowNewer;
    InputLevels(v, level, in0, in1, base, kept);
    ReplacedEntry(v, level, in0, in1, outputs, w, l, a);
    ReplacedEntry(v, level, in0, in1, outputs, w, m, b);
    if b in LevelEntries(in0) && l == level {
      var f :| f in v[l] && f !in in0 && a in Ents(f);
      LeftBehindNewer(v, level, in0, in1, base, kept, f, a, b);
    } else {
      var i := if a in LevelEntries(v[l]) then l else if a in LevelEntries(in0) then level else level + 1;
      var j := if b in LevelEntries(v[m]) then m else if b in LevelEntries(in0) then level else level + 1;
      EntriesByLevel(v, i, j, a, b);
    }
  }

  lemma ReplacedInVersion(v: Version, level: nat, in0: seq<File>, in1: seq<File>, base: iset<UserKey>, kept: set<Entry>,
          outputs: seq<File>, w: Version)
    requires InputsSettled(v, level, in0, in1, base, kept) && Replaced(v, level, in0, in1, outputs, w)
    requires LevelEntries(outputs) <= kept
    ensures VersionEntries(w) <= VersionEntries(v)
  {
    hide InputsSettled, Replaced;
    InputLevels(v, level, in0, in1, base, kept);
    forall e | e in VersionEntries(w) ensures e in VersionEntries(v) {
      var l, f :| 0 <= l < NUM_LEVELS && f in w[l] && e in f.entries;
      assert e in LevelEntries(w[l]);
      ReplacedEntry(v, level, in0, in1, outputs, w, l, e);
      InLevelInVersion(v, l);
      InLevelInVersion(v, level);
      InLevelInVersion(v, level + 1);
    }
  }

  lemma InLevelInVersion(v: Version, l: nat)
    requires l < NUM_LEVELS
    ensures LevelEntries(v[l]) <= VersionEntries(v)
  {
  }

  /** Replacing settled inputs by outputs over a subset of their entries keeps a version valid. */
  lemma ReplacedValid(v: Version, n: nat, level: nat, in0: seq<File>, in1: seq<File>, base: iset<UserKey>,
          kept: set<Entry>, outputs: seq<File>, w: Version)
    requires WellStored(v, n) && InputsSettled(v, level, in0, in1, base, kept)
    requires Disjoint(outputs) && LevelEntries(outputs) <= kept
    requires Replaced(v, level, in0, in1, outputs, w)
    ensures ValidVersion(w)
  {
    ReplacedDisjoint(v, level, in0, in1, base, kept, outputs, w);
    forall l, m | 0 <= l < m < NUM_LEVELS ensures NewerThan(LevelEntries(w[l]), LevelEntries(w[m])) {
      forall a, b | a in LevelEntries(w[l]) && b in LevelEntries(w[m]) && a.key == b.key ensures a.seqno > b.seqno {
        ReplacedNewer(v, level, in0, in1, base, kept, outputs, w, l, m, a, b);
      }
    }
    ReplacedInVersion(v, level, in0, in1, base, kept, outputs, w);
    SubsetDistinct(VersionEntries(w), VersionEntries(v));
    ReplacedLevelZero(v, n, level, in0, in1, outputs, w);
  }

  lemma SubsetDistinct(es: set<Entry>, fs: set<Entry>)
    requires es <= fs && DistinctSeqnos(fs)
    ensures DistinctSeqnos(es)
  {
  }

  lemma ReplacedLevelZero(v: Version, n: nat, level: nat, in0: seq<File>, in1: seq<File>, outputs: seq<File>,
          w: Version)
    requires WellStored(v, n) && Replaced(v, level, in0, in1, outputs, w)
    ensures NumberOrdered(w[0])
  {
    forall f | f in w[0] ensures f in v[0] {
      ReplacedMember(v, level, in0, in1, outputs, w, 0, f);
    }
    LevelZeroOrdered(w[0]);
  }

  lemma NotAnInput(v: Version, level: nat, in0: seq<File>, in1: seq<File>, base: iset<UserKey>, kept: set<Entry>,
          l: nat, g: File, e: Entry)
    requires ValidVersion(v) && InputsSettled(v, level, in0, in1, base, kept)
    requires l < NUM_LEVELS && g in v[l] && e in Ents(g)
    requires !(l == level && g in in0) && !(l == level + 1 && g in in1)
    ensures e !in InputEntries(in0, in1)
  {
    hide DistinctSeqnos, NumberOrdered, Aside;
    InputLevels(v, level, in0, in1, base, kept);
    assert e in LevelEntries(v[l]);
    if l != level {
      EntryInOneLevel(v, l, level, e);
    } else if e in LevelEntries(in0) {
      LeftBehindNewer(v, level, in0, in1, base, kept, g, e, e);
    }
    if l != level + 1 {
      EntryInOneLevel(v, l, level + 1, e);
    } else {
      OtherFileLacks(v[l], in1, g, e);
    }
  }

  lemma EntryInOneLevel(v: Version, l: nat, m: nat, e: Entry)
    requires ShallowNewer(v) && l < NUM_LEVELS && m < NUM_LEVELS && l != m
    requires e in LevelEntries(v[l])
    ensures e !in LevelEntries(v[m])
  {
    if l < m {
      assert NewerThan(LevelEntries(v[l]), LevelEntries(v[m]));
    } else {
      assert NewerThan(LevelEntries(v[m]), LevelEntries(v[l]));
    }
  }

  /** The new version holds the outputs' entries instead of the inputs', and all others as before. */
  lemma ReplacedEntries(v: Version, level: nat, in0: seq<File>, in1: seq<File>, base: iset<UserKey>, kept: set<Entry>,
          outputs: seq<File>, w: Version)
    requires ValidVersion(v) && InputsSettled(v, level, in0, in1, base, kept)
             && Replaced(v, level, in0, in1, outputs, w)
    requires LevelEntries(outputs) <= kept
    ensures VersionEntries(w) == (VersionEntries(v) - InputEntries(in0, in1)) + LevelEntries(outputs)
  {
    hide ValidVersion, InputsSettled, Replaced;
    InputLevels(v, level, in0, in1, base, kept);
    forall e | e in VersionEntries(w)
      ensures e in (VersionEntries(v) - InputEntries(in0, in1)) + LevelEntries(outputs) {
      var l, f :| 0 <= l < NUM_LEVELS && f in w[l] && e in f.entries;
      ReplacedMember(v, level, in0, in1, outputs, w, l, f);
      if !(l == level + 1 && f in outputs) {
        NotAnInput(v, level, in0, in1, base, kept, l, f, e);
      }
    }
    forall e | e in LevelEntries(outputs) ensures e in VersionEntries(w) {
      var f :| f in outputs && e in f.entries;
      ReplacedMember(v, level, in0, in1, outputs, w, level + 1, f);
    }
    forall e | e in VersionEntries(v) && e !in InputEntries(in0, in1) ensures e in VersionEntries(w) {
      var l, f :| 0 <= l < NUM_LEVELS && f in v[l] && e in f.entries;
      ReplacedMember(v, level, in0, in1, outputs, w, l, f);
    }
  }

  /** Output numbers are new, or (for a move) name the very file that leaves the level. */
  ghost predicate OutputNumbersOk(v: Version, level: nat, in0: seq<File>, outputs: seq<File>, next: nat) {
    && (forall f :: f in outputs ==> f.number < next)
    && (forall f, g :: f in outputs && g in outputs && f.number == g.number ==> f == g)
    && (forall f, l, g :: f in outputs && 0 <= l < NUM_LEVELS && g in v[l] && g.number == f.number ==>
      l == level && g in in0 && g == f)
  }

  lemma ReplacedStored(v: Version, n: nat, level: nat, in0: seq<File>, in1: seq<File>, base: iset<UserKey>,
          kept: set<Entry>, outputs: seq<File>, w: Version, next: nat)
    requires WellStored(v, n) && InputsSettled(v, level, in0, in1, base, kept)
    requires Disjoint(outputs) && LevelEntries(outputs) <= kept
    requires Installed(v, InputFiles(level, in0, in1), Placed(level + 1, outputs), w)
    requires OutputNumbersOk(v, level, in0, outputs, next) && n <= next
    ensures WellStored(w, next)
    ensures VersionEntries(w) == (VersionEntries(v) - InputEntries(in0, in1)) + LevelEntries(outputs)
  {
    hide ValidVersion, Sorted, Installed, Disjoint;
    InputFilesPlaced(v, level, in0, in1, base, kept, outputs);
    InstalledIsEdited(v, n, InputFiles(level, in0, in1), Placed(level + 1, outputs), w);
    ReplacedParts(v, n, level, in0, in1, base, kept, outputs, w, next);
    StoredFromParts(w, next);
  }

  lemma ReplacedParts(v: Version, n: nat, level: nat, in0: seq<File>, in1: seq<File>, base: iset<UserKey>,
          kept: set<Entry>, outputs: seq<File>, w: Version, next: nat)
    requires WellStored(v, n) && InputsSettled(v, level, in0, in1, base, kept)
    requires Disjoint(outputs) && LevelEntries(outputs) <= kept
    requires Replaced(v, level, in0, in1, outputs, w)
    requires OutputNumbersOk(v, level, in0, outputs, next) && n <= next
    ensures ValidVersion(w) && NumbersOk(w, next)
    ensures forall l :: 0 <= l < NUM_LEVELS ==> Sorted(FILE_ORDER, w[l])
    ensures VersionEntries(w) == (VersionEntries(v) - InputEntries(in0, in1)) + LevelEntries(outputs)
  {
    hide ValidVersion, InputsSettled, Sorted, Disjoint, OutputNumbersOk;
    ReplacedValid(v, n, level, in0, in1, base, kept, outputs, w);
    ReplacedEntries(v, level, in0, in1, base, kept, outputs, w);
    ReplacedNumbers(v, n, level, in0, in1, outputs, w, next);
  }

  lemma StoredIsValid(v: Version, n: nat)
    requires WellStored(v, n)
    ensures ValidVersion(v) && NumbersOk(v, n)
  {
  }

  lemma StoredFromParts(v: Version, n: nat)
    requires ValidVersion(v) && NumbersOk(v, n)
    requires forall l :: 0 <= l < NUM_LEVELS ==> Sorted(FILE_ORDER, v[l])
    ensures WellStored(v, n)
  {
  }

  lemma InputFilesPlaced(v: Version, level: nat, in0: seq<File>, in1: seq<File>, base: iset<UserKey>, kept: set<Entry>,
          outputs: seq<File>)
    requires InputsSettled(v, level, in0, in1, base, kept)
    requires forall f, l, g :: f in outputs && 0 <= l < NUM_LEVELS && g in v[l] && g.number == f.number ==>
             l == level && g in in0 && g == f
    ensures forall p :: p in InputFiles(level, in0, in1) ==> p.0 < NUM_LEVELS && p.1 in v[p.0]
    ensures forall p, l, g ::
              p in Placed(level + 1, outputs) && 0 <= l < NUM_LEVELS && g in v[l] && g.number == p.1.number ==>
              (l, g) in InputFiles(level, in0, in1) && l != p.0
  {
  }

  lemma ReplacedNumbers(v: Version, n: nat, level: nat, in0: seq<File>, in1: seq<File>, outputs: seq<File>, w: Version,
          next: nat)
    requires WellStored(v, n) && Replaced(v, level, in0, in1, outputs, w)
    requires OutputNumbersOk(v, level, in0, outputs, next) && n <= next
    ensures NumbersOk(w, next)
  {
    hide ValidVersion, Replaced, Sorted;
    forall l, f | 0 <= l < NUM_LEVELS && f in w[l] ensures f.number < next {
      ReplacedMember(v, level, in0, in1, outputs, w, l, f);
    }
    forall l, m, f, g | 0 <= l < NUM_LEVELS && 0 <= m < NUM_LEVELS && f in w[l] && g in w[m] && f.number == g.number
      ensures l == m && f == g
    {
      ReplacedMember(v, level, in0, in1, outputs, w, l, f);
      ReplacedMember(v, level, in0, in1, outputs, w, m, g);
    }
  }

  // ---------------------------------------------------------------------------------------------
  // Adding a flushed memtable
  // ---------------------------------------------------------------------------------------------

  predicate RangesMeet(f: File, g: File) {
    f.smallest.key <= g.largest.key && g.smallest.key <= f.largest.key
  }

  /** Where PickLevelForMemTableOutput may put a file: level 0, or below levels that hold nothing in
      its range, down to level 2. */
  ghost predicate FlushLevelOk(v: Version, f: File, level: nat) {
    level <= 2 && (level > 0 ==> forall l, g :: 0 <= l <= level && g in v[l] ==> !RangesMeet(f, g))
  }

  ghost predicate Flushed(v: Version, f: File, level: nat, w: Version) {
    Edited(v, {}, {(level, f)}, w)
  }

  lemma FlushedMember(v: Version, f: File, level: nat, w: Version, l: nat, g: File)
    requires Flushed(v, f, level, w) && l < NUM_LEVELS
    ensures g in w[l] <==> g in v[l] || (l == level && g == f)
  {
  }

  lemma FlushedEntry(v: Version, f: File, level: nat, w: Version, l: nat, e: Entry)
    requires Flushed(v, f, level, w) && l < NUM_LEVELS && e in LevelEntries(w[l])
    ensures e in LevelEntries(v[l]) || (l == level && e in Ents(f))
  {
    var g :| g in w[l] && e in g.entries;
    FlushedMember(v, f, level, w, l, g);
  }

  lemma ApartByRange(f: File, g: File)
    requires !RangesMeet(f, g)
    ensures Apart(f, g)
    ensures forall a, b :: a in Ents(f) && b in Ents(g) ==> a.key != b.key
  {
    forall a, b | a in Ents(f) && b in Ents(g) ensures a.key != b.key {
      EntryCovered(f, a);
      EntryCovered(g, b);
    }
  }

  lemma FlushedDisjoint(v: Version, f: File, level: nat, w: Version)
    requires LevelsDisjoint(v) && FlushLevelOk(v, f, level) && Flushed(v, f, level, w)
    ensures LevelsDisjoint(w)
  {
    forall l | 1 <= l < NUM_LEVELS ensures Disjoint(w[l]) {
      forall g, h | g in w[l] && h in w[l] && g != h ensures Apart(g, h) {
        FlushedMember(v, f, level, w, l, g);
        FlushedMember(v, f, level, w, l, h);
        if g in v[l] && h in v[l] {
          ApartInLevel(v, l, g, h);
        } else if g in v[l] {
          ApartByRange(f, g);
        } else {
          ApartByRange(f, h);
        }
      }
      SortedApartDisjoint(w[l]);
    }
  }

  lemma FlushedNewer(v: Version, f: File, level: nat, w: Version, l: nat, m: nat, a: Entry, b: Entry)
    requires ShallowNewer(v) && FlushLevelOk(v, f, level) && Flushed(v, f, level, w)
    requires NewerThan(Ents(f), VersionEntries(v)) && l < m < NUM_LEVELS
    requires a in LevelEntries(w[l]) && b in LevelEntries(w[m]) && a.key == b.key
    ensures a.seqno > b.seqno
  {
    hide Flushed, ShallowNewer;
    FlushedEntry(v, f, level, w, l, a);
    FlushedEntry(v, f, level, w, m, b);
    InLevelInVersion(v, m);
    if a in LevelEntries(v[l]) {
      if b in LevelEntries(v[m]) {
        EntriesByLevel(v, l, m, a, b);
      } else {
        var g :| g in v[l] && a in Ents(g);
        ApartByRange(f, g);
      }
    }
  }

  lemma FlushedEntries(v: Version, f: File, level: nat, w: Version)
    requires Flushed(v, f, level, w) && level < NUM_LEVELS
    ensures VersionEntries(w) == VersionEntries(v) + Ents(f)
  {
    forall e | e in VersionEntries(w) ensures e in VersionEntries(v) + Ents(f) {
      var l, g :| 0 <= l < NUM_LEVELS && g in w[l] && e in g.entries;
      FlushedMember(v, f, level, w, l, g);
    }
    forall e | e in VersionEntries(v) ensures e in VersionEntries(w) {
      var l, g :| 0 <= l < NUM_LEVELS && g in v[l] && e in g.entries;
      FlushedMember(v, f, level, w, l, g);
    }
    FlushedMember(v, f, level, w, level, f);
  }

  lemma FlushedLevelZero(v: Version, n: nat, f: File, level: nat, w: Version)
    requires WellStored(v, n) && NewerThan(Ents(f), VersionEntries(v)) && n <= f.number && Flushed(v, f, level, w)
    ensures NumberOrdered(w[0])
  {
    forall g, h | g in w[0] && h in w[0] && g.number == h.number ensures g == h {
      FlushedMember(v, f, level, w, 0, g);
      FlushedMember(v, f, level, w, 0, h);
    }
    forall g, h | g in w[0] && h in w[0] && g.number > h.number ensures NewerThan(Ents(g), Ents(h)) {
      FlushedMember(v, f, level, w, 0, g);
      FlushedMember(v, f, level, w, 0, h);
      if g == f && h in v[0] {
        assert Ents(h) <= VersionEntries(v);
      }
    }
    LevelZeroOrdered(w[0]);
  }

  lemma FlushedStored(v: Version, n: nat, f: File, level: nat, w: Version, next: nat)
    requires WellStored(v, n) && FlushLevelOk(v, f, level)
    requires Installed(v, {}, {(level, f)}, w) && n <= f.number < next
    requires NewerThan(Ents(f), VersionEntries(v)) && DistinctSeqnos(VersionEntries(v) + Ents(f))
    ensures WellStored(w, next) && Flushed(v, f, level, w)
    ensures VersionEntries(w) == VersionEntries(v) + Ents(f)
  {
    hide WellStored, ValidVersion, NewerThan, DistinctSeqnos, Installed, Sorted, FlushLevelOk, NumbersOk, Flushed;
    InstalledIsFlushed(v, n, f, level, w);
    FlushedParts(v, n, f, level, w, next);
    StoredFromParts(w, next);
  }

  lemma InstalledIsFlushed(v: Version, n: nat, f: File, level: nat, w: Version)
    requires WellStored(v, n) && Installed(v, {}, {(level, f)}, w) && n <= f.number
    ensures Flushed(v, f, level, w)
  {
    hide ValidVersion, Sorted, Installed;
    InstalledIsEdited(v, n, {}, {(level, f)}, w);
  }

  lemma FlushedParts(v: Version, n: nat, f: File, level: nat, w: Version, next: nat)
    requires WellStored(v, n) && FlushLevelOk(v, f, level) && Flushed(v, f, level, w) && n <= f.number < next
    requires NewerThan(Ents(f), VersionEntries(v)) && DistinctSeqnos(VersionEntries(v) + Ents(f))
    ensures ValidVersion(w) && NumbersOk(w, next)
    ensures forall l :: 0 <= l < NUM_LEVELS ==> Sorted(FILE_ORDER, w[l])
    ensures VersionEntries(w) == VersionEntries(v) + Ents(f)
  {
    hide ValidVersion, NewerThan, DistinctSeqnos, Sorted;
    FlushedEntries(v, f, level, w);
    FlushedValid(v, n, f, level, w);
    FlushedNumbers(v, n, f, level, w, next);
  }

  lemma FlushedValid(v: Version, n: nat, f: File, level: nat, w: Version)
    requires WellStored(v, n) && FlushLevelOk(v, f, level) && Flushed(v, f, level, w) && n <= f.number
    requires NewerThan(Ents(f), VersionEntries(v)) && DistinctSeqnos(VersionEntries(w))
    ensures ValidVersion(w)
  {
    hide DistinctSeqnos;
    FlushedDisjoint(v, f, level, w);
    FlushedLevelZero(v, n, f, level, w);
    forall l, m | 0 <= l < m < NUM_LEVELS ensures NewerThan(LevelEntries(w[l]), LevelEntries(w[m])) {
      forall a, b | a in LevelEntries(w[l]) && b in LevelEntries(w[m]) && a.key == b.key ensures a.seqno > b.seqno {
        FlushedNewer(v, f, level, w, l, m, a, b);
      }
    }
  }

  lemma FlushedNumbers(v: Version, n: nat, f: File, level: nat, w: Version, next: nat)
    requires NumbersOk(v, n) && Flushed(v, f, level, w) && n <= f.number < next
    ensures NumbersOk(w, next)
  {
    hide Flushed;
    forall l, g | 0 <= l < NUM_LEVELS && g in w[l] ensures g.number < next {
      FlushedMember(v, f, level, w, l, g);
    }
    forall l, m, g, h | 0 <= l < NUM_LEVELS && 0 <= m < NUM_LEVELS && g in w[l] && h in w[m] && g.number == h.number
      ensures l == m && g == h
    {
      FlushedMember(v, f, level, w, l, g);
      FlushedMember(v, f, level, w, m, h);
    }
  }

  // ---------------------------------------------------------------------------------------------
  // A flush in the middle of a compaction
  // ---------------------------------------------------------------------------------------------

  lemma InputEntrySide(f: File, in0: seq<File>, in1: seq<File>, hull: Range, e: Entry)
    requires forall g :: g in in0 + in1 ==> !RangesMeet(f, g)
    requires IsHull(in0 + in1, hull) && e in InputEntries(in0, in1)
    ensures e.key < f.smallest.key || e.key > f.largest.key
    ensures InRange(e.key, hull)
  {
    var g :| g in in0 + in1 && e in g.entries;
    EntryCovered(g, e);
    EntryCovered(f, f.largest);
    assert !RangesMeet(f, g);
  }

  lemma ClearKeyUncovered(f: File, files: seq<File>, hull: Range)
    requires forall g :: g in files ==> !RangesMeet(f, g)
    requires RangeCovered(files, hull)
    ensures !InRange(f.smallest.key, hull)
  {
    EntryCovered(f, f.largest);
    assert InRange(f.smallest.key, hull) ==> CoveredBy(files, f.smallest.key);
  }

  /** A file whose range meets none of a gap-free list of files lies to one side of them all. */
  lemma ClearOfConnected(f: File, in0: seq<File>, in1: seq<File>)
    requires in0 != [] && Connected(in0 + in1)
    requires forall g :: g in in0 + in1 ==> !RangesMeet(f, g)
    ensures Aside(f, InputEntries(in0, in1))
  {
    var es := InputEntries(in0, in1);
    var hull := HullExists(in0 + in1);
    ClearKeyUncovered(f, in0 + in1, hull);
    EntryCovered(f, f.largest);
    forall e | e in es
      ensures e.key < f.smallest.key || e.key > f.largest.key
      ensures InRange(e.key, hull)
    {
      InputEntrySide(f, in0, in1, hull, e);
    }
  }

  lemma AsideOfFewer(g: File, es: set<Entry>, fs: set<Entry>)
    requires fs <= es && Aside(g, es)
    ensures Aside(g, fs)
  {
  }

  /** Inputs stay settled when a memtable is flushed meanwhile, if and only if the file does not land
      in the output level or lies to one side of what the compaction will write. */
  lemma FlushKeepsSettledIff(v: Version, f: File, p: nat, w: Version, level: nat, in0: seq<File>, in1: seq<File>,
          base: iset<UserKey>, kept: set<Entry>)
    requires InputsSettled(v, level, in0, in1, base, kept)
    requires NewerThan(Ents(f), VersionEntries(v)) && FlushLevelOk(v, f, p) && Flushed(v, f, p, w)
    ensures InputsSettled(w, level, in0, in1, base, kept) <==> (p == level + 1 ==> Aside(f, kept))
  {
    NotThereYet(v, f, in1, level);
    if p == level + 1 {
      FlushedMember(v, f, p, w, p, f);
    }
    if p == level + 1 ==> Aside(f, kept) {
      hide Aside, NewerThan;
      FlushKeepsFiles(v, f, p, w, level, in0, in1, base, kept);
      forall g | g in w[level + 1] && g !in in1 ensures Aside(g, kept) {
        FlushedMember(v, f, p, w, level + 1, g);
      }
    }
  }

  lemma NotThereYet(v: Version, f: File, in1: seq<File>, level: nat)
    requires NewerThan(Ents(f), VersionEntries(v)) && level + 1 < NUM_LEVELS && forall g :: g in in1 ==>
             g in v[level + 1]
    ensures f !in in1
  {
    assert f.smallest in Ents(f);
    assert f in v[level + 1] ==> f.smallest in VersionEntries(v);
  }

  lemma FlushKeepsFiles(v: Version, f: File, p: nat, w: Version, level: nat, in0: seq<File>, in1: seq<File>,
          base: iset<UserKey>, kept: set<Entry>)
    requires InputsSettled(v, level, in0, in1, base, kept)
    requires NewerThan(Ents(f), VersionEntries(v)) && FlushLevelOk(v, f, p) && Flushed(v, f, p, w)
    ensures forall g :: g in in0 ==> g in w[level]
    ensures forall g :: g in in1 ==> g in w[level + 1]
    ensures forall g :: g in w[level] && g !in in0 ==> NewerThan(Ents(g), LevelEntries(in0))
    ensures forall e, l, g ::
              e in InputEntries(in0, in1) && e.key in base && level + 2 <= l < NUM_LEVELS && g in w[l] ==>
                !Covers(g, e.key)
  {
    hide Aside;
    InputsInVersion(v, level, in0, in1);
    forall g | g in in0 ensures g in w[level] {
      FlushedMember(v, f, p, w, level, g);
    }
    forall g | g in in1 ensures g in w[level + 1] {
      FlushedMember(v, f, p, w, level + 1, g);
    }
    forall g | g in w[level] && g !in in0 ensures NewerThan(Ents(g), LevelEntries(in0)) {
      FlushedMember(v, f, p, w, level, g);
    }
    forall e, l, g | e in InputEntries(in0, in1) && e.key in base && level + 2 <= l < NUM_LEVELS && g in w[l]
      ensures !Covers(g, e.key)
    {
      FlushedMember(v, f, p, w, l, g);
      if g !in v[l] {
        ClearOfInput(v, f, p, level, in0, in1, e);
      }
    }
  }

  lemma ClearOfInput(v: Version, f: File, p: nat, level: nat, in0: seq<File>, in1: seq<File>, e: Entry)
    requires FlushLevelOk(v, f, p) && level + 2 <= p < NUM_LEVELS
    requires (forall g :: g in in0 ==> g in v[level]) && forall g :: g in in1 ==> g in v[level + 1]
    requires e in InputEntries(in0, in1)
    ensures !Covers(f, e.key)
  {
    if e in LevelEntries(in0) {
      var g :| g in in0 && e in g.entries;
      EntryCovered(g, e);
      assert !RangesMeet(f, g);
    } else {
      var g :| g in in1 && e in g.entries;
      EntryCovered(g, e);
      assert !RangesMeet(f, g);
    }
  }
}
