/** Two states in which the code's choices do harm: a deletion is lost, and a flush in the middle of a
    compaction makes two files of a level overlap. */
module Counterexamples {
  import opened Options
  import opened Config
  import opened Keys
  import opened Reads
  import opened Files
  import opened InputChoice
  import opened DropRules
  import opened Compaction
  import opened CompactionReads
  import opened VersionBuilder
  import opened VersionGet
  import opened VersionSteps
  import GapFlush

  // ---------------------------------------------------------------------------------------------
  // A deletion lost at the end of the next level's inputs
  // ---------------------------------------------------------------------------------------------

  const NEWER := Entry(1.0, 12, Value, "a")
  const FIRST := Entry(0.0, 3, Value, "b")
  const TOMBSTONE := Entry(2.0, 9, Deletion, "")
  const OLD := Entry(2.0, 5, Value, "old")

  function InputFile(): File { MakeFile(30, 1, [NEWER]) }
  function ChosenFile(): File { MakeFile(10, 1, [FIRST, TOMBSTONE]) }
  function BoundaryFile(): File { MakeFile(11, 1, [OLD]) }

  /** Level 1 holds one file; level 2 splits the user key 2 between two files. */
  function SplitKeyVersion(): Version {
    [[], [InputFile()], [ChosenFile(), BoundaryFile()], [], [], [], []]
  }

  lemma SplitKeyEntries()
    ensures VersionEntries(SplitKeyVersion()) == {NEWER, FIRST, TOMBSTONE, OLD}
    ensures InputEntries([InputFile()], [ChosenFile()]) == {NEWER, FIRST, TOMBSTONE}
  {
    var v := SplitKeyVersion();
    assert v[1][0] in v[1] && v[2][0] in v[2] && v[2][1] in v[2];
    assert InputFile() in [InputFile()] && ChosenFile() in [ChosenFile()];
    assert InputFile().entries[0] in InputFile().entries;
    assert ChosenFile().entries[0] in ChosenFile().entries && ChosenFile().entries[1] in ChosenFile().entries;
    assert BoundaryFile().entries[0] in BoundaryFile().entries;
  }

  lemma SplitKeyLevels()
    ensures LevelsDisjoint(SplitKeyVersion()) && NumberOrdered(SplitKeyVersion()[0])
  {
    forall l | 1 <= l < NUM_LEVELS ensures Disjoint(SplitKeyVersion()[l]) {
      assert l != 1 && l != 2 ==> SplitKeyVersion()[l] == [];
    }
  }

  lemma LevelKeys(l: nat, e: Entry)
    requires l < NUM_LEVELS && e in LevelEntries(SplitKeyVersion()[l])
    ensures (l == 1 && e.key == 1.0) || (l == 2 && e.key != 1.0)
  {
    var f :| f in SplitKeyVersion()[l] && e in f.entries;
  }

  lemma SplitKeyNewer()
    ensures ShallowNewer(SplitKeyVersion())
  {
    var v := SplitKeyVersion();
    forall l, m | 0 <= l < m < NUM_LEVELS ensures NewerThan(LevelEntries(v[l]), LevelEntries(v[m])) {
      forall a, b | a in LevelEntries(v[l]) && b in LevelEntries(v[m]) ensures a.key != b.key {
        LevelKeys(l, a);
        LevelKeys(m, b);
      }
    }
  }

  lemma SplitKeyDistinct()
    ensures DistinctSeqnos({NEWER, FIRST, TOMBSTONE, OLD}) && DistinctSeqnos({NEWER, FIRST, OLD})
  {
  }

  lemma SplitKeyValid()
    ensures ValidVersion(SplitKeyVersion())
  {
    hide LevelsDisjoint, NumberOrdered, ShallowNewer, SplitKeyVersion;
    SplitKeyEntries();
    SplitKeyLevels();
    SplitKeyNewer();
    SplitKeyDistinct();
  }

  lemma SplitKeyInputs()
    ensures InputsOk(SplitKeyVersion(), 1, [InputFile()], [ChosenFile()])
  {
    var v := SplitKeyVersion();
    var hull := Range(Some(1.0), Some(1.0));
    assert InputFile() in [InputFile()] && v[1][0] in v[1] && v[2][0] in v[2];
    assert IsHull([InputFile()], hull);
    assert ExactlyOverlapping(v[2], [ChosenFile()], hull);
  }

  /** The compaction of level 1 takes just these files. */
  method SplitKeyChosen(maxFileSize: nat) returns (in0: seq<File>, in1: seq<File>)
    ensures forall f :: f in in0 <==> f == InputFile()
    ensures forall f :: f in in1 <==> f == ChosenFile()
  {
    SplitKeyValid();
    var v := SplitKeyVersion();
    in0, in1 := PickCompaction(v, 1, 0, maxFileSize);
    SplitKeyOnly(v, in0, in1);
  }

  lemma SplitKeyOnly(v: Version, in0: seq<File>, in1: seq<File>)
    requires v == SplitKeyVersion() && InputsOk(v, 1, in0, in1)
    ensures forall f :: f in in0 <==> f == InputFile()
    ensures forall f :: f in in1 <==> f == ChosenFile()
  {
    assert in0[0] in in0 && in0[0] in v[1];
    var hull :| IsHull(in0, hull) && ExactlyOverlapping(v[2], in1, hull);
    assert hull == Range(Some(1.0), Some(1.0));
    assert v[2][0] in v[2];
    forall f | f in in1 ensures f == ChosenFile() {
      assert f in v[2] && Overlaps(f, hull);
    }
  }

  /** A compaction of level 1 takes the first level-2 file and leaves the one that starts with the
      same user key.  It drops the tombstone, and the deleted value is read again. */
  lemma DeletionLost()
    ensures var v := SplitKeyVersion();
            var in0, in1 := [InputFile()], [ChosenFile()];
            && ValidVersion(v) && InputsOk(v, 1, in0, in1)
            && ReadAt(VersionEntries(v), 2.0, 12) == None
            && ReadAt(Kept(InputEntries(in0, in1), 12, BaseKeys(v, 1)) + Outside(v, in0, in1, {}), 2.0, 12) ==
              Some("old")
  {
    hide ValidVersion, InputsOk, SplitKeyVersion, BaseKeys, Kept, DistinctSeqnos, IsNewest, ReadAt;
    var v := SplitKeyVersion();
    SplitKeyEntries();
    SplitKeyValid();
    SplitKeyInputs();
    AfterDrop();
    ReadsOfExample();
  }

  lemma AfterDrop()
    ensures var v := SplitKeyVersion();
            var in0, in1 := [InputFile()], [ChosenFile()];
            Kept(InputEntries(in0, in1), 12, BaseKeys(v, 1)) + Outside(v, in0, in1, {}) == {NEWER, FIRST, OLD}
  {
    var v := SplitKeyVersion();
    SplitKeyEntries();
    assert TOMBSTONE.key in BaseKeys(v, 1) by {
      assert forall l :: 3 <= l < NUM_LEVELS ==> v[l] == [];
    }
    assert Kept({NEWER, FIRST, TOMBSTONE}, 12, BaseKeys(v, 1)) == {NEWER, FIRST};
  }

  lemma ReadsOfExample()
    ensures ReadAt({NEWER, FIRST, TOMBSTONE, OLD}, 2.0, 12) == None
    ensures ReadAt({NEWER, FIRST, OLD}, 2.0, 12) == Some("old")
  {
    SplitKeyDistinct();
    assert IsNewest({NEWER, FIRST, TOMBSTONE, OLD}, 2.0, 12, TOMBSTONE);
    ReadOfNewest({NEWER, FIRST, TOMBSTONE, OLD}, 2.0, 12, TOMBSTONE);
    assert IsNewest({NEWER, FIRST, OLD}, 2.0, 12, OLD);
    ReadOfNewest({NEWER, FIRST, OLD}, 2.0, 12, OLD);
  }

  // ---------------------------------------------------------------------------------------------
  // A flush into a gap between the inputs of a running compaction
  // ---------------------------------------------------------------------------------------------

  const LEFT := Entry(0.0, 1, Value, "l")
  const RIGHT := Entry(4.0, 2, Value, "r")
  const MIDDLE := Entry(2.0, 3, Value, "m")

  function LeftFile(): File { MakeFile(10, 1, [LEFT]) }
  function RightFile(): File { MakeFile(11, 1, [RIGHT]) }
  function MiddleFile(): File { MakeFile(12, 1, [MIDDLE]) }

  function GapVersion(): Version {
    [[], [LeftFile(), RightFile()], [], [], [], [], []]
  }

  lemma GapInputs()
    ensures InputsOk(GapVersion(), 1, [LeftFile(), RightFile()], [])
  {
    var v := GapVersion();
    var in0 := [LeftFile(), RightFile()];
    var hull := Range(Some(0.0), Some(4.0));
    assert in0[0] in in0 && in0[1] in in0 && v[1][0] in v[1] && v[1][1] in v[1];
    assert IsHull(in0, hull);
    assert ExactlyOverlapping(v[2], [], hull);
  }

  lemma GapOpen()
    ensures !Connected([LeftFile(), RightFile()])
  {
    var in0 := [LeftFile(), RightFile()];
    var hull := Range(Some(0.0), Some(4.0));
    assert in0[0] in in0 && in0[1] in in0;
    assert IsHull(in0, hull);
    assert InRange(2.0, hull) && !CoveredBy(in0, 2.0);
  }

  lemma GapLevel(l: nat, f: File)
    requires l < NUM_LEVELS && f in GapVersion()[l]
    ensures l == 1 && (f == LeftFile() || f == RightFile())
  {
  }

  lemma GapEntries()
    ensures VersionEntries(GapVersion()) == {LEFT, RIGHT} && LevelEntries(GapVersion()[1]) == {LEFT, RIGHT}
  {
    var v := GapVersion();
    assert v[1][0] in v[1] && v[1][1] in v[1];
    assert LeftFile().entries[0] in LeftFile().entries && RightFile().entries[0] in RightFile().entries;
    forall l, f, e | 0 <= l < NUM_LEVELS && f in v[l] && e in f.entries ensures e in {LEFT, RIGHT} {
      GapLevel(l, f);
    }
  }

  lemma GapLevels(l: nat)
    requires l < NUM_LEVELS
    ensures Sorted(FILE_ORDER, GapVersion()[l]) && Disjoint(GapVersion()[l])
  {
    assert FileBefore(LeftFile(), RightFile());
    assert l != 1 ==> GapVersion()[l] == [];
  }

  lemma GapValid()
    ensures ValidVersion(GapVersion())
  {
    GapEntries();
    forall l | 0 <= l < NUM_LEVELS ensures Disjoint(GapVersion()[l]) {
      GapLevels(l);
    }
    GapNewer();
    GapDistinct();
    assert NumberOrdered(GapVersion()[0]);
    hide GapVersion, Disjoint, VersionEntries, ShallowNewer, DistinctSeqnos, NumberOrdered;
  }

  lemma GapDistinct()
    ensures DistinctSeqnos({LEFT, RIGHT})
  {
  }

  lemma GapNewer()
    ensures ShallowNewer(GapVersion())
  {
    var v := GapVersion();
    forall l, m | 0 <= l < m < NUM_LEVELS ensures NewerThan(LevelEntries(v[l]), LevelEntries(v[m])) {
      OneLevelFilled(l, m);
    }
  }

  lemma OneLevelFilled(l: nat, m: nat)
    requires l < m < NUM_LEVELS
    ensures LevelEntries(GapVersion()[l]) == {} || LevelEntries(GapVersion()[m]) == {}
  {
    assert GapVersion()[l] == [] || GapVersion()[m] == [];
  }

  lemma GapStored()
    ensures WellStored(GapVersion(), 12)
  {
    GapValid();
    GapNumbers();
    forall l | 0 <= l < NUM_LEVELS ensures Sorted(FILE_ORDER, GapVersion()[l]) {
      GapLevels(l);
    }
    hide GapVersion, ValidVersion, Sorted, NumbersOk;
  }

  lemma GapNumbers()
    ensures NumbersOk(GapVersion(), 12)
  {
    var v := GapVersion();
    hide GapVersion;
    forall l, f | 0 <= l < NUM_LEVELS && f in v[l] ensures f.number < 12 {
      GapLevel(l, f);
    }
    forall l, m, f, g | 0 <= l < NUM_LEVELS && 0 <= m < NUM_LEVELS && f in v[l] && g in v[m] && f.number == g.number
      ensures l == m && f == g
    {
      GapLevel(l, f);
      GapLevel(m, g);
    }
  }

  /** A manual compaction of the whole of level 1 takes both files. */
  method GapChosen(maxFileSize: nat) returns (picked: bool, in0: seq<File>, in1: seq<File>)
    requires maxFileSize > 2
    ensures picked && in1 == [] && forall f :: f in in0 <==> f == LeftFile() || f == RightFile()
  {
    GapValid();
    var v := GapVersion();
    picked, in0, in1 := CompactRange(v, 1, Range(None, None), maxFileSize);
    GapOnly(v, picked, in0, in1, maxFileSize);
  }

  lemma GapOnly(v: Version, picked: bool, in0: seq<File>, in1: seq<File>, maxFileSize: nat)
    requires v == GapVersion() && maxFileSize > 2
    requires picked ==> InputsOk(v, 1, in0, in1) && TakesEnough(v[1], 1, Range(None, None), maxFileSize, in0)
    requires !picked ==> forall f :: f in v[1] ==> !Overlaps(f, Range(None, None))
    ensures picked && in1 == [] && forall f :: f in in0 <==> f == LeftFile() || f == RightFile()
  {
    hide OlderClosed;
    assert v[1][0] in v[1] && v[1][1] in v[1];
    assert Overlaps(LeftFile(), Range(None, None));
    GapTaken(in0, maxFileSize);
    assert forall f :: f in in1 ==> f in v[2];
    NothingIn(in1);
  }

  lemma NothingIn(files: seq<File>)
    requires forall f :: f !in files
    ensures files == []
  {
    if files != [] {
      HasMember(files);
    }
  }

  lemma HasMember(files: seq<File>)
    requires files != []
    ensures exists f :: f in files
  {
    assert files[0] in files;
  }

  lemma GapTaken(in0: seq<File>, maxFileSize: nat)
    requires maxFileSize > 2 && TakesEnough(GapVersion()[1], 1, Range(None, None), maxFileSize, in0)
    ensures LeftFile() in in0 && RightFile() in in0
  {
    var files := GapVersion()[1];
    assert files[..1] == [LeftFile()] && files[..0] == [];
    assert Overlapping(files[..1], Range(None, None)) == [LeftFile()];
    assert Overlapping(files, Range(None, None)) == files;
    var n: nat :| EnoughTaken(files, 1, Range(None, None), maxFileSize, in0, n);
    assert TotalFileSize(files[..1]) == 1;
    assert n == 2 && files[..2] == files;
    assert files[0] in files && files[1] in files;
  }

  /** A manual compaction may take both files of level 1.  A memtable flushed meanwhile may land between
      them, in level 2; the output that holds both inputs' entries then overlaps it, and the version
      with it is not valid. */
  lemma LandsInGap(w: Version, x: Version)
    requires Installed(GapVersion(), {}, {(2, MiddleFile())}, w)
    requires Installed(w, InputFiles(1, [LeftFile(), RightFile()], []), {(2, WideFile())}, x)
    ensures var v := GapVersion();
            && WellStored(v, 12) && InputsOk(v, 1, [LeftFile(), RightFile()], [])
            && !Connected([LeftFile(), RightFile()])
            && FlushLevelOk(v, MiddleFile(), 2) && WellStored(w, 13)
            && Ents(WideFile()) == Kept({LEFT, RIGHT}, 3, BaseKeys(v, 1))
            && !ValidVersion(x)
  {
    hide InputsOk, Connected, Installed, ValidVersion, WellStored, GapVersion, InputFiles, BaseKeys, Kept;
    GapInputs();
    GapOpen();
    GapStored();
    GapEntries();
    MiddleFits();
    FlushedStored(GapVersion(), 12, MiddleFile(), 2, w, 13);
    MiddleBeside(w);
    GapFlush.BothInLevel(w, 13, 1, [LeftFile(), RightFile()], [], MiddleFile(), WideFile(), x);
    WideOverlaps();
    GapFlush.OverlapIsInvalid(x, 2, MiddleFile(), WideFile());
    WideIsKept();
  }

  /** The overlapping level, as a list. */
  lemma LevelTwo(w: Version, x: Version)
    requires Installed(GapVersion(), {}, {(2, MiddleFile())}, w)
    requires Installed(w, InputFiles(1, [LeftFile(), RightFile()], []), {(2, WideFile())}, x)
    ensures x[2] == [WideFile(), MiddleFile()]
  {
    hide ValidVersion, WellStored, Installed, GapVersion, InputFiles, OrderOk, Sorted, Edited;
    var in0 := [LeftFile(), RightFile()];
    GapStored();
    GapEntries();
    MiddleFits();
    FlushedStored(GapVersion(), 12, MiddleFile(), 2, w, 13);
    MiddleBeside(w);
    GapFlush.InputsPlaced(w, 13, 1, in0, [], MiddleFile(), WideFile());
    InstalledIsEdited(w, 13, InputFiles(1, in0, []), {(2, WideFile())}, x);
    EditedList(w, x);
  }

  lemma EditedList(w: Version, x: Version)
    requires Flushed(GapVersion(), MiddleFile(), 2, w)
    requires Edited(w, InputFiles(1, [LeftFile(), RightFile()], []), {(2, WideFile())}, x)
    ensures x[2] == [WideFile(), MiddleFile()]
  {
    var two := [WideFile(), MiddleFile()];
    forall f ensures f in x[2] <==> f in two {
      FlushedMember(GapVersion(), MiddleFile(), 2, w, 2, f);
      assert f in GapVersion()[2] ==> f in [];
      assert (2, f).0 == 2 && (2, f).1 == f && (2, f) !in InputFiles(1, [LeftFile(), RightFile()], []);
    }
    assert FileBefore(WideFile(), MiddleFile());
    GapFlush.FileOrderOk();
    assert Sorted(FILE_ORDER, x[2]) && Sorted(FILE_ORDER, two);
    hide Edited, Flushed, GapVersion, InputFiles;
    SortedUnique(FILE_ORDER, x[2], two);
  }

  /** The code's binary search then misses the flushed entry. */
  method GapMisread(ghost w: Version, x: Version) returns (r: Option<Entry>)
    requires Installed(GapVersion(), {}, {(2, MiddleFile())}, w)
    requires Installed(w, InputFiles(1, [LeftFile(), RightFile()], []), {(2, WideFile())}, x)
    ensures r == None && MIDDLE in LevelEntries(x[2]) && Visible(MIDDLE, MIDDLE.key, MAX_SEQUENCE)
  {
    LevelTwo(w, x);
    assert x[2][1] == MiddleFile() && MIDDLE in MiddleFile().entries;
    r := SearchDeepLevel(x[2], MIDDLE.key, MAX_SEQUENCE);
  }

  /** The one output file that holds all the inputs' entries. */
  function WideFile(): File { MakeFile(13, 1, [LEFT, RIGHT]) }

  lemma MiddleFits()
    ensures FlushLevelOk(GapVersion(), MiddleFile(), 2)
    ensures NewerThan(Ents(MiddleFile()), {LEFT, RIGHT}) && DistinctSeqnos({LEFT, RIGHT} + Ents(MiddleFile()))
  {
    forall l, g | 0 <= l <= 2 && g in GapVersion()[l] ensures !RangesMeet(MiddleFile(), g) {
      GapLevel(l, g);
    }
  }

  lemma MiddleBeside(w: Version)
    requires Flushed(GapVersion(), MiddleFile(), 2, w)
    ensures GapFlush.Beside(w, 1, [LeftFile(), RightFile()], [], MiddleFile())
  {
    var v := GapVersion();
    assert v[1][0] in v[1] && v[1][1] in v[1];
    FlushedMember(v, MiddleFile(), 2, w, 2, MiddleFile());
    FlushedMember(v, MiddleFile(), 2, w, 1, LeftFile());
    FlushedMember(v, MiddleFile(), 2, w, 1, RightFile());
  }

  lemma WideOverlaps()
    ensures WideFile() != MiddleFile() && !Apart(WideFile(), MiddleFile())
  {
  }

  lemma WideIsKept()
    ensures Ents(WideFile()) == Kept({LEFT, RIGHT}, 3, BaseKeys(GapVersion(), 1))
  {
    hide BaseKeys;
    assert WideFile().entries[0] in WideFile().entries && WideFile().entries[1] in WideFile().entries;
  }
}
