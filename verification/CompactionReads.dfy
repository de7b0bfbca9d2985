/** A compaction seen from the whole database: what its inputs and the files around them satisfy,
    and exactly when replacing the inputs by the kept entries keeps every read. */
module CompactionReads {
  import opened Config
  import opened Keys
  import opened Reads
  import opened Files
  import opened InputChoice
  import opened DropRules
  import opened Compaction

  ghost function InputEntries(in0: seq<File>, in1: seq<File>): set<Entry> {
    LevelEntries(in0) + LevelEntries(in1)
  }

  /** `g` lies wholly before or wholly after the entries, in internal key order. */
  ghost predicate Aside(g: File, es: set<Entry>) {
    (forall e :: e in es ==> Before(g.largest, e)) || (forall e :: e in es ==> Before(e, g.smallest))
  }

  /** How the inputs of a compaction at `level` sit in a version; `base` is the set of keys the
      tombstone rule takes to have no deeper data, `kept` what the compaction will write. */
  ghost predicate InputsSettled(v: Version, level: nat, in0: seq<File>, in1: seq<File>, base: iset<UserKey>,
          kept: set<Entry>) {
    var es := InputEntries(in0, in1);
    && level + 1 < NUM_LEVELS && kept <= es
    && (forall f :: f in in0 ==> f in v[level])
    && (forall f :: f in in1 ==> f in v[level + 1])
    && (forall g :: g in v[level] && g !in in0 ==> NewerThan(Ents(g), LevelEntries(in0)))
    && (forall g :: g in v[level + 1] && g !in in1 ==> Aside(g, kept))
    && (forall e, l, g :: e in es && e.key in base && level + 2 <= l < NUM_LEVELS && g in v[l] ==> !Covers(g, e.key))
  }

  /** The next level has no file that starts, past the chosen ones, with the user key they end
      with: what AddBoundaryInputs would establish there. */
  ghost predicate NoNextBoundary(v: Version, level: nat, in1: seq<File>)
    requires level + 1 < NUM_LEVELS
  {
    forall g {:trigger BoundaryOf(in1, g)} :: g in v[level + 1] ==> !BoundaryOf(in1, g)
  }

  lemma InHull(in0: seq<File>, hull: Range, e: Entry)
    requires IsHull(in0, hull) && e in LevelEntries(in0)
    ensures InRange(e.key, hull)
  {
    var f :| f in in0 && e in f.entries;
    EntryCovered(f, e);
  }

  /** An unchosen file before the range of the level's inputs is before every chosen file; and one
      after it is after every chosen file. */
  lemma UnchosenSide(files: Level, in1: seq<File>, hull: Range, g: File, e: Entry)
    requires Disjoint(files) && hull.lo.Some? && hull.hi.Some? && hull.lo.value <= hull.hi.value
    requires ExactlyOverlapping(files, in1, hull)
    requires g in files && g !in in1 && e in LevelEntries(in1)
    ensures g.largest.key < hull.lo.value ==> Before(g.largest, e)
    ensures g.smallest.key > hull.hi.value ==> Before(e, g.smallest)
  {
    var f :| f in in1 && e in f.entries;
    EntryCovered(f, e);
    EntryCovered(f, f.largest);
    EntryCovered(g, g.largest);
    FilesApart(files, f, g);
  }

  /** A next-level file that is not chosen lies to one side of all inputs. */
  lemma UnchosenAside(files: Level, in0: seq<File>, in1: seq<File>, hull: Range, g: File)
    requires Disjoint(files)
    requires IsHull(in0, hull) && ExactlyOverlapping(files, in1, hull)
    requires g in files && g !in in1
    ensures Aside(g, InputEntries(in0, in1))
    ensures forall e :: e in LevelEntries(in0) ==> !Covers(g, e.key)
  {
    HullOrdered(in0, hull);
    forall e | e in LevelEntries(in0) ensures InRange(e.key, hull) {
      InHull(in0, hull, e);
    }
    forall e | e in LevelEntries(in1)
      ensures g.largest.key < hull.lo.value ==> Before(g.largest, e)
      ensures g.smallest.key > hull.hi.value ==> Before(e, g.smallest)
    {
      UnchosenSide(files, in1, hull, g, e);
    }
    assert !Overlaps(g, hull);
  }

  lemma HullOrdered(files: seq<File>, hull: Range)
    requires IsHull(files, hull)
    ensures hull.lo.value <= hull.hi.value
  {
    var f :| f in files && f.smallest.key == hull.lo.value;
    EntryCovered(f, f.largest);
  }

  lemma FilesApart(files: Level, f: File, g: File)
    requires Disjoint(files) && f in files && g in files && f != g
    ensures Before(f.largest, g.smallest) || Before(g.largest, f.smallest)
  {
    var i :| 0 <= i < |files| && files[i] == f;
    var j :| 0 <= j < |files| && files[j] == g;
    assert i < j || j < i;
  }

  /** The inputs every compaction starts from are settled in the version they were chosen in. */
  lemma ChosenInputsSettled(v: Version, level: nat, in0: seq<File>, in1: seq<File>, kept: set<Entry>)
    requires ValidVersion(v) && InputsOk(v, level, in0, in1) && kept <= InputEntries(in0, in1)
    ensures InputsSettled(v, level, in0, in1, BaseKeys(v, level), kept)
  {
    var hull :| IsHull(in0, hull) && ExactlyOverlapping(v[level + 1], in1, hull);
    forall g | g in v[level + 1] && g !in in1 ensures Aside(g, kept) {
      UnchosenAside(v[level + 1], in0, in1, hull, g);
    }
    forall g | g in v[level] && g !in in0 ensures NewerThan(Ents(g), LevelEntries(in0)) {
      forall a, b | a in Ents(g) && b in LevelEntries(in0) && a.key == b.key ensures a.seqno > b.seqno {
        var f :| f in in0 && b in f.entries;
        assert NewerThan(Ents(g), Ents(f));
      }
    }
  }

  /** An older entry for an input's key in an unchosen next-level file makes that file a boundary
      file of the chosen ones. */
  lemma OlderOutsideIsBoundary(v: Version, level: nat, in0: seq<File>, in1: seq<File>, g: File, d: Entry, t: Entry)
    requires ValidVersion(v) && InputsOk(v, level, in0, in1)
    requires g in v[level + 1] && g !in in1 && d in Ents(g)
    requires t in InputEntries(in0, in1) && t.key == d.key && d.seqno < t.seqno
    ensures BoundaryOf(in1, g) && g.smallest.key == d.key && t in LevelEntries(in1)
  {
    var hull :| IsHull(in0, hull) && ExactlyOverlapping(v[level + 1], in1, hull);
    UnchosenAside(v[level + 1], in0, in1, hull, g);
    EntryCovered(g, d);
    assert t !in LevelEntries(in0);
    OlderIsPast(v[level + 1], InputEntries(in0, in1), in1, g, d, t);
  }

  lemma OlderIsPast(files: Level, es: set<Entry>, in1: seq<File>, g: File, d: Entry, t: Entry)
    requires Disjoint(files) && (forall f :: f in in1 ==> f in files) && LevelEntries(in1) <= es
    requires g in files && g !in in1 && d in Ents(g) && Aside(g, es)
    requires t in LevelEntries(in1) && t.key == d.key && d.seqno < t.seqno
    ensures BoundaryOf(in1, g) && g.smallest.key == d.key
  {
    EntryCovered(g, d);
    assert Before(t, g.smallest);
    var f :| f in in1 && t in f.entries;
    EntryCovered(f, t);
    FilesApart(files, f, g);
    EntryCovered(g, g.largest);
    forall h | h in in1 ensures Before(h.largest, g.smallest) {
      assert h.largest in h.entries;
      assert h.largest in LevelEntries(in1);
    }
  }

  lemma InputsInVersion(v: Version, level: nat, in0: seq<File>, in1: seq<File>)
    requires level + 1 < NUM_LEVELS
    requires (forall f :: f in in0 ==> f in v[level]) && forall f :: f in in1 ==> f in v[level + 1]
    ensures InputEntries(in0, in1) <= VersionEntries(v)
  {
  }

  lemma OtherFileLacks(files: Level, chosen: seq<File>, g: File, d: Entry)
    requires Disjoint(files) && (forall f :: f in chosen ==> f in files)
    requires g in files && g !in chosen && d in Ents(g)
    ensures d !in LevelEntries(chosen)
  {
    EntryCovered(g, d);
    forall f | f in chosen ensures d !in f.entries {
      FilesApart(files, f, g);
      if d in f.entries {
        EntryCovered(f, d);
      }
    }
  }

  lemma DeeperLacks(v: Version, l: nat, m: nat, d: Entry)
    requires ShallowNewer(v) && l < m < NUM_LEVELS && d in LevelEntries(v[m])
    ensures d !in LevelEntries(v[l])
  {
    assert NewerThan(LevelEntries(v[l]), LevelEntries(v[m]));
  }

  /** An entry of an unchosen next-level file is not an input entry. */
  lemma UnchosenShareNothing(v: Version, level: nat, in0: seq<File>, in1: seq<File>, g: File, d: Entry)
    requires ValidVersion(v) && InputsOk(v, level, in0, in1)
    requires g in v[level + 1] && g !in in1 && d in Ents(g)
    ensures d !in InputEntries(in0, in1)
  {
    hide DistinctSeqnos;
    OtherFileLacks(v[level + 1], in1, g, d);
    assert d in LevelEntries(v[level + 1]);
    DeeperLacks(v, level, level + 1, d);
    assert LevelEntries(in0) <= LevelEntries(v[level]);
  }

  // ---------------------------------------------------------------------------------------------
  // Exactly when a compaction keeps every read
  // ---------------------------------------------------------------------------------------------

  /** Everything a read sees besides the inputs: `top` (memtables) and the other files. */
  ghost function Outside(v: Version, in0: seq<File>, in1: seq<File>, top: set<Entry>): set<Entry> {
    top + (VersionEntries(v) - InputEntries(in0, in1))
  }

  /** The state of the levels in which this compaction loses a deletion of `k`: the first file past
      the chosen ones of the next level starts with a value for the key they end with, and the
      newest input entry for it that the smallest snapshot sees is a tombstone the rule drops. */
  ghost predicate LosesDeletion(v: Version, level: nat, in0: seq<File>, in1: seq<File>, top: set<Entry>, smallest: nat,
          k: UserKey)
    requires level + 1 < NUM_LEVELS
  {
    exists g, t :: FirstBoundary(v[level + 1], in1, g) && g.smallest.key == k && g.smallest.kind == Value
                   && IsNewest(InputEntries(in0, in1), k, smallest, t) && t.kind == Deletion
                   && k in BaseKeys(v, level)
                   && forall r :: r in Outside(v, in0, in1, top) && Visible(r, k, smallest) ==> r.seqno < t.seqno
  }

  /** Where an entry outside the inputs that is older than an input entry for its key can be, if the
      key has no deeper data: in a boundary file of the next level. */
  lemma OlderOutside(v: Version, level: nat, in0: seq<File>, in1: seq<File>, top: set<Entry>, d: Entry, t: Entry)
    returns (h: File)
    requires ValidVersion(v) && InputsOk(v, level, in0, in1)
    requires NewerThan(top, VersionEntries(v))
    requires d in Outside(v, in0, in1, top) && t in InputEntries(in0, in1)
    requires t.key == d.key && d.seqno < t.seqno && t.key in BaseKeys(v, level)
    ensures h in v[level + 1] && h !in in1 && d in Ents(h) && BoundaryOf(in1, h) && h.smallest.key == d.key
  {
    hide DistinctSeqnos, LevelsDisjoint, NumberOrdered, ShallowNewer, InputsSettled, OlderClosed, ExactlyOverlapping,
      IsHull, BaseKeys;
    ChosenInVersion(v, level, in0, in1);
    assert d !in top;
    var l, f :| 0 <= l < NUM_LEVELS && f in v[l] && d in f.entries;
    assert d in LevelEntries(v[l]) && d in Ents(f);
    EntryCovered(f, d);
    ChosenInputsSettled(v, level, in0, in1, {});
    OlderLevel(v, level, in0, in1, l, f, d, t);
    h := f;
    OlderOutsideIsBoundary(v, level, in0, in1, h, d, t);
  }

  lemma NewerLevel(v: Version, l: nat, m: nat)
    requires ShallowNewer(v) && l < m < NUM_LEVELS
    ensures NewerThan(LevelEntries(v[l]), LevelEntries(v[m]))
  {
  }

  lemma ChosenInVersion(v: Version, level: nat, in0: seq<File>, in1: seq<File>)
    requires InputsOk(v, level, in0, in1)
    ensures InputEntries(in0, in1) <= VersionEntries(v)
  {
    InputsInVersion(v, level, in0, in1);
  }

  /** An input entry and an entry outside the inputs have different sequence numbers. */
  lemma OutsideDiffers(v: Version, level: nat, in0: seq<File>, in1: seq<File>, top: set<Entry>, r: Entry, t: Entry)
    requires InputsOk(v, level, in0, in1) && DistinctSeqnos(top + VersionEntries(v)) && top !! VersionEntries(v)
    requires r in Outside(v, in0, in1, top) && t in InputEntries(in0, in1) && r.key == t.key
    ensures r.seqno != t.seqno
  {
    ChosenInVersion(v, level, in0, in1);
    assert r in top + VersionEntries(v) && t in top + VersionEntries(v);
  }

  lemma OlderLevel(v: Version, level: nat, in0: seq<File>, in1: seq<File>, l: nat, f: File, d: Entry, t: Entry)
    requires ShallowNewer(v) && InputsSettled(v, level, in0, in1, BaseKeys(v, level), {})
    requires l < NUM_LEVELS && f in v[l] && d in f.entries && Covers(f, d.key) && d !in InputEntries(in0, in1)
    requires t in InputEntries(in0, in1) && t.key == d.key && d.seqno < t.seqno && t.key in BaseKeys(v, level)
    ensures l == level + 1 && f !in in1
  {
    assert d in LevelEntries(v[l]) && d in Ents(f);
    assert LevelEntries(in0) <= LevelEntries(v[level]) && LevelEntries(in1) <= LevelEntries(v[level + 1]);
    if l < level + 1 {
      NewerLevel(v, l, level + 1);
    }
    if l < level {
      NewerLevel(v, l, level);
    }
    assert f !in in0 && f !in in1;
  }

  lemma FirstBoundaryExists(files: Level, chosen: seq<File>, h: File) returns (g: File)
    requires Disjoint(files) && h in files && BoundaryOf(chosen, h)
    ensures FirstBoundary(files, chosen, g) && g.smallest.key == h.smallest.key
    ensures g == h || Before(g.smallest, h.smallest)
  {
    var at :| 0 <= at < |files| && files[at] == h;
    var m := 0;
    while !BoundaryOf(chosen, files[m])
      invariant m <= at && forall i :: 0 <= i < m ==> !BoundaryOf(chosen, files[i])
      decreases at - m
    {
      m := m + 1;
    }
    g := files[m];
    EntryCovered(g, g.largest);
    forall x | x in files && BoundaryOf(chosen, x) ensures x == g || Before(g.smallest, x.smallest) {
      var i :| 0 <= i < |files| && files[i] == x;
      if m < i {
        FilesAscend(files, m, i);
      }
    }
    BoundaryKeysAgree(chosen, g, h);
  }

  lemma BoundaryKeysAgree(chosen: seq<File>, g: File, h: File)
    requires BoundaryOf(chosen, g) && BoundaryOf(chosen, h)
    ensures g.smallest.key == h.smallest.key
  {
  }

  /** Where the first boundary file's first entry stands among the entries outside the inputs. */
  lemma BoundaryHeadIsNewest(v: Version, level: nat, in0: seq<File>, in1: seq<File>, top: set<Entry>, g: File, t: Entry)
    requires ValidVersion(v) && InputsOk(v, level, in0, in1)
    requires NewerThan(top, VersionEntries(v)) && DistinctSeqnos(top + VersionEntries(v)) && top !! VersionEntries(v)
    requires FirstBoundary(v[level + 1], in1, g)
    requires t in InputEntries(in0, in1) && t.key == g.smallest.key && t.key in BaseKeys(v, level)
    ensures IsNewest(Outside(v, in0, in1, top), t.key, t.seqno, g.smallest)
  {
    hide DistinctSeqnos, LevelsDisjoint, NumberOrdered, ShallowNewer, NewerThan, OlderClosed, ExactlyOverlapping,
      IsHull, BaseKeys, BoundaryOf;
    var out := Outside(v, in0, in1, top);
    var head := g.smallest;
    assert head in Ents(g) && head in VersionEntries(v);
    UnchosenShareNothing(v, level, in0, in1, g, head);
    BoundaryHeadIsOlder(v, level, in0, in1, g, t);
    forall r | r in out && Visible(r, t.key, t.seqno) ensures r.seqno <= head.seqno {
      OutsideDiffers(v, level, in0, in1, top, r, t);
      var h := OlderOutside(v, level, in0, in1, top, r, t);
      EntryCovered(h, r);
      assert BoundaryOf(in1, h) && !Before(h.smallest, g.smallest);
    }
  }

  lemma BoundaryHeadIsOlder(v: Version, level: nat, in0: seq<File>, in1: seq<File>, g: File, t: Entry)
    requires ValidVersion(v) && InputsOk(v, level, in0, in1)
    requires FirstBoundary(v[level + 1], in1, g)
    requires t in InputEntries(in0, in1) && t.key == g.smallest.key
    ensures g.smallest.seqno < t.seqno
  {
    hide DistinctSeqnos, NumberOrdered, ShallowNewer, NewerThan, OlderClosed;
    var hull :| IsHull(in0, hull) && ExactlyOverlapping(v[level + 1], in1, hull);
    HeadAfterInputs(v[level + 1], in0, in1, hull, g, t);
    assert g.smallest in Ents(g);
    UnchosenShareNothing(v, level, in0, in1, g, g.smallest);
    ChosenInVersion(v, level, in0, in1);
    assert g.smallest in VersionEntries(v) && t in VersionEntries(v);
    DifferentSeqnos(VersionEntries(v), g.smallest, t);
  }

  lemma DifferentSeqnos(es: set<Entry>, a: Entry, b: Entry)
    requires DistinctSeqnos(es) && a in es && b in es && a.key == b.key && a != b
    ensures a.seqno != b.seqno
  {
  }

  lemma HeadAfterInputs(files: Level, in0: seq<File>, in1: seq<File>, hull: Range, g: File, t: Entry)
    requires Disjoint(files) && FirstBoundary(files, in1, g)
    requires IsHull(in0, hull) && ExactlyOverlapping(files, in1, hull)
    requires t in InputEntries(in0, in1) && t.key == g.smallest.key
    ensures Before(t, g.smallest)
  {
    UnchosenAside(files, in0, in1, hull, g);
    EntryCovered(g, g.largest);
    assert t !in LevelEntries(in0);
    var f :| f in in1 && t in f.entries;
    EntryCovered(f, t);
    assert Before(f.largest, g.smallest);
  }

  lemma ResurrectsIff(v: Version, level: nat, in0: seq<File>, in1: seq<File>, top: set<Entry>, smallest: nat,
          k: UserKey)
    requires ValidVersion(v) && InputsOk(v, level, in0, in1)
    requires NewerThan(top, VersionEntries(v)) && DistinctSeqnos(top + VersionEntries(v)) && top !! VersionEntries(v)
    ensures Resurrects(InputEntries(in0, in1), Outside(v, in0, in1, top), smallest, BaseKeys(v, level), k)
            <==> LosesDeletion(v, level, in0, in1, top, smallest, k)
  {
    if Resurrects(InputEntries(in0, in1), Outside(v, in0, in1, top), smallest, BaseKeys(v, level), k) {
      ResurrectionLosesDeletion(v, level, in0, in1, top, smallest, k);
    }
    if LosesDeletion(v, level, in0, in1, top, smallest, k) {
      LostDeletionResurrects(v, level, in0, in1, top, smallest, k);
    }
  }

  lemma ResurrectionLosesDeletion(v: Version, level: nat, in0: seq<File>, in1: seq<File>, top: set<Entry>,
          smallest: nat, k: UserKey)
    requires ValidVersion(v) && InputsOk(v, level, in0, in1)
    requires NewerThan(top, VersionEntries(v)) && DistinctSeqnos(top + VersionEntries(v)) && top !! VersionEntries(v)
    requires Resurrects(InputEntries(in0, in1), Outside(v, in0, in1, top), smallest, BaseKeys(v, level), k)
    ensures LosesDeletion(v, level, in0, in1, top, smallest, k)
  {
    hide DistinctSeqnos, NumberOrdered, ShallowNewer, NewerThan, OlderClosed, ExactlyOverlapping, IsHull, BaseKeys,
      BoundaryOf, FirstBoundary, Disjoint;
    var es, out, base := InputEntries(in0, in1), Outside(v, in0, in1, top), BaseKeys(v, level);
    var t, d :| IsNewest(es, k, smallest, t) && ObsoleteTombstone(t, smallest, base)
                && (forall r :: r in out && Visible(r, k, smallest) ==> r.seqno < t.seqno)
                && IsNewest(out, k, t.seqno, d) && d.kind == Value;
    var h := OlderOutside(v, level, in0, in1, top, d, t);
    var g := FirstBoundaryExists(v[level + 1], in1, h);
    BoundaryHeadIsNewest(v, level, in0, in1, top, g, t);
    SameNewest(v, level, in0, in1, top, k, t.seqno, d, g.smallest);
  }

  lemma SameNewest(v: Version, level: nat, in0: seq<File>, in1: seq<File>, top: set<Entry>, k: UserKey, s: nat,
          a: Entry, b: Entry)
    requires DistinctSeqnos(top + VersionEntries(v))
    requires IsNewest(Outside(v, in0, in1, top), k, s, a) && IsNewest(Outside(v, in0, in1, top), k, s, b)
    ensures a == b
  {
    assert a in top + VersionEntries(v) && b in top + VersionEntries(v);
  }

  lemma LostDeletionResurrects(v: Version, level: nat, in0: seq<File>, in1: seq<File>, top: set<Entry>, smallest: nat,
          k: UserKey)
    requires ValidVersion(v) && InputsOk(v, level, in0, in1)
    requires NewerThan(top, VersionEntries(v)) && DistinctSeqnos(top + VersionEntries(v)) && top !! VersionEntries(v)
    requires LosesDeletion(v, level, in0, in1, top, smallest, k)
    ensures Resurrects(InputEntries(in0, in1), Outside(v, in0, in1, top), smallest, BaseKeys(v, level), k)
  {
    hide DistinctSeqnos, LevelsDisjoint, NumberOrdered, ShallowNewer, NewerThan, OlderClosed, ExactlyOverlapping,
      IsHull, BaseKeys, BoundaryOf, FirstBoundary;
    var es, out, base := InputEntries(in0, in1), Outside(v, in0, in1, top), BaseKeys(v, level);
    var g, t :| FirstBoundary(v[level + 1], in1, g) && g.smallest.key == k && g.smallest.kind == Value
                && IsNewest(es, k, smallest, t) && t.kind == Deletion
                && k in base
                && forall r :: r in out && Visible(r, k, smallest) ==> r.seqno < t.seqno;
    BoundaryHeadIsNewest(v, level, in0, in1, top, g, t);
    assert ObsoleteTombstone(t, smallest, base);
  }

  /** A compaction keeps what every key reads at every snapshot from `smallest` on, if and only if
      the levels are not in a state in which it loses a deletion. */
  lemma CompactionKeepsReadsIff(v: Version, level: nat, in0: seq<File>, in1: seq<File>, top: set<Entry>, smallest: nat)
    requires ValidVersion(v) && InputsOk(v, level, in0, in1)
    requires NewerThan(top, VersionEntries(v)) && DistinctSeqnos(top + VersionEntries(v)) && top !! VersionEntries(v)
    ensures (forall k :: SameReads(Kept(InputEntries(in0, in1), smallest, BaseKeys(v, level)) +
            Outside(v, in0, in1, top),
                                   top + VersionEntries(v), smallest, k))
            <==> forall k :: !LosesDeletion(v, level, in0, in1, top, smallest, k)
  {
    hide SameReads, LosesDeletion, Resurrects, DistinctSeqnos, NewerThan, ValidVersion, BaseKeys, Kept, OlderClosed,
      ExactlyOverlapping, IsHull;
    var es, out, base := InputEntries(in0, in1), Outside(v, in0, in1, top), BaseKeys(v, level);
    ChosenInVersion(v, level, in0, in1);
    assert es + out == top + VersionEntries(v);
    forall k
      ensures SameReads(Kept(es, smallest, base) + out, top + VersionEntries(v), smallest, k)
              <==> !LosesDeletion(v, level, in0, in1, top, smallest, k)
    {
      DropKeepsReadsIff(es, out, smallest, base, k);
      ResurrectsIff(v, level, in0, in1, top, smallest, k);
    }
  }
}
