/** Choosing the input files of a compaction. */
module InputChoice {
  import opened Options
  import opened Config
  import opened Keys
  import opened Files

  // ---------------------------------------------------------------------------------------------
  // Overlapping files of a level
  // ---------------------------------------------------------------------------------------------

  /** A user key range; a missing bound means unbounded on that side. */
  datatype Range = Range(lo: Option<UserKey>, hi: Option<UserKey>)

  predicate Overlaps(f: File, r: Range) {
    && !(r.lo.Some? && f.largest.key < r.lo.value)
    && !(r.hi.Some? && f.smallest.key > r.hi.value)
  }

  predicate Within(f: File, r: Range) {
    && (r.lo.Some? ==> r.lo.value <= f.smallest.key)
    && (r.hi.Some? ==> f.largest.key <= r.hi.value)
  }

  /** Every file that overlaps the range lies inside it. */
  ghost predicate ClosedRange(files: Level, r: Range) {
    forall f :: f in files && Overlaps(f, r) ==> Within(f, r)
  }

  predicate SubRange(r: Range, q: Range) {
    && (q.lo.Some? ==> r.lo.Some? && q.lo.value <= r.lo.value)
    && (q.hi.Some? ==> r.hi.Some? && r.hi.value <= q.hi.value)
  }

  predicate InRange(x: UserKey, r: Range) {
    (r.lo.Some? ==> r.lo.value <= x) && (r.hi.Some? ==> x <= r.hi.value)
  }

  ghost predicate CoveredBy(files: seq<File>, x: UserKey) {
    exists f :: f in files && Covers(f, x)
  }

  /** Every key of a bounded range is covered by some file. */
  ghost predicate RangeCovered(files: seq<File>, r: Range) {
    && r.lo.Some? && r.hi.Some?
    && forall x :: InRange(x, r) ==> CoveredBy(files, x)
  }

  function Overlapping(files: Level, r: Range): seq<File> {
    if files == [] then []
    else
      var n := |files| - 1;
      Overlapping(files[..n], r) + if Overlaps(files[n], r) then [files[n]] else []
  }

  lemma {:induction false} OverlappingMembers(files: Level, r: Range)
    ensures ExactlyOverlapping(files, Overlapping(files, r), r)
  {
    if files != [] {
      var n := |files| - 1;
      OverlappingMembers(files[..n], r);
      assert files == files[..n] + [files[n]];
    }
  }

  ghost function LeftOf(files: Level, r: Range): set<nat> {
    set i: nat | i < |files| && r.lo.Some? && files[i].smallest.key < r.lo.value
  }

  ghost function RightOf(files: Level, r: Range): set<nat> {
    set i: nat | i < |files| && r.hi.Some? && files[i].largest.key > r.hi.value
  }

  /** Version::GetOverlappingInputs.  At level 0 the range grows, restarting the scan, until no
      overlapping file sticks out of it; `final` is the least such range.  If the starting range was
      covered without a gap by a list `cover` of files that includes the level, so is the final one. */
  method GetOverlappingInputs(files: Level, level: nat, range: Range, ghost cover: seq<File>)
    returns (inputs: seq<File>, ghost final: Range)
    requires forall f :: f in files ==> f in cover
    ensures inputs == Overlapping(files, final)
    ensures ExactlyOverlapping(files, inputs, final)
    ensures SubRange(range, final)
    ensures level > 0 ==> final == range
    ensures level == 0 ==> ClosedRange(files, final)
    ensures forall q: Range {:trigger ClosedRange(files, q)} ::
            level == 0 && SubRange(range, q) && ClosedRange(files, q) ==> SubRange(final, q)
    ensures RangeCovered(cover, range) ==> RangeCovered(cover, final)
  {
    var r := range;
    var i := 0;
    inputs := [];
    while i < |files|
      invariant 0 <= i <= |files|
      invariant inputs == Overlapping(files[..i], r)
      invariant SubRange(range, r)
      invariant level > 0 ==> r == range
      invariant level == 0 ==> ClosedRange(files[..i], r)
      invariant forall q: Range {:trigger ClosedRange(files, q)} ::
                level == 0 && SubRange(range, q) && ClosedRange(files, q) ==> SubRange(r, q)
      invariant RangeCovered(cover, range) ==> RangeCovered(cover, r)
      decreases LeftOf(files, r), RightOf(files, r), |files| - i
    {
      var f := files[i];
      ghost var at, was := i, r;
      assert files[..i + 1] == files[..i] + [f];
      assert files[..i + 1][..i] == files[..i];
      OverlappingSnoc(files[..i + 1], r);
      hide RangeCovered, Overlapping;
      OverlappingNone(r);
      i := i + 1;
      if r.lo.Some? && f.largest.key < r.lo.value {
      } else if r.hi.Some? && f.smallest.key > r.hi.value {
      } else {
        inputs := inputs + [f];
        if level == 0 {
          if r.lo.Some? && f.smallest.key < r.lo.value {
            r := r.(lo := Some(f.smallest.key));
            inputs, i := [], 0;
            assert at in LeftOf(files, was) && at !in LeftOf(files, r);
            StretchKeepsCover(cover, was, r, f);
            StretchIsLeast(files, was, r, f);
          } else if r.hi.Some? && f.largest.key > r.hi.value {
            r := r.(hi := Some(f.largest.key));
            inputs, i := [], 0;
            assert at in RightOf(files, was) && at !in RightOf(files, r);
            StretchKeepsCover(cover, was, r, f);
            StretchIsLeast(files, was, r, f);
          }
        }
      }
    }
    assert files[..|files|] == files;
    final := r;
    OverlappingMembers(files, r);
  }

  lemma OverlappingNone(r: Range)
    ensures Overlapping([], r) == []
  {
  }

  lemma StretchIsLeast(files: Level, was: Range, r: Range, f: File)
    requires f in files && Overlaps(f, was)
    requires r == was.(lo := Some(f.smallest.key)) || r == was.(hi := Some(f.largest.key))
    ensures forall q: Range {:trigger ClosedRange(files, q)} :: SubRange(was, q) && ClosedRange(files, q) ==>
            SubRange(r, q)
  {
    forall q: Range | SubRange(was, q) && ClosedRange(files, q) ensures SubRange(r, q) {
      assert Overlaps(f, q);
    }
  }

  lemma StretchKeepsCover(files: seq<File>, was: Range, r: Range, f: File)
    requires f in files && Overlaps(f, was)
    requires r == was.(lo := Some(f.smallest.key)) || r == was.(hi := Some(f.largest.key))
    ensures RangeCovered(files, was) ==> RangeCovered(files, r)
  {
    if RangeCovered(files, was) {
      forall x | InRange(x, r) ensures CoveredBy(files, x) {
        assert InRange(x, was) || Covers(f, x);
      }
    }
  }

  // ---------------------------------------------------------------------------------------------
  // Boundary files
  // ---------------------------------------------------------------------------------------------

  /** `f` starts past everything chosen, with the user key some chosen file ends with. */
  ghost predicate BoundaryOf(chosen: seq<File>, f: File) {
    && (forall g :: g in chosen ==> Before(g.largest, f.smallest))
    && exists g :: g in chosen && g.largest.key == f.smallest.key
  }

  ghost predicate LargestOf(chosen: seq<File>, top: Entry) {
    && (exists g :: g in chosen && g.largest == top)
    && forall g :: g in chosen ==> !Before(top, g.largest)
  }

  method FindLargestKey(files: seq<File>) returns (top: Option<Entry>)
    ensures top.None? <==> files == []
    ensures top.Some? ==> LargestOf(files, top.value)
  {
    if files == [] {
      return None;
    }
    var best := files[0].largest;
    for i := 1 to |files|
      invariant LargestOf(files[..i], best)
    {
      assert files[..i + 1] == files[..i] + [files[i]];
      if Before(best, files[i].largest) {
        best := files[i].largest;
      }
    }
    assert files[..|files|] == files;
    return Some(best);
  }

  /** The file of the level that starts first past `top` with top's user key. */
  method FindSmallestBoundaryFile(files: Level, top: Entry) returns (r: Option<File>)
    ensures r.None? ==> forall f :: f in files ==> !(Before(top, f.smallest) && f.smallest.key == top.key)
    ensures r.Some? ==> r.value in files && Before(top, r.value.smallest) && r.value.smallest.key == top.key
    ensures r.Some? ==> forall f :: f in files && Before(top, f.smallest) && f.smallest.key == top.key ==>
                          !Before(f.smallest, r.value.smallest)
  {
    r := None;
    for i := 0 to |files|
      invariant r.None? ==> forall f :: f in files[..i] ==> !(Before(top, f.smallest) && f.smallest.key == top.key)
      invariant r.Some? ==> r.value in files && Before(top, r.value.smallest) && r.value.smallest.key == top.key
      invariant r.Some? ==> forall f :: f in files[..i] && Before(top, f.smallest) && f.smallest.key == top.key ==>
                              !Before(f.smallest, r.value.smallest)
    {
      var f := files[i];
      assert files[..i + 1] == files[..i] + [f];
      if Before(top, f.smallest) && f.smallest.key == top.key {
        if r.None? || Before(f.smallest, r.value.smallest) {
          r := Some(f);
        }
      }
    }
    assert files[..|files|] == files;
  }

  ghost function Past(files: Level, top: Entry): set<File> {
    set f | f in files && Before(top, f.smallest)
  }

  lemma BoundaryByLargest(chosen: seq<File>, top: Entry, f: File)
    requires LargestOf(chosen, top)
    ensures BoundaryOf(chosen, f) <==> Before(top, f.smallest) && f.smallest.key == top.key
  {
  }

  /** `f` is the first boundary file, in key order, of what was chosen before it. */
  ghost predicate FirstBoundary(files: Level, chosen: seq<File>, f: File) {
    && f in files
    && f !in chosen
    && BoundaryOf(chosen, f)
    && forall h {:trigger BoundaryOf(chosen, h)} :: h in files && BoundaryOf(chosen, h) ==>
      !Before(h.smallest, f.smallest)
  }

  /** Every file appended to `chosen` was the first boundary file of what preceded it. */
  ghost predicate BoundarySteps(files: Level, chosen: seq<File>, r: seq<File>) {
    chosen <= r && forall m :: |chosen| <= m < |r| ==> FirstBoundary(files, r[..m], r[m])
  }

  lemma StepAt(files: Level, chosen: seq<File>, r: seq<File>, n: nat)
    requires BoundarySteps(files, chosen, r) && |chosen| < n <= |r|
    ensures FirstBoundary(files, r[..n - 1], r[n - 1]) && r[..n] == r[..n - 1] + [r[n - 1]]
  {
  }

  lemma BoundaryStep(files: Level, r: seq<File>, top: Entry, f: File)
    requires LargestOf(r, top)
    requires f in files && Before(top, f.smallest) && f.smallest.key == top.key
    requires forall h :: h in files && Before(top, h.smallest) && h.smallest.key == top.key ==>
             !Before(h.smallest, f.smallest)
    ensures FirstBoundary(files, r, f)
  {
    EntryCovered(f, f.largest);
    forall h ensures BoundaryOf(r, h) <==> Before(top, h.smallest) && h.smallest.key == top.key {
      BoundaryByLargest(r, top, h);
    }
  }

  lemma LargestMoves(files: Level, r: seq<File>, top: Entry, f: File)
    requires LargestOf(r, top)
    requires f in files && Before(top, f.smallest)
    ensures LargestOf(r + [f], f.largest)
    ensures Past(files, f.largest) < Past(files, top)
  {
    EntryCovered(f, f.largest);
    assert f in r + [f];
    assert f in Past(files, top) && f !in Past(files, f.largest);
  }

  lemma StepAppended(files: Level, chosen: seq<File>, r: seq<File>, f: File)
    requires BoundarySteps(files, chosen, r) && FirstBoundary(files, r, f)
    ensures BoundarySteps(files, chosen, r + [f])
  {
    hide FirstBoundary;
    var s := r + [f];
    forall m | |chosen| <= m < |s| ensures FirstBoundary(files, s[..m], s[m]) {
      assert m < |r| ==> s[..m] == r[..m];
      assert s[..|r|] == r;
    }
  }

  /** AddBoundaryInputs appends boundary files, the first in key order each time, until the level
      holds no boundary file of what was chosen. */
  method AddBoundaryInputs(files: Level, chosen: seq<File>) returns (r: seq<File>)
    ensures BoundarySteps(files, chosen, r)
    ensures chosen != [] ==> forall f {:trigger BoundaryOf(r, f)} :: f in files ==> !BoundaryOf(r, f)
  {
    r := chosen;
    var largest := FindLargestKey(chosen);
    if largest.None? {
      return;
    }
    var top := largest.value;
    var searching := true;
    hide BoundarySteps, LargestOf, FirstBoundary, BoundaryOf, Past;
    while searching
      invariant BoundarySteps(files, chosen, r) && LargestOf(r, top)
      invariant !searching ==> forall f {:trigger BoundaryOf(r, f)} :: f in files ==> !BoundaryOf(r, f)
      decreases Past(files, top), searching
    {
      var next := FindSmallestBoundaryFile(files, top);
      if next.Some? {
        BoundaryStep(files, r, top, next.value);
        LargestMoves(files, r, top, next.value);
        StepAppended(files, chosen, r, next.value);
        r := r + [next.value];
        top := next.value.largest;
      } else {
        forall f | f in files ensures !BoundaryOf(r, f) {
          BoundaryByLargest(r, top, f);
        }
        searching := false;
      }
    }
  }

  // ---------------------------------------------------------------------------------------------
  // The inputs of one compaction
  // ---------------------------------------------------------------------------------------------

  /** The least range around a non-empty list of files. */
  ghost predicate IsHull(files: seq<File>, r: Range) {
    && r.lo.Some? && r.hi.Some?
    && (forall f :: f in files ==> Within(f, r))
    && (exists f :: f in files && f.smallest.key == r.lo.value)
    && (exists f :: f in files && f.largest.key == r.hi.value)
  }

  method GetRange(files: seq<File>) returns (r: Range)
    requires files != []
    ensures IsHull(files, r)
  {
    var smallest, largest := files[0].smallest, files[0].largest;
    for i := 1 to |files|
      invariant forall f :: f in files[..i] ==> smallest.key <= f.smallest.key && f.largest.key <= largest.key
      invariant exists f :: f in files[..i] && f.smallest == smallest
      invariant exists f :: f in files[..i] && f.largest == largest
    {
      assert files[..i + 1] == files[..i] + [files[i]];
      if Before(files[i].smallest, smallest) {
        smallest := files[i].smallest;
      }
      if Before(largest, files[i].largest) {
        largest := files[i].largest;
      }
    }
    assert files[..|files|] == files;
    r := Range(Some(smallest.key), Some(largest.key));
  }

  /** Files left behind in the level hold only newer entries for every user key of the chosen. */
  ghost predicate OlderClosed(files: Level, chosen: seq<File>) {
    forall f, r :: f in chosen && r in files && r !in chosen ==> NewerThan(Ents(r), Ents(f))
  }

  /** What every compaction starts from: inputs of the level closed under older entries of their
      user keys, and exactly the files of the next level that overlap their range. */
  ghost predicate InputsOk(v: Version, level: nat, in0: seq<File>, in1: seq<File>) {
    && level + 1 < NUM_LEVELS
    && in0 != []
    && (forall f :: f in in0 ==> f in v[level])
    && OlderClosed(v[level], in0)
    && exists hull :: IsHull(in0, hull) && ExactlyOverlapping(v[level + 1], in1, hull)
  }

  ghost predicate ExactlyOverlapping(files: Level, inputs: seq<File>, r: Range) {
    forall f :: f in inputs <==> f in files && Overlaps(f, r)
  }

  /** `chosen` lists the files at the positions lo..hi of the level. */
  ghost predicate IsRun(files: Level, chosen: seq<File>, lo: nat, hi: nat) {
    && lo < hi <= |files|
    && (forall i :: lo <= i < hi ==> files[i] in chosen)
    && forall f :: f in chosen ==> exists i :: lo <= i < hi && files[i] == f
  }

  lemma FilesAscend(files: Level, i: nat, j: nat)
    requires Disjoint(files) && i < j < |files|
    ensures Before(files[i].largest, files[j].smallest)
    ensures Before(files[i].smallest, files[j].smallest)
    ensures Before(files[i].largest, files[j].largest)
  {
    EntryCovered(files[i], files[i].largest);
    EntryCovered(files[j], files[j].largest);
  }

  /** A boundary file lies past the run. */
  lemma BoundaryIsPast(files: Level, chosen: seq<File>, lo: nat, hi: nat, m: nat)
    requires Disjoint(files) && IsRun(files, chosen, lo, hi)
    requires m < |files| && BoundaryOf(chosen, files[m])
    ensures hi <= m
  {
    var last := files[hi - 1];
    assert last in chosen;
    EntryCovered(last, last.largest);
    assert m < hi - 1 ==> Before(files[m].largest, last.smallest);
  }

  /** If some file past a run starts at or before the user key the run ends with, then the next
      file does. */
  lemma BoundaryIsNext(files: Level, chosen: seq<File>, lo: nat, hi: nat, m: nat, g: File)
    requires Disjoint(files) && IsRun(files, chosen, lo, hi)
    requires hi <= m < |files| && g in chosen && files[m].smallest.key <= g.largest.key
    ensures BoundaryOf(chosen, files[hi])
  {
    var n := files[hi];
    forall h | h in chosen ensures Before(h.largest, n.smallest) {
      var i :| lo <= i < hi && files[i] == h;
      FilesAscend(files, i, hi);
    }
    if hi < m {
      FilesAscend(files, hi, m);
    }
    assert n.smallest.key == g.largest.key;
  }

  /** Extending a run by its first boundary file gives a longer run. */
  lemma BoundaryExtendsRun(files: Level, chosen: seq<File>, lo: nat, hi: nat, f: File)
    requires Disjoint(files) && IsRun(files, chosen, lo, hi)
    requires f in files && BoundaryOf(chosen, f)
    requires forall h {:trigger BoundaryOf(chosen, h)} :: h in files && BoundaryOf(chosen, h) ==>
             !Before(h.smallest, f.smallest)
    ensures IsRun(files, chosen + [f], lo, hi + 1)
  {
    var m :| 0 <= m < |files| && files[m] == f;
    BoundaryIsPast(files, chosen, lo, hi, m);
    var g :| g in chosen && g.largest.key == f.smallest.key;
    BoundaryIsNext(files, chosen, lo, hi, m, g);
    if m > hi {
      FilesAscend(files, hi, m);
    }
    assert files[hi] == f;
    RunGrows(files, chosen, lo, hi);
  }

  lemma RunGrows(files: Level, chosen: seq<File>, lo: nat, hi: nat)
    requires IsRun(files, chosen, lo, hi) && hi < |files|
    ensures IsRun(files, chosen + [files[hi]], lo, hi + 1)
  {
    forall f | f in chosen + [files[hi]] ensures exists i :: lo <= i < hi + 1 && files[i] == f {
      if f in chosen {
        var i :| lo <= i < hi && files[i] == f;
      } else {
        assert files[hi] == f;
      }
    }
  }

  lemma {:induction false} BoundariesExtendRun(files: Level, chosen: seq<File>, r: seq<File>, lo: nat, hi: nat, n: nat)
    returns (top: nat)
    requires Disjoint(files) && IsRun(files, chosen, lo, hi)
    requires BoundarySteps(files, chosen, r) && |chosen| <= n <= |r|
    ensures IsRun(files, r[..n], lo, top)
    decreases n
  {
    if n == |chosen| {
      assert r[..n] == chosen;
      top := hi;
    } else {
      hide Disjoint, IsRun, BoundarySteps;
      top := BoundariesExtendRun(files, chosen, r, lo, hi, n - 1);
      StepAt(files, chosen, r, n);
      BoundaryExtendsRun(files, r[..n - 1], lo, top, r[n - 1]);
      top := top + 1;
    }
  }

  /** A run with no boundary file left in the level is closed under older entries. */
  lemma RunIsClosed(files: Level, chosen: seq<File>, lo: nat, hi: nat)
    requires Disjoint(files) && DistinctSeqnos(LevelEntries(files)) && IsRun(files, chosen, lo, hi)
    requires forall f {:trigger BoundaryOf(chosen, f)} :: f in files ==> !BoundaryOf(chosen, f)
    ensures OlderClosed(files, chosen)
  {
    forall f, r | f in chosen && r in files && r !in chosen
      ensures NewerThan(Ents(r), Ents(f))
    {
      var p :| lo <= p < hi && files[p] == f;
      var m :| 0 <= m < |files| && files[m] == r;
      if m < lo {
        FilesAscend(files, m, p);
        EarlierIsNewer(files, r, f);
      } else {
        assert hi <= m;
        LaterShareNoKey(files, chosen, lo, hi, m, f);
      }
    }
  }

  lemma LaterShareNoKey(files: Level, chosen: seq<File>, lo: nat, hi: nat, m: nat, f: File)
    requires Disjoint(files) && IsRun(files, chosen, lo, hi) && hi <= m < |files| && f in chosen
    requires !BoundaryOf(chosen, files[hi])
    ensures forall a, b :: a in Ents(files[m]) && b in Ents(f) ==> a.key != b.key
  {
    forall a, b | a in Ents(files[m]) && b in Ents(f) ensures a.key != b.key {
      EntryCovered(files[m], a);
      EntryCovered(f, b);
      if a.key == b.key {
        BoundaryIsNext(files, chosen, lo, hi, m, f);
      }
    }
  }

  lemma EarlierIsNewer(files: Level, r: File, f: File)
    requires r in files && f in files && Before(r.largest, f.smallest)
    requires DistinctSeqnos(LevelEntries(files))
    ensures NewerThan(Ents(r), Ents(f))
  {
    forall a, b | a in Ents(r) && b in Ents(f) && a.key == b.key ensures a.seqno > b.seqno {
      EntryCovered(r, a);
      EntryCovered(f, b);
      assert a in LevelEntries(files) && b in LevelEntries(files);
    }
  }

  // ---------------------------------------------------------------------------------------------
  // Choices that may start a compaction
  // ---------------------------------------------------------------------------------------------

  /** Level 0: all files overlapping a closed range.  Deeper levels: a run of files. */
  ghost predicate GoodChoice(v: Version, level: nat, chosen: seq<File>) {
    && level < NUM_LEVELS
    && chosen != []
    && (level == 0 ==> exists q :: ClosedRange(v[0], q) && ExactlyOverlapping(v[0], chosen, q))
    && (level > 0 ==> exists lo, hi :: IsRun(v[level], chosen, lo, hi))
  }

  lemma OverlapIsMonotone(files: Level, r: Range, i: nat, j: nat, m: nat)
    requires Disjoint(files) && i <= m <= j < |files|
    requires Overlaps(files[i], r) && Overlaps(files[j], r)
    ensures Overlaps(files[m], r)
  {
    if i < m {
      FilesAscend(files, i, m);
    }
    if m < j {
      FilesAscend(files, m, j);
    }
  }

  /** The first and the last of the overlapping files. */
  lemma OverlapEnds(files: Level, r: Range, at: nat) returns (lo: nat, hi: nat)
    requires at < |files| && Overlaps(files[at], r)
    ensures lo < hi <= |files| && Overlaps(files[lo], r) && Overlaps(files[hi - 1], r)
    ensures forall i :: 0 <= i < |files| && Overlaps(files[i], r) ==> lo <= i < hi
  {
    lo, hi := 0, |files|;
    while !Overlaps(files[lo], r)
      invariant lo <= at && forall i :: 0 <= i < lo ==> !Overlaps(files[i], r)
      decreases at - lo
    {
      lo := lo + 1;
    }
    while !Overlaps(files[hi - 1], r)
      invariant at < hi <= |files| && forall i :: hi <= i < |files| ==> !Overlaps(files[i], r)
      decreases hi - at
    {
      hi := hi - 1;
    }
  }

  lemma OverlappingSnoc(files: Level, r: Range)
    requires files != []
    ensures var n := |files| - 1; Overlapping(files, r) == Overlapping(files[..n], r) + if Overlaps(files[n], r)
            then [files[n]] else []
  {
  }

  lemma {:induction false} OverlappingAsSlice(files: Level, r: Range, lo: nat, hi: nat)
    requires lo <= hi <= |files|
    requires forall i :: 0 <= i < |files| ==> (Overlaps(files[i], r) <==> lo <= i < hi)
    ensures Overlapping(files, r) == files[lo..hi]
    decreases |files|
  {
    if |files| > 0 {
      var n := |files| - 1;
      OverlappingSnoc(files, r);
      SliceSnoc(files, lo, hi);
      hide *;
      if hi <= n {
        OverlappingAsSlice(files[..n], r, lo, hi);
      } else {
        OverlappingAsSlice(files[..n], r, if lo < n then lo else n, n);
      }
    } else {
      assert files[lo..hi] == [];
    }
  }

  lemma SliceSnoc(files: Level, lo: nat, hi: nat)
    requires lo <= hi <= |files| && files != []
    ensures var n := |files| - 1;
            && (hi <= n ==> files[lo..hi] == files[..n][lo..hi])
            && (hi > n ==>
              files[lo..hi] == files[..n][(if lo < n then lo else n)..n] + if lo <= n then [files[n]] else [])
  {
  }

  lemma SliceIsRun(files: Level, lo: nat, hi: nat)
    requires lo < hi <= |files|
    ensures IsRun(files, files[lo..hi], lo, hi)
  {
    var part := files[lo..hi];
    assert forall i :: lo <= i < hi ==> files[i] == part[i - lo];
    assert forall i :: 0 <= i < hi - lo ==> part[i] == files[lo + i];
  }

  /** In a sorted level the overlapping files are a slice. */
  lemma OverlappingIsSlice(files: Level, r: Range) returns (lo: nat, hi: nat)
    requires Disjoint(files) && Overlapping(files, r) != []
    ensures lo < hi <= |files| && Overlapping(files, r) == files[lo..hi]
  {
    var f := Overlapping(files, r)[0];
    OverlappingMembers(files, r);
    assert f in Overlapping(files, r);
    var at :| 0 <= at < |files| && files[at] == f;
    lo, hi := OverlapEnds(files, r, at);
    forall i | lo <= i < hi ensures Overlaps(files[i], r) {
      OverlapIsMonotone(files, r, lo, hi - 1, i);
    }
    OverlappingAsSlice(files, r, lo, hi);
  }

  lemma OverlappingIsGood(v: Version, level: nat, r: Range)
    requires ValidVersion(v) && level < NUM_LEVELS
    requires Overlapping(v[level], r) != []
    requires level == 0 ==> ClosedRange(v[0], r)
    ensures GoodChoice(v, level, Overlapping(v[level], r))
  {
    if level > 0 {
      var lo, hi := OverlappingIsSlice(v[level], r);
      SliceIsRun(v[level], lo, hi);
    } else {
      OverlappingMembers(v[0], r);
    }
  }

  /** A good choice, extended by its boundary files, is closed under older entries. */
  lemma ChoiceCloses(v: Version, level: nat, chosen: seq<File>, r: seq<File>)
    requires ValidVersion(v) && GoodChoice(v, level, chosen)
    requires BoundarySteps(v[level], chosen, r)
    requires forall f {:trigger BoundaryOf(r, f)} :: f in v[level] ==> !BoundaryOf(r, f)
    ensures r != [] && OlderClosed(v[level], r) && forall f :: f in r ==> f in v[level]
  {
    if level == 0 {
      var q :| ClosedRange(v[0], q) && ExactlyOverlapping(v[0], chosen, q);
      NoBoundaryAtLevelZero(v[0], chosen, q, r);
      forall f, g | f in r && g in v[0] && g !in r ensures NewerThan(Ents(g), Ents(f)) {
        OutsideSharesNoKey(v[0], q, f, g);
      }
    } else {
      var lo, hi :| IsRun(v[level], chosen, lo, hi);
      var top := BoundariesExtendRun(v[level], chosen, r, lo, hi, |r|);
      assert r[..|r|] == r;
      assert DistinctSeqnos(LevelEntries(v[level])) by {
        assert forall e :: e in LevelEntries(v[level]) ==> e in VersionEntries(v);
      }
      RunIsClosed(v[level], r, lo, top);
    }
  }

  lemma OutsideSharesNoKey(files: Level, q: Range, f: File, g: File)
    requires ClosedRange(files, q) && f in files && g in files && Overlaps(f, q) && !Overlaps(g, q)
    ensures NewerThan(Ents(g), Ents(f))
  {
    forall a, b | a in Ents(g) && b in Ents(f) ensures a.key != b.key {
      EntryCovered(g, a);
      EntryCovered(f, b);
    }
  }

  lemma NoBoundaryAtLevelZero(files: Level, chosen: seq<File>, q: Range, r: seq<File>)
    requires chosen != [] && ClosedRange(files, q) && ExactlyOverlapping(files, chosen, q)
    requires BoundarySteps(files, chosen, r)
    ensures r == chosen
  {
    if |r| > |chosen| {
      var f := r[|chosen|];
      assert r[..|chosen|] == chosen;
      assert FirstBoundary(files, chosen, f);
      var g :| g in chosen && g.largest.key == f.smallest.key;
      EntryCovered(f, f.largest);
      EntryCovered(g, g.largest);
    }
  }

  // ---------------------------------------------------------------------------------------------
  // Connected inputs
  // ---------------------------------------------------------------------------------------------

  /** The ranges of the files leave no gap. */
  ghost predicate Connected(files: seq<File>) {
    forall hull :: IsHull(files, hull) ==> RangeCovered(files, hull)
  }

  /** Files that all overlap the hull of connected files extend them without a gap. */
  lemma OverlappingKeepsConnected(a: seq<File>, r: Range, b: seq<File>)
    requires IsHull(a, r) && RangeCovered(a, r)
    requires forall f :: f in b ==> Overlaps(f, r)
    ensures Connected(a + b)
  {
    forall hull | IsHull(a + b, hull) ensures RangeCovered(a + b, hull) {
      forall x | InRange(x, hull) ensures CoveredBy(a + b, x) {
        if x < r.lo.value {
          var f :| f in a + b && f.smallest.key == hull.lo.value;
          assert Covers(f, x);
        } else if x > r.hi.value {
          var f :| f in a + b && f.largest.key == hull.hi.value;
          assert Covers(f, x);
        } else {
          assert CoveredBy(a, x);
          var f :| f in a && Covers(f, x);
          assert f in a + b;
        }
      }
    }
  }

  lemma SameFilesConnected(a: seq<File>, b: seq<File>)
    requires Connected(a) && forall f :: f in a <==> f in b
    ensures Connected(b)
  {
    forall hull | IsHull(b, hull) ensures RangeCovered(b, hull) {
      assert IsHull(a, hull);
      forall x | InRange(x, hull) ensures CoveredBy(b, x) {
        assert CoveredBy(a, x);
      }
    }
  }

  lemma BoundaryConnected(files: Level, a: seq<File>, f: File)
    requires a != [] && Connected(a) && FirstBoundary(files, a, f)
    ensures Connected(a + [f])
  {
    var g :| g in a && g.largest.key == f.smallest.key;
    TouchingConnected(a, f, g);
  }

  /** A file that starts where one of the connected files ends. */
  lemma TouchingConnected(a: seq<File>, f: File, g: File)
    requires Connected(a) && g in a && g.largest.key == f.smallest.key
    ensures Connected(a + [f])
  {
    hide RangeCovered;
    var hull := HullExists(a);
    EntryCovered(f, f.largest);
    EntryCovered(g, g.largest);
    OverlappingKeepsConnected(a, hull, [f]);
  }

  lemma {:induction false} BoundariesKeepConnected(files: Level, chosen: seq<File>, r: seq<File>, n: nat)
    requires chosen != [] && Connected(chosen) && BoundarySteps(files, chosen, r) && |chosen| <= n <= |r|
    ensures Connected(r[..n])
    decreases n
  {
    if n == |chosen| {
      assert r[..n] == chosen;
    } else {
      hide BoundarySteps, Connected;
      BoundariesKeepConnected(files, chosen, r, n - 1);
      StepAt(files, chosen, r, n);
      BoundaryConnected(files, r[..n - 1], r[n - 1]);
    }
  }

  lemma {:induction false} HullExists(files: seq<File>) returns (r: Range)
    requires files != []
    ensures IsHull(files, r)
  {
    var f := files[|files| - 1];
    EntryCovered(f, f.largest);
    if |files| == 1 {
      r := Range(Some(f.smallest.key), Some(f.largest.key));
      assert f in files;
    } else {
      var a := files[..|files| - 1];
      var q := HullExists(a);
      assert files == a + [f];
      var x :| x in a && x.smallest.key == q.lo.value;
      var y :| y in a && y.largest.key == q.hi.value;
      var g, h := if f.smallest.key < x.smallest.key then f else x, if f.largest.key > y.largest.key then f else y;
      r := Range(Some(g.smallest.key), Some(h.largest.key));
      assert g in files && h in files;
    }
  }

  // ---------------------------------------------------------------------------------------------
  // VersionSet::SetupOtherInputs and its two callers
  // ---------------------------------------------------------------------------------------------

  function TotalFileSize(files: seq<File>): nat {
    if files == [] then 0 else TotalFileSize(files[..|files| - 1]) + files[|files| - 1].size
  }

  /** The range that GetOverlappingInputs ends with: at level 0 the least one that no file sticks out of. */
  ghost predicate Settles(files: Level, level: nat, range: Range, final: Range) {
    if level > 0 then final == range
    else
      && SubRange(range, final) && ClosedRange(files, final)
      && forall q: Range {:trigger ClosedRange(files, q)} ::
           SubRange(range, q) && ClosedRange(files, q) ==> SubRange(final, q)
  }

  /** Chosen files with boundary files, one after the other, until there is none left. */
  ghost predicate WithBoundaries(files: Level, chosen: seq<File>, r: seq<File>) {
    BoundarySteps(files, chosen, r) && forall f {:trigger BoundaryOf(r, f)} :: f in files ==> !BoundaryOf(r, f)
  }

  /** All files at a level that a range asks for. */
  ghost predicate TakenFor(files: Level, level: nat, range: Range, r: seq<File>) {
    exists q :: Settles(files, level, range, q) && WithBoundaries(files, Overlapping(files, q), r)
  }

  /** The inputs become what their whole range asks for if and only if that is more files at `level`, stays under
      25 files' size, and is no more files at the next level. */
  ghost predicate GrownIf(v: Version, level: nat, in0: seq<File>, in1: seq<File>, maxFileSize: nat,
                          out0: seq<File>, out1: seq<File>)
    requires level + 1 < NUM_LEVELS
  {
    exists all, more, hull ::
      && IsHull(in0 + in1, all) && TakenFor(v[level], level, all, more) && IsHull(more, hull)
      && var next := Overlapping(v[level + 1], hull);
         (out0, out1) ==
         if |more| > |in0| && TotalFileSize(in1) + TotalFileSize(more) < 25 * maxFileSize && |next| == |in1|
         then (more, next) else (in0, in1)
  }

  /** What SetupOtherInputs makes of a choice. */
  ghost predicate SetUp(v: Version, level: nat, chosen: seq<File>, maxFileSize: nat, in0: seq<File>, in1: seq<File>)
    requires level + 1 < NUM_LEVELS
  {
    exists first, hull ::
      && WithBoundaries(v[level], chosen, first) && IsHull(first, hull)
      && var next := Overlapping(v[level + 1], hull);
         if next == [] then (in0, in1) == (first, []) else GrownIf(v, level, first, next, maxFileSize, in0, in1)
  }

  /** Completes a choice at `level` by its boundary files and the overlapping files of the next
      level, and grows it when that adds no file of the next level. */
  method SetupOtherInputs(v: Version, level: nat, chosen: seq<File>, maxFileSize: nat)
    returns (in0: seq<File>, in1: seq<File>)
    requires ValidVersion(v) && level + 1 < NUM_LEVELS && GoodChoice(v, level, chosen)
    ensures InputsOk(v, level, in0, in1) && forall f :: f in chosen ==> f in in0
    ensures Connected(chosen) ==> Connected(in0 + in1)
    ensures SetUp(v, level, chosen, maxFileSize, in0, in1)
  {
    in0 := AddBoundaryInputs(v[level], chosen);
    StepsExtend(v[level], chosen, in0);
    ChoiceCloses(v, level, chosen, in0);
    var hull := GetRange(in0);
    ghost var final;
    in1, final := GetOverlappingInputs(v[level + 1], level + 1, hull, v[level + 1]);
    if Connected(chosen) {
      FirstInputsConnected(v, level, chosen, in0, hull, in1);
    }
    ghost var first, next := in0, in1;
    assert WithBoundaries(v[level], chosen, first);
    if in1 != [] {
      in0, in1 := ExpandInputs(v, level, in0, in1, hull, maxFileSize);
    }
    assert SetUp(v, level, chosen, maxFileSize, in0, in1) by {
      hide *;
      SetUpIs(v, level, chosen, maxFileSize, first, next, hull, in0, in1);
    }
  }

  lemma SetUpIs(v: Version, level: nat, chosen: seq<File>, maxFileSize: nat, first: seq<File>, next: seq<File>,
                hull: Range, in0: seq<File>, in1: seq<File>)
    requires level + 1 < NUM_LEVELS && WithBoundaries(v[level], chosen, first) && IsHull(first, hull)
    requires next == Overlapping(v[level + 1], hull)
    requires if next == [] then (in0, in1) == (first, []) else GrownIf(v, level, first, next, maxFileSize, in0, in1)
    ensures SetUp(v, level, chosen, maxFileSize, in0, in1)
  {
  }

  lemma TakenForIs(files: Level, level: nat, range: Range, q: Range, chosen: seq<File>, r: seq<File>)
    requires if level > 0 then q == range else SubRange(range, q) && ClosedRange(files, q)
    requires forall s: Range {:trigger ClosedRange(files, s)} ::
               level == 0 && SubRange(range, s) && ClosedRange(files, s) ==> SubRange(q, s)
    requires chosen == Overlapping(files, q) && BoundarySteps(files, chosen, r)
    requires forall f {:trigger BoundaryOf(r, f)} :: f in files ==> !BoundaryOf(r, f)
    ensures TakenFor(files, level, range, r)
  {
    hide SubRange, ClosedRange, Overlapping, BoundarySteps, BoundaryOf;
    assert Settles(files, level, range, q) && WithBoundaries(files, chosen, r);
  }

  lemma GrownIs(v: Version, level: nat, in0: seq<File>, in1: seq<File>, maxFileSize: nat, all: Range,
                more: seq<File>, hull: Range, next: seq<File>, out0: seq<File>, out1: seq<File>)
    requires level + 1 < NUM_LEVELS
    requires IsHull(in0 + in1, all) && TakenFor(v[level], level, all, more) && IsHull(more, hull)
    requires next == Overlapping(v[level + 1], hull)
    requires (out0, out1) ==
             if |more| > |in0| && TotalFileSize(in1) + TotalFileSize(more) < 25 * maxFileSize && |next| == |in1|
             then (more, next) else (in0, in1)
    ensures GrownIf(v, level, in0, in1, maxFileSize, out0, out1)
  {
  }

  lemma StepsExtend(files: Level, chosen: seq<File>, r: seq<File>)
    requires BoundarySteps(files, chosen, r)
    ensures forall f :: f in chosen ==> f in r
  {
  }

  lemma InputsAre(v: Version, level: nat, in0: seq<File>, in1: seq<File>, hull: Range)
    requires level + 1 < NUM_LEVELS && in0 != [] && forall f :: f in in0 ==> f in v[level]
    requires OlderClosed(v[level], in0) && IsHull(in0, hull) && ExactlyOverlapping(v[level + 1], in1, hull)
    ensures InputsOk(v, level, in0, in1)
  {
  }

  lemma InputsFrom(v: Version, level: nat, in0: seq<File>, in1: seq<File>)
    requires InputsOk(v, level, in0, in1)
    ensures level + 1 < NUM_LEVELS && in0 != [] && forall f :: f in in0 ==> f in v[level]
  {
  }

  method ExpandInputs(v: Version, level: nat, in0: seq<File>, in1: seq<File>, hull: Range, maxFileSize: nat)
    returns (out0: seq<File>, out1: seq<File>)
    requires ValidVersion(v) && InputsOk(v, level, in0, in1) && IsHull(in0, hull)
    requires ExactlyOverlapping(v[level + 1], in1, hull)
    ensures InputsOk(v, level, out0, out1) && forall f :: f in in0 ==> f in out0
    ensures Connected(in0 + in1) ==> Connected(out0 + out1)
    ensures GrownIf(v, level, in0, in1, maxFileSize, out0, out1)
  {
    hide TakenFor, GrownIf, Settles, WithBoundaries, Connected, RangeCovered, TotalFileSize, BoundaryOf, SubRange,
      Overlapping, ClosedRange, InputsOk, OlderClosed, ExactlyOverlapping, ValidVersion, BoundarySteps, IsHull;
    out0, out1 := in0, in1;
    InputsFrom(v, level, in0, in1);
    var all := GetRange(in0 + in1);
    var overlapping0, expanded0, expanded1;
    ghost var range0, final;
    overlapping0, range0 := GetOverlappingInputs(v[level], level, all, v[level] + in1);
    InputsOverlapAll(v[level], in0, in1, all, range0);
    expanded0 := AddBoundaryInputs(v[level], overlapping0);
    TakenForIs(v[level], level, all, range0, overlapping0, expanded0);
    StepsExtend(v[level], overlapping0, expanded0);
    assert overlapping0[0] in expanded0;
    ghost var hull0 := HullExists(expanded0);
    ghost var next0 := Overlapping(v[level + 1], hull0);
    if |expanded0| > |in0| && TotalFileSize(in1) + TotalFileSize(expanded0) < 25 * maxFileSize {
      OverlappingIsGood(v, level, range0);
      ChoiceCloses(v, level, overlapping0, expanded0);
      var newHull := GetRange(expanded0);
      expanded1, final := GetOverlappingInputs(v[level + 1], level + 1, newHull, v[level + 1]);
      hull0, next0 := newHull, expanded1;
      if |expanded1| == |in1| {
        ExpandKeepsConnected(v, level, in0, in1, hull, all, range0, expanded0, newHull, expanded1);
        InputsAre(v, level, expanded0, expanded1, newHull);
        out0, out1 := expanded0, expanded1;
      }
    }
    GrownIs(v, level, in0, in1, maxFileSize, all, expanded0, hull0, next0, out0, out1);
  }

  lemma ExpandKeepsConnected(v: Version, level: nat, in0: seq<File>, in1: seq<File>, hull: Range, all: Range,
          range0: Range,
                             expanded0: seq<File>, newHull: Range, expanded1: seq<File>)
    requires ValidVersion(v) && InputsOk(v, level, in0, in1) && IsHull(in0, hull)
    requires ExactlyOverlapping(v[level + 1], in1, hull)
    requires IsHull(in0 + in1, all) && SubRange(all, range0)
    requires level > 0 ==> range0 == all
    requires level == 0 ==> ClosedRange(v[0], range0)
    requires RangeCovered(v[level] + in1, all) ==> RangeCovered(v[level] + in1, range0)
    requires BoundarySteps(v[level], Overlapping(v[level], range0), expanded0)
    requires IsHull(expanded0, newHull)
    requires ExactlyOverlapping(v[level + 1], expanded1, newHull)
    ensures Connected(in0 + in1) ==> Connected(expanded0 + expanded1)
  {
    if Connected(in0 + in1) {
      InputsOverlapAll(v[level], in0, in1, all, range0);
      OverlappingFilesConnected(v, level, in0, in1, all, range0);
      ExpandedInputsConnected(v, level, in0, in1, hull, Overlapping(v[level], range0), expanded0, newHull, expanded1);
    }
  }

  lemma FirstInputsConnected(v: Version, level: nat, chosen: seq<File>, in0: seq<File>, hull: Range, in1: seq<File>)
    requires level + 1 < NUM_LEVELS && chosen != [] && Connected(chosen)
    requires BoundarySteps(v[level], chosen, in0) && IsHull(in0, hull)
    requires forall f :: f in in1 ==> Overlaps(f, hull)
    ensures Connected(in0 + in1)
  {
    BoundariesKeepConnected(v[level], chosen, in0, |in0|);
    assert in0[..|in0|] == in0;
    OverlappingKeepsConnected(in0, hull, in1);
  }

  lemma InputsOverlapAll(files: Level, in0: seq<File>, in1: seq<File>, all: Range, r: Range)
    requires IsHull(in0 + in1, all) && SubRange(all, r) && in0 != []
    requires forall f :: f in in0 ==> f in files
    ensures forall f :: f in in0 ==> f in Overlapping(files, r)
    ensures Overlapping(files, r) != []
  {
    OverlappingMembers(files, r);
    forall f | f in in0 ensures f in Overlapping(files, r) {
      assert f in in0 + in1;
      EntryCovered(f, f.largest);
    }
    assert in0[0] in in0;
  }

  lemma OverlappingFilesConnected(v: Version, level: nat, in0: seq<File>, in1: seq<File>, all: Range, range0: Range)
    requires level + 1 < NUM_LEVELS && (forall f :: f in in0 ==> f in v[level])
    requires IsHull(in0 + in1, all) && Connected(in0 + in1)
    requires level > 0 ==> range0 == all
    requires level == 0 ==> SubRange(all, range0) && ClosedRange(v[0], range0)
    requires RangeCovered(v[level] + in1, all) ==> RangeCovered(v[level] + in1, range0)
    ensures Connected(in0 + in1 + Overlapping(v[level], range0))
  {
    var u, o := in0 + in1, Overlapping(v[level], range0);
    OverlappingMembers(v[level], range0);
    if level > 0 {
      OverlappingKeepsConnected(u, all, o);
    } else {
      forall x | InRange(x, all) ensures CoveredBy(v[0] + in1, x) {
        assert CoveredBy(u, x);
        var f :| f in u && Covers(f, x);
        assert f in v[0] + in1;
      }
      assert RangeCovered(v[0] + in1, range0);
      forall hull | IsHull(u + o, hull) ensures RangeCovered(u + o, hull) {
        HullInside(u, o, all, range0, hull);
        forall x | InRange(x, hull) ensures CoveredBy(u + o, x) {
          assert InRange(x, range0);
          assert CoveredBy(v[0] + in1, x);
          var f :| f in v[0] + in1 && Covers(f, x);
          assert f in u + o;
        }
      }
    }
  }

  lemma HullInside(u: seq<File>, o: seq<File>, all: Range, r: Range, hull: Range)
    requires IsHull(u, all) && SubRange(all, r) && IsHull(u + o, hull)
    requires forall f :: f in o ==> Within(f, r)
    ensures SubRange(hull, r)
  {
  }

  lemma {:induction false} AppendedBoundariesConnected(files: Level, u: seq<File>, o: seq<File>, e: seq<File>, n: nat)
    requires o != [] && Connected(u + o) && BoundarySteps(files, o, e) && |o| <= n <= |e|
    ensures Connected(u + e[..n])
    decreases n
  {
    if n == |o| {
      assert e[..n] == o;
    } else {
      hide BoundarySteps, Connected;
      AppendedBoundariesConnected(files, u, o, e, n - 1);
      StepAt(files, o, e, n);
      var a, f := e[..n - 1], e[n - 1];
      assert u + e[..n] == (u + a) + [f];
      var g :| g in a && g.largest.key == f.smallest.key;
      assert g in u + a;
      TouchingConnected(u + a, f, g);
    }
  }

  lemma ExpandedInputsConnected(v: Version, level: nat, in0: seq<File>, in1: seq<File>, hull: Range, o: seq<File>,
                                expanded0: seq<File>, newHull: Range, expanded1: seq<File>)
    requires level + 1 < NUM_LEVELS && in0 != [] && o != []
    requires Connected(in0 + in1 + o) && BoundarySteps(v[level], o, expanded0)
    requires IsHull(in0, hull) && forall f :: f in in1 ==> f in v[level + 1] && Overlaps(f, hull)
    requires IsHull(expanded0, newHull)
    requires ExactlyOverlapping(v[level + 1], expanded1, newHull)
    requires forall f :: f in in0 ==> f in o
    ensures Connected(expanded0 + expanded1)
  {
    var u := in0 + in1;
    AppendedBoundariesConnected(v[level], u, o, expanded0, |expanded0|);
    assert expanded0[..|expanded0|] == expanded0;
    var wide := HullExists(u + expanded0);
    HullGrows(u, expanded0, newHull, wide);
    OverlappingKeepsConnected(u + expanded0, wide, expanded1);
    HullGrows2(in0, hull, expanded0, newHull);
    SameFilesConnected(u + expanded0 + expanded1, expanded0 + expanded1);
  }

  lemma HullGrows(u: seq<File>, e: seq<File>, r: Range, wide: Range)
    requires IsHull(e, r) && IsHull(u + e, wide)
    ensures SubRange(r, wide)
    ensures forall f :: Overlaps(f, r) ==> Overlaps(f, wide)
  {
    var a :| a in e && a.smallest.key == r.lo.value;
    var b :| b in e && b.largest.key == r.hi.value;
    assert a in u + e && b in u + e;
  }

  lemma HullGrows2(a: seq<File>, r: Range, e: seq<File>, wide: Range)
    requires IsHull(a, r) && IsHull(e, wide) && forall f :: f in a ==> f in e
    ensures forall f :: Overlaps(f, r) ==> Overlaps(f, wide)
  {
    var x :| x in a && x.smallest.key == r.lo.value;
    var y :| y in a && y.largest.key == r.hi.value;
  }

  /** PickCompaction starts from one file; at level 0 from all files its range grows to. */
  method PickCompaction(v: Version, level: nat, index: nat, maxFileSize: nat) returns (in0: seq<File>, in1: seq<File>)
    requires ValidVersion(v) && level + 1 < NUM_LEVELS && index < |v[level]|
    ensures InputsOk(v, level, in0, in1) && v[level][index] in in0
    ensures Connected(in0 + in1)
  {
    var f := v[level][index];
    var chosen := [f];
    EntryCovered(f, f.largest);
    if level == 0 {
      var r := GetRange(chosen);
      ghost var final;
      assert RangeCovered(v[0], r) by {
        forall x | InRange(x, r) ensures CoveredBy(v[0], x) {
          assert f in v[0] && Covers(f, x);
        }
      }
      chosen, final := GetOverlappingInputs(v[0], 0, r, v[0]);
      assert f in chosen;
      OverlappingIsGood(v, 0, final);
      GrownRangeConnected(v[0], final);
    } else {
      assert IsRun(v[level], chosen, index, index + 1);
      SingleConnected(f);
    }
    in0, in1 := SetupOtherInputs(v, level, chosen, maxFileSize);
  }

  lemma SingleConnected(f: File)
    ensures Connected([f])
  {
    forall hull | IsHull([f], hull) ensures RangeCovered([f], hull) {
      assert f in [f];
      forall x | InRange(x, hull) ensures CoveredBy([f], x) {
        assert Covers(f, x);
      }
    }
  }

  lemma GrownRangeConnected(files: Level, r: Range)
    requires ClosedRange(files, r) && RangeCovered(files, r)
    ensures Connected(Overlapping(files, r))
  {
    var o := Overlapping(files, r);
    OverlappingMembers(files, r);
    forall hull | IsHull(o, hull) ensures RangeCovered(o, hull) {
      forall x | InRange(x, hull) ensures CoveredBy(o, x) {
        assert InRange(x, r);
        assert CoveredBy(files, x);
        var f :| f in files && Covers(f, x);
        assert f in o;
      }
    }
  }

  /** CompactRange takes the files overlapping a caller's range; below level 0 it may stop early.
      None means there is nothing to compact. */
  method CompactRange(v: Version, level: nat, range: Range, maxFileSize: nat)
    returns (picked: bool, in0: seq<File>, in1: seq<File>)
    requires ValidVersion(v) && level + 1 < NUM_LEVELS
    ensures picked ==> InputsOk(v, level, in0, in1) && TakesEnough(v[level], level, range, maxFileSize, in0)
    ensures !picked ==> forall f :: f in v[level] ==> !Overlaps(f, range)
  {
    in0, in1 := [], [];
    var inputs;
    ghost var final;
    inputs, final := GetOverlappingInputs(v[level], level, range, v[level]);
    if inputs == [] {
      picked := false;
      forall f | f in v[level] ensures !Overlaps(f, range) {
        assert f in inputs <==> Overlaps(f, final);
      }
      return;
    }
    OverlappingIsGood(v, level, final);
    ghost var taken := |Overlapping(v[level], range)|;
    if level > 0 {
      ghost var lo, hi :| IsRun(v[level], inputs, lo, hi);
      var n := StopAtLimit(inputs, maxFileSize);
      taken := n;
      PrefixOfOverlappingIsRun(v[level], final, n);
      inputs := inputs[..n];
    }
    assert EnoughTaken(v[level], level, range, maxFileSize, inputs, taken) by {
      OverlappingGrows(v[level], range, final);
    }
    hide *;
    in0, in1 := SetupOtherInputs(v, level, inputs, maxFileSize);
    TakenStays(v[level], level, range, maxFileSize, inputs, in0, taken);
    picked := true;
  }

  lemma OverlappingGrows(files: Level, r: Range, s: Range)
    requires SubRange(r, s)
    ensures forall f :: f in Overlapping(files, r) ==> f in Overlapping(files, s)
  {
    OverlappingMembers(files, r);
    OverlappingMembers(files, s);
  }

  lemma TakenStays(files: Level, level: nat, range: Range, limit: nat, inputs: seq<File>, in0: seq<File>, n: nat)
    requires EnoughTaken(files, level, range, limit, inputs, n) && forall f :: f in inputs ==> f in in0
    ensures TakesEnough(files, level, range, limit, in0)
  {
    assert EnoughTaken(files, level, range, limit, in0, n);
  }

  /** All files overlapping the range are taken; below level 0, only as many as it takes to reach the limit. */
  ghost predicate TakesEnough(files: Level, level: nat, range: Range, limit: nat, in0: seq<File>) {
    exists n: nat :: EnoughTaken(files, level, range, limit, in0, n)
  }

  /** The first `n` files overlapping the range are taken. */
  ghost predicate EnoughTaken(files: Level, level: nat, range: Range, limit: nat, in0: seq<File>, n: nat) {
    var all := Overlapping(files, range);
    && n <= |all| && (n < |all| ==> level > 0 && n > 0 && TotalFileSize(all[..n]) >= limit)
    && (level > 0 && n > 1 ==> TotalFileSize(all[..n - 1]) < limit) && AllIn(all[..n], in0)
  }

  ghost predicate AllIn(files: seq<File>, in0: seq<File>) {
    forall f :: f in files ==> f in in0
  }

  /** How many of the files to take before their sizes reach the limit. */
  method StopAtLimit(inputs: seq<File>, limit: nat) returns (n: nat)
    requires inputs != []
    ensures 0 < n <= |inputs|
    ensures n < |inputs| ==> TotalFileSize(inputs[..n]) >= limit
    ensures n > 1 ==> TotalFileSize(inputs[..n - 1]) < limit
  {
    var total := 0;
    n := 0;
    while n < |inputs|
      invariant 0 <= n <= |inputs|
      invariant total == TotalFileSize(inputs[..n])
      invariant (n > 0 ==> total < limit) && (n > 1 ==> TotalFileSize(inputs[..n - 1]) < limit)
    {
      assert inputs[..n + 1][..n] == inputs[..n];
      total := total + inputs[n].size;
      n := n + 1;
      assert inputs[..n][..n - 1] == inputs[..n - 1];
      if total >= limit {
        return;
      }
    }
  }

  lemma PrefixOfOverlappingIsRun(files: Level, r: Range, n: nat)
    requires Disjoint(files) && 0 < n <= |Overlapping(files, r)|
    ensures exists lo, hi :: IsRun(files, Overlapping(files, r)[..n], lo, hi)
  {
    var lo, hi := OverlappingIsSlice(files, r);
    assert files[lo..hi][..n] == files[lo..lo + n];
    SliceIsRun(files, lo, lo + n);
  }
}
