/** Where a flushed memtable goes. */
module FlushPlacement {
  import opened Options
  import opened Config
  import opened Keys
  import opened Files
  import opened VersionGet
  import opened InputChoice
  import opened VersionSteps

  /** SomeFileOverlapsRange: a scan at level 0, a binary search below. */
  method SomeFileOverlapsRange(disjointSorted: bool, files: Level, range: Range) returns (r: bool)
    requires disjointSorted ==> Disjoint(files)
    requires range.lo.Some? ==> range.hi.None? || range.lo.value <= range.hi.value
    ensures r <==> exists f :: f in files && Overlaps(f, range)
  {
    if !disjointSorted {
      for i := 0 to |files|
        invariant forall f :: f in files[..i] ==> !Overlaps(f, range)
      {
        assert files[..i + 1] == files[..i] + [files[i]];
        if (range.lo.Some? && range.lo.value > files[i].largest.key)
          || (range.hi.Some? && range.hi.value < files[i].smallest.key) {
        } else {
          assert files[i] in files && Overlaps(files[i], range);
          return true;
        }
      }
      assert files[..|files|] == files;
      return false;
    }
    var index := 0;
    if range.lo.Some? {
      index := FindFile(files, range.lo.value, SeekTag(MAX_SEQUENCE));
    }
    BeforeIndex(files, range, index);
    if index >= |files| {
      return false;
    }
    r := !(range.hi.Some? && range.hi.value < files[index].smallest.key);
    if r {
      assert files[index] in files && Overlaps(files[index], range);
    } else {
      PastRange(files, range, index);
    }
  }

  /** No key of a user key precedes the one with the maximal tag, so the search lands on the first
      file that does not end before the range. */
  lemma BeforeIndex(files: Level, range: Range, index: nat)
    requires index <= |files|
    requires range.lo.None? ==> index == 0
    requires range.lo.Some? ==> forall i :: 0 <= i < index ==>
             KeyBefore(files[i].largest, range.lo.value, SeekTag(MAX_SEQUENCE))
    requires range.lo.Some? ==> forall i :: index <= i < |files| ==>
             !KeyBefore(files[i].largest, range.lo.value, SeekTag(MAX_SEQUENCE))
    ensures forall i :: 0 <= i < index ==> !Overlaps(files[i], range)
    ensures index < |files| && range.lo.Some? ==> files[index].largest.key >= range.lo.value
  {
  }

  lemma PastRange(files: Level, range: Range, index: nat)
    requires Disjoint(files) && index < |files|
    requires range.hi.Some? && range.hi.value < files[index].smallest.key
    ensures forall i :: index <= i < |files| ==> !Overlaps(files[i], range)
  {
    forall i | index <= i < |files| ensures !Overlaps(files[i], range) {
      if index < i {
        FilesAscend(files, index, i);
      }
    }
  }

  ghost predicate Meets(v: Version, f: File, level: nat)
    requires level < NUM_LEVELS
  {
    exists g :: g in v[level] && RangesMeet(f, g)
  }

  /** The file does not go below this level. */
  ghost predicate Stops(v: Version, f: File, level: nat, maxFileSize: nat)
    requires level + 2 < NUM_LEVELS
  {
    Meets(v, f, level + 1) || TotalFileSize(Overlapping(v[level + 2], FileRange(f))) > 10 * maxFileSize
  }

  /** Version::PickLevelForMemTableOutput for the range of a flushed file: level 0 if level 0 has
      data there; otherwise down past levels that have none, while the level after next does not
      hold too many bytes there. */
  method PickLevelForMemTableOutput(v: Version, f: File, maxFileSize: nat) returns (level: nat)
    requires LevelsDisjoint(v)
    ensures FlushLevelOk(v, f, level)
    ensures level ==
            if Meets(v, f, 0) || Stops(v, f, 0, maxFileSize) then 0 else if Stops(v, f, 1, maxFileSize) then 1 else 2
  {
    EntryCovered(f, f.largest);
    var range := FileRange(f);
    level := 0;
    var overlap := SomeFileOverlapsRange(false, v[0], range);
    OverlapIsMeeting(f);
    if !overlap {
      while level < 2
        invariant level <= 2 && forall l :: 0 <= l <= level ==> !Meets(v, f, l)
        invariant !(0 < level && Stops(v, f, 0, maxFileSize)) && !(1 < level && Stops(v, f, 1, maxFileSize))
      {
        overlap := SomeFileOverlapsRange(true, v[level + 1], range);
        if overlap {
          break;
        }
        if level + 2 < NUM_LEVELS {
          var overlaps;
          ghost var final;
          overlaps, final := GetOverlappingInputs(v[level + 2], level + 2, range, v[level + 2]);
          if TotalFileSize(overlaps) > 10 * maxFileSize {
            break;
          }
        }
        level := level + 1;
      }
    }
  }

  function FileRange(f: File): Range {
    Range(Some(f.smallest.key), Some(f.largest.key))
  }

  lemma OverlapIsMeeting(f: File)
    ensures forall g: File :: Overlaps(g, FileRange(f)) <==> RangesMeet(f, g)
  {
  }
}
