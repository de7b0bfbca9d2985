/** Point lookups in a version: level 0 newest file first, then at most one file per level. */
module VersionGet {
  import opened Options
  import opened Config
  import opened Keys
  import opened Reads
  import opened Files

  /** Where the binary search between `left` and `right` ends, on any list of files. */
  function Bisect(files: Level, k: UserKey, tag: nat, left: nat, right: nat): (index: nat)
    requires left <= right <= |files|
    ensures left <= index <= right
    decreases right - left
  {
    if left == right then right
    else
      var mid := (left + right) / 2;
      if KeyBefore(files[mid].largest, k, tag) then Bisect(files, k, tag, mid + 1, right)
        else Bisect(files, k, tag, left, mid)
  }

  /** In a sorted level it ends at the first file whose largest key is at or after (k, tag). */
  lemma {:induction false} BisectFinds(files: Level, k: UserKey, tag: nat, left: nat, right: nat)
    requires left <= right <= |files|
    requires forall i, j :: 0 <= i < j < |files| ==> Before(files[i].largest, files[j].largest)
    requires forall i :: 0 <= i < left ==> KeyBefore(files[i].largest, k, tag)
    requires forall i :: right <= i < |files| ==> !KeyBefore(files[i].largest, k, tag)
    ensures forall i :: 0 <= i < Bisect(files, k, tag, left, right) ==> KeyBefore(files[i].largest, k, tag)
    ensures forall i :: Bisect(files, k, tag, left, right) <= i < |files| ==> !KeyBefore(files[i].largest, k, tag)
    decreases right - left
  {
    if left < right {
      var mid := (left + right) / 2;
      assert forall i :: 0 <= i < mid ==> Before(files[i].largest, files[mid].largest);
      assert forall i :: mid < i < |files| ==> Before(files[mid].largest, files[i].largest);
      if KeyBefore(files[mid].largest, k, tag) {
        BisectFinds(files, k, tag, mid + 1, right);
      } else {
        BisectFinds(files, k, tag, left, mid);
      }
    }
  }

  /** Binary search for the first file whose largest key is at or after (k, tag). */
  method FindFile(files: Level, k: UserKey, tag: nat) returns (index: nat)
    ensures index == Bisect(files, k, tag, 0, |files|) <= |files|
    ensures Disjoint(files) ==> forall i :: 0 <= i < index ==> KeyBefore(files[i].largest, k, tag)
    ensures Disjoint(files) ==> forall i :: index <= i < |files| ==> !KeyBefore(files[i].largest, k, tag)
  {
    if Disjoint(files) {
      LargestAscending(files);
      BisectFinds(files, k, tag, 0, |files|);
    }
    var left, right := 0, |files|;
    while left < right
      invariant 0 <= left <= right <= |files|
      invariant Bisect(files, k, tag, left, right) == Bisect(files, k, tag, 0, |files|)
    {
      var mid := (left + right) / 2;
      if KeyBefore(files[mid].largest, k, tag) {
        left := mid + 1;
      } else {
        right := mid;
      }
    }
    return right;
  }

  lemma LargestAscending(files: Level)
    requires Disjoint(files)
    ensures forall i, j :: 0 <= i < j < |files| ==> Before(files[i].largest, files[j].largest)
  {
    forall i, j | 0 <= i < j < |files|
      ensures Before(files[i].largest, files[j].largest)
    {
      EntryCovered(files[j], files[j].largest);
    }
  }

  /** Seek (k, s) in entries listed in key order; a hit is an entry with the sought user key. */
  method SeekEntries(es: seq<Entry>, k: UserKey, s: nat) returns (r: Option<Entry>)
    requires Ascending(es)
    ensures r.Some? ==> IsNewest(Listed(es), k, s, r.value)
    ensures r.None? ==> Invisible(Listed(es), k, s)
  {
    var i := 0;
    while i < |es| && KeyBefore(es[i], k, SeekTag(s))
      invariant 0 <= i <= |es|
      invariant forall j :: 0 <= j < i ==> KeyBefore(es[j], k, SeekTag(s))
    {
      i := i + 1;
    }
    assert forall j :: i < j < |es| ==> Before(es[i], es[j]);
    if i < |es| && es[i].key == k {
      return Some(es[i]);
    }
    return None;
  }

  /** What one table answers: its first entry at or after the lookup key, if it has the user key. */
  method TableGet(f: File, k: UserKey, s: nat) returns (r: Option<Entry>)
    ensures r.Some? ==> IsNewest(Ents(f), k, s, r.value)
    ensures r.None? ==> Invisible(Ents(f), k, s)
  {
    r := SeekEntries(f.entries, k, s);
  }

  ghost predicate NewestFirst(files: seq<File>) {
    forall i, j :: 0 <= i < j < |files| ==> files[i].number >= files[j].number
  }

  method InsertNewestFirst(sorted: seq<File>, f: File) returns (r: seq<File>)
    requires NewestFirst(sorted)
    ensures NewestFirst(r)
    ensures forall g :: g in r <==> g == f || g in sorted
  {
    var p := 0;
    while p < |sorted| && sorted[p].number >= f.number
      invariant 0 <= p <= |sorted|
      invariant forall i :: 0 <= i < p ==> sorted[i].number >= f.number
    {
      p := p + 1;
    }
    r := sorted[..p] + [f] + sorted[p..];
    InsertedMembers(sorted, p, f);
    InsertedOrder(sorted, p, f);
  }

  lemma InsertedMembers(sorted: seq<File>, p: nat, f: File)
    requires p <= |sorted|
    ensures forall g :: g in sorted[..p] + [f] + sorted[p..] <==> g == f || g in sorted
  {
    assert sorted == sorted[..p] + sorted[p..];
  }

  lemma InsertedOrder(sorted: seq<File>, p: nat, f: File)
    requires p <= |sorted| && NewestFirst(sorted)
    requires forall i :: 0 <= i < p ==> sorted[i].number >= f.number
    requires p < |sorted| ==> sorted[p].number < f.number
    ensures NewestFirst(sorted[..p] + [f] + sorted[p..])
  {
    var r := sorted[..p] + [f] + sorted[p..];
    forall i, j | 0 <= i < j < |r| ensures r[i].number >= r[j].number {
      assert r[i] == if i < p then sorted[i] else if i == p then f else sorted[i - 1];
      assert r[j] == if j < p then sorted[j] else if j == p then f else sorted[j - 1];
    }
  }

  /** Sorting by decreasing file number. */
  method SortNewestFirst(files: seq<File>) returns (sorted: seq<File>)
    ensures forall f :: f in sorted <==> f in files
    ensures NewestFirst(sorted)
  {
    sorted := [];
    for n := 0 to |files|
      invariant forall f :: f in sorted <==> f in files[..n]
      invariant NewestFirst(sorted)
    {
      sorted := InsertNewestFirst(sorted, files[n]);
    }
    assert files == files[..|files|];
  }

  /** The level-0 files whose range covers `k`, newest file first. */
  method OverlappingNewestFirst(files: Level, k: UserKey) returns (tmp: seq<File>)
    ensures forall f :: f in tmp <==> f in files && Covers(f, k)
    ensures NewestFirst(tmp)
  {
    var found: seq<File> := [];
    for i := 0 to |files|
      invariant forall f :: f in found <==> f in files[..i] && Covers(f, k)
    {
      if k >= files[i].smallest.key && k <= files[i].largest.key {
        found := found + [files[i]];
      }
    }
    assert files == files[..|files|];
    tmp := SortNewestFirst(found);
  }

  /** An entry visible in level 0 lies in one of the files that cover the key. */
  lemma VisibleFileIsListed(files: Level, tmp: seq<File>, k: UserKey, s: nat, d: Entry) returns (j: nat)
    requires forall f :: f in tmp <==> f in files && Covers(f, k)
    requires d in LevelEntries(files) && Visible(d, k, s)
    ensures j < |tmp| && d in Ents(tmp[j])
  {
    var f :| f in files && d in f.entries;
    EntryCovered(f, d);
    j :| 0 <= j < |tmp| && tmp[j] == f;
  }

  lemma NewestFirstWins(files: Level, tmp: seq<File>, i: nat, j: nat)
    requires NumberOrdered(files) && NewestFirst(tmp) && i < j < |tmp|
    requires tmp[i] in files && tmp[j] in files
    ensures tmp[i] == tmp[j] || NewerThan(Ents(tmp[i]), Ents(tmp[j]))
  {
  }

  /** The first file with an entry to show, newest files first, has the newest of the level. */
  lemma FirstHit(files: Level, tmp: seq<File>, i: nat, k: UserKey, s: nat, e: Entry)
    requires NumberOrdered(files) && NewestFirst(tmp) && i < |tmp|
    requires forall f :: f in tmp <==> f in files && Covers(f, k)
    requires (forall j :: 0 <= j < i ==> Invisible(Ents(tmp[j]), k, s)) && IsNewest(Ents(tmp[i]), k, s, e)
    ensures IsNewest(LevelEntries(files), k, s, e)
  {
    assert tmp[i] in files;
    forall d | d in LevelEntries(files) && Visible(d, k, s) ensures d.seqno <= e.seqno {
      var j := VisibleFileIsListed(files, tmp, k, s, d);
      if i < j {
        NewestFirstWins(files, tmp, i, j);
      }
    }
  }

  lemma NoHit(files: Level, tmp: seq<File>, k: UserKey, s: nat)
    requires forall f :: f in tmp <==> f in files && Covers(f, k)
    requires forall j :: 0 <= j < |tmp| ==> Invisible(Ents(tmp[j]), k, s)
    ensures Invisible(LevelEntries(files), k, s)
  {
    forall d | d in LevelEntries(files) ensures !Visible(d, k, s) {
      if Visible(d, k, s) {
        var j := VisibleFileIsListed(files, tmp, k, s, d);
      }
    }
  }

  /** Level-0 search: the first hit, newest file first, is the newest entry of the whole level. */
  method SearchLevelZero(files: Level, k: UserKey, s: nat) returns (r: Option<Entry>)
    requires NumberOrdered(files)
    ensures r.Some? ==> IsNewest(LevelEntries(files), k, s, r.value)
    ensures r.None? ==> Invisible(LevelEntries(files), k, s)
  {
    hide Visible, Ents, LevelEntries, NumberOrdered, NewestFirst, Covers;
    var tmp := OverlappingNewestFirst(files, k);
    for i := 0 to |tmp|
      invariant forall j :: 0 <= j < i ==> Invisible(Ents(tmp[j]), k, s)
    {
      hide Invisible, IsNewest;
      r := TableGet(tmp[i], k, s);
      if r.Some? {
        FirstHit(files, tmp, i, k, s, r.value);
        return;
      }
    }
    NoHit(files, tmp, k, s);
    r := None;
  }

  /** A deeper level: one binary search, at most one file read. */
  method SearchDeepLevel(files: Level, k: UserKey, s: nat) returns (r: Option<Entry>)
    ensures Disjoint(files) ==>
              if r.Some? then IsNewest(LevelEntries(files), k, s, r.value) else Invisible(LevelEntries(files), k, s)
    ensures var index := Bisect(files, k, SeekTag(s), 0, |files|);
            if r.Some? then index < |files| && IsNewest(Ents(files[index]), k, s, r.value)
            else index == |files| || k < files[index].smallest.key || Invisible(Ents(files[index]), k, s)
  {
    var index := FindFile(files, k, SeekTag(s));
    if index >= |files| {
      r := None;
    } else if k < files[index].smallest.key {
      r := None;
    } else {
      r := TableGet(files[index], k, s);
    }
    if Disjoint(files) {
      forall d | d in LevelEntries(files) && Visible(d, k, s)
        ensures r.Some? && d.seqno <= r.value.seqno
      {
        OneFileIsEnough(files, k, s, index, d);
        assert d in Ents(files[index]) ==> index < |files| && Covers(files[index], k);
      }
    }
  }

  /** An entry visible at (k, s) lies in the file found for (k, SeekTag(s)), or is older than an
      entry for `k` there that is visible too. */
  lemma OneFileIsEnough(files: Level, k: UserKey, s: nat, index: nat, d: Entry)
    requires Disjoint(files) && index <= |files|
    requires forall i :: 0 <= i < index ==> KeyBefore(files[i].largest, k, SeekTag(s))
    requires forall i :: index <= i < |files| ==> !KeyBefore(files[i].largest, k, SeekTag(s))
    requires d in LevelEntries(files) && Visible(d, k, s)
    ensures index < |files| && Covers(files[index], k)
    ensures d in Ents(files[index]) ||
            (Visible(files[index].largest, k, s) && files[index].largest in Ents(files[index])
             && d.seqno <= files[index].largest.seqno)
  {
    var f :| f in files && d in f.entries;
    var j :| 0 <= j < |files| && files[j] == f;
    EntryCovered(f, d);
    assert !KeyBefore(d, k, SeekTag(s));
    assert j >= index;
    if j > index {
      assert Before(files[index].largest, files[j].smallest);
      EntryCovered(files[index], files[index].largest);
    }
  }

  ghost function EntriesAbove(v: Version, level: nat): set<Entry> {
    set l, f, e | 0 <= l < NUM_LEVELS && l < level && f in v[l] && e in f.entries :: e
  }

  /** Version::Get answers with the newest entry at or below the snapshot over all files. */
  method Get(v: Version, k: UserKey, s: nat) returns (r: Option<Bytes>)
    requires ValidVersion(v)
    ensures r == ReadAt(VersionEntries(v), k, s)
  {
    for level := 0 to NUM_LEVELS
      invariant Invisible(EntriesAbove(v, level), k, s)
    {
      var hit: Option<Entry>;
      if level == 0 {
        hit := SearchLevelZero(v[level], k, s);
      } else {
        hit := SearchDeepLevel(v[level], k, s);
      }
      if hit.Some? {
        FirstHitIsNewest(v, k, s, level, hit.value);
        ReadOfNewest(VersionEntries(v), k, s, hit.value);
        return Outcome(hit.value);
      }
      forall e | e in EntriesAbove(v, level + 1) ensures !Visible(e, k, s) {
        assert e in EntriesAbove(v, level) || e in LevelEntries(v[level]);
      }
    }
    forall e | e in VersionEntries(v) ensures !Visible(e, k, s) {
      assert e in EntriesAbove(v, NUM_LEVELS);
    }
    ReadOfInvisible(VersionEntries(v), k, s);
    return None;
  }

  lemma FirstHitIsNewest(v: Version, k: UserKey, s: nat, level: nat, e: Entry)
    requires ValidVersion(v) && level < NUM_LEVELS
    requires Invisible(EntriesAbove(v, level), k, s)
    requires IsNewest(LevelEntries(v[level]), k, s, e)
    ensures IsNewest(VersionEntries(v), k, s, e)
  {
    forall d | d in VersionEntries(v) && Visible(d, k, s)
      ensures d.seqno <= e.seqno
    {
      var l, f :| 0 <= l < NUM_LEVELS && f in v[l] && d in f.entries;
      assert d in LevelEntries(v[l]);
      assert l < level ==> d in EntriesAbove(v, level);
      assert level < l ==> NewerThan(LevelEntries(v[level]), LevelEntries(v[l]));
    }
    var f :| f in v[level] && e in f.entries;
    assert e in VersionEntries(v);
  }
}
