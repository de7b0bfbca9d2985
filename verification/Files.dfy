/** Table files, levels and versions, with the invariant that every reachable version keeps. */
module Files {
  import opened Config
  import opened Keys

  /** A table file: its metadata (number, size, and the entries that carry its smallest and its
      largest internal key) and the entries it holds. */
  datatype FileData = FileData(number: nat, size: nat, smallest: Entry, largest: Entry, entries: seq<Entry>)

  ghost predicate FileOk(f: FileData) {
    && f.entries != []
    && Ascending(f.entries)
    && f.smallest == f.entries[0]
    && f.largest == f.entries[|f.entries| - 1]
  }

  const ZERO_ENTRY := Entry(0.0, 0, Value, "")

  type File = f: FileData | FileOk(f) witness FileData(0, 0, ZERO_ENTRY, ZERO_ENTRY, [ZERO_ENTRY])

  /** The file a table builder finishes after adding `es`. */
  function MakeFile(number: nat, size: nat, es: seq<Entry>): (f: File)
    requires es != [] && Ascending(es)
    ensures f.number == number && f.entries == es
  {
    FileData(number, size, es[0], es[|es| - 1], es)
  }

  type Level = seq<File>

  type Version = v: seq<Level> | |v| == NUM_LEVELS witness seq(NUM_LEVELS, i => [])

  ghost function Listed(es: seq<Entry>): set<Entry> {
    set e | e in es
  }

  ghost function Ents(f: File): set<Entry> {
    Listed(f.entries)
  }

  ghost function LevelEntries(fs: Level): set<Entry> {
    set f, e | f in fs && e in f.entries :: e
  }

  ghost function VersionEntries(v: Version): set<Entry> {
    set l, f, e | 0 <= l < NUM_LEVELS && f in v[l] && e in f.entries :: e
  }

  /** The user keys a file's metadata range covers. */
  predicate Covers(f: File, k: UserKey) {
    f.smallest.key <= k <= f.largest.key
  }

  lemma EntryCovered(f: File, e: Entry)
    requires e in f.entries
    ensures Covers(f, e.key)
    ensures e == f.smallest || Before(f.smallest, e)
    ensures e == f.largest || Before(e, f.largest)
  {
    var i :| 0 <= i < |f.entries| && f.entries[i] == e;
    assert i > 0 ==> Before(f.entries[0], f.entries[i]);
    assert i < |f.entries| - 1 ==> Before(f.entries[i], f.entries[|f.entries| - 1]);
  }

  /** Files of a level listed in key order, their internal key ranges disjoint. */
  ghost predicate Disjoint(fs: Level) {
    forall i, j :: 0 <= i < j < |fs| ==> Before(fs[i].largest, fs[j].smallest)
  }

  /** For every user key, all entries of `top` are newer than all entries of `rest`. */
  ghost predicate NewerThan(top: set<Entry>, rest: set<Entry>) {
    forall a, b :: a in top && b in rest && a.key == b.key ==> a.seqno > b.seqno
  }

  ghost predicate LevelsDisjoint(v: Version) {
    forall l :: 1 <= l < NUM_LEVELS ==> Disjoint(v[l])
  }

  ghost predicate ShallowNewer(v: Version) {
    forall l, m :: 0 <= l < m < NUM_LEVELS ==> NewerThan(LevelEntries(v[l]), LevelEntries(v[m]))
  }

  /** Level 0: file numbers are distinct and a larger number means newer entries. */
  ghost predicate NumberOrdered(fs: Level) {
    && (forall i, j :: 0 <= i < j < |fs| ==> fs[i].number != fs[j].number)
    && (forall f, g :: f in fs && g in fs && f.number > g.number ==> NewerThan(Ents(f), Ents(g)))
  }

  ghost predicate ValidVersion(v: Version) {
    && LevelsDisjoint(v)
    && ShallowNewer(v)
    && NumberOrdered(v[0])
    && DistinctSeqnos(VersionEntries(v))
  }
}
