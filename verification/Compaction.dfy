/** The compaction loop: a cursor over deeper levels, the drop rules, and the output files. */
module Compaction {
  import opened Options
  import opened Config
  import opened Keys
  import opened Files
  import opened DropRules

  /** No file two or more levels below `level` covers the key. */
  ghost predicate IsBase(v: Version, level: nat, k: UserKey) {
    forall l, f :: level + 2 <= l < NUM_LEVELS && f in v[l] ==> !Covers(f, k)
  }

  ghost function BaseKeys(v: Version, level: nat): iset<UserKey> {
    iset k: UserKey | IsBase(v, level, k)
  }

  /** level_ptrs_: per level, how many files lie wholly before the keys asked so far. */
  class LevelCursor {
    const level: nat
    const version: Version
    var ptrs: array<nat>
    ghost var asked: Option<UserKey>

    ghost predicate PassedOnly(l: nat, n: nat, k: UserKey)
      requires l < NUM_LEVELS
    {
      n <= |version[l]| && forall i :: 0 <= i < n ==> version[l][i].largest.key < k
    }

    ghost predicate Valid()
      reads this, ptrs
    {
      && level + 1 < NUM_LEVELS
      && ptrs.Length == NUM_LEVELS
      && LevelsDisjoint(version)
      && forall l :: level + 2 <= l < NUM_LEVELS ==>
           (asked.None? ==> ptrs[l] == 0) && (asked.Some? ==> PassedOnly(l, ptrs[l], asked.value))
    }

    constructor (v: Version, l: nat)
      requires LevelsDisjoint(v) && l + 1 < NUM_LEVELS
      ensures Valid() && fresh(ptrs) && version == v && level == l && asked == None
    {
      level, version := l, v;
      ptrs := new nat[NUM_LEVELS](i => 0);
      asked := None;
    }

    /** The forward-only cursor answers what a scan of all deeper levels would, for keys asked in
        ascending order. */
    method IsBaseLevelForKey(k: UserKey) returns (base: bool)
      requires Valid() && (asked.Some? ==> asked.value <= k)
      modifies this`asked, ptrs
      ensures Valid() && asked == Some(k)
      ensures base <==> k in BaseKeys(version, level)
    {
      ghost var was := asked;
      asked := Some(k);
      for lvl := level + 2 to NUM_LEVELS
        invariant ptrs.Length == NUM_LEVELS && asked == Some(k)
        invariant forall l :: level + 2 <= l < NUM_LEVELS ==> PassedOnly(l, ptrs[l], k)
        invariant forall l, f :: level + 2 <= l < lvl && f in version[l] ==> !Covers(f, k)
      {
        while ptrs[lvl] < |version[lvl]| && k > version[lvl][ptrs[lvl]].largest.key
          invariant asked == Some(k)
          invariant forall l :: level + 2 <= l < NUM_LEVELS ==> PassedOnly(l, ptrs[l], k)
          decreases |version[lvl]| - ptrs[lvl]
        {
          ptrs[lvl] := ptrs[lvl] + 1;
        }
        if ptrs[lvl] < |version[lvl]| && k >= version[lvl][ptrs[lvl]].smallest.key {
          assert version[lvl][ptrs[lvl]] in version[lvl] && Covers(version[lvl][ptrs[lvl]], k);
          return false;
        }
        CursorLevelClear(version[lvl], ptrs[lvl], k);
      }
      return true;
    }
  }

  lemma CursorLevelClear(files: Level, n: nat, k: UserKey)
    requires Disjoint(files) && n <= |files|
    requires forall i :: 0 <= i < n ==> files[i].largest.key < k
    requires n < |files| ==> k < files[n].smallest.key
    ensures forall f :: f in files ==> !Covers(f, k)
  {
    forall f | f in files ensures !Covers(f, k) {
      var i :| 0 <= i < |files| && files[i] == f;
      if n < i {
        EntryCovered(files[n], files[n].largest);
        assert Before(files[n].largest, files[i].smallest);
      }
    }
  }

  // ---------------------------------------------------------------------------------------------
  // DoCompactionWork
  // ---------------------------------------------------------------------------------------------

  /** In a merged input the previous entry decides rule (A). */
  lemma HiddenByPrevious(input: seq<Entry>, i: nat, smallest: nat)
    requires Ascending(input) && DistinctSeqnos(Listed(input)) && i < |input|
    ensures HiddenBy(Listed(input), input[i], smallest) <==>
            i > 0 && input[i - 1].key == input[i].key && input[i - 1].seqno <= smallest
  {
    if HiddenBy(Listed(input), input[i], smallest) {
      var d :| d in Listed(input) && d.key == input[i].key && input[i].seqno < d.seqno <= smallest;
      var j :| 0 <= j < |input| && input[j] == d;
      assert j < i;
      assert j < i - 1 ==> Before(input[j], input[i - 1]);
      assert i > 0 ==> Before(input[i - 1], input[i]);
    }
    if i > 0 && input[i - 1].key == input[i].key && input[i - 1].seqno <= smallest {
      assert Before(input[i - 1], input[i]);
      assert input[i - 1] in Listed(input) && input[i] in Listed(input);
    }
  }

  ghost function KeptPrefix(input: seq<Entry>, n: nat, smallest: nat, base: iset<UserKey>): set<Entry>
    requires n <= |input|
  {
    set e | e in input[..n] && e in Kept(Listed(input), smallest, base)
  }

  /** Finished output files, the entries of the open one, and file numbers. */
  datatype CompactionState = CompactionState(outputs: seq<File>, cur: seq<Entry>, curNumber: nat, nextNumber: nat) {

    ghost function Written(): set<Entry> {
      LevelEntries(outputs) + Listed(cur)
    }

    /** Output files in key order, the open output after them, and all before the unread input. */
    ghost predicate InOrder(input: seq<Entry>, n: nat) {
      && n <= |input|
      && Disjoint(outputs)
      && Ascending(cur)
      && (cur != [] ==> forall f :: f in outputs ==> Before(f.largest, cur[0]))
      && (forall f, j :: f in outputs && n <= j < |input| ==> Before(f.largest, input[j]))
      && (forall e, j :: e in cur && n <= j < |input| ==> Before(e, input[j]))
    }

    /** File numbers are fresh and increase. */
    ghost predicate Numbered(first: nat) {
      && first <= nextNumber
      && (forall f :: f in outputs ==> first <= f.number < nextNumber)
      && (forall i, j :: 0 <= i < j < |outputs| ==> outputs[i].number < outputs[j].number)
      && (cur != [] ==> first <= curNumber < nextNumber && forall f :: f in outputs ==> f.number < curNumber)
    }
  }

  method NoOutputs(ghost input: seq<Entry>, first: nat) returns (st: CompactionState)
    ensures st.InOrder(input, 0) && st.Numbered(first) && st.Written() == {}
  {
    st := CompactionState([], [], first, first);
  }

  /** FinishCompactionOutputFile: the open output, if any, becomes a file. */
  method FinishOutput(st: CompactionState, ghost input: seq<Entry>, ghost n: nat, ghost first: nat)
    returns (r: CompactionState)
    requires st.InOrder(input, n) && st.Numbered(first)
    ensures r.InOrder(input, n) && r.Numbered(first)
    ensures r.cur == [] && r.Written() == st.Written() == LevelEntries(r.outputs)
    ensures Disjoint(r.outputs)
  {
    if st.cur == [] {
      return st;
    }
    var size: nat := *;
    var f := MakeFile(st.curNumber, size, st.cur);
    assert f.largest in st.cur;
    r := st.(outputs := st.outputs + [f], cur := []);
    FileAdded(st.outputs, f);
  }

  lemma FileAdded(outputs: seq<File>, f: File)
    ensures LevelEntries(outputs + [f]) == LevelEntries(outputs) + Ents(f)
  {
    var r := outputs + [f];
    assert f in r;
    forall e | e in LevelEntries(outputs) ensures e in LevelEntries(r) {
      var g :| g in outputs && e in g.entries;
      assert g in r;
    }
  }

  /** Appends a kept entry, opening an output file if none is open. */
  method AddToOutput(st: CompactionState, ghost input: seq<Entry>, i: nat, e: Entry, ghost first: nat)
    returns (r: CompactionState)
    requires Ascending(input) && i < |input| && e == input[i]
    requires st.InOrder(input, i) && st.Numbered(first)
    ensures r.InOrder(input, i + 1) && r.Numbered(first)
    ensures r.Written() == st.Written() + {e}
  {
    r := st;
    if st.cur == [] {
      r := r.(curNumber := r.nextNumber, nextNumber := r.nextNumber + 1);
    }
    AppendKeepsOrder(st, input, i);
    r := r.(cur := r.cur + [e]);
  }

  method WriteUnlessDropped(st: CompactionState, ghost input: seq<Entry>, i: nat, e: Entry, drop: bool, bigEnough: bool,
          ghost first: nat)
    returns (r: CompactionState)
    requires Ascending(input) && i < |input| && e == input[i]
    requires st.InOrder(input, i) && st.Numbered(first)
    ensures r.InOrder(input, i + 1) && r.Numbered(first)
    ensures r.Written() == st.Written() + if drop then {} else {e}
  {
    r := st;
    if !drop {
      r := AddToOutput(r, input, i, e, first);
      if bigEnough {
        r := FinishOutput(r, input, i + 1, first);
      }
    }
  }

  lemma AppendKeepsOrder(st: CompactionState, input: seq<Entry>, i: nat)
    requires Ascending(input) && i < |input| && st.InOrder(input, i)
    ensures Ascending(st.cur + [input[i]])
    ensures forall e, j :: e in st.cur + [input[i]] && i + 1 <= j < |input| ==> Before(e, input[j])
    ensures Listed(st.cur + [input[i]]) == Listed(st.cur) + {input[i]}
  {
    var q := st.cur + [input[i]];
    forall e, j | e in q && i + 1 <= j < |input| ensures Before(e, input[j]) {
      assert Before(input[i], input[j]);
    }
    forall a, b | 0 <= a < b < |q| ensures Before(q[a], q[b]) {
      if b == |st.cur| {
        assert st.cur[a] in st.cur;
      }
    }
  }

  /** The drop decision for one entry, given the sequence number of the entry before it if that has
      the same user key and the maximum otherwise. */
  method ShouldDrop(cursor: LevelCursor, e: Entry, lastSequenceForKey: nat, smallest: nat, ghost input: seq<Entry>,
          ghost i: nat)
    returns (drop: bool)
    requires cursor.Valid() && (cursor.asked.Some? ==> cursor.asked.value <= e.key)
    requires Ascending(input) && DistinctSeqnos(Listed(input)) && i < |input| && e == input[i]
             && smallest < MAX_SEQUENCE
    requires lastSequenceForKey == if i > 0 && input[i - 1].key == e.key then input[i - 1].seqno else MAX_SEQUENCE
    modifies cursor`asked, cursor.ptrs
    ensures cursor.Valid() && (cursor.asked.Some? ==> cursor.asked.value <= e.key)
    ensures drop <==> e !in Kept(Listed(input), smallest, BaseKeys(cursor.version, cursor.level))
  {
    HiddenByPrevious(input, i, smallest);
    drop := false;
    if lastSequenceForKey <= smallest {
      drop := true;
    } else if e.kind == Deletion && e.seqno <= smallest {
      drop := cursor.IsBaseLevelForKey(e.key);
    }
    assert e in Listed(input);
  }

  /** The loop of DoCompactionWork over a merged input.  Where outputs are cut (grandparent overlap,
      file size) is left open; what they hold is not. */
  method DoCompactionWork(v: Version, level: nat, input: seq<Entry>, smallest: nat, firstNumber: nat)
    returns (st: CompactionState)
    requires LevelsDisjoint(v) && level + 1 < NUM_LEVELS
    requires Ascending(input) && DistinctSeqnos(Listed(input)) && smallest < MAX_SEQUENCE
    ensures st.cur == [] && Disjoint(st.outputs) && st.Numbered(firstNumber)
    ensures LevelEntries(st.outputs) == Kept(Listed(input), smallest, BaseKeys(v, level)) <= Listed(input)
    ensures forall a, b ::
              a in LevelEntries(st.outputs) && b in Listed(input) && a.key == b.key && a.seqno < b.seqno ==>
                b.seqno > smallest
    ensures forall e :: e in LevelEntries(st.outputs) && e.kind == Deletion && e.seqno <= smallest ==>
              exists l, f :: level + 2 <= l < NUM_LEVELS && f in v[l] && Covers(f, e.key)
    ensures forall e :: e in Listed(input) && e !in LevelEntries(st.outputs) ==>
              || (exists d :: d in Listed(input) && d.key == e.key && e.seqno < d.seqno <= smallest)
              || (e.kind == Deletion && e.seqno <= smallest
                  && forall l, f :: level + 2 <= l < NUM_LEVELS && f in v[l] ==> !Covers(f, e.key))
  {
    hide CompactionState.InOrder, CompactionState.Numbered, CompactionState.Written, Kept;
    ghost var base := BaseKeys(v, level);
    var cursor := new LevelCursor(v, level);
    st := NoOutputs(input, firstNumber);
    assert KeptPrefix(input, 0, smallest, base) == {};
    var currentUserKey: Option<UserKey> := None;
    var lastSequenceForKey := MAX_SEQUENCE;
    var i := 0;
    while i < |input|
      invariant 0 <= i <= |input|
      invariant cursor.Valid() && fresh(cursor) && fresh(cursor.ptrs) && cursor.version == v && cursor.level == level
      invariant cursor.asked.Some? ==> i > 0 && cursor.asked.value <= input[i - 1].key
      invariant currentUserKey == if i == 0 then None else Some(input[i - 1].key)
      invariant i > 0 ==> lastSequenceForKey == input[i - 1].seqno
      invariant st.InOrder(input, i) && st.Numbered(firstNumber)
      invariant st.Written() == KeptPrefix(input, i, smallest, base)
    {
      var e := input[i];
      assert i > 0 ==> Before(input[i - 1], input[i]);
      var stopBefore: bool := *;
      if stopBefore {
        st := FinishOutput(st, input, i, firstNumber);
      }
      if currentUserKey != Some(e.key) {
        currentUserKey := Some(e.key);
        lastSequenceForKey := MAX_SEQUENCE;
      }
      var drop := ShouldDrop(cursor, e, lastSequenceForKey, smallest, input, i);
      lastSequenceForKey := e.seqno;
      AdvanceKept(input, i, smallest, base);
      var bigEnough: bool := *;
      st := WriteUnlessDropped(st, input, i, e, drop, bigEnough, firstNumber);
      i := i + 1;
    }
    st := FinishOutput(st, input, i, firstNumber);
    WholeInputKept(input, smallest, base);
    OutputsDrop(v, level, Listed(input), smallest, LevelEntries(st.outputs));
  }

  /** What the outputs leave out, in terms of the files further down. */
  lemma OutputsDrop(v: Version, level: nat, inputs: set<Entry>, smallest: nat, kept: set<Entry>)
    requires kept == Kept(inputs, smallest, BaseKeys(v, level))
    ensures kept <= inputs
    ensures forall a, b :: a in kept && b in inputs && a.key == b.key && a.seqno < b.seqno ==> b.seqno > smallest
    ensures forall e :: e in kept && e.kind == Deletion && e.seqno <= smallest ==>
              exists l, f :: level + 2 <= l < NUM_LEVELS && f in v[l] && Covers(f, e.key)
    ensures forall e :: e in inputs && e !in kept ==>
              || (exists d :: d in inputs && d.key == e.key && e.seqno < d.seqno <= smallest)
              || (e.kind == Deletion && e.seqno <= smallest
                  && forall l, f :: level + 2 <= l < NUM_LEVELS && f in v[l] ==> !Covers(f, e.key))
  {
    DropsAll(inputs, smallest, BaseKeys(v, level), kept);
    hide Kept;
  }

  lemma WholeInputKept(input: seq<Entry>, smallest: nat, base: iset<UserKey>)
    ensures KeptPrefix(input, |input|, smallest, base) == Kept(Listed(input), smallest, base)
  {
    assert input[..|input|] == input;
  }

  lemma AdvanceKept(input: seq<Entry>, i: nat, smallest: nat, base: iset<UserKey>)
    requires i < |input|
    ensures KeptPrefix(input, i + 1, smallest, base) ==
            KeptPrefix(input, i, smallest, base) + if input[i] in Kept(Listed(input), smallest, base) then {input[i]}
              else {}
  {
    assert input[..i + 1] == input[..i] + [input[i]];
  }
}
