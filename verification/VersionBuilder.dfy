/** VersionSet::Builder: applying edits to a version, once or many at a time. */
module VersionBuilder {

  /** What the builder needs to know about files: their number and BySmallestKey. */
  datatype Order<!F> = Order(number: F -> nat, before: (F, F) -> bool)

  ghost predicate OrderOk<F(!new)>(o: Order<F>) {
    && (forall f :: !o.before(f, f))
    && (forall f, g, h :: o.before(f, g) && o.before(g, h) ==> o.before(f, h))
    && (forall f, g :: o.number(f) != o.number(g) ==> o.before(f, g) || o.before(g, f))
  }

  ghost predicate Sorted<F>(o: Order<F>, fs: seq<F>) {
    forall i, j :: 0 <= i < j < |fs| ==> o.before(fs[i], fs[j])
  }

  /** The files of one level after saving: base and added files that are not deleted, in order. */
  ghost predicate Saved<F(!new)>(o: Order<F>, base: seq<F>, deleted: set<nat>, added: set<F>, result: seq<F>) {
    && Sorted(o, result)
    && forall f :: f in result <==> (f in base || f in added) && o.number(f) !in deleted
  }

  /** Order and members determine a sorted list. */
  lemma {:induction false} SortedUnique<F(!new)>(o: Order<F>, a: seq<F>, b: seq<F>)
    requires OrderOk(o) && Sorted(o, a) && Sorted(o, b)
    requires forall f :: f in a <==> f in b
    ensures a == b
    decreases |a|
  {
    if a == [] {
      if b != [] {
        HasMember(b);
      }
    } else {
      assert a[0] in b;
      assert b != [] && b[0] in a;
      HeadsAgree(o, a, b);
      forall f ensures f in a[1..] <==> f in b[1..] {
        TailMember(o, a, f);
        TailMember(o, b, f);
      }
      SortedUnique(o, a[1..], b[1..]);
      assert a == [a[0]] + a[1..] && b == [b[0]] + b[1..];
    }
  }

  lemma HasMember<F>(b: seq<F>)
    requires b != []
    ensures exists f :: f in b
  {
    assert b[0] in b;
  }

  lemma TailMember<F(!new)>(o: Order<F>, a: seq<F>, f: F)
    requires OrderOk(o) && Sorted(o, a) && a != []
    ensures f in a[1..] <==> f in a && f != a[0]
  {
    assert a == [a[0]] + a[1..];
    if f in a[1..] {
      var i :| 0 <= i < |a[1..]| && a[1..][i] == f;
      assert o.before(a[0], a[i + 1]);
    }
  }

  lemma HeadsAgree<F(!new)>(o: Order<F>, a: seq<F>, b: seq<F>)
    requires OrderOk(o) && Sorted(o, a) && Sorted(o, b) && a != [] && b != []
    requires a[0] in b && b[0] in a
    ensures a[0] == b[0]
  {
    var i :| 0 <= i < |b| && b[i] == a[0];
    var j :| 0 <= j < |a| && a[j] == b[0];
    if i > 0 && j > 0 {
      assert false;
    }
  }

  // ---------------------------------------------------------------------------------------------
  // What the builder keeps for one level, and what it saves
  // ---------------------------------------------------------------------------------------------

  /** Numbers deleted so far, and the ordered set of files added so far. */
  datatype LevelState<!F> = LevelState(deleted: set<nat>, added: seq<F>)

  /** One edit, at one level. */
  datatype LevelEdit<!F> = LevelEdit(deletes: set<nat>, adds: seq<F>)

  predicate Equivalent<F>(o: Order<F>, f: F, g: F) {
    !o.before(f, g) && !o.before(g, f)
  }

  /** Insertion into a std::set: an equivalent member stays. */
  function Insert<F>(o: Order<F>, fs: seq<F>, f: F): seq<F> {
    if fs == [] then [f]
    else if o.before(fs[0], f) then [fs[0]] + Insert(o, fs[1..], f)
    else if o.before(f, fs[0]) then [f] + fs
    else fs
  }

  function AddOne<F>(o: Order<F>, st: LevelState<F>, f: F): LevelState<F> {
    LevelState(st.deleted - {o.number(f)}, Insert(o, st.added, f))
  }

  function AddAll<F>(o: Order<F>, st: LevelState<F>, adds: seq<F>): LevelState<F>
    decreases adds
  {
    if adds == [] then st else AddOne(o, AddAll(o, st, adds[..|adds| - 1]), adds[|adds| - 1])
  }

  function ApplyLevel<F>(o: Order<F>, st: LevelState<F>, e: LevelEdit<F>): LevelState<F> {
    AddAll(o, st.(deleted := st.deleted + e.deletes), e.adds)
  }

  /** std::upper_bound: the first file that f comes before. */
  function UpperBound<F>(o: Order<F>, fs: seq<F>, f: F): (k: nat)
    ensures k <= |fs|
  {
    if fs == [] || o.before(f, fs[0]) then 0 else 1 + UpperBound(o, fs[1..], f)
  }

  function Keep<F>(o: Order<F>, fs: seq<F>, deleted: set<nat>): seq<F> {
    if fs == [] then []
    else Keep(o, fs[..|fs| - 1], deleted) + if o.number(fs[|fs| - 1]) in deleted then [] else [fs[|fs| - 1]]
  }

  /** SaveTo, for one level. */
  function Save<F>(o: Order<F>, base: seq<F>, st: LevelState<F>): seq<F>
    decreases |st.added|
  {
    if st.added == [] then Keep(o, base, st.deleted)
    else
      var k := UpperBound(o, base, st.added[0]);
      Keep(o, base[..k], st.deleted) + Keep(o, [st.added[0]], st.deleted) +
      Save(o, base[k..], LevelState(st.deleted, st.added[1..]))
  }

  ghost function Numbers<F(!new)>(o: Order<F>, fs: seq<F>): set<nat> {
    set i | 0 <= i < |fs| :: o.number(fs[i])
  }

  lemma NumbersMember<F(!new)>(o: Order<F>, fs: seq<F>, f: F)
    requires f in fs
    ensures o.number(f) in Numbers(o, fs)
  {
  }

  ghost predicate DistinctNumbers<F>(o: Order<F>, fs: seq<F>) {
    forall i, j :: 0 <= i < j < |fs| ==> o.number(fs[i]) != o.number(fs[j])
  }

  // ---------------------------------------------------------------------------------------------
  // Members and order
  // ---------------------------------------------------------------------------------------------

  lemma {:induction false} KeepMembers<F(!new)>(o: Order<F>, fs: seq<F>, deleted: set<nat>)
    ensures forall f :: f in Keep(o, fs, deleted) <==> f in fs && o.number(f) !in deleted
  {
    if fs != [] {
      KeepMembers(o, fs[..|fs| - 1], deleted);
      assert fs == fs[..|fs| - 1] + [fs[|fs| - 1]];
    }
  }

  lemma {:induction false} KeepSorted<F(!new)>(o: Order<F>, fs: seq<F>, deleted: set<nat>)
    requires Sorted(o, fs)
    ensures Sorted(o, Keep(o, fs, deleted))
  {
    if fs != [] {
      KeepSorted(o, fs[..|fs| - 1], deleted);
      KeepMembers(o, fs[..|fs| - 1], deleted);
      var init := Keep(o, fs[..|fs| - 1], deleted);
      forall i | 0 <= i < |init| ensures o.before(init[i], fs[|fs| - 1]) {
        assert init[i] in fs[..|fs| - 1];
      }
    }
  }

  lemma {:induction false} InsertMembers<F(!new)>(o: Order<F>, fs: seq<F>, f: F)
    requires OrderOk(o) && Sorted(o, fs)
    ensures Sorted(o, Insert(o, fs, f))
    ensures forall g :: g in Insert(o, fs, f) ==> g in fs || g == f
    ensures forall g :: g in fs ==> g in Insert(o, fs, f)
    ensures (forall g :: g in fs ==> !Equivalent(o, f, g)) ==> f in Insert(o, fs, f)
  {
    if fs != [] {
      assert fs == [fs[0]] + fs[1..];
      assert forall g :: g in fs[1..] ==> o.before(fs[0], g);
      if o.before(fs[0], f) {
        InsertMembers(o, fs[1..], f);
      } else if !o.before(f, fs[0]) {
        assert fs[0] in fs && Equivalent(o, f, fs[0]);
      }
    }
  }

  lemma UpperBoundSplits<F(!new)>(o: Order<F>, fs: seq<F>, f: F)
    requires OrderOk(o) && Sorted(o, fs)
    ensures forall i :: 0 <= i < UpperBound(o, fs, f) ==> !o.before(f, fs[i])
    ensures forall i :: UpperBound(o, fs, f) <= i < |fs| ==> o.before(f, fs[i])
  {
  }

  lemma {:induction false} SaveMembers<F(!new)>(o: Order<F>, base: seq<F>, st: LevelState<F>)
    ensures forall f :: f in Save(o, base, st) <==> (f in base || f in st.added) && o.number(f) !in st.deleted
    decreases |st.added|
  {
    if st.added == [] {
      KeepMembers(o, base, st.deleted);
    } else {
      var k := UpperBound(o, base, st.added[0]);
      KeepMembers(o, base[..k], st.deleted);
      KeepMembers(o, [st.added[0]], st.deleted);
      SaveMembers(o, base[k..], LevelState(st.deleted, st.added[1..]));
      assert base == base[..k] + base[k..];
      assert st.added == [st.added[0]] + st.added[1..];
    }
  }

  lemma SortedConcat<F(!new)>(o: Order<F>, a: seq<F>, b: seq<F>)
    requires Sorted(o, a) && Sorted(o, b)
    requires forall f, g :: f in a && g in b ==> o.before(f, g)
    ensures Sorted(o, a + b)
  {
  }

  lemma {:induction false} SaveSorted<F(!new)>(o: Order<F>, base: seq<F>, st: LevelState<F>)
    requires OrderOk(o) && Sorted(o, base) && Sorted(o, st.added)
    requires forall f, g :: f in base && g in st.added ==> o.number(f) != o.number(g)
    ensures Sorted(o, Save(o, base, st))
    decreases |st.added|
  {
    if st.added == [] {
      KeepSorted(o, base, st.deleted);
    } else {
      var a := st.added[0];
      var k := UpperBound(o, base, a);
      var rest := LevelState(st.deleted, st.added[1..]);
      UpperBoundSplits(o, base, a);
      KeepSorted(o, base[..k], st.deleted);
      KeepMembers(o, base[..k], st.deleted);
      KeepMembers(o, [a], st.deleted);
      KeepSorted(o, [a], st.deleted);
      SaveSorted(o, base[k..], rest);
      SaveMembers(o, base[k..], rest);
      assert a in st.added;
      forall f | f in base[..k] ensures o.before(f, a) {
        assert f in base;
      }
      forall g | g in base[k..] || g in st.added[1..] ensures o.before(a, g) {
      }
      SortedConcat(o, Keep(o, base[..k], st.deleted), Keep(o, [a], st.deleted));
      SortedConcat(o, Keep(o, base[..k], st.deleted) + Keep(o, [a], st.deleted), Save(o, base[k..], rest));
    }
  }

  /** Adding files none of which is equivalent to another or to one there. */
  lemma {:induction false} AddAllMembers<F(!new)>(o: Order<F>, st: LevelState<F>, adds: seq<F>)
    requires OrderOk(o) && Sorted(o, st.added) && DistinctNumbers(o, adds)
    requires forall f, g :: f in st.added && g in adds ==> o.number(f) != o.number(g)
    ensures var r := AddAll(o, st, adds);
            && Sorted(o, r.added)
            && (forall f :: f in r.added <==> f in st.added || f in adds)
            && r.deleted == st.deleted - Numbers(o, adds)
    decreases adds
  {
    if adds != [] {
      var init, f := adds[..|adds| - 1], adds[|adds| - 1];
      assert adds == init + [f];
      AddAllMembers(o, st, init);
      var r := AddAll(o, st, init);
      forall g | g in r.added ensures !Equivalent(o, f, g) {
        assert o.number(g) != o.number(f);
      }
      InsertMembers(o, r.added, f);
      assert Numbers(o, adds) == Numbers(o, init) + {o.number(f)} by {
        forall n ensures n in Numbers(o, adds) <==> n in Numbers(o, init) + {o.number(f)} {
          if n in Numbers(o, adds) {
            var i :| 0 <= i < |adds| && o.number(adds[i]) == n;
            assert i < |init| ==> init[i] == adds[i];
          }
          if n in Numbers(o, init) {
            var i :| 0 <= i < |init| && o.number(init[i]) == n;
            assert init[i] == adds[i];
          }
        }
      }
    }
  }

  // ---------------------------------------------------------------------------------------------
  // One edit at a time, or all at once
  // ---------------------------------------------------------------------------------------------

  /** The edit adds each number once, and none that the files have. */
  ghost predicate AddsFresh<F(!new)>(o: Order<F>, fs: seq<F>, e: LevelEdit<F>) {
    DistinctNumbers(o, e.adds) && forall f, g :: f in fs && g in e.adds ==> o.number(f) != o.number(g)
  }

  function EmptyState<F>(): LevelState<F> {
    LevelState({}, [])
  }

  /** The builder saves what VersionSteps takes an edit to do. */
  lemma SaveIsSaved<F(!new)>(o: Order<F>, base: seq<F>, e: LevelEdit<F>)
    requires OrderOk(o) && Sorted(o, base) && AddsFresh(o, base, e)
    ensures Saved(o, base, e.deletes - Numbers(o, e.adds), (set f | f in e.adds),
            Save(o, base, ApplyLevel(o, EmptyState(), e)))
  {
    AddAllMembers(o, LevelState({} + e.deletes, []), e.adds);
    var st := ApplyLevel(o, EmptyState(), e);
    assert {} + e.deletes == e.deletes;
    SaveMembers(o, base, st);
    SaveSorted(o, base, st);
  }

  /** Applying an edit to a builder saves the same as applying it to the saved version. */
  lemma ApplyOne<F(!new)>(o: Order<F>, base: seq<F>, st: LevelState<F>, e: LevelEdit<F>)
    requires OrderOk(o) && Sorted(o, base) && Sorted(o, st.added)
    requires forall f, g :: f in base && g in st.added ==> o.number(f) != o.number(g)
    requires AddsFresh(o, base, e) && AddsFresh(o, st.added, e)
    ensures Save(o, base, ApplyLevel(o, st, e)) == Save(o, Save(o, base, st), ApplyLevel(o, EmptyState(), e))
  {
    var mid := Save(o, base, st);
    SaveMembers(o, base, st);
    SaveSorted(o, base, st);
    var all := ApplyLevel(o, st, e);
    var one := ApplyLevel(o, EmptyState(), e);
    AddAllMembers(o, st.(deleted := st.deleted + e.deletes), e.adds);
    AddAllMembers(o, LevelState({} + e.deletes, []), e.adds);
    SaveMembers(o, base, all);
    SaveSorted(o, base, all);
    SaveMembers(o, mid, one);
    SaveSorted(o, mid, one);
    forall f ensures f in Save(o, base, all) <==> f in Save(o, mid, one) {
      if f in e.adds {
        NumbersMember(o, e.adds, f);
      }
      if f in base || f in st.added {
        assert o.number(f) !in Numbers(o, e.adds);
      }
    }
    SortedUnique(o, Save(o, base, all), Save(o, mid, one));
  }

  /** No number is added twice, nor added when the files have it. */
  ghost predicate NeverTwice<F(!new)>(o: Order<F>, fs: seq<F>, es: seq<LevelEdit<F>>) {
    && (forall i :: 0 <= i < |es| ==> AddsFresh(o, fs, es[i]))
    && (forall i, j :: 0 <= i < j < |es| ==> AddsFresh(o, es[i].adds, es[j]))
  }

  function ApplyAll<F>(o: Order<F>, st: LevelState<F>, es: seq<LevelEdit<F>>): LevelState<F>
    decreases es
  {
    if es == [] then st else ApplyAll(o, ApplyLevel(o, st, es[0]), es[1..])
  }

  /** The versions a chain of single-edit builders goes through. */
  function Chain<F>(o: Order<F>, base: seq<F>, es: seq<LevelEdit<F>>): seq<F>
    decreases es
  {
    if es == [] then base else Chain(o, Save(o, base, ApplyLevel(o, EmptyState(), es[0])), es[1..])
  }

  lemma {:induction false} ReplayFrom<F(!new)>(o: Order<F>, base: seq<F>, st: LevelState<F>, es: seq<LevelEdit<F>>)
    requires OrderOk(o) && Sorted(o, base) && Sorted(o, st.added)
    requires forall f, g :: f in base && g in st.added ==> o.number(f) != o.number(g)
    requires NeverTwice(o, base, es) && NeverTwice(o, st.added, es)
    ensures Save(o, base, ApplyAll(o, st, es)) == Chain(o, Save(o, base, st), es)
    decreases es
  {
    if es != [] {
      ApplyOne(o, base, st, es[0]);
      AddAllMembers(o, st.(deleted := st.deleted + es[0].deletes), es[0].adds);
      var next := ApplyLevel(o, st, es[0]);
      forall i | 0 <= i < |es[1..]| ensures AddsFresh(o, next.added, es[1..][i]) {
        assert AddsFresh(o, es[0].adds, es[i + 1]) && AddsFresh(o, st.added, es[i + 1]);
      }
      ReplayFrom(o, base, next, es[1..]);
    }
  }

  /** Applying all edits to one builder gives the files that the chain of single edits gave. */
  lemma ReplayIsChain<F(!new)>(o: Order<F>, base: seq<F>, es: seq<LevelEdit<F>>)
    requires OrderOk(o) && Sorted(o, base) && NeverTwice(o, base, es)
    ensures Save(o, base, ApplyAll(o, EmptyState(), es)) == Chain(o, base, es)
  {
    ReplayFrom(o, base, EmptyState(), es);
    SaveMembers(o, base, EmptyState());
    SaveSorted(o, base, EmptyState());
    SortedUnique(o, Save(o, base, EmptyState()), base);
  }

  lemma {:induction false} ChainDistinct<F(!new)>(o: Order<F>, base: seq<F>, es: seq<LevelEdit<F>>)
    requires OrderOk(o) && Sorted(o, base) && DistinctNumbers(o, base) && NeverTwice(o, base, es)
    ensures Sorted(o, Chain(o, base, es)) && DistinctNumbers(o, Chain(o, base, es))
    decreases es
  {
    if es != [] {
      var next := Save(o, base, ApplyLevel(o, EmptyState(), es[0]));
      SaveDistinct(o, base, es[0]);
      forall i | 0 <= i < |es[1..]| ensures AddsFresh(o, next, es[1..][i]) {
        assert AddsFresh(o, base, es[i + 1]) && AddsFresh(o, es[0].adds, es[i + 1]);
      }
      ChainDistinct(o, next, es[1..]);
    }
  }

  lemma SaveDistinct<F(!new)>(o: Order<F>, base: seq<F>, e: LevelEdit<F>)
    requires OrderOk(o) && Sorted(o, base) && DistinctNumbers(o, base) && AddsFresh(o, base, e)
    ensures var next := Save(o, base, ApplyLevel(o, EmptyState(), e));
            Sorted(o, next) && DistinctNumbers(o, next) && forall f :: f in next ==> f in base || f in e.adds
  {
    hide Save, ApplyLevel;
    SaveIsSaved(o, base, e);
    var next := Save(o, base, ApplyLevel(o, EmptyState(), e));
    forall i, j | 0 <= i < j < |next| ensures o.number(next[i]) != o.number(next[j]) {
      var f, g := next[i], next[j];
      assert f in next && g in next && o.before(f, g);
      if f in base && g in base {
        DifferentNumbers(o, base, f, g);
      } else if f in e.adds && g in e.adds {
        DifferentNumbers(o, e.adds, f, g);
      }
    }
  }

  lemma DifferentNumbers<F(!new)>(o: Order<F>, fs: seq<F>, f: F, g: F)
    requires OrderOk(o) && DistinctNumbers(o, fs) && f in fs && g in fs && o.before(f, g)
    ensures o.number(f) != o.number(g)
  {
    var i :| 0 <= i < |fs| && fs[i] == f;
    var j :| 0 <= j < |fs| && fs[j] == g;
    assert i != j;
  }

  /** Saving the files of a sorted list into an empty version gives the list back. */
  lemma SnapshotIsWhole<F(!new)>(o: Order<F>, fs: seq<F>)
    requires OrderOk(o) && Sorted(o, fs) && DistinctNumbers(o, fs)
    ensures Save(o, [], ApplyLevel(o, EmptyState(), LevelEdit({}, fs))) == fs
  {
    AddAllMembers(o, LevelState({} + {}, []), fs);
    var st := ApplyLevel(o, EmptyState(), LevelEdit({}, fs));
    SaveMembers(o, [], st);
    SaveSorted(o, [], st);
    SortedUnique(o, Save(o, [], st), fs);
  }

  // ---------------------------------------------------------------------------------------------
  // The builder object
  // ---------------------------------------------------------------------------------------------

  /** The files an edit deletes and adds, each with its level. */
  datatype FileEdit<!F> = FileEdit(deletes: seq<(nat, nat)>, adds: seq<(nat, F)>)

  function DeletesAt(deletes: seq<(nat, nat)>, l: nat): set<nat> {
    if deletes == [] then {}
    else
      var d := deletes[|deletes| - 1];
      DeletesAt(deletes[..|deletes| - 1], l) + if d.0 == l then {d.1} else {}
  }

  function AddsAt<F>(adds: seq<(nat, F)>, l: nat): seq<F> {
    if adds == [] then []
    else
      var a := adds[|adds| - 1];
      AddsAt(adds[..|adds| - 1], l) + if a.0 == l then [a.1] else []
  }

  function EditAt<F>(e: FileEdit<F>, l: nat): LevelEdit<F> {
    LevelEdit(DeletesAt(e.deletes, l), AddsAt(e.adds, l))
  }

  ghost predicate LevelsBelow<F>(e: FileEdit<F>, n: nat) {
    (forall i :: 0 <= i < |e.deletes| ==> e.deletes[i].0 < n) && (forall i :: 0 <= i < |e.adds| ==> e.adds[i].0 < n)
  }

  lemma DeletesStep(deletes: seq<(nat, nat)>, i: nat, l: nat)
    requires i < |deletes|
    ensures DeletesAt(deletes[..i + 1], l) == DeletesAt(deletes[..i], l) + if deletes[i].0 == l then {deletes[i].1}
            else {}
  {
    assert deletes[..i + 1][..i] == deletes[..i];
  }

  lemma AddsStep<F>(o: Order<F>, st: LevelState<F>, adds: seq<(nat, F)>, i: nat, l: nat)
    requires i < |adds|
    ensures AddAll(o, st, AddsAt(adds[..i + 1], l)) ==
            if adds[i].0 == l then AddOne(o, AddAll(o, st, AddsAt(adds[..i], l)), adds[i].1)
              else AddAll(o, st, AddsAt(adds[..i], l))
  {
    assert adds[..i + 1][..i] == adds[..i];
    var before, after := AddsAt(adds[..i], l), AddsAt(adds[..i + 1], l);
    if adds[i].0 == l {
      assert after == before + [adds[i].1];
      assert after[..|after| - 1] == before;
    } else {
      assert after == before;
    }
  }

  /** What is still to be saved from base file `b` and added file `i` on. */
  ghost function SaveRest<F>(o: Order<F>, base: seq<F>, b: nat, added: seq<F>, i: nat, deleted: set<nat>): seq<F>
    requires b <= |base| && i <= |added|
  {
    Save(o, base[b..], LevelState(deleted, added[i..]))
  }

  lemma SaveStep<F>(o: Order<F>, base: seq<F>, b: nat, added: seq<F>, i: nat, deleted: set<nat>)
    requires b <= |base| && i < |added|
    ensures var k := b + UpperBound(o, base[b..], added[i]);
            && k <= |base|
            && SaveRest(o, base, b, added, i, deleted) ==
               Keep(o, base[b..k], deleted) + (if o.number(added[i]) in deleted then [] else [added[i]]) +
               SaveRest(o, base, k, added, i + 1, deleted)
  {
    var k := b + UpperBound(o, base[b..], added[i]);
    assert base[b..][..k - b] == base[b..k] && base[b..][k - b..] == base[k..];
    assert added[i..][1..] == added[i + 1..] && added[i..][0] == added[i];
    assert [added[i]][..0] == [];
    assert Keep(o, [added[i]], deleted) == if o.number(added[i]) in deleted then [] else [added[i]];
  }

  lemma Regroup<F>(a: seq<F>, b: seq<F>, c: seq<F>, d: seq<F>)
    ensures a + (b + c + d) == a + b + c + d
  {
  }

  class Builder<F(==,!new)> {
    const order: Order<F>
    const base: seq<seq<F>>
    var levels: seq<LevelState<F>>

    ghost predicate Valid()
      reads this
    {
      |levels| == |base|
    }

    constructor (order: Order<F>, base: seq<seq<F>>)
      ensures Valid() && this.order == order && this.base == base
      ensures forall l :: 0 <= l < |levels| ==> levels[l] == EmptyState()
    {
      this.order, this.base := order, base;
      levels := seq(|base|, _ => EmptyState());
    }

    method Apply(e: FileEdit<F>)
      requires Valid() && LevelsBelow(e, |base|)
      modifies this
      ensures Valid()
      ensures forall l :: 0 <= l < |levels| ==> levels[l] == ApplyLevel(order, old(levels)[l], EditAt(e, l))
    {
      hide AddAll, DeletesAt, AddsAt;
      ApplyDeletes(e.deletes);
      ApplyAdds(e.adds);
    }

    method ApplyDeletes(deletes: seq<(nat, nat)>)
      requires Valid() && forall i :: 0 <= i < |deletes| ==> deletes[i].0 < |base|
      modifies this
      ensures Valid()
      ensures forall l :: 0 <= l < |levels| ==>
        levels[l] == old(levels)[l].(deleted := old(levels)[l].deleted + DeletesAt(deletes, l))
    {
      ghost var was := levels;
      for i := 0 to |deletes|
        invariant |levels| == |base|
        invariant forall l :: 0 <= l < |base| ==>
                  levels[l] == was[l].(deleted := was[l].deleted + DeletesAt(deletes[..i], l))
      {
        hide DeletesAt;
        var (level, number) := deletes[i];
        forall l | 0 <= l < |base|
          ensures DeletesAt(deletes[..i + 1], l) == DeletesAt(deletes[..i], l) + if level == l then {number} else {}
        {
          DeletesStep(deletes, i, l);
        }
        levels := levels[level := levels[level].(deleted := levels[level].deleted + {number})];
      }
      assert deletes[..|deletes|] == deletes;
    }

    method ApplyAdds(adds: seq<(nat, F)>)
      requires Valid() && forall i :: 0 <= i < |adds| ==> adds[i].0 < |base|
      modifies this
      ensures Valid()
      ensures forall l :: 0 <= l < |levels| ==> levels[l] == AddAll(order, old(levels)[l], AddsAt(adds, l))
    {
      hide Insert;
      ghost var was := levels;
      for i := 0 to |adds|
        invariant |levels| == |base|
        invariant forall l :: 0 <= l < |base| ==> levels[l] == AddAll(order, was[l], AddsAt(adds[..i], l))
      {
        hide AddAll, AddsAt;
        var (level, f) := adds[i];
        forall l | 0 <= l < |base|
          ensures AddAll(order, was[l], AddsAt(adds[..i + 1], l)) ==
                  if level == l then AddOne(order, AddAll(order, was[l], AddsAt(adds[..i], l)), f)
                  else AddAll(order, was[l], AddsAt(adds[..i], l))
        {
          AddsStep(order, was[l], adds, i, l);
        }
        levels := levels[level := LevelState(levels[level].deleted - {order.number(f)},
          Insert(order, levels[level].added, f))];
      }
      assert adds[..|adds|] == adds;
    }

    method SaveLevel(l: nat) returns (files: seq<F>)
      requires Valid() && l < |base|
      ensures files == Save(order, base[l], levels[l])
    {
      files := [];
      var baseFiles, added, deleted := base[l], levels[l].added, levels[l].deleted;
      var baseIter := 0;
      ghost var all := Save(order, baseFiles, levels[l]);
      assert all == SaveRest(order, baseFiles, 0, added, 0, deleted);
      for i := 0 to |added|
        invariant 0 <= baseIter <= |baseFiles|
        invariant all == files + SaveRest(order, baseFiles, baseIter, added, i, deleted)
      {
        hide SaveRest, Keep, UpperBound;
        ghost var was, b := files, baseIter;
        SaveStep(order, baseFiles, b, added, i, deleted);
        var bpos := baseIter + UpperBound(order, baseFiles[baseIter..], added[i]);
        files, baseIter := KeepRange(baseFiles, baseIter, bpos, deleted, files);
        files := MaybeAddFile(added[i], deleted, files);
        Regroup(was, Keep(order, baseFiles[b..bpos], deleted), if order.number(added[i]) in deleted then []
          else [added[i]],
                SaveRest(order, baseFiles, bpos, added, i + 1, deleted));
      }
      assert baseFiles[baseIter..|baseFiles|] == baseFiles[baseIter..];
      files, baseIter := KeepRange(baseFiles, baseIter, |baseFiles|, deleted, files);
    }

    method MaybeAddFile(f: F, deleted: set<nat>, files: seq<F>) returns (r: seq<F>)
      ensures r == files + if order.number(f) in deleted then [] else [f]
    {
      r := files;
      if order.number(f) !in deleted {
        r := r + [f];
      }
    }

    method KeepRange(baseFiles: seq<F>, from: nat, to: nat, deleted: set<nat>, files: seq<F>)
      returns (r: seq<F>, next: nat)
      requires from <= to <= |baseFiles|
      ensures r == files + Keep(order, baseFiles[from..to], deleted) && next == to
    {
      r, next := files, from;
      while next < to
        invariant from <= next <= to && r == files + Keep(order, baseFiles[from..next], deleted)
      {
        r := MaybeAddFile(baseFiles[next], deleted, r);
        assert baseFiles[from..next + 1] == baseFiles[from..next] + [baseFiles[next]];
        next := next + 1;
      }
    }

    method SaveTo() returns (v: seq<seq<F>>)
      requires Valid()
      ensures |v| == |base| && forall l :: 0 <= l < |v| ==> v[l] == Save(order, base[l], levels[l])
    {
      v := [];
      for l := 0 to |base|
        invariant |v| == l && forall m :: 0 <= m < l ==> v[m] == Save(order, base[m], levels[m])
      {
        var files := SaveLevel(l);
        v := v + [files];
      }
    }
  }
}
