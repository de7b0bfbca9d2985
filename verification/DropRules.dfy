/** The entries a compaction drops, and exactly when dropping them keeps every read. */
module DropRules {
  import opened Options
  import opened Keys
  import opened Reads

  /** Rule (A): a newer input entry for the same key is visible to every snapshot that matters. */
  ghost predicate HiddenBy(inputs: set<Entry>, e: Entry, smallest: nat) {
    exists d :: d in inputs && d.key == e.key && e.seqno < d.seqno <= smallest
  }

  /** The second rule: an old tombstone with no data for its key further down. */
  ghost predicate ObsoleteTombstone(e: Entry, smallest: nat, base: iset<UserKey>) {
    e.kind == Deletion && e.seqno <= smallest && e.key in base
  }

  ghost function Kept(inputs: set<Entry>, smallest: nat, base: iset<UserKey>): set<Entry> {
    set e | e in inputs && !HiddenBy(inputs, e, smallest) && !ObsoleteTombstone(e, smallest, base)
  }

  /** What is dropped: of two entries for one key that are both kept, the newer one is past the smallest
      snapshot, and no tombstone is kept that the smallest snapshot sees and nothing further down needs.  And
      nothing else is dropped. */
  lemma DropsAll(inputs: set<Entry>, smallest: nat, base: iset<UserKey>, kept: set<Entry>)
    requires kept == Kept(inputs, smallest, base)
    ensures kept <= inputs
    ensures forall a, b :: a in kept && b in kept && a.key == b.key && a.seqno < b.seqno ==> b.seqno > smallest
    ensures forall a, b :: a in kept && b in inputs && a.key == b.key && a.seqno < b.seqno ==> b.seqno > smallest
    ensures forall e :: e in kept && e.kind == Deletion && e.seqno <= smallest ==> e.key !in base
    ensures forall e :: e in inputs && e !in kept ==>
              || (exists d :: d in inputs && d.key == e.key && e.seqno < d.seqno <= smallest)
              || (e.kind == Deletion && e.seqno <= smallest && e.key in base)
  {
    forall a, b | a in kept && b in inputs && a.key == b.key && a.seqno < b.seqno ensures b.seqno > smallest {
      assert b.seqno <= smallest ==> HiddenBy(inputs, a, smallest);
    }
  }

  /** `k` reads the same in both sets at every snapshot from `smallest` on. */
  ghost predicate SameReads(es: set<Entry>, fs: set<Entry>, smallest: nat, k: UserKey) {
    forall s: nat :: smallest <= s ==> ReadAt(es, k, s) == ReadAt(fs, k, s)
  }

  /** Dropping brings an older value outside the inputs back to light: the newest input entry for
      `k` that the smallest snapshot sees is an obsolete tombstone, nothing outside the inputs
      hides it, and the newest older entry outside the inputs is a value. */
  ghost predicate Resurrects(inputs: set<Entry>, rest: set<Entry>, smallest: nat, base: iset<UserKey>, k: UserKey) {
    exists t, d :: IsNewest(inputs, k, smallest, t) && ObsoleteTombstone(t, smallest, base)
                   && (forall r :: r in rest && Visible(r, k, smallest) ==> r.seqno < t.seqno)
                   && IsNewest(rest, k, t.seqno, d) && d.kind == Value
  }

  lemma KeptAreInputs(inputs: set<Entry>, rest: set<Entry>, smallest: nat, base: iset<UserKey>)
    requires DistinctSeqnos(inputs + rest)
    ensures Kept(inputs, smallest, base) <= inputs
    ensures DistinctSeqnos(Kept(inputs, smallest, base) + rest)
  {
  }

  /** If the newest input entry the smallest snapshot sees is no obsolete tombstone, it is kept,
      and so is everything a snapshot at or above `smallest` can see first. */
  lemma NewestInputKept(inputs: set<Entry>, rest: set<Entry>, smallest: nat, base: iset<UserKey>, k: UserKey, s: nat,
          e: Entry)
    requires DistinctSeqnos(inputs + rest) && smallest <= s
    requires IsNewest(inputs + rest, k, s, e)
    requires e in inputs ==> !ObsoleteTombstone(e, smallest, base)
    ensures ReadAt(Kept(inputs, smallest, base) + rest, k, s) == ReadAt(inputs + rest, k, s)
  {
    var kept := Kept(inputs, smallest, base);
    KeptAreInputs(inputs, rest, smallest, base);
    assert forall d :: d in inputs && d.key == e.key && d.seqno <= smallest ==> d in inputs + rest && Visible(d, k, s);
    assert e in inputs ==> e in kept;
    assert IsNewest(kept + rest, k, s, e);
    ReadOfNewest(kept + rest, k, s, e);
    ReadOfNewest(inputs + rest, k, s, e);
  }

  /** Below a dropped tombstone only entries outside the inputs remain visible. */
  lemma BelowTombstone(inputs: set<Entry>, rest: set<Entry>, smallest: nat, base: iset<UserKey>, k: UserKey, s: nat,
          t: Entry)
    requires DistinctSeqnos(inputs + rest) && smallest <= s
    requires IsNewest(inputs + rest, k, s, t) && t in inputs && ObsoleteTombstone(t, smallest, base)
    ensures forall e :: e in Kept(inputs, smallest, base) ==> !Visible(e, k, s)
    ensures forall r :: r in rest && Visible(r, k, s) ==> r.seqno <= t.seqno
    ensures ReadAt(Kept(inputs, smallest, base) + rest, k, s) == ReadAt(rest, k, t.seqno)
    ensures ReadAt(inputs + rest, k, s) == None
  {
    var kept := Kept(inputs, smallest, base);
    forall e | e in inputs && Visible(e, k, s) ensures e !in kept {
      assert e in inputs + rest;
      assert e != t ==> e.seqno < t.seqno <= smallest;
    }
    forall r | r in rest && Visible(r, k, s) ensures r.seqno <= t.seqno {
      assert r in inputs + rest;
    }
    KeptAreInputs(inputs, rest, smallest, base);
    ReadOfNewest(inputs + rest, k, s, t);
    ReadBelow(kept, rest, k, s, t.seqno);
  }

  lemma ReadBelow(kept: set<Entry>, rest: set<Entry>, k: UserKey, s: nat, n: nat)
    requires DistinctSeqnos(kept + rest) && n <= s
    requires forall e :: e in kept ==> !Visible(e, k, s)
    requires forall r :: r in rest && Visible(r, k, s) ==> r.seqno <= n
    ensures ReadAt(kept + rest, k, s) == ReadAt(rest, k, n)
  {
    if Invisible(rest, k, n) {
      assert Invisible(kept + rest, k, s);
      ReadOfInvisible(kept + rest, k, s);
      ReadOfInvisible(rest, k, n);
    } else {
      var w :| w in rest && Visible(w, k, n);
      var d := NewestExists(rest, k, n, w);
      assert IsNewest(kept + rest, k, s, d);
      ReadOfNewest(rest, k, n, d);
      ReadOfNewest(kept + rest, k, s, d);
    }
  }

  /** Dropping keeps what `k` reads at every snapshot from `smallest` on, if and only if it does
      not bring an older value for `k` back to light. */
  lemma DropKeepsReadsIff(inputs: set<Entry>, rest: set<Entry>, smallest: nat, base: iset<UserKey>, k: UserKey)
    requires DistinctSeqnos(inputs + rest) && inputs !! rest
    ensures SameReads(Kept(inputs, smallest, base) + rest, inputs + rest, smallest, k)
            <==> !Resurrects(inputs, rest, smallest, base, k)
  {
    if Resurrects(inputs, rest, smallest, base, k) {
      var t, d :| IsNewest(inputs, k, smallest, t) && ObsoleteTombstone(t, smallest, base)
                  && (forall r :: r in rest && Visible(r, k, smallest) ==> r.seqno < t.seqno)
                  && IsNewest(rest, k, t.seqno, d) && d.kind == Value;
      assert IsNewest(inputs + rest, k, smallest, t);
      BelowTombstone(inputs, rest, smallest, base, k, smallest, t);
      ReadOfNewest(rest, k, t.seqno, d);
      assert ReadAt(Kept(inputs, smallest, base) + rest, k, smallest) != ReadAt(inputs + rest, k, smallest);
    } else {
      forall s: nat | smallest <= s
        ensures ReadAt(Kept(inputs, smallest, base) + rest, k, s) == ReadAt(inputs + rest, k, s)
      {
        DropKeepsReadAt(inputs, rest, smallest, base, k, s);
      }
    }
  }

  lemma DropKeepsReadAt(inputs: set<Entry>, rest: set<Entry>, smallest: nat, base: iset<UserKey>, k: UserKey, s: nat)
    requires DistinctSeqnos(inputs + rest) && inputs !! rest && smallest <= s
    requires !Resurrects(inputs, rest, smallest, base, k)
    ensures ReadAt(Kept(inputs, smallest, base) + rest, k, s) == ReadAt(inputs + rest, k, s)
  {
    var kept := Kept(inputs, smallest, base);
    KeptAreInputs(inputs, rest, smallest, base);
    if Invisible(inputs + rest, k, s) {
      assert Invisible(kept + rest, k, s);
      ReadOfInvisible(kept + rest, k, s);
      ReadOfInvisible(inputs + rest, k, s);
    } else {
      var w :| w in inputs + rest && Visible(w, k, s);
      var e := NewestExists(inputs + rest, k, s, w);
      if e in inputs && ObsoleteTombstone(e, smallest, base) {
        BelowTombstone(inputs, rest, smallest, base, k, s, e);
        NoResurrection(inputs, rest, smallest, base, k, s, e);
      } else {
        NewestInputKept(inputs, rest, smallest, base, k, s, e);
      }
    }
  }

  lemma NoResurrection(inputs: set<Entry>, rest: set<Entry>, smallest: nat, base: iset<UserKey>, k: UserKey, s: nat,
          t: Entry)
    requires DistinctSeqnos(inputs + rest) && inputs !! rest && smallest <= s
    requires !Resurrects(inputs, rest, smallest, base, k)
    requires IsNewest(inputs + rest, k, s, t) && t in inputs && ObsoleteTombstone(t, smallest, base)
    ensures ReadAt(rest, k, t.seqno) == None
  {
    forall e | e in inputs && Visible(e, k, smallest) ensures e.seqno <= t.seqno {
      assert e in inputs + rest && Visible(e, k, s);
    }
    forall r | r in rest && Visible(r, k, smallest) ensures r.seqno < t.seqno {
      assert r in inputs + rest && t in inputs + rest && Visible(r, k, s);
    }
    if Invisible(rest, k, t.seqno) {
      ReadOfInvisible(rest, k, t.seqno);
    } else {
      var v :| v in rest && Visible(v, k, t.seqno);
      var d := NewestExists(rest, k, t.seqno, v);
      ReadOfNewest(rest, k, t.seqno, d);
    }
  }
}
