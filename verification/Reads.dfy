/** The specification of a read: the newest entry at or below the snapshot decides. */
module Reads {
  import opened Options
  import opened Keys

  ghost predicate Visible(e: Entry, k: UserKey, s: nat) {
    e.key == k && e.seqno <= s
  }

  ghost predicate IsNewest(es: set<Entry>, k: UserKey, s: nat, e: Entry) {
    e in es && Visible(e, k, s) && forall d :: d in es && Visible(d, k, s) ==> d.seqno <= e.seqno
  }

  ghost predicate Invisible(es: set<Entry>, k: UserKey, s: nat) {
    forall e :: e in es ==> !Visible(e, k, s)
  }

  function Outcome(e: Entry): Option<Bytes> {
    if e.kind == Value then Some(e.value) else None
  }

  /** What reading `k` at snapshot `s` answers; a tombstone and absence both give None. */
  ghost function ReadAt(es: set<Entry>, k: UserKey, s: nat): Option<Bytes> {
    if exists e :: IsNewest(es, k, s, e) then
      var e :| IsNewest(es, k, s, e);
      Outcome(e)
    else
      None
  }

  lemma {:induction false} NewestExists(es: set<Entry>, k: UserKey, s: nat, w: Entry) returns (e: Entry)
    requires w in es && Visible(w, k, s)
    ensures IsNewest(es, k, s, e)
    decreases es
  {
    e := w;
    var above := set d | d in es && Visible(d, k, s) && d.seqno > w.seqno;
    if above != {} {
      var d :| d in above;
      assert w !in above;
      assert above < es;
      e := NewestExists(above, k, s, d);
    }
    forall d | d in es && Visible(d, k, s) ensures d.seqno <= e.seqno {
      assert d.seqno > w.seqno ==> d in above;
    }
  }

  lemma ReadOfNewest(es: set<Entry>, k: UserKey, s: nat, e: Entry)
    requires DistinctSeqnos(es)
    requires IsNewest(es, k, s, e)
    ensures ReadAt(es, k, s) == Outcome(e)
  {
    assert forall d :: IsNewest(es, k, s, d) ==> d == e;
  }

  lemma ReadOfInvisible(es: set<Entry>, k: UserKey, s: nat)
    requires Invisible(es, k, s)
    ensures ReadAt(es, k, s) == None
  {
  }

  /** A read looks no further than the entries it can see. */
  lemma ReadDependsOnVisible(es: set<Entry>, fs: set<Entry>, k: UserKey, s: nat)
    requires DistinctSeqnos(es) && DistinctSeqnos(fs)
    requires forall e :: Visible(e, k, s) ==> (e in es <==> e in fs)
    ensures ReadAt(es, k, s) == ReadAt(fs, k, s)
  {
    if Invisible(es, k, s) {
      ReadOfInvisible(es, k, s);
      ReadOfInvisible(fs, k, s);
    } else {
      var w :| w in es && Visible(w, k, s);
      var e := NewestExists(es, k, s, w);
      ReadOfNewest(es, k, s, e);
      ReadOfNewest(fs, k, s, e);
    }
  }

  /** Newer entries hide older ones: reading the union of two sets, all of `top` newer than all of
      `rest` for every key, is reading `top` first. */
  lemma ReadOfStack(top: set<Entry>, rest: set<Entry>, k: UserKey, s: nat)
    requires DistinctSeqnos(top + rest)
    requires forall a, b :: a in top && b in rest && a.key == b.key ==> a.seqno > b.seqno
    ensures Invisible(top, k, s) ==> ReadAt(top + rest, k, s) == ReadAt(rest, k, s)
    ensures !Invisible(top, k, s) ==> ReadAt(top + rest, k, s) == ReadAt(top, k, s)
  {
    if Invisible(top, k, s) {
      ReadDependsOnVisible(top + rest, rest, k, s);
    } else {
      var w :| w in top && Visible(w, k, s);
      var e := NewestExists(top, k, s, w);
      assert IsNewest(top + rest, k, s, e);
      ReadOfNewest(top, k, s, e);
      ReadOfNewest(top + rest, k, s, e);
    }
  }
}
