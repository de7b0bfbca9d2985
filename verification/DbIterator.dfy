/** DBIter: walking the user keys that a snapshot shows, forwards and backwards. */
module DbIterator {
  import opened Options
  import opened Keys
  import opened Reads
  import opened Files
  import opened Cursor

  /** Entry `i` is what the snapshot shows for its user key. */
  ghost predicate Shown(es: seq<Entry>, s: nat, i: int) {
    && 0 <= i < |es| && es[i].seqno <= s && es[i].kind == Value
    && forall j :: 0 <= j < i && es[j].key == es[i].key ==> es[j].seqno > s
  }

  /** `i` is the last shown entry before `p`, or the end if there is none. */
  ghost predicate LastShown(es: seq<Entry>, s: nat, p: nat, i: nat) {
    && p <= |es| && (i == |es| || i < p) && (i < |es| ==> Shown(es, s, i))
    && forall q :: 0 <= q < p && (i < |es| ==> i < q) ==> !Shown(es, s, q)
  }

  /** The shown entries among the first `n`, in order: the list that the iterator walks. */
  ghost function ShownList(es: seq<Entry>, s: nat, n: nat): seq<Entry>
    requires n <= |es|
  {
    if n == 0 then [] else ShownList(es, s, n - 1) + if Shown(es, s, n - 1) then [es[n - 1]] else []
  }

  lemma {:induction false} NoneShown(es: seq<Entry>, s: nat, p: nat, i: nat)
    requires p <= i <= |es| && forall q :: p <= q < i ==> !Shown(es, s, q)
    ensures ShownList(es, s, i) == ShownList(es, s, p)
    decreases i
  {
    if p < i {
      NoneShown(es, s, p, i - 1);
    }
  }

  lemma {:induction false} ShownPrefix(es: seq<Entry>, s: nat, p: nat, n: nat)
    requires p <= n <= |es|
    ensures ShownList(es, s, p) <= ShownList(es, s, n)
    ensures p < n && Shown(es, s, p) ==>
            |ShownList(es, s, p)| < |ShownList(es, s, n)| && ShownList(es, s, n)[|ShownList(es, s, p)|] == es[p]
    decreases n
  {
    if p < n {
      ShownPrefix(es, s, p, n - 1);
    }
  }

  lemma {:induction false} ListedEntry(es: seq<Entry>, s: nat, n: nat, i: nat) returns (q: nat)
    requires n <= |es| && i < |ShownList(es, s, n)|
    ensures q < n && Shown(es, s, q) && es[q] == ShownList(es, s, n)[i] && |ShownList(es, s, q)| == i
    decreases n
  {
    if i < |ShownList(es, s, n - 1)| {
      q := ListedEntry(es, s, n - 1, i);
    } else {
      q := n - 1;
    }
  }

  lemma ListOrder(es: seq<Entry>, s: nat, p: nat, q: nat)
    requires p <= |es| && q <= |es| && Shown(es, s, p) && Shown(es, s, q)
    ensures p < q <==> |ShownList(es, s, p)| < |ShownList(es, s, q)|
  {
    if p < q {
      ShownPrefix(es, s, p, q);
    } else {
      ShownPrefix(es, s, q, p);
    }
  }

  lemma ListAscends(es: seq<Entry>, s: nat)
    requires Ascending(es)
    ensures var list := ShownList(es, s, |es|); forall i, j :: 0 <= i < j < |list| ==> list[i].key < list[j].key
  {
    hide Ascending, ShownList;
    var list := ShownList(es, s, |es|);
    KeysAscend(es);
    forall i, j | 0 <= i < j < |list| ensures list[i].key < list[j].key {
      var p := ListedEntry(es, s, |es|, i);
      var q := ListedEntry(es, s, |es|, j);
      ListOrder(es, s, p, q);
      OneShownPerKey(es, s, p);
    }
  }

  ghost predicate ListHas(list: seq<Entry>, k: UserKey, v: Bytes) {
    exists i :: 0 <= i < |list| && list[i].key == k && list[i].value == v
  }

  lemma ListedIsFound(es: seq<Entry>, s: nat, k: UserKey, v: Bytes)
    requires Ascending(es) && DistinctSeqnos(Listed(es)) && ListHas(ShownList(es, s, |es|), k, v)
    ensures ReadAt(Listed(es), k, s) == Some(v)
  {
    hide Ascending, ShownList, Listed, DistinctSeqnos, ReadAt;
    var list := ShownList(es, s, |es|);
    var i :| 0 <= i < |list| && list[i].key == k && list[i].value == v;
    var p := ListedEntry(es, s, |es|, i);
    ShownIsNewest(es, s, p);
    ReadOfNewest(Listed(es), k, s, es[p]);
  }

  lemma FoundIsListed(es: seq<Entry>, s: nat, k: UserKey, v: Bytes)
    requires Ascending(es) && DistinctSeqnos(Listed(es)) && ReadAt(Listed(es), k, s) == Some(v)
    ensures ListHas(ShownList(es, s, |es|), k, v)
  {
    hide Ascending, ShownList, Listed, DistinctSeqnos;
    var e :| IsNewest(Listed(es), k, s, e);
    ReadOfNewest(Listed(es), k, s, e);
    var p := NewestIsShown(es, s, k, e);
    ShownPrefix(es, s, p, |es|);
    assert ShownList(es, s, |es|)[|ShownList(es, s, p)|] == e;
  }

  /** The list holds, once each and in order, the user keys that a read at the snapshot finds, with
      the values it finds. */
  lemma ListIsWhatReadsFind(es: seq<Entry>, s: nat)
    requires Ascending(es) && DistinctSeqnos(Listed(es))
    ensures var list := ShownList(es, s, |es|);
            && (forall i, j :: 0 <= i < j < |list| ==> list[i].key < list[j].key)
            && (forall k, v :: ListHas(list, k, v) <==> ReadAt(Listed(es), k, s) == Some(v))
  {
    ListAscends(es, s);
    forall k, v ensures ListHas(ShownList(es, s, |es|), k, v) <==> ReadAt(Listed(es), k, s) == Some(v) {
      if ListHas(ShownList(es, s, |es|), k, v) {
        ListedIsFound(es, s, k, v);
      }
      if ReadAt(Listed(es), k, s) == Some(v) {
        FoundIsListed(es, s, k, v);
      }
    }
  }

  lemma ShownIsNewest(es: seq<Entry>, s: nat, p: nat)
    requires Ascending(es) && Shown(es, s, p)
    ensures IsNewest(Listed(es), es[p].key, s, es[p])
  {
    KeysAscend(es);
    forall d | d in es && Visible(d, es[p].key, s) ensures d.seqno <= es[p].seqno {
      var q :| 0 <= q < |es| && es[q] == d;
      assert q >= p;
    }
  }

  lemma NewestIsShown(es: seq<Entry>, s: nat, k: UserKey, e: Entry) returns (p: nat)
    requires Ascending(es) && DistinctSeqnos(Listed(es)) && IsNewest(Listed(es), k, s, e) && e.kind == Value
    ensures Shown(es, s, p) && es[p] == e
  {
    KeysAscend(es);
    p :| 0 <= p < |es| && es[p] == e;
    forall j | 0 <= j < p && es[j].key == es[p].key ensures es[j].seqno > s {
      var d := es[j];
      assert d in Listed(es) && Before(d, es[p]);
      assert d.seqno != e.seqno;
      assert !Visible(d, k, s);
    }
  }

  datatype Direction = Forward | Reverse

  lemma KeysAscend(es: seq<Entry>)
    requires Ascending(es)
    ensures forall i, j :: 0 <= i <= j < |es| ==> es[i].key <= es[j].key
    ensures forall i, j :: 0 <= i <= j < |es| && es[i].key == es[j].key ==> es[i].seqno >= es[j].seqno
  {
    forall i, j | 0 <= i <= j < |es|
      ensures es[i].key <= es[j].key && (es[i].key == es[j].key ==> es[i].seqno >= es[j].seqno)
    {
      if i < j {
        assert Before(es[i], es[j]);
      }
    }
  }

  class DBIter {
    const iter: ListIterator
    const sequence: SequenceNumber
    var savedKey: Option<UserKey>
    var savedValue: Bytes
    var direction: Direction
    var valid: bool
    /** The entry the iterator stands on. */
    ghost var at: nat

    ghost predicate Ok()
      reads this, iter
    {
      && Ascending(iter.es) && iter.pos <= |iter.es| && at <= |iter.es|
      && (valid <==> at < |iter.es|)
      && (valid ==> Shown(iter.es, sequence, at))
      && (valid && direction == Forward ==> iter.pos == at)
      && (valid && direction == Reverse ==>
            && savedKey == Some(iter.es[at].key) && savedValue == iter.es[at].value
            && Behind(iter.es, sequence, iter.pos, at))
    }

    /** The list walked and the place in it; the list's length is the invalid place. */
    ghost function List(): seq<Entry>
      reads this, iter
    {
      ShownList(iter.es, sequence, |iter.es|)
    }

    ghost function Index(): (i: nat)
      requires Ok()
      reads this, iter
      ensures i <= |List()| && (valid <==> i < |List()|)
      ensures valid ==> List()[i] == iter.es[at]
    {
      ShownPrefix(iter.es, sequence, at, |iter.es|);
      |ShownList(iter.es, sequence, at)|
    }

    constructor (iter: ListIterator, sequence: SequenceNumber)
      requires Ascending(iter.es) && iter.pos <= |iter.es|
      ensures Ok() && !valid && this.iter == iter && this.sequence == sequence
    {
      this.iter, this.sequence := iter, sequence;
      savedKey, savedValue, direction, valid := None, [], Forward, false;
      at := |iter.es|;
    }

    function Key(): (k: UserKey)
      requires Ok() && valid
      reads this, iter
      ensures k == List()[Index()].key
    {
      if direction == Forward then iter.Current().key else savedKey.value
    }

    function ValueAt(): (v: Bytes)
      requires Ok() && valid
      reads this, iter
      ensures v == List()[Index()].value
    {
      if direction == Forward then iter.Current().value else savedValue
    }

    /** The first entry from the inner iterator's place on that is shown and, when skipping, has a
        user key after the saved one. */
    method FindNextUserEntry(skip: bool)
      requires Ascending(iter.es) && iter.pos < |iter.es| && direction == Forward
      requires NothingMissed(iter.es, sequence, iter.pos, skip, savedKey)
      modifies this, iter
      ensures Ok() && direction == Forward
      ensures old(iter.pos) <= at
      ensures at < |iter.es| ==> Wanted(iter.es, sequence, skip, old(savedKey), at)
      ensures forall q :: old(iter.pos) <= q < at && Shown(iter.es, sequence, q) ==>
              skip && iter.es[q].key <= old(savedKey).value
    {
      KeysAscend(iter.es);
      var skipping := skip;
      while true
        invariant iter.pos < |iter.es| && direction == Forward && old(iter.pos) <= iter.pos
        invariant skip ==> skipping
        invariant skipping ==> savedKey.Some? && (skip ==> savedKey.value >= old(savedKey).value)
        invariant forall q :: old(iter.pos) <= q < iter.pos && Shown(iter.es, sequence, q) ==>
                  skip && iter.es[q].key <= old(savedKey).value
        invariant forall j :: old(iter.pos) <= j < iter.pos && iter.es[j].seqno <= sequence ==>
          skipping && iter.es[j].key <= savedKey.value
        invariant forall q :: iter.pos <= q < |iter.es| && skipping && iter.es[q].key <= savedKey.value ==>
          !Wanted(iter.es, sequence, skip, old(savedKey), q)
        decreases |iter.es| - iter.pos
      {
        var e := iter.Current();
        if e.seqno <= sequence {
          if e.kind == Deletion {
            savedKey := Some(e.key);
            skipping := true;
          } else if skipping && e.key <= savedKey.value {
            // hidden
          } else {
            valid, savedKey := true, None;
            at := iter.pos;
            return;
          }
        }
        iter.Apply(Move.Next);
        if !iter.Valid() {
          break;
        }
      }
      savedKey, valid := None, false;
      at := |iter.es|;
    }

    /** Takes the entry under the inner iterator unless it belongs to an earlier user key than the
        value found so far. */
    method Visit(valueType: Kind, ghost from: nat) returns (stop: bool, newType: Kind)
      requires Ascending(iter.es) && iter.pos <= from < |iter.es|
      requires Scanned(iter.es, sequence, iter.pos, from, valueType, at, savedKey, savedValue)
      modifies this
      ensures valid == old(valid) && direction == old(direction)
      ensures stop ==>
              newType == Value && at < |iter.es| && iter.es[iter.pos].seqno <= sequence
              && iter.es[iter.pos].key < iter.es[at].key
      ensures stop ==> Scanned(iter.es, sequence, iter.pos, from, newType, at, savedKey, savedValue)
      ensures !stop ==> Scanned(iter.es, sequence, iter.pos - 1, from, newType, at, savedKey, savedValue)
    {
      KeysAscend(iter.es);
      newType := valueType;
      var e := iter.Current();
      if e.seqno <= sequence {
        if valueType != Deletion && e.key < savedKey.value {
          return true, newType;
        }
        newType := e.kind;
        if newType == Deletion {
          savedKey, savedValue := None, [];
          at := |iter.es|;
        } else {
          savedKey, savedValue := Some(e.key), e.value;
          at := iter.pos;
        }
      }
      stop := false;
    }

    /** The last shown entry at or before the inner iterator's place. */
    method FindPrevUserEntry()
      requires Ascending(iter.es) && iter.pos <= |iter.es| && direction == Reverse
      requires forall j :: iter.pos < j < |iter.es| ==> iter.es[j].key != iter.es[iter.pos].key
      modifies this, iter
      ensures Ok()
      ensures LastShown(iter.es, sequence, if old(iter.pos) < |iter.es| then old(iter.pos) + 1 else 0, at)
    {
      var valueType := Deletion;
      at := |iter.es|;
      ghost var from := iter.pos;
      if iter.Valid() {
        ghost var low: int := from;
        while true
          invariant iter.pos <= from < |iter.es| && direction == Reverse && low == iter.pos
          invariant Scanned(iter.es, sequence, low, from, valueType, at, savedKey, savedValue)
          decreases iter.pos
        {
          var stop;
          stop, valueType := Visit(valueType, from);
          if stop {
            break;
          }
          low := iter.pos - 1;
          iter.Apply(Move.Prev);
          if !iter.Valid() {
            break;
          }
        }
        ScanEnds(iter.es, sequence, low, from, valueType, at, savedKey, savedValue, iter.pos);
      }
      if valueType == Deletion {
        valid, savedKey, savedValue, direction := false, None, [], Forward;
      } else {
        valid := true;
      }
    }

    method Next()
      requires Ok() && valid
      modifies this, iter
      ensures Ok() && List() == old(List()) && Index() == old(Index()) + 1
    {
      KeysAscend(iter.es);
      ghost var k := iter.es[at].key;
      if direction == Reverse {
        direction := Forward;
        if !iter.Valid() {
          iter.Apply(ToFirst);
        } else {
          iter.Apply(Move.Next);
        }
        // DBIter::Next returns here if the iterator is off the end, which it is not: the shown entry is ahead.
        assert iter.Valid();
      } else {
        savedKey := Some(iter.Current().key);
      }
      OneShownPerKey(iter.es, sequence, at);
      FindNextUserEntry(true);
      NoneShown(iter.es, sequence, old(at) + 1, at);
    }

    method Prev()
      requires Ok() && valid
      modifies this, iter
      ensures Ok() && List() == old(List())
      ensures Index() == if old(Index()) == 0 then |List()| else old(Index()) - 1
    {
      KeysAscend(iter.es);
      OneShownPerKey(iter.es, sequence, at);
      if direction == Forward {
        savedKey := Some(iter.Current().key);
        while true
          invariant at == old(at) && iter.pos <= at < |iter.es| && savedKey == Some(iter.es[at].key)
                    && direction == Forward
          invariant forall j :: iter.pos <= j <= at ==> iter.es[j].key == iter.es[at].key
          decreases iter.pos
        {
          iter.Apply(Move.Prev);
          if !iter.Valid() {
            NoneShown(iter.es, sequence, 0, at);
            valid, savedKey, savedValue, at := false, None, [], |iter.es|;
            return;
          }
          if iter.Current().key < savedKey.value {
            break;
          }
        }
        direction := Reverse;
      }
      ghost var p := if iter.pos < |iter.es| then iter.pos + 1 else 0;
      NoneShown(iter.es, sequence, p, at);
      FindPrevUserEntry();
      LastShownIndex(iter.es, sequence, p, at);
    }

    /** Stands on the first shown entry whose user key is at or after the target. */
    method Seek(target: UserKey)
      requires Ok()
      modifies this, iter
      ensures Ok()
      ensures List() == old(List())
      ensures forall i :: 0 <= i < |List()| ==> (i < Index() <==> List()[i].key < target)
    {
      KeysAscend(iter.es);
      SeekIndexSplits(iter.es, target, SeekTag(sequence));
      direction, savedValue, savedKey := Forward, [], None;
      iter.Apply(Move.Seek(target, SeekTag(sequence)));
      ghost var p := iter.pos;
      if iter.Valid() {
        FindNextUserEntry(false);
      } else {
        valid, at := false, |iter.es|;
      }
      assert forall q :: Shown(iter.es, sequence, q) ==> (q < at <==> iter.es[q].key < target);
      forall i | 0 <= i < |List()| ensures i < Index() <==> List()[i].key < target {
        var q := ListedEntry(iter.es, sequence, |iter.es|, i);
        if valid {
          ListOrder(iter.es, sequence, q, at);
        }
      }
    }

    method SeekToFirst()
      requires Ok()
      modifies this, iter
      ensures Ok() && List() == old(List()) && Index() == 0
    {
      direction, savedValue := Forward, [];
      iter.Apply(ToFirst);
      if iter.Valid() {
        FindNextUserEntry(false);
      } else {
        valid, at := false, |iter.es|;
      }
      NoneShown(iter.es, sequence, 0, at);
    }

    method SeekToLast()
      requires Ok()
      modifies this, iter
      ensures Ok() && List() == old(List())
      ensures Index() == if List() == [] then 0 else |List()| - 1
    {
      direction, savedValue := Reverse, [];
      iter.Apply(ToLast);
      FindPrevUserEntry();
      LastShownIndex(iter.es, sequence, |iter.es|, at);
    }
  }

  /** Shown, and after the skipped user key. */
  ghost predicate Wanted(es: seq<Entry>, s: nat, skip: bool, k: Option<UserKey>, q: int)
    requires skip ==> k.Some?
  {
    Shown(es, s, q) && (skip ==> es[q].key > k.value)
  }

  /** No entry before `p` decides the user key of an entry that is still wanted, and no visible
      entry from `p` on has a user key before the skipped one. */
  ghost predicate NothingMissed(es: seq<Entry>, s: nat, p: nat, skip: bool, k: Option<UserKey>)
    requires p < |es|
  {
    && (skip ==> k.Some?)
    && (forall j :: 0 <= j < p ==> if skip then es[j].key <= k.value else es[j].key == es[p].key ==> es[j].seqno > s)
    && (forall j :: p <= j < |es| && skip && es[j].seqno <= s ==> es[j].key >= k.value)
  }

  /** After looking at the entries from `from` down to `low + 1`: either no entry there is shown, or
      `at` is the newest visible one of its user key so far and no entry after it is shown. */
  ghost predicate Scanned(es: seq<Entry>, s: nat, low: int, from: nat, kind: Kind, at: nat, k: Option<UserKey>,
          v: Bytes)
  {
    && -1 <= low <= from < |es|
    && (kind == Deletion ==> at == |es| && forall q :: low < q <= from ==> !Shown(es, s, q))
    && (kind == Value ==>
          && low < at <= from && es[at].seqno <= s && es[at].kind == Value
          && k == Some(es[at].key) && v == es[at].value
          && (forall j :: low < j < at ==> es[j].seqno > s)
          && (forall q :: at < q <= from ==> !Shown(es, s, q)))
  }

  lemma ScanEnds(es: seq<Entry>, s: nat, low: int, from: nat, kind: Kind, at: nat, k: Option<UserKey>, v: Bytes,
          pos: nat)
    requires Ascending(es) && Scanned(es, s, low, from, kind, at, k, v)
    requires (low == -1 && pos == |es|) ||
             (low == pos && kind == Value && es[pos].seqno <= s && es[pos].key < es[at].key)
    ensures LastShown(es, s, from + 1, at)
    ensures kind == Value ==> Behind(es, s, pos, at)
  {
    KeysAscend(es);
  }

  /** `pos` is the last visible entry of an earlier user key than that of `at`, or the end. */
  ghost predicate Behind(es: seq<Entry>, s: nat, pos: nat, at: nat)
    requires at < |es| && pos <= |es|
  {
    && (pos < |es| ==> pos < at && es[pos].key < es[at].key && es[pos].seqno <= s)
    && forall j :: 0 <= j < at && (pos < |es| ==> pos < j) ==> es[j].key == es[at].key || es[j].seqno > s
  }

  lemma LastShownIndex(es: seq<Entry>, s: nat, p: nat, i: nat)
    requires LastShown(es, s, p, i)
    ensures |ShownList(es, s, p)| == if i < |es| then |ShownList(es, s, i)| + 1 else 0
  {
    NoneShown(es, s, if i < |es| then i + 1 else 0, p);
  }

  /** At most one entry is shown for a user key. */
  lemma OneShownPerKey(es: seq<Entry>, s: nat, i: nat)
    requires Shown(es, s, i)
    ensures forall q :: Shown(es, s, q) && es[q].key == es[i].key ==> q == i
  {
  }
}
