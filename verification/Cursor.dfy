/** What moving an iterator means on a flat sorted list; the list's length is the invalid position. */
module Cursor {
  import opened Keys

  datatype Move = ToFirst | ToLast | Seek(key: UserKey, tag: nat) | Next | Prev

  /** The first entry at or after (k, tag). */
  function SeekIndex(es: seq<Entry>, k: UserKey, tag: nat): (i: nat)
    ensures i <= |es|
    ensures forall j :: 0 <= j < i ==> KeyBefore(es[j], k, tag)
    ensures i < |es| ==> !KeyBefore(es[i], k, tag)
  {
    if es == [] || !KeyBefore(es[0], k, tag) then 0
    else
      var i := SeekIndex(es[1..], k, tag);
      assert forall j :: 1 <= j < i + 1 ==> es[j] == es[1..][j - 1];
      1 + i
  }

  lemma SeekIndexSplits(es: seq<Entry>, k: UserKey, tag: nat)
    requires Ascending(es)
    ensures forall j :: 0 <= j < |es| ==> (j < SeekIndex(es, k, tag) <==> KeyBefore(es[j], k, tag))
  {
    var i := SeekIndex(es, k, tag);
    forall j | i < j < |es| ensures !KeyBefore(es[j], k, tag) {
      assert Before(es[i], es[j]);
    }
  }

  lemma SeekIndexUnique(es: seq<Entry>, k: UserKey, tag: nat, r: nat)
    requires r <= |es| && forall i :: 0 <= i < r ==> KeyBefore(es[i], k, tag)
    requires r < |es| ==> !KeyBefore(es[r], k, tag)
    ensures SeekIndex(es, k, tag) == r
  {
  }

  function Back(es: seq<Entry>, pos: nat): nat {
    if pos == 0 then |es| else pos - 1
  }

  predicate Allowed(es: seq<Entry>, pos: nat, m: Move) {
    m.Next? || m.Prev? ==> pos < |es|
  }

  function After(es: seq<Entry>, pos: nat, m: Move): (r: nat)
    requires Allowed(es, pos, m)
    ensures r <= |es|
  {
    match m
    case ToFirst => 0
    case ToLast => Back(es, |es|)
    case Seek(k, tag) => SeekIndex(es, k, tag)
    case Next => pos + 1
    case Prev => Back(es, pos)
  }

  /** The iterator that the other iterators read: a list and a place in it. */
  class ListIterator {
    const es: seq<Entry>
    var pos: nat

    predicate Valid()
      reads this
    {
      pos < |es|
    }

    constructor (es: seq<Entry>)
      ensures this.es == es && pos == |es|
    {
      this.es, pos := es, |es|;
    }

    method Apply(m: Move)
      requires Allowed(es, pos, m)
      modifies this
      ensures pos == After(es, old(pos), m)
    {
      pos := After(es, pos, m);
    }

    function Current(): Entry
      requires Valid()
      reads this
    {
      es[pos]
    }
  }
}
