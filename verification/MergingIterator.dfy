/** MergingIterator: several sorted children walked as one sorted list, in both directions. */
module Merging {
  import opened Options
  import opened Keys
  import opened Cursor

  datatype Direction = Forward | Reverse

  /** `union` lists the entries of the children, which are sorted and share no internal key. */
  ghost predicate MergeOf(children: seq<seq<Entry>>, union: seq<Entry>) {
    && Ascending(union)
    && (forall i :: 0 <= i < |children| ==> Ascending(children[i]))
    && (forall i, j :: 0 <= i < |children| && 0 <= j < |children[i]| ==> children[i][j] in union)
    && (forall e :: e in union ==> exists i :: 0 <= i < |children| && e in children[i])
    && (forall i, j, e :: 0 <= i < j < |children| && e in children[i] ==> e !in children[j])
  }

  /** How many entries of a child come before the union's entry `k`. */
  ghost function Cut(es: seq<Entry>, union: seq<Entry>, k: nat): (c: nat)
    requires k <= |union|
    ensures c <= |es|
  {
    if k == |union| then |es| else SeekIndex(es, union[k].key, union[k].Tag())
  }

  lemma CutSplits(es: seq<Entry>, union: seq<Entry>, k: nat)
    requires Ascending(es) && Ascending(union) && k <= |union|
    requires forall j :: 0 <= j < |es| ==> es[j] in union
    ensures forall j, q :: 0 <= j < |es| && 0 <= q < |union| && es[j] == union[q] ==> (j < Cut(es, union, k) <==> q < k)
  {
    if k < |union| {
      SeekIndexSplits(es, union[k].key, union[k].Tag());
      forall j, q | 0 <= j < |es| && 0 <= q < |union| && es[j] == union[q]
        ensures j < Cut(es, union, k) <==> q < k
      {
        if q < k {
          assert Before(union[q], union[k]);
        } else if k < q {
          assert Before(union[k], union[q]);
        }
      }
    }
  }

  lemma CutBetween(es: seq<Entry>, union: seq<Entry>, k: nat, j: nat)
    requires Ascending(es) && Ascending(union) && k < |union|
    requires forall j :: 0 <= j < |es| ==> es[j] in union
    requires j < |es| && (j < Cut(es, union, k) <==> !(j < Cut(es, union, k + 1)))
    ensures es[j] == union[k] && Cut(es, union, k) <= j < Cut(es, union, k + 1)
  {
    CutSplits(es, union, k);
    CutSplits(es, union, k + 1);
    var q :| 0 <= q < |union| && es[j] == union[q];
  }

  /** Where the union's entry `k` is in a child, and what the cut after it is. */
  lemma CutStep(es: seq<Entry>, union: seq<Entry>, k: nat)
    requires Ascending(es) && Ascending(union) && k < |union|
    requires forall j :: 0 <= j < |es| ==> es[j] in union
    ensures union[k] in es ==>
            Cut(es, union, k) < |es| && es[Cut(es, union, k)] == union[k]
            && Cut(es, union, k + 1) == Cut(es, union, k) + 1
    ensures union[k] !in es ==> Cut(es, union, k + 1) == Cut(es, union, k)
  {
    hide Cut;
    var a, b := Cut(es, union, k), Cut(es, union, k + 1);
    if union[k] in es {
      CutSplits(es, union, k);
      CutSplits(es, union, k + 1);
      var j :| 0 <= j < |es| && es[j] == union[k];
      CutBetween(es, union, k, a);
      CutBetween(es, union, k, b - 1);
      assert es[a] == es[j] == es[b - 1];
    } else if a < b {
      CutBetween(es, union, k, a);
    } else if b < a {
      CutBetween(es, union, k, b);
    }
  }

  lemma ChildOk(children: seq<seq<Entry>>, union: seq<Entry>, i: nat)
    requires MergeOf(children, union) && i < |children|
    ensures Ascending(children[i]) && Ascending(union) && forall j :: 0 <= j < |children[i]| ==> children[i][j] in union
  {
  }

  lemma Owner(children: seq<seq<Entry>>, union: seq<Entry>, k: nat) returns (c: nat)
    requires MergeOf(children, union) && k < |union|
    ensures c < |children| && union[k] in children[c]
  {
    assert union[k] in union;
    c :| 0 <= c < |children| && union[k] in children[c];
  }

  lemma OneOwner(children: seq<seq<Entry>>, union: seq<Entry>, k: nat, c: nat, i: nat)
    requires MergeOf(children, union) && k < |union| && c < |children| && i < |children| && union[k] in children[c]
    ensures union[k] in children[i] <==> i == c
  {
  }

  lemma InUnion(children: seq<seq<Entry>>, union: seq<Entry>, i: nat, j: nat) returns (q: nat)
    requires MergeOf(children, union) && i < |children| && j < |children[i]|
    ensures q < |union| && union[q] == children[i][j]
  {
    assert children[i][j] in union;
    q :| 0 <= q < |union| && union[q] == children[i][j];
  }

  /** Every child stands on its first entry at or after the union's entry `k`. */
  ghost predicate AtCut(children: seq<seq<Entry>>, union: seq<Entry>, pos: seq<nat>, k: nat)
    requires k <= |union| && |pos| == |children|
  {
    forall i :: 0 <= i < |children| ==> pos[i] == Cut(children[i], union, k)
  }

  /** Every child stands on its last entry before the union's entry `k`. */
  ghost predicate BehindCut(children: seq<seq<Entry>>, union: seq<Entry>, pos: seq<nat>, k: nat)
    requires k <= |union| && |pos| == |children|
  {
    forall i :: 0 <= i < |children| ==> pos[i] == Back(children[i], Cut(children[i], union, k))
  }

  predicate Stands(children: seq<seq<Entry>>, pos: seq<nat>, i: nat)
    requires |pos| == |children|
  {
    i < |children| && pos[i] < |children[i]|
  }

  /** Of the children that stand on an entry, `c` has the least entry. */
  ghost predicate IsSmallest(children: seq<seq<Entry>>, pos: seq<nat>, c: Option<nat>)
    requires |pos| == |children|
  {
    if c.None? then forall i :: 0 <= i < |children| ==> !Stands(children, pos, i)
    else Stands(children, pos, c.value) &&
         forall i :: 0 <= i < |children| && Stands(children, pos, i) ==>
           !Before(children[i][pos[i]], children[c.value][pos[c.value]])
  }

  ghost predicate IsLargest(children: seq<seq<Entry>>, pos: seq<nat>, c: Option<nat>)
    requires |pos| == |children|
  {
    if c.None? then forall i :: 0 <= i < |children| ==> !Stands(children, pos, i)
    else Stands(children, pos, c.value) &&
         forall i :: 0 <= i < |children| && Stands(children, pos, i) ==>
           !Before(children[c.value][pos[c.value]], children[i][pos[i]])
  }

  /** The least entry at or after a cut is the union's entry there. */
  lemma SmallestAtCut(children: seq<seq<Entry>>, union: seq<Entry>, pos: seq<nat>, k: nat, c: Option<nat>)
    requires MergeOf(children, union) && k <= |union| && |pos| == |children|
    requires AtCut(children, union, pos, k) && IsSmallest(children, pos, c)
    ensures c.Some? <==> k < |union|
    ensures c.Some? ==> Stands(children, pos, c.value) && children[c.value][pos[c.value]] == union[k]
  {
    hide MergeOf, Cut, Ascending;
    if k < |union| {
      var d := Owner(children, union, k);
      ChildOk(children, union, d);
      CutStep(children[d], union, k);
      assert Stands(children, pos, d) && children[d][pos[d]] == union[k];
      var e := children[c.value][pos[c.value]];
      ChildOk(children, union, c.value);
      CutSplits(children[c.value], union, k);
      var q := InUnion(children, union, c.value, pos[c.value]);
      assert k <= q;
      AscendingAt(union, k, q);
    } else {
      forall i | 0 <= i < |children| ensures !Stands(children, pos, i) {
        CutAtEnd(children[i], union);
      }
    }
  }

  lemma CutAtEnd(es: seq<Entry>, union: seq<Entry>)
    ensures Cut(es, union, |union|) == |es|
  {
  }

  lemma AscendingAt(es: seq<Entry>, i: nat, j: nat)
    requires Ascending(es) && i <= j < |es|
    ensures i == j || Before(es[i], es[j])
  {
  }

  /** The greatest entry behind a cut is the union's last entry before it. */
  lemma LargestBehindCut(children: seq<seq<Entry>>, union: seq<Entry>, pos: seq<nat>, k: nat, c: Option<nat>)
    requires MergeOf(children, union) && k <= |union| && |pos| == |children|
    requires BehindCut(children, union, pos, k) && IsLargest(children, pos, c)
    ensures c.Some? <==> k > 0
    ensures c.Some? ==> Stands(children, pos, c.value) && children[c.value][pos[c.value]] == union[k - 1]
  {
    hide MergeOf, Cut, Ascending;
    if k > 0 {
      var d := Owner(children, union, k - 1);
      ChildOk(children, union, d);
      CutStep(children[d], union, k - 1);
      assert Stands(children, pos, d) && children[d][pos[d]] == union[k - 1];
    }
    if c.Some? {
      ChildOk(children, union, c.value);
      CutSplits(children[c.value], union, k);
      var q := InUnion(children, union, c.value, pos[c.value]);
      assert q < k;
      AscendingAt(union, q, k - 1);
    }
  }

  lemma FirstCut(es: seq<Entry>, union: seq<Entry>)
    requires Ascending(es) && Ascending(union) && forall j :: 0 <= j < |es| ==> es[j] in union
    ensures Cut(es, union, 0) == 0
  {
    CutSplits(es, union, 0);
    if es != [] {
      var q :| 0 <= q < |union| && union[q] == es[0];
    }
  }

  lemma SeekCutAt(es: seq<Entry>, union: seq<Entry>, k: UserKey, tag: nat, j: nat)
    requires Ascending(es) && Ascending(union) && forall j :: 0 <= j < |es| ==> es[j] in union
    requires j < |es|
    ensures j < SeekIndex(es, k, tag) <==> j < Cut(es, union, SeekIndex(union, k, tag))
  {
    SeekIndexSplits(es, k, tag);
    SeekIndexSplits(union, k, tag);
    CutSplits(es, union, SeekIndex(union, k, tag));
    var q :| 0 <= q < |union| && union[q] == es[j];
  }

  lemma SeekCut(es: seq<Entry>, union: seq<Entry>, k: UserKey, tag: nat)
    requires Ascending(es) && Ascending(union) && forall j :: 0 <= j < |es| ==> es[j] in union
    ensures SeekIndex(es, k, tag) == Cut(es, union, SeekIndex(union, k, tag))
  {
    var a, b := SeekIndex(es, k, tag), Cut(es, union, SeekIndex(union, k, tag));
    if a < b {
      SeekCutAt(es, union, k, tag, a);
    } else if b < a {
      SeekCutAt(es, union, k, tag, b);
    }
  }

  /** One past an entry equal to the key. */
  function SkipEqual(es: seq<Entry>, pos: nat, e: Entry): nat {
    if pos < |es| && es[pos].key == e.key && es[pos].Tag() == e.Tag() then pos + 1 else pos
  }

  lemma NotTheKey(children: seq<seq<Entry>>, union: seq<Entry>, i: nat, c: nat, k: nat)
    requires MergeOf(children, union) && k < |union| && i < |children| && c < |children| && i != c
             && union[k] in children[c]
    ensures var p := SeekIndex(children[i], union[k].key, union[k].Tag());
            SkipEqual(children[i], p, union[k]) == p == Cut(children[i], union, k)
  {
    var p := SeekIndex(children[i], union[k].key, union[k].Tag());
    if p < |children[i]| {
      var e := children[i][p];
      assert e in union && e in children[i];
      var q :| 0 <= q < |union| && union[q] == e;
      assert q != k by {
        assert union[k] !in children[i];
      }
      assert Before(union[q], union[k]) || Before(union[k], union[q]);
    }
  }

  class MergingIterator {
    const children: seq<seq<Entry>>
    var pos: seq<nat>
    var current: Option<nat>
    var direction: Direction
    ghost const union: seq<Entry>
    /** The place in the union; its length is the invalid place. */
    ghost var at: nat

    ghost predicate Ok()
      reads this
    {
      && MergeOf(children, union) && |pos| == |children| && at <= |union| && (current.Some? <==> at < |union|)
      && (current.Some? ==>
            && Stands(children, pos, current.value) && children[current.value][pos[current.value]] == union[at]
            && (direction == Forward ==> AtCut(children, union, pos, at))
            && (direction == Reverse ==> BehindCut(children, union, pos, at + 1)))
    }

    predicate Valid()
      reads this
    {
      current.Some?
    }

    function Current(): (e: Entry)
      requires Ok() && Valid()
      reads this
      ensures e == union[at]
    {
      children[current.value][pos[current.value]]
    }

    constructor (children: seq<seq<Entry>>, ghost union: seq<Entry>)
      requires MergeOf(children, union)
      ensures Ok() && !Valid() && this.children == children && this.union == union
    {
      this.children, this.union := children, union;
      pos := seq(|children|, i requires 0 <= i < |children| => |children[i]|);
      current, direction := None, Forward;
      at := |union|;
    }

    method FindSmallest()
      requires |pos| == |children|
      modifies this`current
      ensures IsSmallest(children, pos, current)
    {
      var smallest: Option<nat> := None;
      for i := 0 to |children|
        invariant smallest.None? ==> forall j :: 0 <= j < i ==> !Stands(children, pos, j)
        invariant smallest.Some? ==> smallest.value < i && Stands(children, pos, smallest.value)
        invariant smallest.Some? ==> forall j :: 0 <= j < i && Stands(children, pos, j) ==>
          !Before(children[j][pos[j]], children[smallest.value][pos[smallest.value]])
      {
        if pos[i] < |children[i]| {
          if smallest.None? || Before(children[i][pos[i]], children[smallest.value][pos[smallest.value]]) {
            smallest := Some(i);
          }
        }
      }
      current := smallest;
    }

    method FindLargest()
      requires |pos| == |children|
      modifies this`current
      ensures IsLargest(children, pos, current)
    {
      var largest: Option<nat> := None;
      for i := |children| downto 0
        invariant largest.None? ==> forall j :: i <= j < |children| ==> !Stands(children, pos, j)
        invariant largest.Some? ==> i <= largest.value && Stands(children, pos, largest.value)
        invariant largest.Some? ==> forall j :: i <= j < |children| && Stands(children, pos, j) ==>
          !Before(children[largest.value][pos[largest.value]], children[j][pos[j]])
      {
        if pos[i] < |children[i]| {
          if largest.None? || Before(children[largest.value][pos[largest.value]], children[i][pos[i]]) {
            largest := Some(i);
          }
        }
      }
      current := largest;
    }

    method SeekToFirst()
      requires Ok()
      modifies this
      ensures Ok() && at == After(union, old(at), ToFirst)
    {
      hide MergeOf, Cut, IsSmallest, Ascending;
      pos := seq(|children|, _ => 0);
      FindSmallest();
      direction := Forward;
      at := 0;
      forall i | 0 <= i < |children| ensures pos[i] == Cut(children[i], union, 0) {
        ChildOk(children, union, i);
        FirstCut(children[i], union);
      }
      SmallestAtCut(children, union, pos, 0, current);
    }

    method SeekToLast()
      requires Ok()
      modifies this
      ensures Ok() && at == After(union, old(at), ToLast)
    {
      hide MergeOf, Cut, IsLargest, Ascending;
      pos := seq(|children|, i requires 0 <= i < |children| => After(children[i], 0, ToLast));
      FindLargest();
      direction := Reverse;
      forall i | 0 <= i < |children| ensures pos[i] == Back(children[i], Cut(children[i], union, |union|)) {
        CutAtEnd(children[i], union);
      }
      LargestBehindCut(children, union, pos, |union|, current);
      at := Back(union, |union|);
    }

    method Seek(k: UserKey, tag: nat)
      requires Ok()
      modifies this
      ensures Ok() && at == After(union, old(at), Move.Seek(k, tag))
    {
      hide MergeOf, Cut, IsSmallest, Ascending, SeekIndex;
      pos := seq(|children|, i requires 0 <= i < |children| => After(children[i], 0, Move.Seek(k, tag)));
      FindSmallest();
      direction := Forward;
      at := SeekIndex(union, k, tag);
      forall i | 0 <= i < |children| ensures pos[i] == Cut(children[i], union, at) {
        ChildOk(children, union, i);
        SeekCut(children[i], union, k, tag);
      }
      SmallestAtCut(children, union, pos, at, current);
    }

    /** Puts the other children after the current key. */
    method TurnForward(c: nat, key: Entry)
      requires Ok() && current == Some(c) && key == union[at]
      modifies this`pos, this`direction
      ensures |pos| == |children| && pos[c] == old(pos)[c] && direction == Forward
      ensures forall i :: 0 <= i < |children| && i != c ==> pos[i] == Cut(children[i], union, at)
    {
      hide MergeOf, Cut, Ascending, SeekIndex;
      for i := 0 to |children|
        invariant |pos| == |children| && pos[c] == old(pos)[c]
        invariant forall j :: 0 <= j < i && j != c ==> pos[j] == Cut(children[j], union, at)
      {
        if i != c {
          var p := SeekIndex(children[i], key.key, key.Tag());
          NotTheKey(children, union, i, c, at);
          pos := pos[i := SkipEqual(children[i], p, key)];
        }
      }
      direction := Forward;
    }

    /** Puts the other children before the current key. */
    method TurnBackward(c: nat, key: Entry)
      requires Ok() && current == Some(c) && key == union[at]
      modifies this`pos, this`direction
      ensures |pos| == |children| && pos[c] == old(pos)[c] && direction == Reverse
      ensures forall i :: 0 <= i < |children| && i != c ==> pos[i] == Back(children[i], Cut(children[i], union, at))
    {
      hide MergeOf, Ascending, SeekIndex;
      for i := 0 to |children|
        invariant |pos| == |children| && pos[c] == old(pos)[c]
        invariant forall j :: 0 <= j < i && j != c ==> pos[j] == Back(children[j], Cut(children[j], union, at))
      {
        if i != c {
          var p := SeekIndex(children[i], key.key, key.Tag());
          pos := pos[i := if p < |children[i]| then Back(children[i], p) else After(children[i], p, ToLast)];
        }
      }
      direction := Reverse;
    }

    method Next()
      requires Ok() && Valid()
      modifies this
      ensures Ok() && at == After(union, old(at), Move.Next)
    {
      hide MergeOf, Cut, IsSmallest, Ascending;
      var c, key := current.value, Current();
      ghost var was := direction;
      if direction != Forward {
        TurnForward(c, key);
      }
      pos := pos[c := pos[c] + 1];
      forall i | 0 <= i < |children| ensures pos[i] == Cut(children[i], union, at + 1) {
        OneOwner(children, union, at, c, i);
        ChildOk(children, union, i);
        CutStep(children[i], union, at);
      }
      at := at + 1;
      FindSmallest();
      SmallestAtCut(children, union, pos, at, current);
    }

    method Prev()
      requires Ok() && Valid()
      modifies this
      ensures Ok() && at == After(union, old(at), Move.Prev)
    {
      hide MergeOf, Cut, IsLargest, Ascending;
      var c, key := current.value, Current();
      if direction != Reverse {
        TurnBackward(c, key);
      }
      pos := pos[c := Back(children[c], pos[c])];
      forall i | 0 <= i < |children| ensures pos[i] == Back(children[i], Cut(children[i], union, at)) {
        OneOwner(children, union, at, c, i);
        ChildOk(children, union, i);
        CutStep(children[i], union, at);
      }
      FindLargest();
      LargestBehindCut(children, union, pos, at, current);
      at := Back(union, at);
    }
  }
}
