/** The bytewise comparator, internal keys, and the separators that table indexes are made of. */
module Comparators {
  import opened Coding
  import opened BlockFormat

  /** Slice::compare(a, b) < 0. */
  predicate Less(a: Bytes, b: Bytes) {
    b != [] && (a == [] || a[0] < b[0] || (a[0] == b[0] && Less(a[1..], b[1..])))
  }

  lemma {:induction false} LessIrreflexive(a: Bytes)
    ensures !Less(a, a)
  {
    if a != [] {
      LessIrreflexive(a[1..]);
    }
  }

  lemma {:induction false} LessTransitive(a: Bytes, b: Bytes, c: Bytes)
    requires Less(a, b) && Less(b, c)
    ensures Less(a, c)
  {
    if a != [] && a[0] == b[0] == c[0] {
      LessTransitive(a[1..], b[1..], c[1..]);
    }
  }

  lemma {:induction false} LessTotal(a: Bytes, b: Bytes)
    ensures a == b || Less(a, b) || Less(b, a)
    ensures !(Less(a, b) && Less(b, a))
  {
    if a != [] && b != [] && a[0] == b[0] {
      LessTotal(a[1..], b[1..]);
      assert a == [a[0]] + a[1..] && b == [b[0]] + b[1..];
    }
  }

  /** The order is decided at the first difference. */
  lemma {:induction false} LessAtDifference(a: Bytes, b: Bytes, n: nat)
    requires n <= |a| && n <= |b| && a[..n] == b[..n]
    ensures n < |a| && n < |b| && a[n] != b[n] ==> (Less(a, b) <==> a[n] < b[n])
    ensures n == |a| < |b| ==> Less(a, b)
    ensures n == |b| ==> !Less(a, b)
    decreases n
  {
    if n > 0 {
      assert a[0] == a[..n][0] && b[0] == b[..n][0];
      assert a[1..][..n - 1] == a[..n][1..] && b[1..][..n - 1] == b[..n][1..];
      LessAtDifference(a[1..], b[1..], n - 1);
    }
  }

  /** FindShortestSeparator. */
  function Separator(start: Bytes, limit: Bytes): Bytes {
    var d := Common(start, limit);
    if d < |start| && d < |limit| && start[d] < 0xff && start[d] + 1 < limit[d] then start[..d] + [start[d] + 1]
      else start
  }

  /** Two strings agree before `n` and differ there, or one of them ends there. */
  predicate DifferFirst(a: Bytes, b: Bytes, n: nat) {
    n <= |a| && n <= |b| && a[..n] == b[..n] && (n < |a| && n < |b| ==> a[n] != b[n])
  }

  method FindShortestSeparator(start: Bytes, limit: Bytes) returns (r: Bytes)
    ensures r == Separator(start, limit)
    ensures exists d: nat ::
              && DifferFirst(start, limit, d)
              && r == if d < |start| && d < |limit| && start[d] < 0xff && start[d] + 1 < limit[d]
                      then start[..d] + [start[d] + 1]
                      else start
  {
    var minLength := if |start| < |limit| then |start| else |limit|;
    var diffIndex := 0;
    while diffIndex < minLength && start[diffIndex] == limit[diffIndex]
      invariant diffIndex <= minLength && start[..diffIndex] == limit[..diffIndex]
    {
      diffIndex := diffIndex + 1;
    }
    CommonIs(start, limit, diffIndex);
    assert DifferFirst(start, limit, diffIndex);
    r := start;
    if diffIndex < minLength {
      var diffByte := start[diffIndex];
      if diffByte < 0xff && diffByte + 1 < limit[diffIndex] {
        r := start[..diffIndex] + [diffByte + 1];
      }
    }
  }

  /** A separator is the start itself or strictly between. */
  lemma SeparatorBetween(start: Bytes, limit: Bytes)
    ensures var r := Separator(start, limit); r == start || (Less(start, r) && Less(r, limit))
  {
    var d, r := Common(start, limit), Separator(start, limit);
    if r != start {
      assert r[..d] == start[..d] == limit[..d];
      LessAtDifference(start, r, d);
      LessAtDifference(r, limit, d);
    }
  }

  /** A separator other than the start is as short as anything from the start up to the limit. */
  lemma SeparatorShortest(start: Bytes, limit: Bytes, x: Bytes)
    requires Separator(start, limit) != start && (x == start || Less(start, x)) && Less(x, limit)
    ensures |x| >= |Separator(start, limit)|
  {
    var d := Common(start, limit);
    CommonPrefix(start, limit);
    if |x| <= d {
      var n := Common(start, x);
      CommonPrefix(start, x);
      assert start[..n] == x[..n] == limit[..n] by {
        assert start[..n] == start[..d][..n] && limit[..n] == limit[..d][..n];
      }
      LessAtDifference(start, x, n);
      LessAtDifference(x, limit, n);
    }
  }

  lemma CommonPrefix(a: Bytes, b: Bytes)
    ensures DifferFirst(a, b, Common(a, b))
  {
  }

  /** FindShortSuccessor from byte `i` on. */
  function SuccessorFrom(key: Bytes, i: nat): Bytes
    requires i <= |key|
    decreases |key| - i
  {
    if i == |key| then key else if key[i] != 0xff then key[..i] + [key[i] + 1] else SuccessorFrom(key, i + 1)
  }

  method FindShortSuccessor(key: Bytes) returns (r: Bytes)
    ensures r == SuccessorFrom(key, 0)
    ensures (forall i :: 0 <= i < |key| ==> key[i] == 0xff) ==> r == key
    ensures forall i :: 0 <= i < |key| && key[i] != 0xff && (forall j :: 0 <= j < i ==> key[j] == 0xff) ==>
              r == key[..i] + [key[i] + 1]
  {
    for i := 0 to |key|
      invariant SuccessorFrom(key, 0) == SuccessorFrom(key, i)
      invariant forall j :: 0 <= j < i ==> key[j] == 0xff
    {
      if key[i] != 0xff {
        return key[..i] + [key[i] + 1];
      }
    }
    r := key;
  }

  /** A successor other than the key is as short as anything past the key. */
  lemma {:induction false} SuccessorShortest(key: Bytes, i: nat, x: Bytes)
    requires i <= |key| && (forall j :: 0 <= j < i ==> key[j] == 0xff) && SuccessorFrom(key, i) != key && Less(key, x)
    ensures |x| >= |SuccessorFrom(key, i)|
    decreases |key| - i
  {
    if key[i] == 0xff {
      SuccessorShortest(key, i + 1, x);
    } else if |x| <= i {
      var n := Common(key, x);
      CommonPrefix(key, x);
      LessAtDifference(key, x, n);
    }
  }

  lemma {:induction false} SuccessorAfter(key: Bytes, i: nat)
    requires i <= |key|
    ensures SuccessorFrom(key, i) == key || Less(key, SuccessorFrom(key, i))
    decreases |key| - i
  {
    if i < |key| {
      if key[i] != 0xff {
        var r := key[..i] + [key[i] + 1];
        assert r[..i] == key[..i];
        LessAtDifference(key, r, i);
      } else {
        SuccessorAfter(key, i + 1);
      }
    }
  }

  // ---------------------------------------------------------------------------------------------
  // Internal keys
  // ---------------------------------------------------------------------------------------------

  /** A user key and a tag that packs sequence number and type. */
  datatype IKey = IKey(user: Bytes, tag: nat)

  const MAX_TAG: nat := 0xff_ffff_ffff_ffff * 256 + 1

  predicate ILess(a: IKey, b: IKey) {
    Less(a.user, b.user) || (a.user == b.user && a.tag > b.tag)
  }

  lemma ILessOrder(a: IKey, b: IKey, c: IKey)
    ensures !ILess(a, a) && (ILess(a, b) && ILess(b, c) ==> ILess(a, c))
    ensures a == b || ILess(a, b) || ILess(b, a)
    ensures !(ILess(a, b) && ILess(b, a))
  {
    LessIrreflexive(a.user);
    LessTotal(a.user, b.user);
    if Less(a.user, b.user) && Less(b.user, c.user) {
      LessTransitive(a.user, b.user, c.user);
    }
  }

  predicate LessEq(a: Bytes, b: Bytes) {
    a == b || Less(a, b)
  }

  lemma LessChain(a: Bytes, b: Bytes, c: Bytes)
    ensures Less(a, b) && LessEq(b, c) ==> Less(a, c)
    ensures LessEq(a, b) && Less(b, c) ==> Less(a, c)
    ensures LessEq(a, b) && LessEq(b, c) ==> LessEq(a, c)
    ensures Less(a, b) <==> !LessEq(b, a)
    ensures LessEq(a, b) && LessEq(b, a) ==> a == b
  {
    if Less(a, b) && Less(b, c) {
      LessTransitive(a, b, c);
    }
    LessTotal(a, b);
    LessIrreflexive(a);
  }

  /** Internal key order, in terms of user keys and tags. */
  lemma ILessUsers(a: IKey, b: IKey)
    ensures ILess(a, b) ==> LessEq(a.user, b.user)
    ensures !ILess(a, b) ==> LessEq(b.user, a.user)
    ensures a.user == b.user ==> (ILess(a, b) <==> a.tag > b.tag)
  {
    LessTotal(a.user, b.user);
    LessIrreflexive(a.user);
  }

  /** InternalKeyComparator::FindShortestSeparator. */
  function ISeparator(start: IKey, limit: IKey): IKey {
    var tmp := Separator(start.user, limit.user);
    if |tmp| < |start.user| && Less(start.user, tmp) then IKey(tmp, MAX_TAG) else start
  }

  /** InternalKeyComparator::FindShortSuccessor. */
  function ISuccessor(key: IKey): IKey {
    var tmp := SuccessorFrom(key.user, 0);
    if |tmp| < |key.user| && Less(key.user, tmp) then IKey(tmp, MAX_TAG) else key
  }

  /** The separator is the start itself, or its user key is strictly between the two user keys. */
  lemma ISeparatorBetween(start: IKey, limit: IKey)
    ensures var r := ISeparator(start, limit);
            r == start || (Less(start.user, r.user) && Less(r.user, limit.user))
  {
    SeparatorBetween(start.user, limit.user);
  }

  /** It is not the start exactly if that makes the user key shorter; then it comes before all entries of its
      user key. */
  lemma ISeparatorShorter(start: IKey, limit: IKey)
    ensures var s, r := Separator(start.user, limit.user), ISeparator(start, limit);
            && (r != start ==> |s| < |start.user| && r == IKey(s, MAX_TAG))
            && (|s| < |start.user| ==> r == IKey(s, MAX_TAG))
  {
    SeparatorBetween(start.user, limit.user);
  }

  lemma ISuccessorShorter(key: IKey)
    ensures var s, r := SuccessorFrom(key.user, 0), ISuccessor(key);
            && (r != key ==> |s| < |key.user| && r == IKey(s, MAX_TAG))
            && (|s| < |key.user| ==> r == IKey(s, MAX_TAG))
  {
    SuccessorAfter(key.user, 0);
  }

  lemma ISuccessorAfter(key: IKey)
    ensures var r := ISuccessor(key); r == key || Less(key.user, r.user)
  {
    SuccessorAfter(key.user, 0);
  }
}
