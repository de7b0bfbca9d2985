/** LRUCache: reference counts, two lists, a hash table, and deleters that run exactly once. */
module LruCaches {
  import opened Options
  import opened Sequences
  import opened HandleTables

  datatype Handle = Handle(key: Key, hash: nat, value: nat, charge: nat, inCache: bool, refs: nat)

  type Handles = map<Id, Handle>

  /** What a handle was made with. */
  datatype Made = Made(key: Key, hash: nat, value: nat, charge: nat)

  // ---------------------------------------------------------------------------------------------
  // Lists of handles
  // ---------------------------------------------------------------------------------------------

  /** LRU_Remove, on the list the handle is in. */
  function Without(list: seq<Id>, e: Id): seq<Id> {
    if list == [] then [] else if list[0] == e then list[1..] else [list[0]] + Without(list[1..], e)
  }

  /** The list without the handle, if there is one. */
  function Less(list: seq<Id>, e: Option<Id>): seq<Id> {
    if e.Some? then Without(list, e.value) else list
  }

  function Charges(hs: Handles, list: seq<Id>): nat
    requires forall id :: id in list ==> id in hs
  {
    if list == [] then 0 else hs[list[0]].charge + Charges(hs, list[1..])
  }

  lemma {:induction false} WithoutMembers(list: seq<Id>, e: Id)
    requires Distinct(list)
    ensures Distinct(Without(list, e)) && forall id :: id in Without(list, e) <==> id in list && id != e
  {
    if list != [] {
      var rest := list[1..];
      assert list == [list[0]] + rest;
      assert forall id :: id in rest ==> id != list[0];
      assert Distinct(rest);
      if list[0] != e {
        WithoutMembers(rest, e);
        var all := [list[0]] + Without(rest, e);
        forall i, j | 0 <= i < j < |all| ensures all[i] != all[j] {
          assert all[j] in Without(rest, e);
        }
      }
    }
  }

  /** The handle leaves its place, and the others stay as they were. */
  lemma {:induction false} WithoutAt(list: seq<Id>, e: Id) returns (i: nat)
    requires e in list
    ensures i < |list| && list[i] == e && e !in list[..i] && Without(list, e) == list[..i] + list[i + 1..]
  {
    if list[0] == e {
      i := 0;
    } else {
      i := WithoutAt(list[1..], e);
      assert list[1..][..i] == list[1..i + 1] && list[1..][i + 1..] == list[i + 2..];
      assert [list[0]] + list[1..i + 1] == list[..i + 1];
      i := i + 1;
    }
  }

  lemma {:induction false} WithoutAbsent(list: seq<Id>, e: Id)
    requires e !in list
    ensures Without(list, e) == list
  {
    if list != [] {
      WithoutAbsent(list[1..], e);
    }
  }

  lemma {:induction false} WithoutCharge(hs: Handles, list: seq<Id>, e: Id)
    requires Distinct(list) && forall id :: id in list ==> id in hs
    ensures forall id :: id in Without(list, e) ==> id in hs
    ensures Charges(hs, Without(list, e)) == Charges(hs, list) - if e in list then hs[e].charge else 0
  {
    WithoutMembers(list, e);
    if list != [] {
      var rest := list[1..];
      assert list == [list[0]] + rest;
      assert forall id :: id in rest ==> id != list[0];
      assert Distinct(rest);
      if list[0] != e {
        WithoutCharge(hs, rest, e);
        assert Without(list, e)[1..] == Without(rest, e);
      }
    }
  }

  lemma {:induction false} AppendCharge(hs: Handles, list: seq<Id>, e: Id)
    requires e in hs && forall id :: id in list ==> id in hs
    ensures forall id :: id in list + [e] ==> id in hs
    ensures Charges(hs, list + [e]) == Charges(hs, list) + hs[e].charge
  {
    if list == [] {
      assert [e][1..] == [];
    } else {
      assert list == [list[0]] + list[1..];
      AppendCharge(hs, list[1..], e);
      assert (list + [e])[1..] == list[1..] + [e];
    }
  }

  lemma {:induction false} SameCharges(a: Handles, b: Handles, list: seq<Id>)
    requires forall id :: id in list ==> id in a && id in b && a[id].charge == b[id].charge
    ensures Charges(a, list) == Charges(b, list)
  {
    if list != [] {
      assert list == [list[0]] + list[1..];
      SameCharges(a, b, list[1..]);
    }
  }

  lemma AppendDistinct(list: seq<Id>, e: Id)
    requires Distinct(list) && e !in list
    ensures Distinct(list + [e]) && forall id :: id in list + [e] <==> id in list || id == e
  {
  }

  // ---------------------------------------------------------------------------------------------
  // What every operation keeps
  // ---------------------------------------------------------------------------------------------

  /** A cached handle is in exactly one list, by its reference count, and usage is what they charge. */
  ghost predicate ListsOk(hs: Handles, lru: seq<Id>, inUse: seq<Id>, usage: nat) {
    && Distinct(lru) && Distinct(inUse)
    && (forall id :: id in lru <==> id in hs && hs[id].inCache && hs[id].refs == 1)
    && (forall id :: id in inUse <==> id in hs && hs[id].inCache && hs[id].refs >= 2)
    && (forall id :: id in hs ==> hs[id].refs >= 1)
    && usage == Charges(hs, lru) + Charges(hs, inUse)
  }

  /** References are those of the clients and the cache's own. */
  ghost predicate RefsOk(hs: Handles, held: map<Id, nat>) {
    && held.Keys == hs.Keys
    && forall id :: id in hs ==> hs[id].refs == held[id] + if hs[id].inCache then 1 else 0
  }

  /** Every handle made is still there or has been given to its deleter, once. */
  ghost predicate LifeOk(hs: Handles, deleted: seq<Id>, made: nat) {
    && Distinct(deleted)
    && (forall id :: id in hs ==> id < made)
    && (forall id :: id in deleted ==> id < made)
    && (forall id :: 0 <= id < made ==> (id in hs <==> id !in deleted))
  }

  /** Handles are as they were made. */
  ghost predicate MadeOk(hs: Handles, records: seq<Made>) {
    forall id :: id in hs ==>
      id < |records| && records[id] == Made(hs[id].key, hs[id].hash, hs[id].value, hs[id].charge)
  }

  function ChargeOf(records: seq<Made>, id: Id): nat {
    if id < |records| then records[id].charge else 0
  }

  function SumOf(records: seq<Made>, ids: seq<Id>): nat {
    if ids == [] then 0 else ChargeOf(records, ids[0]) + SumOf(records, ids[1..])
  }

  function ChargeIf(records: seq<Made>, e: Option<Id>): nat {
    if e.Some? then ChargeOf(records, e.value) else 0
  }

  /** Evicting unused handles, oldest first, as long as usage is over capacity: those left, and usage then. */
  function Shrink(records: seq<Made>, idle: seq<Id>, usage: int, capacity: nat): (r: (seq<Id>, int))
    ensures |r.0| <= |idle| && r.0 == idle[|idle| - |r.0|..]
  {
    if usage <= capacity || idle == [] then (idle, usage)
    else Shrink(records, idle[1..], usage - ChargeOf(records, idle[0]), capacity)
  }

  /** Eviction stops as soon as usage fits: with the last one evicted it did not. */
  lemma {:induction false} ShrinkNeeded(records: seq<Made>, idle: seq<Id>, usage: int, capacity: nat, k: nat, u: int)
    requires k <= |idle| && Shrink(records, idle, usage, capacity) == (idle[k..], u)
    ensures u == usage - SumOf(records, idle[..k]) && (u <= capacity || k == |idle|)
    ensures k > 0 ==> u + ChargeOf(records, idle[k - 1]) > capacity
    decreases idle
  {
    hide Shrink, ChargeOf, SumOf;
    if usage <= capacity || idle == [] {
      ShrinkEnd(records, idle, usage, capacity);
      assert |idle[k..]| == |idle|;
      SumNone(records, idle);
    } else {
      ShrinkStep(records, idle, usage, capacity);
      var others, charge := idle[1..], ChargeOf(records, idle[0]);
      assert |idle[k..]| <= |others|;
      assert others[k - 1..] == idle[k..];
      ShrinkNeeded(records, others, usage - charge, capacity, k - 1, u);
      SumHead(records, idle, k);
      SumNone(records, others);
      assert k > 1 ==> others[k - 2] == idle[k - 1];
    }
  }

  lemma SumNone(records: seq<Made>, ids: seq<Id>)
    ensures SumOf(records, ids[..0]) == 0
  {
  }

  lemma SumHead(records: seq<Made>, ids: seq<Id>, k: nat)
    requires 0 < k <= |ids|
    ensures SumOf(records, ids[..k]) == ChargeOf(records, ids[0]) + SumOf(records, ids[1..][..k - 1])
  {
    hide ChargeOf;
    assert ids[..k][0] == ids[0] && ids[..k][1..] == ids[1..][..k - 1];
  }

  /** The last of the evicted was one too many. */
  ghost predicate LastNeeded(records: seq<Made>, evicted: seq<Id>, usage: nat, capacity: nat) {
    evicted != [] ==> usage + ChargeOf(records, evicted[|evicted| - 1]) > capacity
  }

  lemma ShrinkStep(records: seq<Made>, idle: seq<Id>, usage: int, capacity: nat)
    requires usage > capacity && idle != []
    ensures Shrink(records, idle, usage, capacity) ==
            Shrink(records, idle[1..], usage - ChargeOf(records, idle[0]), capacity)
  {
  }

  lemma ShrinkEnd(records: seq<Made>, idle: seq<Id>, usage: int, capacity: nat)
    requires usage <= capacity || idle == []
    ensures Shrink(records, idle, usage, capacity) == (idle, usage)
  {
  }

  lemma ChargeMade(hs: Handles, records: seq<Made>, e: Id)
    requires MadeOk(hs, records) && e in hs
    ensures ChargeOf(records, e) == hs[e].charge
  {
  }

  /** No references have come or gone, but handles may have. */
  ghost predicate SameHeld(was: map<Id, nat>, now: map<Id, nat>) {
    forall id :: id in now ==> id in was && now[id] == was[id]
  }

  lemma Dropped(was: map<Id, nat>, e: Id, now: map<Id, nat>)
    requires e in was && was[e] > 0 && (now == was - {e} || now == was[e := was[e] - 1])
    ensures SameHeld(was[e := was[e] - 1], now)
  {
  }

  lemma StillHeld(held: map<Id, nat>)
    ensures SameHeld(held, held)
  {
  }

  ghost predicate Idle(held: map<Id, nat>, ids: seq<Id>) {
    forall id :: id in ids ==> id in held && held[id] == 0
  }

  lemma IdleBefore(was: map<Id, nat>, now: map<Id, nat>, e: Id, ids: seq<Id>, k: nat)
    requires SameHeld(was[e := 1], now) && Idle(now, ids) && k <= |ids|
    ensures Idle(was, ids[..k])
  {
    forall id | id in ids[..k] ensures id in was && was[id] == 0 {
      assert id in ids && id in now && now[id] == was[e := 1][id];
    }
  }

  lemma SameHeldTwice(a: map<Id, nat>, b: map<Id, nat>, c: map<Id, nat>)
    requires SameHeld(a, b) && SameHeld(b, c)
    ensures SameHeld(a, c)
  {
  }

  /** A change of reference counts, of cached handles, and handles that go, keep handles as they were made. */
  lemma StillMade(hs: Handles, records: seq<Made>, e: Id, next: Handles)
    requires MadeOk(hs, records) && e in hs
    requires next == hs - {e} ||
             (e in next && next == hs[e := hs[e].(inCache := next[e].inCache, refs := next[e].refs)])
    ensures MadeOk(next, records)
  {
  }

  /** Handles that clients hold stay as they are, except that the cache may let go of them. */
  ghost predicate ClientsKeep(hs: Handles, held: map<Id, nat>, next: Handles, nextHeld: map<Id, nat>) {
    forall id :: id in held && held[id] > 0 && id in hs ==>
      && id in nextHeld && nextHeld[id] == held[id] && id in next
      && next[id].key == hs[id].key && next[id].hash == hs[id].hash && next[id].value == hs[id].value
      && next[id].charge == hs[id].charge
  }

  lemma KeepTwice(a: Handles, ha: map<Id, nat>, b: Handles, hb: map<Id, nat>, c: Handles, hc: map<Id, nat>)
    requires ClientsKeep(a, ha, b, hb) && ClientsKeep(b, hb, c, hc)
    ensures ClientsKeep(a, ha, c, hc)
  {
  }

  function NodeOf(id: Id, h: Handle): Node {
    Node(id, h.key, h.hash)
  }

  /** The handle is cached and is the one the table holds for its key. */
  ghost predicate Cached(hs: Handles, n: Node) {
    n.id in hs && hs[n.id].inCache && n == NodeOf(n.id, hs[n.id])
  }

  ghost predicate NoMatch(hs: Handles, key: Key, hash: nat) {
    forall m :: Cached(hs, m) ==> !Matches(m, key, hash)
  }

  lemma OneMatch(list: seq<seq<Node>>, a: Node, b: Node)
    requires TableOk(list) && a in Elements(list) && b in Elements(list) && Matches(a, b.key, b.hash)
    ensures a == b
  {
    InElements(list);
    var chain := list[a.hash % |list|];
    InBucket(list, a);
    InBucket(list, b);
    var i :| 0 <= i < |chain| && chain[i] == a;
    var j :| 0 <= j < |chain| && chain[j] == b;
    assert ChainOk(chain);
  }

  // ---------------------------------------------------------------------------------------------
  // Moves between the lists
  // ---------------------------------------------------------------------------------------------

  /** Ref, as a change of the handles and lists. */
  lemma RefKeepsLists(hs: Handles, lru: seq<Id>, inUse: seq<Id>, usage: nat, e: Id)
    requires ListsOk(hs, lru, inUse, usage) && e in hs
    ensures var h := hs[e];
            var moved := h.inCache && h.refs == 1;
            ListsOk(hs[e := h.(refs := h.refs + 1)], if moved then Without(lru, e) else lru, if moved then inUse + [e]
              else inUse, usage)
  {
    hide Charges, Without, Distinct;
    var h := hs[e];
    var next := hs[e := h.(refs := h.refs + 1)];
    if h.inCache && h.refs == 1 {
      WithoutMembers(lru, e);
      WithoutCharge(hs, lru, e);
      AppendDistinct(inUse, e);
      AppendCharge(hs, inUse, e);
      SameCharges(hs, next, Without(lru, e));
      SameCharges(hs, next, inUse + [e]);
    } else {
      SameCharges(hs, next, lru);
      SameCharges(hs, next, inUse);
    }
  }

  /** Dropping a client's reference to a handle that stays. */
  lemma UnrefKeepsLists(hs: Handles, lru: seq<Id>, inUse: seq<Id>, usage: nat, e: Id)
    requires ListsOk(hs, lru, inUse, usage) && e in hs && hs[e].refs >= 2
    ensures var h := hs[e];
            var moved := h.inCache && h.refs == 2;
            ListsOk(hs[e := h.(refs := h.refs - 1)], if moved then lru + [e] else lru, if moved then Without(inUse, e)
              else inUse, usage)
  {
    hide Charges, Without, Distinct;
    var h := hs[e];
    var next := hs[e := h.(refs := h.refs - 1)];
    if h.inCache && h.refs == 2 {
      WithoutMembers(inUse, e);
      WithoutCharge(hs, inUse, e);
      AppendDistinct(lru, e);
      AppendCharge(hs, lru, e);
      SameCharges(hs, next, Without(inUse, e));
      SameCharges(hs, next, lru + [e]);
    } else {
      SameCharges(hs, next, lru);
      SameCharges(hs, next, inUse);
    }
  }

  /** Freeing a handle whose last reference goes. */
  lemma FreeKeepsLists(hs: Handles, lru: seq<Id>, inUse: seq<Id>, usage: nat, e: Id)
    requires ListsOk(hs, lru, inUse, usage) && e in hs && hs[e].refs == 1 && !hs[e].inCache
    ensures ListsOk(hs - {e}, lru, inUse, usage)
  {
    SameCharges(hs, hs - {e}, lru);
    SameCharges(hs, hs - {e}, inUse);
  }

  /** Taking a handle out of the cache, before the cache's reference is dropped. */
  lemma UncacheKeepsLists(hs: Handles, lru: seq<Id>, inUse: seq<Id>, usage: nat, e: Id)
    requires ListsOk(hs, lru, inUse, usage) && e in hs && hs[e].inCache
    ensures usage >= hs[e].charge
    ensures ListsOk(hs[e := hs[e].(inCache := false)], Without(lru, e), Without(inUse, e), usage - hs[e].charge)
  {
    var next := hs[e := hs[e].(inCache := false)];
    WithoutMembers(lru, e);
    WithoutMembers(inUse, e);
    WithoutCharge(hs, lru, e);
    WithoutCharge(hs, inUse, e);
    SameCharges(hs, next, Without(lru, e));
    SameCharges(hs, next, Without(inUse, e));
    if hs[e].refs == 1 {
      assert e in lru && e !in inUse;
      ChargeOfMember(hs, lru, e);
    } else {
      assert e in inUse && e !in lru;
      ChargeOfMember(hs, inUse, e);
    }
  }

  lemma {:induction false} ChargeOfMember(hs: Handles, list: seq<Id>, e: Id)
    requires e in list && forall id :: id in list ==> id in hs
    ensures Charges(hs, list) >= hs[e].charge
  {
    assert list == [list[0]] + list[1..];
    if list[0] != e {
      ChargeOfMember(hs, list[1..], e);
    }
  }

  /** A new handle that the cache keeps. */
  lemma CacheKeepsLists(hs: Handles, lru: seq<Id>, inUse: seq<Id>, usage: nat, e: Id, h: Handle)
    requires ListsOk(hs, lru, inUse, usage) && e !in hs && h.inCache && h.refs == 2
    ensures ListsOk(hs[e := h], lru, inUse + [e], usage + h.charge)
  {
    var next := hs[e := h];
    SameCharges(hs, next, lru);
    SameCharges(hs, next, inUse);
    AppendDistinct(inUse, e);
    AppendCharge(next, inUse, e);
  }

  /** A new handle that the cache does not keep. */
  lemma NewKeepsLists(hs: Handles, lru: seq<Id>, inUse: seq<Id>, usage: nat, e: Id, h: Handle)
    requires ListsOk(hs, lru, inUse, usage) && e !in hs && !h.inCache && h.refs == 1
    ensures ListsOk(hs[e := h], lru, inUse, usage)
  {
    SameCharges(hs, hs[e := h], lru);
    SameCharges(hs, hs[e := h], inUse);
  }

  // ---------------------------------------------------------------------------------------------
  // The cache
  // ---------------------------------------------------------------------------------------------

  class LRUCache {
    const capacity: nat
    const table: HandleTable
    var usage: nat
    var lru: seq<Id>
    var inUse: seq<Id>
    var handles: Handles
    /** Handles made so far, and those given to their deleter. */
    var made: nat
    var deleted: seq<Id>
    /** How many references clients hold on each handle. */
    ghost var held: map<Id, nat>
    /** What each handle was made with. */
    ghost var records: seq<Made>

    ghost predicate Valid()
      reads this, table
    {
      && table.Valid() && ListsOk(handles, lru, inUse, usage) && RefsOk(handles, held) && LifeOk(handles, deleted, made)
      && MadeOk(handles, records) && |records| == made
      && forall n :: table.Has(n) <==> Cached(handles, n)
    }

    constructor (capacity: nat)
      ensures Valid() && fresh(table) && this.capacity == capacity && handles == map[] && held == map[] && records == []
              && lru == [] && usage == 0
    {
      this.capacity := capacity;
      table := new HandleTable();
      usage, lru, inUse, handles, made, deleted, held, records := 0, [], [], map[], 0, [], map[], [];
    }

    method LRU_Remove(e: Id)
      modifies this`lru, this`inUse
      ensures lru == Without(old(lru), e) && inUse == Without(old(inUse), e)
    {
      lru := Without(lru, e);
      inUse := Without(inUse, e);
    }

    method Ref(e: Id)
      requires ListsOk(handles, lru, inUse, usage) && e in handles
      modifies this`lru, this`inUse, this`handles
      ensures handles == old(handles)[e := old(handles)[e].(refs := old(handles)[e].refs + 1)]
      ensures ListsOk(handles, lru, inUse, usage)
      ensures lru == if old(handles)[e].inCache && old(handles)[e].refs == 1 then Without(old(lru), e) else old(lru)
    {
      var h := handles[e];
      RefKeepsLists(handles, lru, inUse, usage, e);
      if h.refs == 1 && h.inCache {
        lru := Without(lru, e);
        inUse := inUse + [e];
      }
      handles := handles[e := h.(refs := h.refs + 1)];
    }

    /** Drops one reference; the deleter runs when it was the last. */
    method Unref(e: Id)
      requires ListsOk(handles, lru, inUse, usage) && e in handles && (handles[e].inCache ==> handles[e].refs >= 2)
      modifies this`lru, this`inUse, this`handles, this`deleted
      ensures ListsOk(handles, lru, inUse, usage)
      ensures var h := old(handles)[e];
              && handles == (if h.refs == 1 then old(handles) - {e} else old(handles)[e := h.(refs := h.refs - 1)])
              && deleted == (if h.refs == 1 then old(deleted) + [e] else old(deleted))
              && lru == if h.inCache && h.refs == 2 then old(lru) + [e] else old(lru)
    {
      var h := handles[e];
      if h.refs == 1 {
        FreeKeepsLists(handles, lru, inUse, usage, e);
        deleted := deleted + [e];
        handles := handles - {e};
      } else {
        UnrefKeepsLists(handles, lru, inUse, usage, e);
        if h.inCache && h.refs == 2 {
          inUse := Without(inUse, e);
          lru := lru + [e];
        }
        handles := handles[e := h.(refs := h.refs - 1)];
      }
    }

    /** FinishErase of a handle that is no longer in the table. */
    method FinishErase(e: Id)
      requires ListsOk(handles, lru, inUse, usage) && e in handles && handles[e].inCache
      modifies this`lru, this`inUse, this`handles, this`deleted, this`usage
      ensures ListsOk(handles, lru, inUse, usage) && usage == old(usage) - old(handles)[e].charge
      ensures var h := old(handles)[e];
              && handles == (if h.refs == 1 then old(handles) - {e}
                else old(handles)[e := h.(inCache := false, refs := h.refs - 1)])
              && deleted == (if h.refs == 1 then old(deleted) + [e] else old(deleted))
              && lru == Without(old(lru), e)
    {
      hide Charges, Without, Distinct, ListsOk;
      var h := handles[e];
      UncacheKeepsLists(handles, lru, inUse, usage, e);
      LRU_Remove(e);
      handles := handles[e := h.(inCache := false)];
      usage := usage - h.charge;
      Unref(e);
      assert old(handles)[e := h.(inCache := false)] - {e} == old(handles) - {e};
    }

    /** Whether the cache holds a handle for the key. */
    ghost predicate Holds(key: Key, hash: nat, e: Id)
      reads this
    {
      e in handles && handles[e].inCache && handles[e].key == key && handles[e].hash == hash
    }

    lemma OnlyUnused(e: Id)
      requires Valid() && e in handles && handles[e].refs != 1
      ensures Without(lru, e) == lru
    {
      WithoutAbsent(lru, e);
    }

    /** A reference for the client. */
    method Take(e: Id)
      requires Valid() && e in handles && handles[e].inCache
      modifies this`lru, this`inUse, this`handles, this`held
      ensures Valid() && e in old(held) && held == old(held)[e := old(held)[e] + 1] && e !in lru
      ensures lru == Without(old(lru), e) && e in handles && handles[e].inCache
      ensures forall m :: Cached(handles, m) <==> Cached(old(handles), m)
    {
      hide Charges, Without, Distinct, ListsOk, TableOk, Total, MadeOk, RefsOk, LifeOk;
      InHeld(handles, held, e);
      if handles[e].refs != 1 {
        OnlyUnused(e);
      }
      Ref(e);
      held := held[e := held[e] + 1];
      StillMade(old(handles), records, e, handles);
      OneRefMade(old(handles), old(held), deleted, made, e);
      NotUnused(e);
    }

    method Lookup(key: Key, hash: nat) returns (r: Option<Id>)
      requires Valid()
      modifies this
      ensures Valid() && usage == old(usage) && deleted == old(deleted) && made == old(made) && records == old(records)
      ensures r.None? ==>
              (forall e :: !old(Holds(key, hash, e))) && handles == old(handles) && held == old(held) && lru == old(lru)
      ensures r.Some? ==> r.value in old(held) && r.value in handles && handles[r.value].inCache
      ensures r.Some? ==>
              r.value in held && held[r.value] > 0 && old(Holds(key, hash, r.value))
              && held == old(held)[r.value := old(held)[r.value] + 1] && r.value !in lru
      ensures r.Some? ==> lru == Without(old(lru), r.value)
      ensures forall m :: Cached(handles, m) <==> Cached(old(handles), m)
    {
      hide Charges, Without, Distinct, ListsOk, TableOk, Total, MadeOk, RefsOk, LifeOk;
      var n := table.Lookup(key, hash);
      if n.None? {
        forall e ensures !old(Holds(key, hash, e)) {
          if e in handles {
            assert table.Has(NodeOf(e, handles[e])) <==> Cached(handles, NodeOf(e, handles[e]));
          }
        }
        return None;
      }
      assert Cached(handles, n.value);
      Take(n.value.id);
      return Some(n.value.id);
    }

    /** The value of a handle that a client holds. */
    method Value(e: Id) returns (value: nat)
      requires Valid() && e in held && held[e] > 0
      ensures e < |records| && value == records[e].value
    {
      value := handles[e].value;
    }

    lemma HeldHere(e: Id)
      requires Valid() && e in held && held[e] > 0
      ensures e in handles && handles[e].refs >= 1 && (handles[e].inCache ==> handles[e].refs >= 2) && e !in deleted
      ensures handles[e].refs == 1 ==> held[e] == 1
    {
    }

    /** A client gives a reference back. */
    method Release(e: Id)
      requires Valid() && e in held && held[e] > 0
      modifies this
      ensures Valid() && usage == old(usage) && made == old(made) && records == old(records)
      ensures SameHeld(old(held)[e := old(held)[e] - 1], held)
      ensures deleted == if old(handles)[e].refs == 1 then old(deleted) + [e] else old(deleted)
      ensures e in deleted <==> !old(handles)[e].inCache && old(held)[e] == 1
      ensures lru == if old(handles)[e].inCache && old(held)[e] == 1 then old(lru) + [e] else old(lru)
      ensures forall m :: Cached(handles, m) <==> Cached(old(handles), m)
    {
      hide Charges, Without, Distinct, ListsOk, MadeOk, LifeOk, SameHeld;
      var h := handles[e];
      HeldHere(e);
      Unref(e);
      held := if h.refs == 1 then held - {e} else held[e := held[e] - 1];
      Dropped(old(held), e, held);
      StillMade(old(handles), records, e, handles);
      LifeAfter(old(handles), old(deleted), made, e, handles, deleted);
      assert forall m :: Cached(handles, m) <==> Cached(old(handles), m);
    }

    /** Takes a handle that has just left the table out of the cache. */
    method Drop(n: Node)
      requires table.Valid() && ListsOk(handles, lru, inUse, usage) && RefsOk(handles, held)
               && LifeOk(handles, deleted, made)
      requires MadeOk(handles, records) && |records| == made
      requires Cached(handles, n) && forall m :: table.Has(m) <==> Cached(handles, m) && m != n
      modifies this
      ensures Valid() && made == old(made) && usage == old(usage) - ChargeOf(records, n.id)
      ensures records == old(records) && SameHeld(old(held), held)
      ensures lru == Without(old(lru), n.id)
      ensures forall m :: Cached(handles, m) <==> Cached(old(handles), m) && m != n
      ensures old(deleted) <= deleted && ClientsKeep(old(handles), old(held), handles, held)
      ensures n.id in deleted <==> old(held)[n.id] == 0
    {
      hide Charges, Without, Distinct, ListsOk, TableOk, Total, MadeOk, RefsOk, LifeOk, SameHeld, ClientsKeep;
      var h := handles[n.id];
      CachedRefs(handles, held, deleted, made, n.id);
      FinishErase(n.id);
      held := if h.refs == 1 then held - {n.id} else held;
      LeftCache(old(handles), old(held), n, handles, held);
      StillMade(old(handles), records, n.id, handles);
      ChargeMade(old(handles), records, n.id);
      LifeAfter(old(handles), old(deleted), made, n.id, handles, deleted);
    }

    method Erase(key: Key, hash: nat) returns (ghost erased: Option<Id>)
      requires Valid()
      modifies this, table
      ensures Valid() && made == old(made) && old(deleted) <= deleted
              && ClientsKeep(old(handles), old(held), handles, held)
      ensures records == old(records) && SameHeld(old(held), held)
      ensures forall e :: !Holds(key, hash, e)
      ensures forall m :: Cached(handles, m) <==> Cached(old(handles), m) && !Matches(m, key, hash)
      ensures if erased.Some? then Cached(old(handles), Node(erased.value, key, hash))
              else NoMatch(old(handles), key, hash)
      ensures lru == Less(old(lru), erased) && usage == old(usage) - ChargeIf(records, erased)
    {
      hide Charges, Without, Distinct, ListsOk, TableOk, Total, RefsOk, LifeOk, MadeOk, SameHeld;
      OneCached();
      StillHeld(held);
      erased := None;
      var n := table.Remove(key, hash);
      if n.Some? {
        erased := Some(n.value.id);
        Drop(n.value);
      }
      forall e ensures !Holds(key, hash, e) {
        if e in handles {
          assert Cached(handles, NodeOf(e, handles[e])) ==> Cached(old(handles), NodeOf(e, handles[e]));
        }
      }
    }

    /** No two cached handles have one key. */
    lemma OneCached()
      requires Valid()
      ensures forall a, b :: Cached(handles, a) && Cached(handles, b) && Matches(a, b.key, b.hash) ==> a == b
    {
      forall a, b | Cached(handles, a) && Cached(handles, b) && Matches(a, b.key, b.hash) ensures a == b {
        assert table.Has(a) && table.Has(b);
        OneMatch(table.list, a, b);
      }
    }

    /** Evicts the oldest handle that no client holds. */
    method EvictOldest()
      requires Valid() && lru != []
      modifies this, table
      ensures Valid() && made == old(made) && old(deleted) <= deleted
              && ClientsKeep(old(handles), old(held), handles, held)
      ensures records == old(records) && SameHeld(old(held), held)
      ensures lru == old(lru)[1..] && old(lru)[0] in deleted
      ensures var e := old(lru)[0];
              && e in old(handles) && usage == old(usage) - ChargeOf(records, e)
              && forall m :: Cached(handles, m) <==> Cached(old(handles), m) && m.id != e
    {
      var e := lru[0];
      assert e in lru;
      assert handles[e].inCache && handles[e].refs == 1;
      OneCached();
      hide Charges, Distinct, ListsOk, TableOk, Total, LifeOk, MadeOk, SameHeld;
      ghost var node := NodeOf(e, handles[e]);
      assert Cached(handles, node) && table.Has(node);
      var n := table.Remove(handles[e].key, handles[e].hash);
      assert n == Some(node);
      Drop(n.value);
      assert forall m :: Cached(old(handles), m) ==> (m.id == e <==> m == node);
    }

    /** The handle that Insert makes. */
    method Make(key: Key, hash: nat, value: nat, charge: nat) returns (e: Id)
      requires Valid()
      modifies this
      ensures table.Valid() && ListsOk(handles, lru, inUse, usage) && RefsOk(handles, held)
              && LifeOk(handles, deleted, made)
      ensures e == old(made) == made - 1 && e !in old(handles) && deleted == old(deleted) && lru == old(lru)
      ensures held == old(held)[e := 1]
      ensures handles == old(handles)[e :=
              Handle(key, hash, value, charge, capacity > 0, if capacity > 0 then 2 else 1)]
      ensures usage == old(usage) + if capacity > 0 then charge else 0
      ensures MadeOk(handles, records) && records == old(records) + [Made(key, hash, value, charge)]
              && |records| == made
    {
      hide Charges, Distinct, TableOk, Total, RefsOk, LifeOk, ListsOk, MadeOk;
      e := made;
      NotMadeYet(handles, deleted, made);
      var h := Handle(key, hash, value, charge, false, 1);
      if capacity > 0 {
        h := h.(refs := 2, inCache := true);
        CacheKeepsLists(handles, lru, inUse, usage, e, h);
        inUse := inUse + [e];
        usage := usage + charge;
      } else {
        NewKeepsLists(handles, lru, inUse, usage, e, h);
      }
      NewOk(handles, held, deleted, made, h);
      NewMade(handles, records, made, h);
      handles := handles[e := h];
      held := held[e := 1];
      made := made + 1;
      records := records + [Made(key, hash, value, charge)];
    }

    /** Puts the new handle in the table and drops the one it replaces. */
    method Enter(key: Key, hash: nat, e: Id) returns (ghost replaced: Option<Id>)
      requires table.Valid() && ListsOk(handles, lru, inUse, usage) && RefsOk(handles, held)
               && LifeOk(handles, deleted, made)
      requires MadeOk(handles, records) && |records| == made
      requires e in handles && handles[e].inCache && handles[e].key == key && handles[e].hash == hash
      requires forall m :: table.Has(m) <==> Cached(handles, m) && m.id != e
      modifies this, table
      ensures Valid() && made == old(made) && old(deleted) <= deleted
              && ClientsKeep(old(handles), old(held), handles, held)
      ensures records == old(records) && SameHeld(old(held), held)
      ensures forall m :: Cached(handles, m) <==> Cached(old(handles), m) && (Matches(m, key, hash) ==> m.id == e)
      ensures if replaced.Some? then replaced.value != e && Cached(old(handles), Node(replaced.value, key, hash))
              else forall m :: Cached(old(handles), m) && m.id != e ==> !Matches(m, key, hash)
      ensures lru == Less(old(lru), replaced) && usage == old(usage) - ChargeIf(records, replaced)
    {
      hide Charges, Distinct, ListsOk, TableOk, Total, LifeOk, RefsOk, Without, MadeOk, SameHeld;
      var node := Node(e, key, hash);
      assert node == NodeOf(e, handles[e]) && Cached(handles, node);
      UniqueBut(e);
      StillHeld(held);
      var was := table.Insert(node);
      replaced := None;
      if was.Some? {
        assert Cached(handles, was.value) && was.value != node;
        replaced := Some(was.value.id);
        Drop(was.value);
      }
    }

    /** The table's handles have different keys. */
    lemma UniqueBut(e: Id)
      requires table.Valid() && forall m :: table.Has(m) <==> Cached(handles, m) && m.id != e
      ensures forall a, b :: table.Has(a) && table.Has(b) && Matches(a, b.key, b.hash) ==> a == b
      ensures forall m :: Cached(handles, m) && m.id == e ==> m == NodeOf(e, handles[e])
    {
      forall a, b | table.Has(a) && table.Has(b) && Matches(a, b.key, b.hash) ensures a == b {
        OneMatch(table.list, a, b);
      }
    }

    lemma CountsMade()
      requires Valid()
      ensures |records| == made
    {
    }

    /** No client holds an unused handle. */
    lemma LruIdle()
      requires Valid()
      ensures Idle(held, lru)
    {
    }

    /** A held handle is not unused. */
    lemma DeletedOnce()
      requires Valid()
      ensures Distinct(deleted) && forall id :: 0 <= id < |records| ==> (id in handles <==> id !in deleted)
    {
    }

    lemma NotUnused(e: Id)
      requires Valid() && e in held && held[e] > 0
      ensures e !in lru
    {
    }

    /** Makes a handle, held once by the caller; the cache keeps it if it keeps anything, and drops the
        handle with the same key. */
    method Place(key: Key, hash: nat, value: nat, charge: nat) returns (e: Id, ghost replaced: Option<Id>)
      requires Valid()
      modifies this, table
      ensures Valid() && e == old(made) == made - 1 && old(deleted) <= deleted
              && ClientsKeep(old(handles), old(held), handles, held)
      ensures e in held && held[e] == 1 && e in handles && e !in lru && (handles[e].inCache <==> capacity > 0)
      ensures records == old(records) + [Made(key, hash, value, charge)] && SameHeld(old(held)[e := 1], held)
      ensures if replaced.Some? then capacity > 0 && Cached(old(handles), Node(replaced.value, key, hash))
              else capacity == 0 || NoMatch(old(handles), key, hash)
      ensures lru == Less(old(lru), replaced)
      ensures usage == old(usage) + (if capacity > 0 then charge else 0) - ChargeIf(records, replaced)
      ensures forall m :: Cached(handles, m) <==>
                if capacity > 0 then m == Node(e, key, hash) || (Cached(old(handles), m) && !Matches(m, key, hash))
                  else Cached(old(handles), m)
    {
      hide Charges, Distinct, ListsOk, TableOk, Total, LifeOk, RefsOk, Without, ClientsKeep, Cached, MadeOk, SameHeld,
        ChargeOf;
      e := Make(key, hash, value, charge);
      NewCached(old(handles), handles, e, Node(e, key, hash), capacity > 0);
      ghost var hs, h := handles, held;
      NewKept(old(handles), old(held), hs, h, e);
      StillHeld(h);
      replaced := None;
      if capacity > 0 {
        replaced := Enter(key, hash, e);
        KeepTwice(old(handles), old(held), hs, h, handles, held);
        HeldStays(hs, h, handles, held, e);
      }
      NotUnused(e);
      CachedIff(handles, e, Node(e, key, hash));
    }

    /** Places a handle and evicts unused handles, oldest first, while the cache is over capacity. */
    method Insert(key: Key, hash: nat, value: nat, charge: nat)
      returns (e: Id, ghost replaced: Option<Id>, ghost evicted: seq<Id>)
      requires Valid()
      modifies this, table
      ensures Valid() && e == old(made) == made - 1 && old(deleted) <= deleted
              && ClientsKeep(old(handles), old(held), handles, held)
      ensures e in held && held[e] == 1 && e in handles && (handles[e].inCache <==> capacity > 0)
      ensures records == old(records) + [Made(key, hash, value, charge)] && SameHeld(old(held)[e := 1], held)
      ensures usage <= capacity || lru == []
      ensures if replaced.Some? then capacity > 0 && Cached(old(handles), Node(replaced.value, key, hash))
              else capacity == 0 || NoMatch(old(handles), key, hash)
      ensures (lru, usage) == Shrink(records, Less(old(lru), replaced),
                                     old(usage) + (if capacity > 0 then charge else 0) - ChargeIf(records, replaced),
                                       capacity)
      ensures LastNeeded(records, evicted, usage, capacity)
      ensures evicted + lru == Less(old(lru), replaced) && AllIn(evicted, deleted) && Idle(old(held), evicted)
              && e !in evicted
      ensures forall m :: Cached(handles, m) <==>
                && m.id !in evicted
                && if capacity > 0 then m == Node(e, key, hash) || (Cached(old(handles), m) && !Matches(m, key, hash))
                  else Cached(old(handles), m)
    {
      hide Charges, Distinct, ListsOk, TableOk, Total, LifeOk, RefsOk, ClientsKeep, Cached, AllIn, MadeOk, SameHeld,
        Idle, Shrink, ChargeOf, Less;
      e, replaced := Place(key, hash, value, charge);
      ghost var hs, h, left, charged := handles, held, lru, usage;
      LruIdle();
      ghost var k := EvictToCapacity();
      evicted := left[..k];
      ShrinkNeeded(records, left, charged, capacity, k, usage);
      SameHeldTwice(old(held)[e := 1], h, held);
      IdleBefore(old(held), h, e, left, k);
      KeepTwice(old(handles), old(held), hs, h, handles, held);
      HeldStays(hs, h, handles, held, e);
      CachedIff(hs, e, NodeOf(e, hs[e]));
      CachedIff(handles, e, NodeOf(e, hs[e]));
    }

    /** The first `k` of the unused handles have been evicted, and nothing else has changed. */
    ghost predicate Evicted(hs: Handles, wasHeld: map<Id, nat>, order: seq<Id>, was: seq<Id>, k: nat)
      reads this
    {
      && was <= deleted && ClientsKeep(hs, wasHeld, handles, held)
      && k <= |order| && lru == order[k..] && AllIn(order[..k], deleted) && CachedBut(hs, handles, order[..k])
    }

    method EvictNext(ghost hs: Handles, ghost wasHeld: map<Id, nat>, ghost order: seq<Id>, ghost was: seq<Id>,
            ghost k: nat)
      requires Valid() && lru != [] && Evicted(hs, wasHeld, order, was, k)
      modifies this, table
      ensures Valid() && made == old(made) && |lru| < |old(lru)| && Evicted(hs, wasHeld, order, was, k + 1)
      ensures records == old(records) && SameHeld(old(held), held)
      ensures lru == old(lru)[1..] && usage == old(usage) - ChargeOf(records, old(lru)[0])
    {
      hide ListsOk, TableOk, Total, LifeOk, RefsOk, Cached, ClientsKeep, CachedBut, AllIn, MadeOk, SameHeld;
      EvictOldest();
      KeepTwice(hs, wasHeld, old(handles), old(held), handles, held);
      assert order[..k + 1] == order[..k] + [order[k]];
      OneMoreGone(hs, old(handles), handles, order[..k], order[k], old(deleted), deleted);
    }

    /** Evicts the `k` oldest unused handles. */
    method EvictToCapacity() returns (ghost k: nat)
      requires Valid()
      modifies this, table
      ensures Valid() && made == old(made) && (usage <= capacity || lru == [])
      ensures Evicted(old(handles), old(held), old(lru), old(deleted), k)
      ensures records == old(records) && SameHeld(old(held), held)
      ensures (lru, usage) == Shrink(records, old(lru), old(usage), capacity)
    {
      hide Valid, Evicted, SameHeld, Shrink;
      k := 0;
      NoneEvicted();
      while usage > capacity && lru != []
        invariant Valid() && made == old(made) && Evicted(old(handles), old(held), old(lru), old(deleted), k)
        invariant records == old(records) && SameHeld(old(held), held)
        invariant Shrink(records, lru, usage, capacity) == Shrink(records, old(lru), old(usage), capacity)
        decreases |lru|
      {
        ghost var h := held;
        ShrinkStep(records, lru, usage, capacity);
        EvictNext(old(handles), old(held), old(lru), old(deleted), k);
        SameHeldTwice(old(held), h, held);
        k := k + 1;
      }
      ShrinkEnd(records, lru, usage, capacity);
    }

    lemma NoneEvicted()
      requires Valid()
      ensures Evicted(handles, held, lru, deleted, 0) && SameHeld(held, held)
    {
      KeepStart(handles, held, deleted);
      assert lru[..0] == [];
    }

    method Prune()
      requires Valid()
      modifies this, table
      ensures Valid() && made == old(made) && lru == []
      ensures Evicted(old(handles), old(held), old(lru), old(deleted), |old(lru)|)
      ensures records == old(records) && usage == old(usage) - SumOf(records, old(lru)) && SameHeld(old(held), held)
    {
      ghost var k := 0;
      KeepStart(handles, held, deleted);
      assert old(lru)[..0] == [];
      while lru != []
        invariant Valid() && made == old(made) && Evicted(old(handles), old(held), old(lru), old(deleted), k)
        invariant records == old(records) && usage - SumOf(records, lru) == old(usage) - SumOf(records, old(lru))
                  && SameHeld(old(held), held)
        decreases |lru|
      {
        hide Valid, Evicted, SameHeld;
        ghost var h := held;
        EvictNext(old(handles), old(held), old(lru), old(deleted), k);
        SameHeldTwice(old(held), h, held);
        k := k + 1;
      }
    }
  }

  lemma InHeld(hs: Handles, held: map<Id, nat>, e: Id)
    requires RefsOk(hs, held) && e in hs
    ensures e in held
  {
  }

  /** A client takes a reference. */
  lemma OneRefMade(hs: Handles, held: map<Id, nat>, deleted: seq<Id>, made: nat, e: Id)
    requires RefsOk(hs, held) && LifeOk(hs, deleted, made) && e in hs
    ensures var next := hs[e := hs[e].(refs := hs[e].refs + 1)];
            && RefsOk(next, held[e := held[e] + 1]) && LifeOk(next, deleted, made)
            && forall m :: Cached(next, m) <==> Cached(hs, m)
  {
  }

  lemma NotMadeYet(hs: Handles, deleted: seq<Id>, made: nat)
    requires LifeOk(hs, deleted, made)
    ensures made !in hs && made !in deleted
  {
  }

  lemma NewMade(hs: Handles, records: seq<Made>, made: nat, h: Handle)
    requires MadeOk(hs, records) && |records| == made
    ensures MadeOk(hs[made := h], records + [Made(h.key, h.hash, h.value, h.charge)])
  {
  }

  lemma NewOk(hs: Handles, held: map<Id, nat>, deleted: seq<Id>, made: nat, h: Handle)
    requires RefsOk(hs, held) && LifeOk(hs, deleted, made) && h.refs == 1 + if h.inCache then 1 else 0
    ensures RefsOk(hs[made := h], held[made := 1]) && LifeOk(hs[made := h], deleted, made + 1)
  {
  }

  lemma NewCached(hs: Handles, next: Handles, e: Id, n: Node, cached: bool)
    requires e !in hs && n.id == e && next.Keys == hs.Keys + {e} && next[e].inCache == cached && NodeOf(e, next[e]) == n
    requires forall id :: id in hs ==> next[id] == hs[id]
    ensures forall m :: Cached(next, m) <==> Cached(hs, m) || (cached && m == n)
    ensures forall m :: Cached(hs, m) ==> m.id != e
  {
  }

  lemma NewKept(hs: Handles, held: map<Id, nat>, next: Handles, nextHeld: map<Id, nat>, e: Id)
    requires e !in hs && (forall id :: id in hs ==> id in next && next[id] == hs[id])
    requires forall id :: id in held && id != e ==> id in nextHeld && nextHeld[id] == held[id]
    ensures ClientsKeep(hs, held, next, nextHeld)
  {
  }

  lemma CachedIff(hs: Handles, e: Id, n: Node)
    requires e in hs && n == NodeOf(e, hs[e])
    ensures hs[e].inCache <==> Cached(hs, n)
  {
  }

  lemma HeldStays(hs: Handles, held: map<Id, nat>, next: Handles, nextHeld: map<Id, nat>, e: Id)
    requires ClientsKeep(hs, held, next, nextHeld) && e in held && held[e] > 0 && e in hs
    ensures e in nextHeld && nextHeld[e] == held[e] && e in next && NodeOf(e, next[e]) == NodeOf(e, hs[e])
  {
  }

  ghost predicate AllIn(a: seq<Id>, b: seq<Id>) {
    forall id :: id in a ==> id in b
  }

  /** Exactly the listed handles have left the cache. */
  ghost predicate CachedBut(hs: Handles, next: Handles, gone: seq<Id>) {
    forall m :: Cached(next, m) <==> Cached(hs, m) && m.id !in gone
  }

  lemma KeepStart(hs: Handles, held: map<Id, nat>, deleted: seq<Id>)
    ensures ClientsKeep(hs, held, hs, held) && CachedBut(hs, hs, []) && AllIn([], deleted)
  {
  }

  lemma OneMoreGone(hs: Handles, mid: Handles, next: Handles, gone: seq<Id>, e: Id, was: seq<Id>, deleted: seq<Id>)
    requires CachedBut(hs, mid, gone) && (forall m :: Cached(next, m) <==> Cached(mid, m) && m.id != e)
    requires AllIn(gone, was) && was <= deleted && e in deleted
    ensures CachedBut(hs, next, gone + [e]) && AllIn(gone + [e], deleted)
  {
    assert forall id :: id in was ==> id in deleted;
  }

  lemma CachedRefs(hs: Handles, held: map<Id, nat>, deleted: seq<Id>, made: nat, e: Id)
    requires RefsOk(hs, held) && LifeOk(hs, deleted, made) && e in hs && hs[e].inCache
    ensures e in held && hs[e].refs == held[e] + 1 && e !in deleted
  {
  }

  /** A handle that leaves the cache stays if clients hold it. */
  lemma LeftCache(hs: Handles, held: map<Id, nat>, n: Node, next: Handles, nextHeld: map<Id, nat>)
    requires RefsOk(hs, held) && Cached(hs, n)
    requires var h := hs[n.id];
             && next == (if h.refs == 1 then hs - {n.id} else hs[n.id := h.(inCache := false, refs := h.refs - 1)])
             && nextHeld == (if h.refs == 1 then held - {n.id} else held)
    ensures RefsOk(next, nextHeld) && SameHeld(held, nextHeld) && ClientsKeep(hs, held, next, nextHeld)
    ensures forall m :: Cached(next, m) <==> Cached(hs, m) && m != n
  {
    assert n.id in held;
    forall m ensures Cached(next, m) <==> Cached(hs, m) && m != n {
      if m.id == n.id {
        assert Cached(hs, m) ==> m == n;
      }
    }
  }

  /** A handle that goes has gone to its deleter. */
  lemma LifeAfter(hs: Handles, deleted: seq<Id>, made: nat, e: Id, next: Handles, gone: seq<Id>)
    requires LifeOk(hs, deleted, made) && e in hs
    requires (next.Keys == hs.Keys && gone == deleted) || (next.Keys == hs.Keys - {e} && gone == deleted + [e])
    ensures LifeOk(next, gone, made)
  {
    assert e !in deleted;
    if gone == deleted + [e] {
      AppendDistinct(deleted, e);
    }
  }
}
