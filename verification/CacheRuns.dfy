/** The cache as a model of least recently used entries, and what any sequence of operations finds in it. */
module CacheRuns {
  import opened Options
  import opened Sequences
  import opened HandleTables
  import opened LruCaches

  /** A client either keeps the handle it gets or releases it at once. */
  datatype CacheOp =
    | Insert(key: Key, hash: nat, value: nat, charge: nat, keep: bool)
    | Lookup(key: Key, hash: nat, keep: bool)
    | Erase(key: Key, hash: nat)
    | Prune

  // ---------------------------------------------------------------------------------------------
  // The model
  // ---------------------------------------------------------------------------------------------

  type Slot = (Key, nat)

  /** What has been inserted, what is cached, which of it is unused, from the one unused for longest to the
      last used, which handles clients keep, and what is charged. */
  datatype Model = Model(made: seq<Made>, present: map<Slot, Id>, idle: seq<Id>, kept: set<Id>, usage: int)

  const EMPTY := Model([], map[], [], {}, 0)

  function IdAt(present: map<Slot, Id>, slot: Slot): Option<Id> {
    if slot in present then Some(present[slot]) else None
  }

  /** The entries without those of the listed handles. */
  function Minus(present: map<Slot, Id>, gone: seq<Id>): map<Slot, Id> {
    map s | s in present && present[s] !in gone :: present[s]
  }

  function Found(m: Model, slot: Slot): Option<nat> {
    if slot in m.present && m.present[slot] < |m.made| then Some(m.made[m.present[slot]].value) else None
  }

  /** Insert: the entry replaces that of its key; then the longest unused are evicted while what is charged is
      over capacity. */
  function DoInsert(capacity: nat, m: Model, slot: Slot, value: nat, charge: nat, keep: bool): Model {
    var id, made := |m.made|, m.made + [Made(slot.0, slot.1, value, charge)];
    if capacity == 0 then
      var (idle, usage) := Shrink(made, m.idle, m.usage, 0);
      Model(made, Minus(m.present, m.idle[..|m.idle| - |idle|]), idle, if keep then m.kept + {id} else m.kept, usage)
    else
      var replaced := IdAt(m.present, slot);
      var unused := Less(m.idle, replaced);
      var (idle, usage) := Shrink(made, unused, m.usage + charge - ChargeIf(made, replaced), capacity);
      Model(made, Minus(m.present[slot := id], unused[..|unused| - |idle|]),
            if keep then idle else idle + [id], if keep then m.kept + {id} else m.kept, usage)
  }

  /** Lookup makes the entry the last used. */
  function DoLookup(m: Model, slot: Slot, keep: bool): Model {
    match IdAt(m.present, slot)
    case None => m
    case Some(id) =>
      var others := Without(m.idle, id);
      m.(idle := if keep || id in m.kept then others else others + [id], kept := if keep then m.kept + {id} else m.kept)
  }

  function DoErase(m: Model, slot: Slot): Model {
    var erased := IdAt(m.present, slot);
    m.(present := m.present - {slot}, idle := Less(m.idle, erased), usage := m.usage - ChargeIf(m.made, erased))
  }

  function DoPrune(m: Model): Model {
    m.(present := Minus(m.present, m.idle), idle := [], usage := m.usage - SumOf(m.made, m.idle))
  }

  function Do(capacity: nat, m: Model, op: CacheOp): Model {
    match op
    case Insert(key, hash, value, charge, keep) => DoInsert(capacity, m, (key, hash), value, charge, keep)
    case Lookup(key, hash, keep) => DoLookup(m, (key, hash), keep)
    case Erase(key, hash) => DoErase(m, (key, hash))
    case Prune => DoPrune(m)
  }

  /** What the client is told: the value, if a lookup finds one. */
  function Answer(m: Model, op: CacheOp): Option<nat> {
    if op.Lookup? then Found(m, (op.key, op.hash)) else None
  }

  function After(capacity: nat, ops: seq<CacheOp>): Model {
    if ops == [] then EMPTY else Do(capacity, After(capacity, ops[..|ops| - 1]), ops[|ops| - 1])
  }

  // ---------------------------------------------------------------------------------------------
  // The cache follows the model
  // ---------------------------------------------------------------------------------------------

  /** The cached handles are those of the entries. */
  ghost predicate Entries(hs: Handles, present: map<Slot, Id>) {
    forall n :: Cached(hs, n) <==> IdAt(present, (n.key, n.hash)) == Some(n.id)
  }

  /** The handles that clients hold are those they keep. */
  ghost predicate Keeps(held: map<Id, nat>, kept: set<Id>, made: nat) {
    (forall id :: id in held ==> (held[id] > 0 <==> id in kept)) && forall id :: id in kept ==> id < made
  }

  ghost predicate Shows(c: LRUCache, m: Model)
    reads c
  {
    && c.records == m.made && c.lru == m.idle && c.usage == m.usage
    && Entries(c.handles, m.present) && Keeps(c.held, m.kept, |m.made|)
  }

  lemma InsertEntries(was: Handles, hs: Handles, present: map<Slot, Id>, slot: Slot, e: Id, cached: bool,
          evicted: seq<Id>)
    requires Entries(was, present)
    requires forall m :: Cached(hs, m) <==>
               && m.id !in evicted
               && if cached then m == Node(e, slot.0, slot.1) || (Cached(was, m) && !Matches(m, slot.0, slot.1))
                 else Cached(was, m)
    ensures Entries(hs, Minus(if cached then present[slot := e] else present, evicted))
  {
  }

  lemma ReplacedIsEntry(hs: Handles, present: map<Slot, Id>, slot: Slot, e: Id)
    requires Entries(hs, present) && Cached(hs, Node(e, slot.0, slot.1))
    ensures IdAt(present, slot) == Some(e)
  {
  }

  lemma HeldKeeps(was: map<Id, nat>, e: Id, n: nat, held: map<Id, nat>, kept: set<Id>, made: nat, keep: bool, more: nat)
    requires Keeps(was, kept, made) && SameHeld(was[e := n], held) && e < more && made <= more
    requires n > 0 <==> keep || e in kept
    ensures Keeps(held, if keep then kept + {e} else kept, more)
  {
  }

  lemma SlotReplaced(hs: Handles, present: map<Slot, Id>, slot: Slot, replaced: Option<Id>)
    requires Entries(hs, present)
    requires if replaced.Some? then Cached(hs, Node(replaced.value, slot.0, slot.1)) else NoMatch(hs, slot.0, slot.1)
    ensures replaced == IdAt(present, slot)
  {
    assert slot in present ==> Cached(hs, Node(present[slot], slot.0, slot.1));
  }

  /** What Insert does to the lists and the table is what the model does. */
  lemma InsertShows(capacity: nat, m: Model, slot: Slot, value: nat, charge: nat, keep: bool, was: Handles, hs: Handles,
                    lru: seq<Id>, usage: nat, replaced: Option<Id>, evicted: seq<Id>)
    requires Entries(was, m.present)
    requires if replaced.Some? then capacity > 0 && Cached(was, Node(replaced.value, slot.0, slot.1))
             else capacity == 0 || NoMatch(was, slot.0, slot.1)
    requires var made := m.made + [Made(slot.0, slot.1, value, charge)];
             (lru, usage) == Shrink(made, Less(m.idle, replaced),
                                    m.usage + (if capacity > 0 then charge else 0) - ChargeIf(made, replaced), capacity)
    requires evicted + lru == Less(m.idle, replaced)
    requires forall n :: Cached(hs, n) <==>
               && n.id !in evicted
               && if capacity > 0 then
                    n == Node(|m.made|, slot.0, slot.1) || (Cached(was, n) && !Matches(n, slot.0, slot.1))
                  else Cached(was, n)
    ensures var next := DoInsert(capacity, m, slot, value, charge, keep);
            && Entries(hs, next.present) && next.usage == usage
            && next.idle == if keep || capacity == 0 then lru else lru + [|m.made|]
  {
    hide Entries, Cached, Matches, Shrink, ChargeOf, Without, Minus, NoMatch;
    InsertEntries(was, hs, m.present, slot, |m.made|, capacity > 0, evicted);
    if capacity > 0 {
      SlotReplaced(was, m.present, slot, replaced);
    }
    var unused := Less(m.idle, replaced);
    assert unused[..|unused| - |lru|] == evicted;
  }

  lemma KeepsTwice(was: map<Id, nat>, e: Id, mid: map<Id, nat>, held: map<Id, nat>)
    requires SameHeld(was[e := 1], mid) && e in mid && SameHeld(mid[e := mid[e] - 1], held)
    ensures SameHeld(was[e := 0], held)
  {
  }

  lemma NotKeptYet(held: map<Id, nat>, kept: set<Id>, made: nat)
    requires Keeps(held, kept, made)
    ensures made !in kept
  {
  }

  lemma SameEntries(was: Handles, hs: Handles, present: map<Slot, Id>)
    requires Entries(was, present) && forall n :: Cached(hs, n) <==> Cached(was, n)
    ensures Entries(hs, present)
  {
  }

  method InsertOne(c: LRUCache, key: Key, hash: nat, value: nat, charge: nat, keep: bool, ghost m: Model)
    requires c.Valid() && Shows(c, m)
    modifies c, c.table
    ensures c.Valid() && Shows(c, DoInsert(c.capacity, m, (key, hash), value, charge, keep))
  {
    hide LRUCache.Valid, Entries, Cached, ClientsKeep, Keeps, SameHeld, Shrink, ChargeOf, SumOf, Without, Less, AllIn,
      Idle, Minus, NoMatch, LastNeeded;
    c.CountsMade();
    NotKeptYet(c.held, m.kept, |m.made|);
    var e, replaced, evicted := c.Insert(key, hash, value, charge);
    ghost var hs, h := c.handles, c.held;
    InsertShows(c.capacity, m, (key, hash), value, charge, keep, old(c.handles), hs, c.lru, c.usage, replaced, evicted);
    if !keep {
      c.Release(e);
      KeepsTwice(old(c.held), e, h, c.held);
      SameEntries(hs, c.handles, DoInsert(c.capacity, m, (key, hash), value, charge, keep).present);
    }
    HeldKeeps(old(c.held), e, if keep then 1 else 0, c.held, m.kept, |m.made|, keep, |m.made| + 1);
  }

  lemma CachedEntry(hs: Handles, present: map<Slot, Id>, slot: Slot, id: Id)
    requires Entries(hs, present) && id in hs && hs[id].inCache && hs[id].key == slot.0 && hs[id].hash == slot.1
    ensures IdAt(present, slot) == Some(id)
  {
    assert Cached(hs, Node(id, slot.0, slot.1));
  }

  lemma NoEntry(hs: Handles, present: map<Slot, Id>, slot: Slot)
    requires Entries(hs, present) && forall id ::
             !(id in hs && hs[id].inCache && hs[id].key == slot.0 && hs[id].hash == slot.1)
    ensures IdAt(present, slot) == None
  {
    assert slot in present ==> Cached(hs, Node(present[slot], slot.0, slot.1));
  }

  lemma KeptIff(held: map<Id, nat>, kept: set<Id>, made: nat, e: Id)
    requires Keeps(held, kept, made) && e in held
    ensures held[e] > 0 <==> e in kept
  {
  }

  method LookupOne(c: LRUCache, key: Key, hash: nat, keep: bool, ghost m: Model) returns (answer: Option<nat>)
    requires c.Valid() && Shows(c, m)
    modifies c, c.table
    ensures c.Valid() && Shows(c, DoLookup(m, (key, hash), keep)) && answer == Found(m, (key, hash))
  {
    hide LRUCache.Valid, Entries, Cached, ClientsKeep, Keeps, SameHeld, ChargeOf, SumOf, Without;
    var hit := c.Lookup(key, hash);
    if hit.None? {
      forall id ensures !(id in old(c.handles) && old(c.handles)[id].inCache && old(c.handles)[id].key == key
        && old(c.handles)[id].hash == hash) {
        assert !old(c.Holds(key, hash, id));
      }
      NoEntry(old(c.handles), m.present, (key, hash));
      SameEntries(old(c.handles), c.handles, m.present);
      return None;
    }
    var e := hit.value;
    CachedEntry(old(c.handles), m.present, (key, hash), e);
    SameEntries(old(c.handles), c.handles, m.present);
    KeptIff(old(c.held), m.kept, |m.made|, e);
    var value := c.Value(e);
    ghost var hs, h := c.handles, c.held;
    if keep {
      StillHeld(h);
    } else {
      c.Release(e);
      assert h[e := h[e] - 1] == old(c.held)[e := old(c.held)[e]];
      SameEntries(hs, c.handles, m.present);
    }
    HeldKeeps(old(c.held), e, old(c.held)[e] + if keep then 1 else 0, c.held, m.kept, |m.made|, keep, |m.made|);
    return Some(value);
  }

  method EraseOne(c: LRUCache, key: Key, hash: nat, ghost m: Model)
    requires c.Valid() && Shows(c, m)
    modifies c, c.table
    ensures c.Valid() && Shows(c, DoErase(m, (key, hash)))
  {
    hide LRUCache.Valid, Entries, Cached, ClientsKeep, Keeps, SameHeld, ChargeOf, SumOf, Without, NoMatch;
    var erased := c.Erase(key, hash);
    SlotReplaced(old(c.handles), m.present, (key, hash), erased);
    EraseEntries(old(c.handles), c.handles, m.present, (key, hash));
    StillKeeps(old(c.held), c.held, m.kept, |m.made|);
  }

  lemma EraseEntries(was: Handles, hs: Handles, present: map<Slot, Id>, slot: Slot)
    requires Entries(was, present) && forall n :: Cached(hs, n) <==> Cached(was, n) && !Matches(n, slot.0, slot.1)
    ensures Entries(hs, present - {slot})
  {
  }

  lemma StillKeeps(was: map<Id, nat>, held: map<Id, nat>, kept: set<Id>, made: nat)
    requires Keeps(was, kept, made) && SameHeld(was, held)
    ensures Keeps(held, kept, made)
  {
  }

  method PruneOne(c: LRUCache, ghost m: Model)
    requires c.Valid() && Shows(c, m)
    modifies c, c.table
    ensures c.Valid() && Shows(c, DoPrune(m))
  {
    hide LRUCache.Valid, Entries, Cached, ClientsKeep, Keeps, SameHeld, ChargeOf, SumOf, Without, Minus;
    c.Prune();
    assert old(c.lru)[..|old(c.lru)|] == old(c.lru);
    PruneEntries(old(c.handles), c.handles, m.present, m.idle);
    StillKeeps(old(c.held), c.held, m.kept, |m.made|);
  }

  lemma PruneEntries(was: Handles, hs: Handles, present: map<Slot, Id>, gone: seq<Id>)
    requires Entries(was, present) && CachedBut(was, hs, gone)
    ensures Entries(hs, Minus(present, gone))
  {
  }

  method One(c: LRUCache, op: CacheOp, ghost m: Model) returns (answer: Option<nat>)
    requires c.Valid() && Shows(c, m)
    modifies c, c.table
    ensures c.Valid() && Shows(c, Do(c.capacity, m, op)) && answer == Answer(m, op)
  {
    hide LRUCache.Valid, Shows, DoInsert, DoLookup, DoErase, DoPrune, Found;
    answer := None;
    match op {
      case Insert(key, hash, value, charge, keep) => InsertOne(c, key, hash, value, charge, keep, m);
      case Lookup(key, hash, keep) => answer := LookupOne(c, key, hash, keep, m);
      case Erase(key, hash) => EraseOne(c, key, hash, m);
      case Prune => PruneOne(c, m);
    }
  }

  lemma ShowsEmpty(c: LRUCache)
    requires c.handles == map[] && c.held == map[] && c.records == [] && c.lru == [] && c.usage == 0
    ensures Shows(c, EMPTY)
  {
  }

  /** Over any operations on a new cache: it answers as the model does and ends as the model does; and of the
      handles made, each has been given to its deleter once or is still there. */
  method Run(capacity: nat, ops: seq<CacheOp>) returns (c: LRUCache, answers: seq<Option<nat>>)
    ensures c.Valid() && c.capacity == capacity && Shows(c, After(capacity, ops))
    ensures |answers| == |ops| && forall i :: 0 <= i < |ops| ==> answers[i] == Answer(After(capacity, ops[..i]), ops[i])
    ensures Distinct(c.deleted) && forall id :: 0 <= id < |c.records| ==> (id in c.handles <==> id !in c.deleted)
  {
    hide Shows, Do, Answer, After, LRUCache.Valid;
    c := new LRUCache(capacity);
    ShowsEmpty(c);
    NothingDone(capacity, ops);
    answers := [];
    for i := 0 to |ops|
      invariant c.Valid() && c.capacity == capacity && fresh(c) && fresh(c.table) && Shows(c, After(capacity, ops[..i]))
      invariant |answers| == i && forall j :: 0 <= j < i ==> answers[j] == Answer(After(capacity, ops[..j]), ops[j])
    {
      AfterStep(capacity, ops, i);
      var answer := One(c, ops[i], After(capacity, ops[..i]));
      answers := answers + [answer];
    }
    assert ops[..|ops|] == ops;
    c.DeletedOnce();
  }

  lemma NothingDone(capacity: nat, ops: seq<CacheOp>)
    ensures After(capacity, ops[..0]) == EMPTY
  {
  }

  lemma AfterStep(capacity: nat, ops: seq<CacheOp>, i: nat)
    requires i < |ops|
    ensures After(capacity, ops[..i + 1]) == Do(capacity, After(capacity, ops[..i]), ops[i])
  {
    hide Do;
    assert ops[..i + 1][..i] == ops[..i];
  }

  // ---------------------------------------------------------------------------------------------
  // What is found
  // ---------------------------------------------------------------------------------------------

  /** An entry that is cached, as far as the operations tell, if nothing is evicted; and whether a client has
      kept its handle. */
  datatype Entry = Entry(value: nat, kept: bool)

  function Survive(before: Option<Entry>, op: CacheOp, slot: Slot): Option<Entry> {
    match op
    case Insert(key, hash, value, _, keep) => if (key, hash) == slot then Some(Entry(value, keep)) else before
    case Lookup(key, hash, keep) =>
      if (key, hash) == slot && keep && before.Some? then Some(Entry(before.value.value, true)) else before
    case Erase(key, hash) => if (key, hash) == slot then None else before
    case Prune => if before.Some? && before.value.kept then before else None
  }

  /** Inserted last, not erased since, and not pruned before a client kept it. */
  function Survivor(ops: seq<CacheOp>, slot: Slot): Option<Entry> {
    if ops == [] then None else Survive(Survivor(ops[..|ops| - 1], slot), ops[|ops| - 1], slot)
  }

  /** What all inserts charge. */
  function Charged(ops: seq<CacheOp>): nat {
    if ops == [] then 0
    else
      var op := ops[|ops| - 1];
      Charged(ops[..|ops| - 1]) + if op.Insert? then op.charge else 0
  }

  ghost predicate EntryOk(m: Model, slot: Slot) {
    slot in m.present ==>
      var id := m.present[slot];
      && id < |m.made| && m.made[id].key == slot.0 && m.made[id].hash == slot.1
      && (id in m.idle <==> id !in m.kept)
  }

  ghost predicate IdleOk(m: Model, id: Id) {
    id in m.idle ==> id < |m.made| && IdAt(m.present, (m.made[id].key, m.made[id].hash)) == Some(id)
  }

  ghost predicate ModelOk(m: Model) {
    && (forall slot :: EntryOk(m, slot))
    && (forall id :: IdleOk(m, id))
    && Distinct(m.idle)
    && forall id :: id in m.kept ==> id < |m.made|
  }

  lemma {:induction false} ShrinkBound(records: seq<Made>, idle: seq<Id>, usage: int, capacity: nat)
    ensures Shrink(records, idle, usage, capacity).1 <= usage
    decreases idle
  {
    if usage > capacity && idle != [] {
      ShrinkBound(records, idle[1..], usage - ChargeOf(records, idle[0]), capacity);
    }
  }

  lemma UsageGrows(capacity: nat, m: Model, op: CacheOp)
    ensures Do(capacity, m, op).usage <= m.usage + if op.Insert? then op.charge else 0
  {
    hide Minus, Without, Shrink, SumOf, ChargeOf;
    if op.Insert? {
      var made := m.made + [Made(op.key, op.hash, op.value, op.charge)];
      var replaced := if capacity == 0 then None else IdAt(m.present, (op.key, op.hash));
      ShrinkBound(made, Less(m.idle, replaced), m.usage +
        (if capacity > 0 then op.charge else 0) - ChargeIf(made, replaced), capacity);
    }
  }

  lemma {:induction false} UsageBound(capacity: nat, ops: seq<CacheOp>)
    ensures After(capacity, ops).usage <= Charged(ops)
    decreases ops
  {
    hide Do;
    if ops != [] {
      UsageBound(capacity, ops[..|ops| - 1]);
      UsageGrows(capacity, After(capacity, ops[..|ops| - 1]), ops[|ops| - 1]);
    }
  }

  // ---------------------------------------------------------------------------------------------
  // What every operation keeps
  // ---------------------------------------------------------------------------------------------

  /** The entry, as the operations tell it. */
  ghost predicate Tells(m: Model, slot: Slot, before: Option<Entry>) {
    slot in m.present && m.present[slot] < |m.made| ==>
      before == Some(Entry(m.made[m.present[slot]].value, m.present[slot] in m.kept))
  }

  lemma LessMembers(list: seq<Id>, e: Option<Id>)
    requires Distinct(list)
    ensures Distinct(Less(list, e)) && forall id :: id in Less(list, e) <==> id in list && e != Some(id)
  {
    if e.Some? {
      WithoutMembers(list, e.value);
    }
  }

  lemma Suffix(list: seq<Id>, k: nat)
    requires Distinct(list) && k <= |list|
    ensures Distinct(list[k..]) && forall id :: id in list[k..] <==> id in list && id !in list[..k]
  {
    forall id ensures id in list[k..] <==> id in list && id !in list[..k] {
      assert list == list[..k] + list[k..];
    }
  }

  /** An insert, with `unused` what was unused apart from the entry replaced, and `k` of it evicted. */
  lemma InsertKeeps(m: Model, slot: Slot, value: nat, charge: nat, keep: bool, unused: seq<Id>, k: nat, usage: int)
    requires ModelOk(m) && unused == Less(m.idle, IdAt(m.present, slot)) && k <= |unused|
    ensures var id := |m.made|;
            var next := Model(m.made + [Made(slot.0, slot.1, value, charge)], Minus(m.present[slot := id], unused[..k]),
                              if keep then unused[k..] else unused[k..] + [id],
                              if keep then m.kept + {id} else m.kept, usage);
            ModelOk(next)
  {
    var id, replaced := |m.made|, IdAt(m.present, slot);
    assert forall s :: EntryOk(m, s);
    assert forall e :: IdleOk(m, e);
    LessMembers(m.idle, replaced);
    Suffix(unused, k);
    var next := Model(m.made + [Made(slot.0, slot.1, value, charge)], Minus(m.present[slot := id], unused[..k]),
                      if keep then unused[k..] else unused[k..] + [id], if keep then m.kept + {id} else m.kept, usage);
    assert forall e :: e in next.idle <==> (e in unused[k..] || (!keep && e == id));
    assert id !in m.idle by {
      assert IdleOk(m, id);
    }
    hide Less, Without;
    forall s ensures EntryOk(next, s) {
      assert EntryOk(m, s) && EntryOk(m, slot);
    }
    forall e ensures IdleOk(next, e) {
      assert IdleOk(m, e) && EntryOk(m, slot);
    }
  }

  lemma LookupKeeps(m: Model, slot: Slot, keep: bool)
    requires ModelOk(m)
    ensures ModelOk(DoLookup(m, slot, keep))
  {
    if slot in m.present {
      var id, next := m.present[slot], DoLookup(m, slot, keep);
      WithoutMembers(m.idle, id);
      assert EntryOk(m, slot);
      hide Without;
      forall s ensures EntryOk(next, s) {
        assert EntryOk(m, s);
      }
      forall e ensures IdleOk(next, e) {
        assert IdleOk(m, e);
      }
    }
  }

  lemma EraseKeeps(m: Model, slot: Slot)
    requires ModelOk(m)
    ensures ModelOk(DoErase(m, slot))
  {
    var next := DoErase(m, slot);
    LessMembers(m.idle, IdAt(m.present, slot));
    assert EntryOk(m, slot);
    hide Less;
    forall s ensures EntryOk(next, s) {
      assert EntryOk(m, s);
    }
    forall e ensures IdleOk(next, e) {
      assert IdleOk(m, e);
    }
  }

  lemma PruneKeeps(m: Model)
    requires ModelOk(m)
    ensures ModelOk(DoPrune(m))
  {
    var next := DoPrune(m);
    forall s ensures EntryOk(next, s) {
      assert EntryOk(m, s);
    }
    forall e ensures IdleOk(next, e) {
    }
  }

  /** A cache without capacity holds nothing. */
  ghost predicate RunOk(capacity: nat, m: Model) {
    ModelOk(m) && (capacity == 0 ==> m.present == map[])
  }

  lemma DoKeeps(capacity: nat, m: Model, op: CacheOp)
    requires RunOk(capacity, m)
    ensures RunOk(capacity, Do(capacity, m, op))
  {
    hide ModelOk, DoInsert;
    match op {
      case Insert(key, hash, value, charge, keep) => DoInsertKeeps(capacity, m, (key, hash), value, charge, keep);
      case Lookup(key, hash, keep) => LookupKeeps(m, (key, hash), keep);
      case Erase(key, hash) => EraseKeeps(m, (key, hash));
      case Prune =>
        PruneKeeps(m);
        MinusEmpty(m.idle);
    }
  }

  lemma DoInsertKeeps(capacity: nat, m: Model, slot: Slot, value: nat, charge: nat, keep: bool)
    requires RunOk(capacity, m)
    ensures RunOk(capacity, DoInsert(capacity, m, slot, value, charge, keep))
  {
    hide ModelOk, Minus, Less, Without, ChargeOf;
    var made, replaced := m.made + [Made(slot.0, slot.1, value, charge)], IdAt(m.present, slot);
    if capacity == 0 {
      NothingIdle(m);
      MinusEmpty([]);
      NothingInserted(m, made, keep, Shrink(made, [], m.usage, 0).1);
    } else {
      var unused := Less(m.idle, replaced);
      var (idle, usage) := Shrink(made, unused, m.usage + charge - ChargeIf(made, replaced), capacity);
      hide Shrink;
      assert idle == unused[|unused| - |idle|..];
      InsertKeeps(m, slot, value, charge, keep, unused, |unused| - |idle|, usage);
    }
  }

  lemma MinusEmpty(gone: seq<Id>)
    ensures Minus(map[], gone) == map[]
  {
  }

  lemma NothingIdle(m: Model)
    requires ModelOk(m) && m.present == map[]
    ensures m.idle == []
  {
    assert m.idle != [] ==> m.idle[0] in m.idle && IdleOk(m, m.idle[0]);
  }

  lemma NothingInserted(m: Model, made: seq<Made>, keep: bool, usage: int)
    requires ModelOk(m) && m.present == map[] && m.idle == [] && |made| == |m.made| + 1
    ensures ModelOk(Model(made, map[], [], if keep then m.kept + {|m.made|} else m.kept, usage))
  {
    var next := Model(made, map[], [], if keep then m.kept + {|m.made|} else m.kept, usage);
    assert forall slot :: EntryOk(next, slot);
    assert forall id :: IdleOk(next, id);
  }

  lemma DoTells(capacity: nat, m: Model, op: CacheOp, slot: Slot, before: Option<Entry>)
    requires RunOk(capacity, m) && Tells(m, slot, before)
    ensures Tells(Do(capacity, m, op), slot, Survive(before, op, slot))
  {
    hide Shrink, Less, Without, SumOf, ChargeOf, ChargeIf, Distinct;
    assert EntryOk(m, slot);
    match op {
      case Insert(key, hash, value, charge, keep) =>
        InsertTells(capacity, m, (key, hash), value, charge, keep, slot, before);
      case Lookup(key, hash, keep) => LookupTells(m, (key, hash), keep, slot, before);
      case Erase(_, _) =>
      case Prune =>
    }
  }

  lemma InsertTells(capacity: nat, m: Model, at: Slot, value: nat, charge: nat, keep: bool, slot: Slot,
          before: Option<Entry>)
    requires RunOk(capacity, m) && Tells(m, slot, before)
    ensures Tells(DoInsert(capacity, m, at, value, charge, keep), slot, if at == slot then Some(Entry(value, keep))
            else before)
  {
    hide Shrink, Less, Without, ChargeOf, ChargeIf, Distinct;
    assert EntryOk(m, slot);
  }

  lemma LookupTells(m: Model, at: Slot, keep: bool, slot: Slot, before: Option<Entry>)
    requires ModelOk(m) && Tells(m, slot, before)
    ensures Tells(DoLookup(m, at, keep), slot,
                  if at == slot && keep && before.Some? then Some(Entry(before.value.value, true)) else before)
  {
    hide Without, Distinct;
    assert EntryOk(m, slot) && EntryOk(m, at);
  }

  /** As long as nothing is evicted, what the operations tell is there. */
  lemma DoStays(capacity: nat, m: Model, op: CacheOp, slot: Slot, before: Option<Entry>)
    requires RunOk(capacity, m) && Tells(m, slot, before) && capacity > 0
    requires op.Insert? ==> m.usage + op.charge <= capacity
    requires before.Some? ==> slot in m.present
    ensures Survive(before, op, slot).Some? ==> slot in Do(capacity, m, op).present
  {
    hide Less, Without, SumOf, Distinct;
    assert EntryOk(m, slot);
  }

  /** Whatever is found is what was inserted last for the key, not erased since, and not pruned before a client
      kept it. */
  lemma {:induction false} FoundSurvives(capacity: nat, ops: seq<CacheOp>, slot: Slot)
    ensures RunOk(capacity, After(capacity, ops)) && Tells(After(capacity, ops), slot, Survivor(ops, slot))
    ensures var found := Found(After(capacity, ops), slot);
            found.Some? ==> Survivor(ops, slot).Some? && Survivor(ops, slot).value.value == found.value
    decreases ops
  {
    hide Do, Survive;
    if ops == [] {
      assert forall s :: EntryOk(EMPTY, s);
      assert forall id :: IdleOk(EMPTY, id);
    } else {
      var front, op := ops[..|ops| - 1], ops[|ops| - 1];
      FoundSurvives(capacity, front, slot);
      hide RunOk;
      DoKeeps(capacity, After(capacity, front), op);
      DoTells(capacity, After(capacity, front), op, slot, Survivor(front, slot));
    }
  }

  /** While all inserts together fit the capacity, a lookup misses only what was never inserted, or erased
      since, or pruned before a client kept it. */
  lemma {:induction false} FitsIsFound(capacity: nat, ops: seq<CacheOp>, slot: Slot)
    requires capacity > 0 && Charged(ops) <= capacity
    ensures Found(After(capacity, ops), slot) == if Survivor(ops, slot).Some? then Some(Survivor(ops, slot).value.value)
            else None
    ensures Survivor(ops, slot).Some? ==> slot in After(capacity, ops).present
    decreases ops
  {
    FoundSurvives(capacity, ops, slot);
    hide Do, Survive;
    if ops != [] {
      var front, op := ops[..|ops| - 1], ops[|ops| - 1];
      FoundSurvives(capacity, front, slot);
      FitsIsFound(capacity, front, slot);
      UsageBound(capacity, front);
      hide RunOk, Tells;
      DoStays(capacity, After(capacity, front), op, slot, Survivor(front, slot));
    }
    PresentIsMade(capacity, After(capacity, ops), slot);
  }

  lemma PresentIsMade(capacity: nat, m: Model, slot: Slot)
    requires RunOk(capacity, m)
    ensures slot in m.present ==> m.present[slot] < |m.made|
  {
    assert EntryOk(m, slot);
  }

  /** What a client keeps is neither evicted nor pruned. */
  lemma KeptStays(capacity: nat, m: Model, op: CacheOp, slot: Slot)
    requires RunOk(capacity, m) && slot in m.present && m.present[slot] in m.kept
    requires !((op.Insert? || op.Erase?) && (op.key, op.hash) == slot)
    ensures var next := Do(capacity, m, op);
            IdAt(next.present, slot) == IdAt(m.present, slot) && m.present[slot] in next.kept
  {
    hide SumOf, ChargeOf, Without;
    assert EntryOk(m, slot);
    if op.Insert? && capacity > 0 {
      var replaced := IdAt(m.present, (op.key, op.hash));
      LessMembers(m.idle, replaced);
    }
  }
}
