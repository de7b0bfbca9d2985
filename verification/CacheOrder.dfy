/** Which entries the cache evicts: those not used for longest, and only as many as needed. */
module CacheOrder {
  import opened Options
  import opened Sequences
  import opened HandleTables
  import opened LruCaches
  import opened CacheRuns

  /** The place of the last operation that inserted or looked up the key; before all of them if there is none. */
  function LastUse(ops: seq<CacheOp>, slot: Slot): (n: int)
    ensures -1 <= n < |ops|
  {
    if ops == [] then -1
    else
      var op := ops[|ops| - 1];
      if (op.Insert? || op.Lookup?) && (op.key, op.hash) == slot then |ops| - 1 else LastUse(ops[..|ops| - 1], slot)
  }

  /** The key of a handle. */
  function SlotOf(made: seq<Made>, id: Id): Slot {
    if id < |made| then (made[id].key, made[id].hash) else ("", 0)
  }

  /** Of two unused entries, the one that was used later stands later. */
  ghost predicate ByLastUse(made: seq<Made>, idle: seq<Id>, ops: seq<CacheOp>) {
    forall i, j :: 0 <= i < j < |idle| ==> LastUse(ops, SlotOf(made, idle[i])) < LastUse(ops, SlotOf(made, idle[j]))
  }

  lemma LastUseSnoc(ops: seq<CacheOp>, op: CacheOp, slot: Slot)
    ensures LastUse(ops + [op], slot) ==
            if (op.Insert? || op.Lookup?) && (op.key, op.hash) == slot then |ops| else LastUse(ops, slot)
  {
    assert (ops + [op])[..|ops|] == ops;
  }

  /** Entries whose key the operation does not name stay in order. */
  lemma OthersStay(made: seq<Made>, idle: seq<Id>, ops: seq<CacheOp>, more: seq<Made>, op: CacheOp)
    requires ByLastUse(made, idle, ops) && made <= more
    requires forall id :: id in idle ==> id < |made| && (op.Prune? || SlotOf(made, id) != (op.key, op.hash))
    ensures ByLastUse(more, idle, ops + [op])
  {
    forall i, j | 0 <= i < j < |idle|
      ensures LastUse(ops + [op], SlotOf(more, idle[i])) < LastUse(ops + [op], SlotOf(more, idle[j]))
    {
      assert idle[i] in idle && idle[j] in idle;
      LastUseSnoc(ops, op, SlotOf(made, idle[i]));
      LastUseSnoc(ops, op, SlotOf(made, idle[j]));
    }
  }

  /** The entry just used goes to the end. */
  lemma UsedLast(made: seq<Made>, idle: seq<Id>, ops: seq<CacheOp>, op: CacheOp, id: Id)
    requires ByLastUse(made, idle, ops + [op]) && (op.Insert? || op.Lookup?) && SlotOf(made, id) == (op.key, op.hash)
    requires forall e :: e in idle ==> SlotOf(made, e) != (op.key, op.hash)
    ensures ByLastUse(made, idle + [id], ops + [op])
  {
    var all := idle + [id];
    forall i, j | 0 <= i < j < |all|
      ensures LastUse(ops + [op], SlotOf(made, all[i])) < LastUse(ops + [op], SlotOf(made, all[j]))
    {
      assert all[i] in idle;
      LastUseSnoc(ops, op, SlotOf(made, all[i]));
      LastUseSnoc(ops, op, SlotOf(made, all[j]));
    }
  }

  lemma OneOut(made: seq<Made>, idle: seq<Id>, ops: seq<CacheOp>, e: Option<Id>)
    requires ByLastUse(made, idle, ops)
    ensures ByLastUse(made, Less(idle, e), ops)
  {
    if e.Some? && e.value in idle {
      var i := WithoutAt(idle, e.value);
      hide Without, LastUse, SlotOf;
    } else if e.Some? {
      WithoutAbsent(idle, e.value);
    }
  }

  lemma FirstOut(made: seq<Made>, idle: seq<Id>, ops: seq<CacheOp>, k: nat)
    requires ByLastUse(made, idle, ops) && k <= |idle|
    ensures ByLastUse(made, idle[k..], ops)
  {
    hide LastUse, SlotOf;
  }

  /** The unused entries, and whether one of them has the key. */
  lemma IdleSlots(capacity: nat, m: Model, slot: Slot)
    requires RunOk(capacity, m)
    ensures forall id :: id in m.idle ==> id < |m.made|
    ensures forall id :: id in Less(m.idle, IdAt(m.present, slot)) ==> id in m.idle && SlotOf(m.made, id) != slot
    ensures slot !in m.present ==> forall id :: id in m.idle ==> SlotOf(m.made, id) != slot
    ensures slot in m.present ==> m.present[slot] < |m.made| && SlotOf(m.made, m.present[slot]) == slot
    ensures m.present == map[] ==> m.idle == []
  {
    assert forall id :: id in m.idle ==> IdleOk(m, id);
    assert EntryOk(m, slot);
    LessMembers(m.idle, IdAt(m.present, slot));
    assert m.idle != [] ==> m.idle[0] in m.idle;
  }

  lemma DoOrders(capacity: nat, m: Model, ops: seq<CacheOp>, op: CacheOp)
    requires RunOk(capacity, m) && ByLastUse(m.made, m.idle, ops)
    ensures var next := Do(capacity, m, op); ByLastUse(next.made, next.idle, ops + [op])
  {
    if op.Prune? {
      return;
    }
    var slot := (op.key, op.hash);
    IdleSlots(capacity, m, slot);
    OneOut(m.made, m.idle, ops, IdAt(m.present, slot));
    var others := Less(m.idle, IdAt(m.present, slot));
    hide ByLastUse, RunOk, Without, SlotOf, Minus, SumOf, ChargeOf;
    match op {
      case Insert(key, hash, value, charge, keep) => InsertOrders(capacity, m, ops, op, slot, others);
      case Lookup(key, hash, keep) =>
        OthersStay(m.made, others, ops, m.made, op);
        if slot in m.present {
          UsedLast(m.made, others, ops, op, m.present[slot]);
        }
      case Erase(key, hash) => OthersStay(m.made, others, ops, m.made, op);
    }
  }

  /** What an insert does: `k` of the other unused entries are evicted. */
  lemma InsertParts(capacity: nat, m: Model, op: CacheOp, others: seq<Id>) returns (k: nat)
    requires op.Insert? && capacity > 0 && others == Less(m.idle, IdAt(m.present, (op.key, op.hash)))
    ensures var slot, next := (op.key, op.hash), Do(capacity, m, op);
            var charged := m.usage + op.charge - ChargeIf(next.made, IdAt(m.present, slot));
            && k <= |others| && next.made == m.made + [Made(slot.0, slot.1, op.value, op.charge)]
            && next.idle == (if op.keep then others[k..] else others[k..] + [|m.made|])
            && next.present == Minus(m.present[slot := |m.made|], others[..k])
            && Shrink(next.made, others, charged, capacity) == (others[k..], next.usage)
  {
    hide Less, Minus, ChargeOf, Shrink;
    var made := m.made + [Made(op.key, op.hash, op.value, op.charge)];
    var charged := m.usage + op.charge - ChargeIf(made, IdAt(m.present, (op.key, op.hash)));
    k := |others| - |Shrink(made, others, charged, capacity).0|;
  }

  /** The others that stay, and the new entry behind them. */
  lemma InsertedLast(made: seq<Made>, last: Made, others: seq<Id>, k: nat, ops: seq<CacheOp>, op: CacheOp)
    requires op.Insert? && (last.key, last.hash) == (op.key, op.hash) && ByLastUse(made, others, ops) && k <= |others|
    requires forall id :: id in others ==> id < |made| && SlotOf(made, id) != (op.key, op.hash)
    ensures ByLastUse(made + [last], others[k..], ops + [op])
    ensures ByLastUse(made + [last], others[k..] + [|made|], ops + [op])
  {
    var more, idle := made + [last], others[k..];
    OthersStay(made, others, ops, more, op);
    FirstOut(more, others, ops + [op], k);
    forall id | id in idle ensures SlotOf(more, id) != (op.key, op.hash) {
      assert id in others;
    }
    hide ByLastUse, LastUse;
    UsedLast(more, idle, ops, op, |made|);
  }

  lemma InsertOrders(capacity: nat, m: Model, ops: seq<CacheOp>, op: CacheOp, slot: Slot, others: seq<Id>)
    requires op.Insert? && slot == (op.key, op.hash) && others == Less(m.idle, IdAt(m.present, slot))
    requires (capacity == 0 ==> m.idle == []) && ByLastUse(m.made, others, ops)
    requires forall id :: id in others ==> id < |m.made| && SlotOf(m.made, id) != slot
    ensures var next := Do(capacity, m, op); ByLastUse(next.made, next.idle, ops + [op])
  {
    if capacity == 0 {
      NoneIdle(m, ops, op);
    } else {
      var k := InsertParts(capacity, m, op, others);
      hide Do, Less, ByLastUse, LastUse, SlotOf, Shrink, Minus;
      InsertedLast(m.made, Made(op.key, op.hash, op.value, op.charge), others, k, ops, op);
    }
  }

  lemma NoneIdle(m: Model, ops: seq<CacheOp>, op: CacheOp)
    requires op.Insert? && m.idle == []
    ensures var next := Do(0, m, op); ByLastUse(next.made, next.idle, ops + [op])
  {
    hide Minus, LastUse, SlotOf;
  }

  lemma RunIsOk(capacity: nat, ops: seq<CacheOp>)
    ensures RunOk(capacity, After(capacity, ops))
  {
    FoundSurvives(capacity, ops, ("", 0));
  }

  lemma {:induction false} RunOrdered(capacity: nat, ops: seq<CacheOp>)
    ensures var m := After(capacity, ops); RunOk(capacity, m) && ByLastUse(m.made, m.idle, ops)
    decreases ops
  {
    RunIsOk(capacity, ops);
    hide Do, LastUse, SlotOf, RunOk;
    if ops != [] {
      var front, op := ops[..|ops| - 1], ops[|ops| - 1];
      assert ops == front + [op];
      hide ByLastUse;
      RunOrdered(capacity, front);
      DoOrders(capacity, After(capacity, front), front, op);
    }
  }

  /** Over any operations: of two unused entries the one used later stands later. */
  lemma IdleByLastUse(capacity: nat, ops: seq<CacheOp>)
    ensures var m := After(capacity, ops);
            forall i, j :: 0 <= i < j < |m.idle| ==>
              LastUse(ops, SlotOf(m.made, m.idle[i])) < LastUse(ops, SlotOf(m.made, m.idle[j]))
  {
    RunOrdered(capacity, ops);
    hide After, RunOk, LastUse, SlotOf;
  }

  /** In a list by last use, the handles in front of one are those used before it. */
  lemma UsedBefore(made: seq<Made>, list: seq<Id>, ops: seq<CacheOp>, k: nat, x: Id, y: Id)
    requires ByLastUse(made, list, ops) && k <= |list| && x in list && y in list[..k]
    requires LastUse(ops, SlotOf(made, x)) < LastUse(ops, SlotOf(made, y))
    ensures x in list[..k]
  {
    var j :| 0 <= j < k && list[j] == y;
    var i :| 0 <= i < |list| && list[i] == x;
    hide LastUse, SlotOf;
    assert i < j;
    assert list[..k][i] == x;
  }

  /** Over any operations: an insert that evicts an entry evicts every unused entry that was used before it;
      and what it evicts was unused. */
  lemma EvictsOldest(capacity: nat, ops: seq<CacheOp>, op: CacheOp, x: Slot, y: Slot)
    requires op.Insert? && x != (op.key, op.hash) && y != (op.key, op.hash)
    requires var m := After(capacity, ops); x in m.present && m.present[x] in m.idle && y in m.present
    requires LastUse(ops, x) < LastUse(ops, y)
    requires y !in Do(capacity, After(capacity, ops), op).present
    ensures x !in Do(capacity, After(capacity, ops), op).present
    ensures After(capacity, ops).present[y] in After(capacity, ops).idle
  {
    RunOrdered(capacity, ops);
    EvictsInOrder(capacity, After(capacity, ops), ops, op, x, y);
  }

  lemma EvictsInOrder(capacity: nat, m: Model, ops: seq<CacheOp>, op: CacheOp, x: Slot, y: Slot)
    requires RunOk(capacity, m) && ByLastUse(m.made, m.idle, ops)
    requires op.Insert? && x != (op.key, op.hash) && y != (op.key, op.hash)
    requires x in m.present && m.present[x] in m.idle && y in m.present && LastUse(ops, x) < LastUse(ops, y)
    requires y !in Do(capacity, m, op).present
    ensures x !in Do(capacity, m, op).present && m.present[y] in m.idle
  {
    var slot := (op.key, op.hash);
    var others := Less(m.idle, IdAt(m.present, slot));
    var a, b := m.present[x], m.present[y];
    assert capacity > 0;
    IdleSlots(capacity, m, slot);
    IdleSlots(capacity, m, x);
    IdleSlots(capacity, m, y);
    LessMembers(m.idle, IdAt(m.present, slot));
    OneOut(m.made, m.idle, ops, IdAt(m.present, slot));
    var k := InsertParts(capacity, m, op, others);
    hide Do, Less, LastUse, SlotOf, ByLastUse, RunOk, Shrink;
    assert b in others[..k];
    UsedBefore(m.made, others, ops, k, a, b);
  }

  /** Of the entries for other keys, exactly those of the listed handles have gone. */
  ghost predicate Gone(was: map<Slot, Id>, now: map<Slot, Id>, slot: Slot, gone: seq<Id>) {
    forall s :: s in was && s != slot ==> (s !in now <==> was[s] in gone)
  }

  lemma GoneAre(present: map<Slot, Id>, slot: Slot, id: Id, gone: seq<Id>)
    ensures Gone(present, Minus(present[slot := id], gone), slot, gone)
  {
  }

  /** What is evicted is needed: with the last evicted entry still there, more would be charged than fits.  And
      enough is evicted, unless nothing else is unused. */
  lemma EvictsOnlyIfNeeded(capacity: nat, m: Model, op: CacheOp) returns (evicted: seq<Id>)
    requires op.Insert? && capacity > 0
    ensures var slot, next := (op.key, op.hash), Do(capacity, m, op);
            && Gone(m.present, next.present, slot, evicted)
            && (evicted != [] ==> next.usage + ChargeOf(next.made, evicted[|evicted| - 1]) > capacity)
            && next.usage ==
               m.usage + op.charge - ChargeIf(next.made, IdAt(m.present, slot)) - SumOf(next.made, evicted)
            && (next.usage > capacity ==> next.idle == if op.keep then [] else [|m.made|])
  {
    hide *;
    var slot, next := (op.key, op.hash), Do(capacity, m, op);
    var others := Less(m.idle, IdAt(m.present, slot));
    var k := InsertParts(capacity, m, op, others);
    evicted := others[..k];
    var charged := m.usage + op.charge - ChargeIf(next.made, IdAt(m.present, slot));
    ShrinkNeeded(next.made, others, charged, capacity, k, next.usage);
    GoneAre(m.present, slot, |m.made|, evicted);
    assert next.usage > capacity ==> others[k..] == [];
  }
}
