/** The memtable: encoded entries in internal key order, and lookups among them. */
module MemTables {
  import opened Options
  import opened Coding
  import opened Comparators

  const MAX_SEQUENCE: nat := 0xff_ffff_ffff_ffff
  const TYPE_DELETION: nat := 0
  const TYPE_VALUE: nat := 1

  datatype MemEntry = MemEntry(user: Bytes, sequence: nat, isValue: bool, value: Bytes)

  /** What a lookup tells: the value, that the key is deleted, or nothing. */
  datatype Answer = Found(value: Bytes) | Deleted | Absent

  /** PackSequenceAndType. */
  function Pack(sequence: nat, t: nat): (tag: uint64)
    requires sequence <= MAX_SEQUENCE && t < 2
    ensures tag / 0x100 == sequence && tag % 0x100 == t
  {
    sequence * 0x100 + t
  }

  predicate EntryOk(e: MemEntry) {
    |e.user| + 8 < TWO32 && |e.value| < TWO32 && e.sequence <= MAX_SEQUENCE
  }

  function KeyOf(e: MemEntry): IKey
    requires EntryOk(e)
  {
    IKey(e.user, Pack(e.sequence, if e.isValue then TYPE_VALUE else TYPE_DELETION))
  }

  // ---------------------------------------------------------------------------------------------
  // Bytes
  // ---------------------------------------------------------------------------------------------

  /** An internal key with its length, as entries and lookup keys begin. */
  function EncodeKey(k: IKey): Bytes
    requires k.tag < TWO64
  {
    Varint(|k.user| + 8) + k.user + EncodeFixed64(k.tag)
  }

  function EncodeEntry(e: MemEntry): Bytes
    requires EntryOk(e)
  {
    EncodeKey(KeyOf(e)) + Varint(|e.value|) + e.value
  }

  /** The internal key at the front, and the bytes after it. */
  function ReadKey(b: Bytes): Option<(IKey, Bytes)> {
    match GetLengthPrefixed(b)
    case None => None
    case Some((k, rest)) =>
      var n := |k| - 8;
      if n < 0 then None else Some((IKey(k[..n], DecodeFixed64(k[n..])), rest))
  }

  lemma KeyReadBack(k: IKey, rest: Bytes)
    requires |k.user| + 8 < TWO32 && k.tag < TWO64
    ensures ReadKey(EncodeKey(k) + rest) == Some((k, rest))
  {
    hide Varint, EncodeFixed64, DecodeFixed64, GetLengthPrefixed;
    var inner := k.user + EncodeFixed64(k.tag);
    LengthPrefixedRoundTrip(inner, rest);
    Fixed64RoundTrip(k.tag);
    assert EncodeKey(k) + rest == LengthPrefixed(inner) + rest;
    assert inner[..|k.user|] == k.user && inner[|k.user|..] == EncodeFixed64(k.tag);
  }

  /** Both parts of an entry are read back. */
  lemma EntryReadBack(e: MemEntry)
    requires EntryOk(e)
    ensures ReadKey(EncodeEntry(e)) == Some((KeyOf(e), Varint(|e.value|) + e.value))
    ensures GetLengthPrefixed(Varint(|e.value|) + e.value) == Some((e.value, []))
  {
    hide Varint, EncodeKey, ReadKey, GetLengthPrefixed;
    KeyReadBack(KeyOf(e), Varint(|e.value|) + e.value);
    assert EncodeEntry(e) == EncodeKey(KeyOf(e)) + (Varint(|e.value|) + e.value);
    LengthPrefixedRoundTrip(e.value, []);
    assert LengthPrefixed(e.value) + [] == Varint(|e.value|) + e.value;
  }

  /** KeyComparator: the order of two encoded keys. */
  predicate Before(a: Bytes, b: Bytes) {
    var x, y := ReadKey(a), ReadKey(b);
    x.Some? && y.Some? && ILess(x.value.0, y.value.0)
  }

  // ---------------------------------------------------------------------------------------------
  // The table
  // ---------------------------------------------------------------------------------------------

  /** `e` is for the user key and not newer than the snapshot. */
  predicate Visible(e: MemEntry, user: Bytes, snapshot: nat) {
    e.user == user && e.sequence <= snapshot
  }

  /** No entry that is visible is newer. */
  ghost predicate Newest(entries: seq<MemEntry>, e: MemEntry, user: Bytes, snapshot: nat) {
    && e in entries && Visible(e, user, snapshot)
    && forall x :: x in entries && Visible(x, user, snapshot) ==> x.sequence <= e.sequence
  }

  function AnswerOf(e: MemEntry): Answer {
    if e.isValue then Found(e.value) else Deleted
  }

  ghost predicate Sorted(entries: seq<MemEntry>) {
    && (forall i :: 0 <= i < |entries| ==> EntryOk(entries[i]))
    && (forall i, j :: 0 <= i < j < |entries| ==> ILess(KeyOf(entries[i]), KeyOf(entries[j])))
  }

  /** A key has one entry for a sequence number. */
  ghost predicate OneEach(entries: seq<MemEntry>) {
    forall x, y :: x in entries && y in entries && x.user == y.user && x.sequence == y.sequence ==> x == y
  }

  /** The place for a key among the entries. */
  ghost predicate PlaceFor(entries: seq<MemEntry>, k: IKey, i: nat)
    requires Sorted(entries)
  {
    && i <= |entries| && (forall j :: 0 <= j < i ==> ILess(KeyOf(entries[j]), k))
    && (i < |entries| ==> !ILess(KeyOf(entries[i]), k))
  }

  lemma InsertedSorted(entries: seq<MemEntry>, e: MemEntry, i: nat)
    requires Sorted(entries) && EntryOk(e) && PlaceFor(entries, KeyOf(e), i) && forall x :: x in entries ==>
             EntryOk(x) && KeyOf(x) != KeyOf(e)
    ensures Sorted(entries[..i] + [e] + entries[i..])
  {
    hide ILess;
    var longer := entries[..i] + [e] + entries[i..];
    forall j | 0 <= j < |longer| ensures EntryOk(longer[j]) {
    }
    forall j, k | 0 <= j < k < |longer| ensures ILess(KeyOf(longer[j]), KeyOf(longer[k])) {
      if j == i {
        assert longer[k] == entries[k - 1];
        ILessOrder(KeyOf(entries[i]), KeyOf(e), KeyOf(e));
        ILessOrder(KeyOf(e), KeyOf(entries[i]), KeyOf(entries[k - 1]));
      }
    }
  }

  lemma InsertedOk(entries: seq<MemEntry>, e: MemEntry, i: nat)
    requires Sorted(entries) && OneEach(entries) && EntryOk(e) && PlaceFor(entries, KeyOf(e), i)
    requires forall x :: x in entries ==> !(x.user == e.user && x.sequence == e.sequence)
    ensures var longer := entries[..i] + [e] + entries[i..];
            Sorted(longer) && OneEach(longer) && forall x :: x in longer <==> x in entries || x == e
  {
    forall x | x in entries ensures EntryOk(x) && KeyOf(x) != KeyOf(e) {
      assert x.sequence == KeyOf(x).tag / 0x100;
    }
    InsertedSorted(entries, e, i);
    hide Sorted, PlaceFor, EntryOk;
    assert entries == entries[..i] + entries[i..];
  }

  /** The first entry at or after the lookup key is the newest visible one, if there is any. */
  lemma FirstIsNewest(entries: seq<MemEntry>, user: Bytes, snapshot: nat, i: nat)
    requires Sorted(entries) && snapshot <= MAX_SEQUENCE && PlaceFor(entries, IKey(user, Pack(snapshot, TYPE_VALUE)), i)
    requires OneEach(entries)
    ensures if i < |entries| && entries[i].user == user then Newest(entries, entries[i], user, snapshot)
            else forall x :: x in entries ==> !Visible(x, user, snapshot)
  {
    hide Less, ILess;
    var k := IKey(user, Pack(snapshot, TYPE_VALUE));
    forall x | x in entries && Visible(x, user, snapshot)
      ensures i < |entries| && entries[i].user == user && x.sequence <= entries[i].sequence
    {
      var j :| 0 <= j < |entries| && entries[j] == x;
      ILessUsers(KeyOf(x), k);
      assert j >= i;
      if i < j {
        ILessUsers(KeyOf(entries[i]), KeyOf(x));
        ILessUsers(KeyOf(entries[i]), k);
        LessChain(entries[i].user, user, entries[i].user);
      }
    }
    if i < |entries| && entries[i].user == user {
      ILessUsers(KeyOf(entries[i]), k);
    }
  }

  class MemTable {
    /** The skip list, in order. */
    var table: seq<Bytes>
    ghost var entries: seq<MemEntry>

    ghost predicate Valid()
      reads this
    {
      && Sorted(entries) && OneEach(entries) && |table| == |entries|
      && forall i :: 0 <= i < |entries| ==> table[i] == EncodeEntry(entries[i])
    }

    constructor ()
      ensures Valid() && entries == []
    {
      table, entries := [], [];
    }

    /** The skip list's search with the key comparator. */
    method Seek(target: Bytes, ghost k: IKey) returns (i: nat)
      requires Valid() && ReadKey(target).Some? && ReadKey(target).value.0 == k
      ensures PlaceFor(entries, k, i)
    {
      hide ReadKey, ILess;
      i := 0;
      while i < |table| && Before(table[i], target)
        invariant i <= |table| && forall j :: 0 <= j < i ==> ILess(KeyOf(entries[j]), k)
      {
        EntryReadBack(entries[i]);
        i := i + 1;
      }
      if i < |table| {
        EntryReadBack(entries[i]);
      }
    }

    method Add(sequence: nat, isValue: bool, key: Bytes, value: Bytes)
      requires Valid() && EntryOk(MemEntry(key, sequence, isValue, value))
      requires forall x :: x in entries ==> !(x.user == key && x.sequence == sequence)
      modifies this
      ensures Valid() && forall x :: x in entries <==> x in old(entries) || x == MemEntry(key, sequence, isValue, value)
    {
      hide Varint, EncodeFixed64, ReadKey, ILess;
      ghost var e := MemEntry(key, sequence, isValue, value);
      var tag := Pack(sequence, if isValue then TYPE_VALUE else TYPE_DELETION);
      var buf := Varint(|key| + 8) + key + EncodeFixed64(tag) + Varint(|value|) + value;
      assert buf == EncodeEntry(e);
      EntryReadBack(e);
      var i := Seek(buf, KeyOf(e));
      InsertedOk(entries, e, i);
      hide Pack, EncodeEntry, PlaceFor, Sorted, OneEach;
      table := table[..i] + [buf] + table[i..];
      entries := entries[..i] + [e] + entries[i..];
    }

    /** LookupKey's memtable_key, the search, and the answer from the entry's own bytes. */
    method Get(user: Bytes, snapshot: nat) returns (r: Answer)
      requires Valid() && |user| + 8 < TWO32 && snapshot <= MAX_SEQUENCE
      ensures r == Absent <==> forall x :: x in entries ==> !Visible(x, user, snapshot)
      ensures forall x :: Newest(entries, x, user, snapshot) ==> r == AnswerOf(x)
    {
      hide Varint, EncodeFixed64, DecodeFixed64, ReadKey, ILess, GetLengthPrefixed, EncodeKey, EncodeEntry;
      var k := IKey(user, Pack(snapshot, TYPE_VALUE));
      var memkey := EncodeKey(k);
      KeyReadBack(k, []);
      assert memkey + [] == memkey;
      var i := Seek(memkey, k);
      FirstIsNewest(entries, user, snapshot, i);
      if i == |table| {
        return Absent;
      }
      EntryReadBack(entries[i]);
      var (key, rest) := ReadKey(table[i]).value;
      if key.user != user {
        return Absent;
      }
      if key.tag % 0x100 == TYPE_VALUE {
        return Found(GetLengthPrefixed(rest).value.0);
      }
      return Deleted;
    }
  }
}
