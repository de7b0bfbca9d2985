/** A run of the writer queue in which a synced write returns OK and is not recovered. */
module LostWrites {
  import opened Options
  import opened Coding
  import LogFormat
  import opened LogAttempts
  import LogReader
  import LogFailures
  import opened WriteBatches
  import opened WriterQueue
  import opened Durability

  // ---------------------------------------------------------------------------------------------
  // One writer after the other
  // ---------------------------------------------------------------------------------------------

  /** A batch of one operation. */
  function WriterOf(op: Op, sync: bool): Writer {
    Writer(Some(Batch([op], 0)), sync)
  }

  function Solo(id: Id, start: nat, op: Op, sync: bool, addOk: bool): Event {
    Group([id], start, [op], addOk, addOk && sync, addOk)
  }

  lemma Enters(s: State, id: Id, op: Op, sync: bool)
    requires Inv(s) && s.queue == [] && id !in s.writers
    ensures var w := WriterOf(op, sync);
            && Enabled(s, Enqueue(id, w))
            && Do(s, Enqueue(id, w)) ==
               s.(queue := [id], writers := s.writers[id := w], arrived := s.arrived + [id], phase :=
                 s.phase[id := Room])
  {
    assert [] + [id] == [id];
  }

  lemma GetsRoom(s: State, id: Id)
    requires Inv(s) && s.queue == [id] && id in s.phase && s.phase[id] == Room && !s.bgError
    requires id in s.writers && s.writers[id].batch.Some?
    ensures Enabled(s, RoomDone(true))
    ensures Do(s, RoomDone(true)) == s.(phase := s.phase[id := Logging(1)])
  {
    assert s.queue[0] == id;
    LeaderForms(s);
    assert GroupLength(s.queue, s.writers) == 1;
  }

  lemma LogsAlone(s: State, id: Id, op: Op, sync: bool, addOk: bool)
    requires Inv(s) && s.queue == [id] && id in s.phase && s.phase[id] == Logging(1) && !s.bgError
    requires id in s.writers && s.writers[id] == WriterOf(op, sync)
    ensures Enabled(s, LogDone(addOk, true))
    ensures var t := Do(s, LogDone(addOk, true));
            && t.queue == [] && t.writers == s.writers && !t.bgError && t.lastSequence == s.lastSequence + 1
            && t.history == s.history + [Solo(id, s.lastSequence + 1, op, sync, addOk)]
            && id in t.result && t.result[id] == addOk
  {
    assert s.queue[0] == id && s.queue[..1] == [id] && s.queue[1..] == [];
    assert [id][..0] == [];
    assert GroupOps([id], s.writers) == [op] by {
      assert GroupOps([], s.writers) == [];
      assert [] + [op] == [op];
    }
    hide Inv, Inserted, SignalMembers, SignalFront;
    var e := GroupEvent(s, addOk, true);
    assert e == Solo(id, s.lastSequence + 1, op, sync, addOk);
    ResultsAt([id], e.ok, s.result);
    assert id in [id];
  }

  /** A writer that finds the queue empty goes through alone. */
  lemma OneRound(steps: seq<Step>, id: Id, op: Op, sync: bool, addOk: bool) returns (more: seq<Step>)
    requires Legal(steps) && After(steps).queue == [] && !After(steps).bgError && id !in After(steps).writers
    ensures Legal(more)
    ensures var s, t := After(steps), After(more);
            && t.queue == [] && t.writers == s.writers[id := WriterOf(op, sync)] && !t.bgError
            && t.lastSequence == s.lastSequence + 1
            && t.history == s.history + [Solo(id, s.lastSequence + 1, op, sync, addOk)]
            && id in t.result && t.result[id] == addOk
  {
    hide *;
    var w := WriterOf(op, sync);
    Arrives(steps, id, op, sync);
    more := steps + [Enqueue(id, w)];
    GetsRoom(After(more), id);
    AfterSnoc(more, RoomDone(true));
    more := more + [RoomDone(true)];
    LogsAlone(After(more), id, op, sync, addOk);
    AfterSnoc(more, LogDone(addOk, true));
    more := more + [LogDone(addOk, true)];
  }

  lemma Arrives(steps: seq<Step>, id: Id, op: Op, sync: bool)
    requires Legal(steps) && After(steps).queue == [] && !After(steps).bgError && id !in After(steps).writers
    ensures var s, w := After(steps), WriterOf(op, sync);
            && Legal(steps + [Enqueue(id, w)])
            && After(steps + [Enqueue(id, w)]) ==
               s.(queue := [id], writers := s.writers[id := w], arrived := s.arrived + [id], phase :=
                 s.phase[id := Room])
            && w.batch.Some?
  {
    Enters(After(steps), id, op, sync);
    hide Inv;
    AfterSnoc(steps, Enqueue(id, WriterOf(op, sync)));
  }

  // ---------------------------------------------------------------------------------------------
  // The bytes
  // ---------------------------------------------------------------------------------------------

  /** A put of an empty key and a value of zeros. */
  function Blank(n: nat): Op {
    Put([], LogFormat.Zeros(n))
  }

  lemma BlankRep(start: uint64, n: nat)
    requires n < TWO32
    ensures var skip := 14 + |Varint(n)|;
            |Rep(start, [Blank(n)])| == skip + n && Rep(start, [Blank(n)])[skip..] == LogFormat.Zeros(n)
  {
    BlankOp(n);
    hide Varint, EncodeFixed32, EncodeOps, LogFormat.Zeros;
    var head := EncodeFixed64(start) + EncodeFixed32(1);
    assert |head| == 12;
    hide EncodeFixed64;
    var front := head + ([TYPE_VALUE] + [0] + Varint(n));
    assert Rep(start, [Blank(n)]) == front + LogFormat.Zeros(n);
  }

  lemma BlankOp(n: nat)
    requires n < TWO32
    ensures EncodeOps([Blank(n)]) == [TYPE_VALUE] + [0] + Varint(n) + LogFormat.Zeros(n)
  {
    OneOp(Blank(n));
    PutOp(LogFormat.Zeros(n));
  }

  lemma OneOp(op: Op)
    ensures EncodeOps([op]) == EncodeOp(op)
  {
    hide EncodeOp;
    assert [op][..0] == [];
    assert EncodeOps([]) == [];
  }

  lemma PutOp(value: Bytes)
    requires |value| < TWO32
    ensures EncodeOp(Put([], value)) == [TYPE_VALUE] + [0] + Varint(|value|) + value
  {
    EmptyPrefixed();
    Prefixed(value);
    hide LengthPrefixed, Varint;
    assert [TYPE_VALUE] + [0] + (Varint(|value|) + value) == [TYPE_VALUE] + [0] + Varint(|value|) + value;
  }

  lemma EmptyPrefixed()
    ensures LengthPrefixed([]) == [0]
  {
    assert Varint(0) == [0];
  }

  lemma Prefixed(value: Bytes)
    requires |value| < TWO32
    ensures LengthPrefixed(value) == Varint(|value|) + value
  {
    hide *;
    SmallLength(|value|);
    PrefixedBy(value);
  }

  lemma SmallLength(n: nat)
    requires n < TWO32
    ensures n % TWO32 == n
  {
  }

  lemma PrefixedBy(value: Bytes)
    ensures LengthPrefixed(value) == Varint(|value| % TWO32) + value
  {
    hide Varint;
  }

  lemma BlankSizes()
    ensures |Varint(85)| == 1 && |Varint(184)| == 2 && |Varint(32637)| == 3
  {
    assert |Varint(184)| == 1 + |Varint(1)|;
    assert |Varint(32637)| == 1 + |Varint(254)| && |Varint(254)| == 1 + |Varint(1)|;
  }

  // ---------------------------------------------------------------------------------------------
  // The run
  // ---------------------------------------------------------------------------------------------

  const HISTORY := [Solo(1, 1, Blank(85), false, false), Solo(2, 2, Blank(32637), false, true),
                    Solo(3, 3, Blank(184), true, true)]

  const FAILURES: seq<Option<Failure>> := [Some(Failure(0, 0)), None, None]

  lemma Begins()
    ensures Legal([]) && After([]).queue == [] && After([]).writers == map[] && After([]).history == []
    ensures After([]).lastSequence == 0 && !After([]).bgError
  {
  }

  lemma FirstOf()
    ensures [HISTORY[0]] == [] + [Solo(1, 1, Blank(85), false, false)]
  {
  }

  lemma FirstRound() returns (steps: seq<Step>)
    ensures Legal(steps) && After(steps).queue == [] && After(steps).writers.Keys == {1}
    ensures After(steps).history == [HISTORY[0]] && After(steps).lastSequence == 1 && !After(steps).bgError
  {
    hide *;
    Begins();
    steps := OneRound([], 1, Blank(85), false, false);
    assert After(steps).writers.Keys == {1};
    assert After(steps).history == [] + [Solo(1, 1, Blank(85), false, false)];
    FirstOf();
  }

  /** The first two writers. */
  lemma TwoRounds() returns (steps: seq<Step>)
    ensures Legal(steps) && After(steps).queue == [] && After(steps).writers.Keys == {1, 2}
    ensures After(steps).history == HISTORY[..2] && After(steps).lastSequence == 2 && !After(steps).bgError
  {
    var one := FirstRound();
    assert HISTORY[..2] == [HISTORY[0]] + [Solo(2, 2, Blank(32637), false, true)];
    hide *;
    steps := OneRound(one, 2, Blank(32637), false, true);
  }

  lemma Run() returns (steps: seq<Step>)
    ensures Legal(steps) && After(steps).history == HISTORY
    ensures var s := After(steps); 3 in s.result && s.result[3] && 3 in s.writers && s.writers[3].sync
  {
    var h := HISTORY;
    assert h == h[..2] + [h[2]];
    assert WriterOf(Blank(184), true).sync;
    hide *;
    var two := TwoRounds();
    steps := OneRound(two, 3, Blank(184), true, true);
  }

  lemma HistorySmall()
    ensures Small(HISTORY)
  {
    forall k | 0 <= k < 3 ensures HISTORY[k].Group? && SmallGroup(HISTORY[k]) {
      hide LogFormat.Zeros;
    }
  }

  lemma TheAppends()
    ensures Small(HISTORY) && Outcomes(HISTORY, FAILURES)
    ensures Appends(HISTORY, FAILURES) ==
            [Attempt(Rep(1, [Blank(85)]), Some(Failure(0, 0))), Attempt(Rep(2, [Blank(32637)]), None),
             Attempt(Rep(3, [Blank(184)]), None)]
  {
    HistorySmall();
    hide Rep, OpsOk, LogFormat.Fragments, LogFormat.Zeros;
    var h, f := HISTORY, FAILURES;
    assert h[..3] == h && f[..3] == f && h[..0] == [] && f[..0] == [];
    assert h[..3][..2] == h[..2] && h[..2][..1] == h[..1] && h[..1][..0] == [];
    assert f[..3][..2] == f[..2] && f[..2][..1] == f[..1] && f[..1][..0] == [];
    assert Appends(h[..0], f[..0]) == [];
    assert Small(h[..1]) && Small(h[..2]);
    assert Appends(h[..1], f[..1]) == [Attempt(Rep(1, [Blank(85)]), Some(Failure(0, 0)))];
    assert Appends(h[..2], f[..2]) ==
           [Attempt(Rep(1, [Blank(85)]), Some(Failure(0, 0))), Attempt(Rep(2, [Blank(32637)]), None)];
    assert OutcomeAt(h, f, 0) && OutcomeAt(h, f, 1) && OutcomeAt(h, f, 2);
  }

  /** Reading the file that the appends left gives this record first and then no other. */
  ghost predicate OnlyRead(crc: LogFormat.Checksum, appends: seq<Attempt>, record: Bytes) {
    var file := FileBytes(crc, appends);
    var (first, st) := LogReader.ReadRecord(crc, file, LogReader.State(0, 0, false, 0), [], false);
    var (second, _) := LogReader.ReadRecord(crc, file, st, [], false);
    first == Some(record) && second == None
  }

  lemma RecordSizes()
    ensures |Rep(1, [Blank(85)])| == 100 && |Rep(2, [Blank(32637)])| == 32654
    ensures |Rep(3, [Blank(184)])| == 200 && Rep(3, [Blank(184)])[100..] == LogFormat.Zeros(100)
  {
    assert 3 < TWO64 && 32637 < TWO32;
    hide *;
    BlankRep(1, 85);
    BlankRep(2, 32637);
    BlankRep(3, 184);
    BlankSizes();
    var c := Rep(3, [Blank(184)]);
    assert c[100..] == c[16..][84..];
    ZerosTail(184, 84);
  }

  lemma ThirdNotRead(crc: LogFormat.Checksum, a: Bytes, b: Bytes, c: Bytes)
    requires |a| == 100 && |b| == 32654 && |c| == 200 && c[100..] == LogFormat.Zeros(100)
    ensures var appends := [Attempt(a, Some(Failure(0, 0))), Attempt(b, None), Attempt(c, None)];
            OnlyRead(crc, appends, b) && Clean(appends) && Appended(appends) == [b, c]
  {
    LogFailures.WriteLost(crc, a, b, c);
  }

  lemma SyncedBytes(crc: LogFormat.Checksum)
    ensures Small(HISTORY) && Outcomes(HISTORY, FAILURES) && Clean(Appends(HISTORY, FAILURES))
    ensures Appended(Appends(HISTORY, FAILURES)) == [Rep(2, [Blank(32637)]), Rep(3, [Blank(184)])]
    ensures OnlyRead(crc, Appends(HISTORY, FAILURES), Rep(2, [Blank(32637)]))
  {
    assert 3 < TWO64 && 1 < TWO32;
    hide *;
    TheAppends();
    RecordSizes();
    ThirdNotRead(crc, Rep(1, [Blank(85)]), Rep(2, [Blank(32637)]), Rep(3, [Blank(184)]));
  }

  /** Three writers, one after the other.  The append of the first fails with no byte in the file; the second
      and the third, which asks for sync, return OK.  With all bytes in the file, recovery reads the second
      record and not the third. */
  lemma SyncedWriteLost(crc: LogFormat.Checksum) returns (steps: seq<Step>)
    ensures Legal(steps) && After(steps).history == HISTORY && HISTORY[2] == Solo(3, 3, Blank(184), true, true)
    ensures var s := After(steps); 3 in s.result && s.result[3] && 3 in s.writers && s.writers[3].sync
    ensures Small(HISTORY) && Outcomes(HISTORY, FAILURES) && Clean(Appends(HISTORY, FAILURES))
    ensures Appended(Appends(HISTORY, FAILURES)) == [Rep(2, [Blank(32637)]), Rep(3, [Blank(184)])]
    ensures OnlyRead(crc, Appends(HISTORY, FAILURES), Rep(2, [Blank(32637)]))
  {
    assert HISTORY[2] == Solo(3, 3, Blank(184), true, true);
    hide *;
    steps := Run();
    SyncedBytes(crc);
  }

  lemma ZerosTail(n: nat, k: nat)
    requires k <= n
    ensures LogFormat.Zeros(n)[k..] == LogFormat.Zeros(n - k)
  {
  }
}
