/** DBImpl::Write: concurrent writers, a queue, and groups committed by the writer at its front. */
module WriterQueue {
  import opened Options
  import opened Sequences
  import opened WriteBatches

  type Id = nat

  datatype Batch = Batch(ops: seq<Op>, size: nat)

  /** A call of Write; no batch means a request to make room. */
  datatype Writer = Writer(batch: Option<Batch>, sync: bool)

  /** A waiting writer that is not asleep has been signalled. */
  datatype Phase = Waiting(asleep: bool) | Room | Logging(n: nat) | Returned

  datatype Event =
    | Group(members: seq<Id>, start: nat, ops: seq<Op>, added: bool, synced: bool, ok: bool)
    | Alone(id: Id, ok: bool)

  datatype State = State(
    queue: seq<Id>,
    writers: map<Id, Writer>,
    phase: map<Id, Phase>,
    result: map<Id, bool>,
    lastSequence: nat,
    mem: seq<Insertion>,
    bgError: bool,
    arrived: seq<Id>,
    history: seq<Event>)

  // ---------------------------------------------------------------------------------------------
  // Grouping
  // ---------------------------------------------------------------------------------------------

  const MAX_GROUP := 1024 * 1024
  const SMALL_WRITE := 128 * 1024

  function MaxSize(size: nat): nat {
    if size <= SMALL_WRITE then size + SMALL_WRITE else MAX_GROUP
  }

  /** How many of the queued writers from `i` on join the group; `size` counts what is in it. */
  function Joining(queue: seq<Id>, writers: map<Id, Writer>, i: nat, size: nat, maxSize: nat, sync: bool): (n: nat)
    requires i <= |queue| && forall id :: id in queue ==> id in writers
    ensures n <= |queue| - i
    decreases |queue| - i
  {
    if i == |queue| then 0
    else
      var w := writers[queue[i]];
      if w.sync && !sync then 0
      else if w.batch.Some? && size + w.batch.value.size > maxSize then 0
      else 1 + Joining(queue, writers, i + 1, size + (if w.batch.Some? then w.batch.value.size else 0), maxSize, sync)
  }

  /** The number of writers in the group of the first one. */
  function GroupLength(queue: seq<Id>, writers: map<Id, Writer>): (n: nat)
    requires queue != [] && (forall id :: id in queue ==> id in writers) && writers[queue[0]].batch.Some?
    ensures 1 <= n <= |queue|
  {
    var first := writers[queue[0]];
    1 + Joining(queue, writers, 1, first.batch.value.size, MaxSize(first.batch.value.size), first.sync)
  }

  /** The operations of the non-null batches, in queue order. */
  function GroupOps(members: seq<Id>, writers: map<Id, Writer>): seq<Op>
    requires forall id :: id in members ==> id in writers
  {
    if members == [] then []
    else
      var w := writers[members[|members| - 1]];
      GroupOps(members[..|members| - 1], writers) + if w.batch.Some? then w.batch.value.ops else []
  }

  /** Operations are in queue order. */
  lemma {:induction false} GroupOpsConcat(a: seq<Id>, b: seq<Id>, writers: map<Id, Writer>)
    requires forall id :: id in a + b ==> id in writers
    ensures (forall id :: id in a ==> id in writers) && (forall id :: id in b ==> id in writers)
    ensures GroupOps(a + b, writers) == GroupOps(a, writers) + GroupOps(b, writers)
    ensures |b| == 1 ==> GroupOps(b, writers) == match writers[b[0]].batch case None => [] case Some(w) => w.ops
    decreases b
  {
    assert forall id :: id in a || id in b ==> id in a + b;
    if b == [] {
      assert a + b == a;
    } else {
      var front := b[..|b| - 1];
      assert (a + b)[..|a + b| - 1] == a + front;
      GroupOpsConcat(a, front, writers);
    }
  }

  /** The size of the batches of the first `n` writers. */
  function SizeSum(queue: seq<Id>, writers: map<Id, Writer>, n: nat): nat
    requires n <= |queue| && forall id :: id in queue ==> id in writers
  {
    if n == 0 then 0
    else
      var w := writers[queue[n - 1]];
      SizeSum(queue, writers, n - 1) + if w.batch.Some? then w.batch.value.size else 0
  }

  /** BuildBatchGroup: the number of writers taken and the operations of the batch built.  Writers join up to
      the first that asks for sync when the leader does not, or whose batch would take the size past the cap:
      1 MiB, or for a small first batch 128 KiB more than that one. */
  method BuildBatchGroup(queue: seq<Id>, writers: map<Id, Writer>) returns (n: nat, ops: seq<Op>)
    requires queue != [] && (forall id :: id in queue ==> id in writers) && writers[queue[0]].batch.Some?
    ensures n == GroupLength(queue, writers) && ops == GroupOps(queue[..n], writers)
    ensures 1 <= n <= |queue|
    ensures var first := writers[queue[0]];
            var cap := if first.batch.value.size <= 131072 then first.batch.value.size + 131072 else 1048576;
            && (forall k :: 1 <= k < n ==>
                  var w := writers[queue[k]];
                  (w.sync ==> first.sync) && (w.batch.Some? ==> SizeSum(queue, writers, k + 1) <= cap))
            && (n < |queue| ==>
                  var w := writers[queue[n]];
                  (w.sync && !first.sync) || (w.batch.Some? && SizeSum(queue, writers, n + 1) > cap))
  {
    GroupIsLongest(queue, writers);
    var first := writers[queue[0]];
    var size: nat := first.batch.value.size;
    var maxSize: nat := if size <= SMALL_WRITE then size + SMALL_WRITE else MAX_GROUP;
    ops := first.batch.value.ops;
    n := 1;
    assert queue[..1][..0] == [];
    while n < |queue|
      invariant 1 <= n <= |queue| && ops == GroupOps(queue[..n], writers)
      invariant GroupLength(queue, writers) == n + Joining(queue, writers, n, size, maxSize, first.sync)
    {
      var w := writers[queue[n]];
      if w.sync && !first.sync {
        return;
      }
      if w.batch.Some? {
        size := size + w.batch.value.size;
        if size > maxSize {
          return;
        }
        ops := ops + w.batch.value.ops;
      }
      assert queue[..n + 1][..n] == queue[..n];
      n := n + 1;
    }
  }

  /** The joiners are the longest run of writers that may join. */
  lemma {:induction false} JoiningIsLongest(queue: seq<Id>, writers: map<Id, Writer>, i: nat, size: nat,
          maxSize: nat, sync: bool)
    requires i <= |queue| && (forall id :: id in queue ==> id in writers) && size == SizeSum(queue, writers, i)
    ensures var n := i + Joining(queue, writers, i, size, maxSize, sync);
            && (forall k :: i <= k < n ==>
                  var w := writers[queue[k]];
                  (w.sync ==> sync) && (w.batch.Some? ==> SizeSum(queue, writers, k + 1) <= maxSize))
            && (n < |queue| ==>
                  var w := writers[queue[n]];
                  (w.sync && !sync) || (w.batch.Some? && SizeSum(queue, writers, n + 1) > maxSize))
    decreases |queue| - i
  {
    if i < |queue| {
      var w := writers[queue[i]];
      var more := if w.batch.Some? then w.batch.value.size else 0;
      assert SizeSum(queue, writers, i + 1) == size + more;
      if !(w.sync && !sync) && !(w.batch.Some? && size + more > maxSize) {
        JoiningIsLongest(queue, writers, i + 1, size + more, maxSize, sync);
      }
    }
  }

  lemma GroupIsLongest(queue: seq<Id>, writers: map<Id, Writer>)
    requires queue != [] && (forall id :: id in queue ==> id in writers) && writers[queue[0]].batch.Some?
    ensures var n := GroupLength(queue, writers);
            var first := writers[queue[0]];
            var cap := if first.batch.value.size <= 131072 then first.batch.value.size + 131072 else 1048576;
            && (forall k :: 1 <= k < n ==>
                  var w := writers[queue[k]];
                  (w.sync ==> first.sync) && (w.batch.Some? ==> SizeSum(queue, writers, k + 1) <= cap))
            && (n < |queue| ==>
                  var w := writers[queue[n]];
                  (w.sync && !first.sync) || (w.batch.Some? && SizeSum(queue, writers, n + 1) > cap))
  {
    var first := writers[queue[0]];
    assert SizeSum(queue, writers, 1) == SizeSum(queue, writers, 0) + first.batch.value.size;
    JoiningIsLongest(queue, writers, 1, first.batch.value.size, MaxSize(first.batch.value.size), first.sync);
  }

  /** A sync writer joins only the group of a sync writer. */
  lemma {:induction false} JoinersAreNoMoreSync(queue: seq<Id>, writers: map<Id, Writer>, i: nat, size: nat,
          maxSize: nat, sync: bool)
    requires i <= |queue| && forall id :: id in queue ==> id in writers
    ensures forall k :: i <= k < i + Joining(queue, writers, i, size, maxSize, sync) ==>
            (writers[queue[k]].sync ==> sync)
    decreases |queue| - i
  {
    if i < |queue| {
      var w := writers[queue[i]];
      JoinersAreNoMoreSync(queue, writers, i + 1, size + (if w.batch.Some? then w.batch.value.size else 0), maxSize,
        sync);
    }
  }

  // ---------------------------------------------------------------------------------------------
  // Steps
  // ---------------------------------------------------------------------------------------------

  /** Each step runs with the mutex held; between RoomDone and LogDone the leader runs without it. */
  datatype Step = Enqueue(id: Id, w: Writer) | Wake(id: Id) | RoomDone(roomOk: bool)
          | LogDone(addOk: bool, syncOk: bool)

  ghost predicate Enabled(s: State, step: Step) {
    match step
    case Enqueue(id, w) => id !in s.writers
    case Wake(id) => id in s.phase && s.phase[id].Waiting?
    case RoomDone(ok) => s.queue != [] && s.queue[0] in s.phase && s.phase[s.queue[0]] == Room && (ok ==> !s.bgError)
    case LogDone(_, _) => s.queue != [] && s.queue[0] in s.phase && s.phase[s.queue[0]].Logging?
  }

  /** The queue's front is signalled. */
  function SignalFront(queue: seq<Id>, phase: map<Id, Phase>): map<Id, Phase> {
    if queue != [] then phase[queue[0] := Waiting(false)] else phase
  }

  /** Every member but the leader is signalled. */
  function SignalMembers(members: seq<Id>, phase: map<Id, Phase>): map<Id, Phase> {
    map id | id in phase.Keys :: if id in members then (if id == members[0] then Returned else Waiting(false))
      else phase[id]
  }

  function Results(members: seq<Id>, ok: bool, result: map<Id, bool>): map<Id, bool> {
    map id | id in result.Keys + (set m | m in members) :: if id in members then ok else result[id]
  }

  ghost function Do(s: State, step: Step): State
    requires Inv(s) && Enabled(s, step)
  {
    match step
    case Enqueue(id, w) =>
      s.(queue := s.queue + [id], writers := s.writers[id := w], arrived := s.arrived + [id],
         phase := s.phase[id := if s.queue == [] then Room else Waiting(true)])
    case Wake(id) =>
      if id in s.result then s.(phase := s.phase[id := Returned])
      else if s.queue != [] && s.queue[0] == id then s.(phase := s.phase[id := Room])
      else s.(phase := s.phase[id := Waiting(true)])
    case RoomDone(ok) => DoRoom(s, ok)
    case LogDone(addOk, syncOk) => Commit(s, GroupEvent(s, addOk, syncOk))
  }

  /** MakeRoomForWrite is over: a batch goes on to be logged, anything else is done. */
  ghost function DoRoom(s: State, ok: bool): State
    requires Inv(s) && Enabled(s, RoomDone(ok))
  {
    var id := s.queue[0];
    if ok && s.writers[id].batch.Some? then s.(phase := s.phase[id := Logging(GroupLength(s.queue, s.writers))])
    else Commit(s, Alone(id, ok))
  }

  /** The outcome of logging, syncing and applying the group of the front writer. */
  ghost function GroupEvent(s: State, addOk: bool, syncOk: bool): Event
    requires Inv(s) && Enabled(s, LogDone(addOk, syncOk))
  {
    var id := s.queue[0];
    var members := s.queue[..s.phase[id].n];
    var sync := s.writers[id].sync;
    Group(members, s.lastSequence + 1, GroupOps(members, s.writers), addOk, addOk && sync && syncOk, addOk
      && (sync ==> syncOk))
  }

  /** The event's writers leave the queue with its status and are signalled, as is the new front. */
  ghost function Commit(s: State, e: Event): State
    requires |Members(e)| <= |s.queue| && Members(e) != []
  {
    var n := |Members(e)|;
    s.(queue := s.queue[n..], result := Results(Members(e), e.ok, s.result),
       phase := SignalFront(s.queue[n..], SignalMembers(Members(e), s.phase)),
       lastSequence := s.lastSequence + OpCount(e),
       mem := s.mem + InsertedBy(e),
       bgError := s.bgError || (e.Group? && e.added && !e.ok),
       history := s.history + [e])
  }

  function InsertedBy(e: Event): seq<Insertion> {
    if e.Group? && e.ok then Numbered(e.start, e.ops) else []
  }

  // ---------------------------------------------------------------------------------------------
  // The invariant
  // ---------------------------------------------------------------------------------------------

  function Members(e: Event): seq<Id> {
    if e.Group? then e.members else [e.id]
  }

  function AllMembers(history: seq<Event>): seq<Id> {
    if history == [] then [] else AllMembers(history[..|history| - 1]) + Members(history[|history| - 1])
  }

  function OpCount(e: Event): nat {
    if e.Group? then |e.ops| else 0
  }

  function TotalOps(history: seq<Event>): nat {
    if history == [] then 0 else TotalOps(history[..|history| - 1]) + OpCount(history[|history| - 1])
  }

  /** The insertions of the groups that succeeded. */
  function Inserted(history: seq<Event>): seq<Insertion> {
    if history == [] then [] else Inserted(history[..|history| - 1]) + InsertedBy(history[|history| - 1])
  }

  /** Who waits, who leads and who is done. */
  ghost predicate PhasesOk(s: State) {
    && s.phase.Keys == s.writers.Keys && s.result.Keys <= s.writers.Keys
    && (forall id :: id in s.queue ==> id in s.writers)
    && (forall i :: 0 < i < |s.queue| ==> s.phase[s.queue[i]].Waiting?)
    && (s.queue != [] ==>
          var p := s.phase[s.queue[0]];
          && (p.Waiting? ==> !p.asleep)
          && p != Returned
          && (p.Logging? ==>
            s.writers[s.queue[0]].batch.Some? && 1 <= p.n <= |s.queue| && NoMoreSync(s.queue[..p.n], s.writers)))
    && (forall id :: id in s.result ==> s.phase[id] == Returned || s.phase[id] == Waiting(false))
  }

  ghost predicate NoMoreSync(members: seq<Id>, writers: map<Id, Writer>)
    requires forall id :: id in members ==> id in writers
  {
    members != [] && forall i :: 0 <= i < |members| ==> (writers[members[i]].sync ==> writers[members[0]].sync)
  }

  ghost predicate EventOk(s: State, history: seq<Event>, k: nat)
    requires k < |history|
  {
    var e := history[k];
    match e
    case Group(members, start, ops, added, synced, ok) =>
      && (forall id :: id in members ==> id in s.writers && id in s.result && s.result[id] == ok)
      && NoMoreSync(members, s.writers) && s.writers[members[0]].batch.Some?
      && ops == GroupOps(members, s.writers)
      && start == TotalOps(history[..k]) + 1
      && (ok ==> added && (s.writers[members[0]].sync ==> synced))
    case Alone(id, ok) => id in s.writers && id in s.result && s.result[id] == ok && (ok ==> s.writers[id].batch.None?)
  }

  /** Writers finish in the order they arrived. */
  ghost predicate ListsOk(s: State) {
    && s.arrived == AllMembers(s.history) + s.queue && Distinct(s.arrived)
    && (forall id :: id in s.writers <==> id in s.arrived)
    && (forall id :: id in s.result <==> id in AllMembers(s.history))
  }

  ghost predicate HistoryOk(s: State) {
    && (forall k :: 0 <= k < |s.history| ==> EventOk(s, s.history, k))
    && s.lastSequence == TotalOps(s.history)
    && s.mem == Inserted(s.history)
  }

  ghost predicate Inv(s: State) {
    ListsOk(s) && PhasesOk(s) && HistoryOk(s)
  }

  const START := State([], map[], map[], map[], 0, [], false, [], [])

  lemma StartInv()
    ensures Inv(START)
  {
  }

  lemma EventsStay(s: State, t: State)
    requires forall k :: 0 <= k < |s.history| ==> EventOk(s, s.history, k)
    requires s.history <= t.history
    requires forall id :: id in s.writers ==> id in t.writers && t.writers[id] == s.writers[id]
    requires forall id :: id in s.result ==> id in t.result && t.result[id] == s.result[id]
    ensures forall k :: 0 <= k < |s.history| ==> EventOk(t, t.history, k)
  {
    forall k | 0 <= k < |s.history| ensures EventOk(t, t.history, k) {
      assert EventOk(s, s.history, k) && s.history[k] == t.history[k];
      assert s.history[..k] == t.history[..k];
      if s.history[k].Group? {
        GroupOpsSame(s.history[k].members, s.writers, t.writers);
      }
    }
  }

  lemma {:induction false} GroupOpsSame(members: seq<Id>, a: map<Id, Writer>, b: map<Id, Writer>)
    requires forall id :: id in members ==> id in a && id in b && a[id] == b[id]
    ensures GroupOps(members, a) == GroupOps(members, b)
  {
    if members != [] {
      GroupOpsSame(members[..|members| - 1], a, b);
    }
  }

  lemma DistinctSplit(a: seq<Id>, b: seq<Id>)
    requires Distinct(a + b)
    ensures Distinct(b) && forall id :: id in b ==> id !in a
  {
    forall i, j | 0 <= i < j < |b| ensures b[i] != b[j] {
      assert (a + b)[|a| + i] == b[i] && (a + b)[|a| + j] == b[j];
    }
    forall i, j | 0 <= i < |a| && 0 <= j < |b| ensures a[i] != b[j] {
      assert (a + b)[i] == a[i] && (a + b)[|a| + j] == b[j];
    }
  }

  /** A writer is queued or done, not both. */
  lemma InOnePlace(s: State)
    requires ListsOk(s)
    ensures forall id :: id in s.queue ==> id !in s.result && id in s.writers
    ensures Distinct(s.queue)
  {
    hide AllMembers;
    DistinctSplit(AllMembers(s.history), s.queue);
  }

  lemma EnqueueKeepsInv(s: State, id: Id, w: Writer)
    requires Inv(s) && id !in s.writers
    ensures Inv(Do(s, Enqueue(id, w)))
  {
    hide AllMembers, GroupOps, TotalOps, Inserted, EventOk, GroupLength, PhasesOk;
    var t := Do(s, Enqueue(id, w));
    EventsStay(s, t);
    assert ListsOk(t) by {
      assert t.arrived == AllMembers(t.history) + t.queue;
    }
    EnqueuePhases(s, id, w);
  }

  lemma EnqueuePhases(s: State, id: Id, w: Writer)
    requires ListsOk(s) && PhasesOk(s) && Enabled(s, Enqueue(id, w))
    ensures PhasesOk(s.(queue := s.queue + [id], writers := s.writers[id := w], arrived := s.arrived + [id],
                        phase := s.phase[id := if s.queue == [] then Room else Waiting(true)]))
  {
    InOnePlace(s);
    hide ListsOk, NoMoreSync;
    if s.queue != [] {
      var p := s.phase[s.queue[0]];
      if p.Logging? {
        assert (s.queue + [id])[..p.n] == s.queue[..p.n];
        SyncStays(s.queue[..p.n], s.writers, s.writers[id := w]);
      }
    }
  }

  lemma SyncStays(members: seq<Id>, writers: map<Id, Writer>, more: map<Id, Writer>)
    requires (forall id :: id in members ==> id in writers && id in more && more[id] == writers[id])
             && NoMoreSync(members, writers)
    ensures NoMoreSync(members, more)
  {
  }

  lemma WakeKeepsInv(s: State, id: Id)
    requires Inv(s) && id in s.phase && s.phase[id].Waiting?
    ensures Inv(Do(s, Wake(id)))
  {
    hide AllMembers, GroupOps, TotalOps, Inserted, EventOk, GroupLength, PhasesOk, Commit, DoRoom, GroupEvent;
    var t := Do(s, Wake(id));
    EventsStay(s, t);
    InOnePlace(s);
    WakePhases(s, t, id);
  }

  lemma WakePhases(s: State, t: State, id: Id)
    requires PhasesOk(s) && id in s.phase && s.phase[id].Waiting?
    requires forall x :: x in s.queue ==> x !in s.result
    requires Distinct(s.queue)
    requires t == s.(phase := s.phase[id :=
             if id in s.result then Returned else if s.queue != [] && s.queue[0] == id then Room else Waiting(true)])
    ensures PhasesOk(t)
  {
    if s.queue != [] {
      assert s.queue[0] in s.queue;
      forall i | 0 < i < |s.queue| ensures t.phase[s.queue[i]].Waiting? {
        assert s.queue[i] in s.queue && s.queue[0] != s.queue[i];
      }
    }
  }

  lemma MembersSnoc(history: seq<Event>, e: Event)
    ensures AllMembers(history + [e]) == AllMembers(history) + Members(e)
    ensures TotalOps(history + [e]) == TotalOps(history) + OpCount(e)
    ensures Inserted(history + [e]) == Inserted(history) + InsertedBy(e)
  {
    assert (history + [e])[..|history|] == history;
  }

  /** The first `n` queued writers are done. */
  lemma ListsAdvance(s: State, t: State, e: Event, n: nat)
    requires ListsOk(s) && n <= |s.queue| && Members(e) == s.queue[..n]
    requires t.history == s.history + [e] && t.queue == s.queue[n..] && t.arrived == s.arrived && t.writers == s.writers
    requires forall id :: id in t.result <==> id in s.result || id in s.queue[..n]
    ensures ListsOk(t)
  {
    hide Members;
    MembersSnoc(s.history, e);
    hide AllMembers;
    assert s.queue == s.queue[..n] + s.queue[n..];
    assert AllMembers(s.history) + s.queue == AllMembers(t.history) + t.queue;
    forall id ensures id in t.result <==> id in AllMembers(t.history) {
    }
  }

  lemma PhaseAfter(members: seq<Id>, rest: seq<Id>, phase: map<Id, Phase>)
    requires members != [] && forall id :: id in members + rest ==> id in phase
    ensures var next := SignalFront(rest, SignalMembers(members, phase));
            && next.Keys == phase.Keys
            && forall id :: id in phase ==>
                 next[id] == if rest != [] && id == rest[0] then Waiting(false)
                             else if id in members then (if id == members[0] then Returned else Waiting(false))
                             else phase[id]
  {
    if rest != [] {
      assert rest[0] in members + rest;
    }
  }

  lemma QueueHasPhases(s: State)
    requires PhasesOk(s)
    ensures s.phase.Keys == s.writers.Keys && forall id :: id in s.queue ==> id in s.phase
  {
  }

  /** The first `n` queued writers are done, signalled or returned, and the new front is signalled. */
  lemma PhasesAdvance(s: State, t: State, n: nat)
    requires ListsOk(s) && PhasesOk(s) && 1 <= n <= |s.queue|
    requires t.queue == s.queue[n..] && t.writers == s.writers
    requires t.result.Keys == s.result.Keys + (set m | m in s.queue[..n])
    requires t.phase == SignalFront(t.queue, SignalMembers(s.queue[..n], s.phase))
    ensures PhasesOk(t)
  {
    hide *;
    InOnePlace(s);
    QueueHasPhases(s);
    var members := s.queue[..n];
    assert s.queue == members + t.queue;
    DistinctSplit(members, t.queue);
    PhaseAfter(members, t.queue, s.phase);
    AdvanceParts(s, t, members);
  }

  lemma AdvanceParts(s: State, t: State, members: seq<Id>)
    requires PhasesOk(s) && s.queue == members + t.queue && members != [] && t.writers == s.writers
    requires Distinct(t.queue) && (forall id :: id in t.queue ==> id !in members)
             && (forall id :: id in s.queue ==> id !in s.result)
    requires t.result.Keys == s.result.Keys + (set m | m in members)
    requires t.phase.Keys == s.phase.Keys
    requires forall id :: id in s.phase ==>
               t.phase[id] == if t.queue != [] && id == t.queue[0] then Waiting(false)
                              else if id in members then (if id == members[0] then Returned else Waiting(false))
                              else s.phase[id]
    ensures PhasesOk(t)
  {
    forall id | id in t.queue ensures id in s.queue && id in s.phase {
    }
    forall i | 0 < i < |t.queue| ensures t.phase[t.queue[i]].Waiting? {
      assert t.queue[i] == s.queue[|members| + i] && t.queue[i] in t.queue && t.queue[0] != t.queue[i];
    }
    forall id | id in t.result ensures id in s.phase && (t.phase[id] == Returned || t.phase[id] == Waiting(false)) {
      if id in members {
        assert id in s.queue;
      }
    }
  }

  lemma HistoryAdvance(s: State, t: State, e: Event)
    requires HistoryOk(s) && t.history == s.history + [e]
    requires t.writers == s.writers && forall id :: id in s.result ==> id in t.result && t.result[id] == s.result[id]
    requires t.lastSequence == s.lastSequence + OpCount(e)
    requires t.mem == s.mem + InsertedBy(e)
    requires EventOk(t, t.history, |s.history|)
    ensures HistoryOk(t)
  {
    hide EventOk, AllMembers, Numbered;
    EventsStay(s, t);
    MembersSnoc(s.history, e);
  }

  lemma RoomDoneKeepsInv(s: State, ok: bool)
    requires Inv(s) && Enabled(s, RoomDone(ok))
    ensures Inv(DoRoom(s, ok))
  {
    if ok && s.writers[s.queue[0]].batch.Some? {
      hide ListsOk, HistoryOk;
      RoomEnters(s, DoRoom(s, ok));
    } else {
      AloneEventOk(s, s.queue[0], ok);
      CommitFinishes(s, Alone(s.queue[0], ok));
      hide Inv, EventOk, Commit, Finishes;
      FinishKeepsInv(s, DoRoom(s, ok), Alone(s.queue[0], ok), 1);
    }
  }

  lemma RoomEnters(s: State, t: State)
    requires Inv(s) && s.queue != [] && s.writers[s.queue[0]].batch.Some?
    requires t == s.(phase := s.phase[s.queue[0] := Logging(GroupLength(s.queue, s.writers))])
    ensures Inv(t)
  {
    RoomPhases(s, t);
    hide PhasesOk, AllMembers, GroupOps, TotalOps, Inserted, EventOk;
    EventsStay(s, t);
  }

  lemma AloneEventOk(s: State, id: Id, ok: bool)
    requires Inv(s) && s.queue != [] && id == s.queue[0] && (ok ==> s.writers[id].batch.None?)
    ensures AtFront(s, Alone(id, ok)) && EventOk(Commit(s, Alone(id, ok)), s.history + [Alone(id, ok)], |s.history|)
  {
    hide AllMembers, GroupOps, TotalOps, Inserted, GroupLength, SignalMembers, SignalFront, InsertedBy;
    ResultsAt([id], ok, s.result);
    hide Results;
    assert id in s.queue;
  }

  /** The event is about the writers at the front of the queue. */
  ghost predicate AtFront(s: State, e: Event) {
    Members(e) != [] && |Members(e)| <= |s.queue| && Members(e) == s.queue[..|Members(e)|]
  }

  /** Between a state and the next, the event's writers are done. */
  ghost predicate Finishes(s: State, t: State, e: Event, n: nat) {
    AtFront(s, e) && n == |Members(e)| && t == Commit(s, e)
  }

  lemma CommitFinishes(s: State, e: Event)
    requires AtFront(s, e)
    ensures Finishes(s, Commit(s, e), e, |Members(e)|)
  {
  }

  lemma FinishKeepsLists(s: State, t: State, e: Event, n: nat)
    requires ListsOk(s) && PhasesOk(s) && Finishes(s, t, e, n)
    ensures ListsOk(t) && PhasesOk(t)
  {
    hide AllMembers, SignalMembers, SignalFront, Numbered, OpCount, Members, InsertedBy;
    ResultsAt(s.queue[..n], e.ok, s.result);
    hide Results;
    ListsAdvance(s, t, e, n);
    PhasesAdvance(s, t, n);
  }

  lemma FinishKeepsInv(s: State, t: State, e: Event, n: nat)
    requires Inv(s) && Finishes(s, t, e, n) && EventOk(t, t.history, |s.history|)
    ensures Inv(t)
  {
    FinishKeepsLists(s, t, e, n);
    InOnePlace(s);
    ResultsAt(s.queue[..n], e.ok, s.result);
    hide ListsOk, PhasesOk, EventOk, Results, SignalMembers, SignalFront, InsertedBy, OpCount, Members;
    assert forall id :: id in s.queue[..n] ==> id in s.queue;
    HistoryAdvance(s, t, e);
  }

  lemma RoomPhases(s: State, t: State)
    requires ListsOk(s) && PhasesOk(s) && s.queue != [] && s.writers[s.queue[0]].batch.Some?
    requires t == s.(phase := s.phase[s.queue[0] := Logging(GroupLength(s.queue, s.writers))])
    ensures PhasesOk(t)
  {
    InOnePlace(s);
    hide ListsOk;
    var first := s.writers[s.queue[0]];
    var n := GroupLength(s.queue, s.writers);
    JoinersAreNoMoreSync(s.queue, s.writers, 1, first.batch.value.size, MaxSize(first.batch.value.size), first.sync);
    assert NoMoreSync(s.queue[..n], s.writers);
  }

  lemma LogDoneKeepsInv(s: State, addOk: bool, syncOk: bool)
    requires Inv(s) && Enabled(s, LogDone(addOk, syncOk))
    ensures Inv(Commit(s, GroupEvent(s, addOk, syncOk)))
  {
    var e := GroupEvent(s, addOk, syncOk);
    CommitFinishes(s, e);
    GroupEventOk(s, e);
    hide Inv, EventOk, Commit, Finishes, GroupEvent;
    FinishKeepsInv(s, Commit(s, e), e, |Members(e)|);
  }

  lemma GroupEventOk(s: State, e: Event)
    requires Inv(s) && AtFront(s, e) && s.phase[s.queue[0]] == Logging(|Members(e)|)
    requires e.Group? && e.start == s.lastSequence + 1 && e.ops == GroupOps(e.members, s.writers)
    requires e.ok ==> e.added && (s.writers[s.queue[0]].sync ==> e.synced)
    ensures EventOk(Commit(s, e), Commit(s, e).history, |s.history|)
  {
    hide AllMembers, GroupOps, TotalOps, Inserted, GroupLength, SignalMembers, SignalFront, InsertedBy, Results;
    GroupFacts(s, e);
    hide Inv, ListsOk, PhasesOk, HistoryOk, NoMoreSync;
    var t := Commit(s, e);
    assert t.history[..|s.history|] == s.history;
    ResultsAt(e.members, e.ok, s.result);
  }

  lemma GroupFacts(s: State, e: Event)
    requires Inv(s) && AtFront(s, e) && e.Group? && s.phase[s.queue[0]] == Logging(|e.members|)
    ensures (forall id :: id in e.members ==> id in s.writers) && e.members[0] == s.queue[0]
    ensures NoMoreSync(e.members, s.writers) && s.writers[e.members[0]].batch.Some?
            && s.lastSequence == TotalOps(s.history)
  {
    hide AllMembers, TotalOps, Inserted, EventOk;
    assert forall x :: x in e.members ==> x in s.queue;
  }

  lemma ResultsAt(members: seq<Id>, ok: bool, result: map<Id, bool>)
    ensures var r := Results(members, ok, result);
            && r.Keys == result.Keys + (set m | m in members)
            && forall id :: id in r ==> r[id] == if id in members then ok else result[id]
  {
  }

  // ---------------------------------------------------------------------------------------------
  // Runs
  // ---------------------------------------------------------------------------------------------

  lemma DoKeepsInv(s: State, step: Step)
    requires Inv(s) && Enabled(s, step)
    ensures Inv(Do(s, step))
  {
    match step
    case Enqueue(id, w) => EnqueueKeepsInv(s, id, w);
    case Wake(id) => WakeKeepsInv(s, id);
    case RoomDone(ok) => RoomDoneKeepsInv(s, ok);
    case LogDone(addOk, syncOk) => LogDoneKeepsInv(s, addOk, syncOk);
  }

  /** The steps of a run are each enabled when they are taken. */
  ghost predicate Legal(steps: seq<Step>)
    decreases |steps|, 0
  {
    steps == [] || (Legal(steps[..|steps| - 1]) && Enabled(After(steps[..|steps| - 1]), steps[|steps| - 1]))
  }

  /** The state after a run. */
  ghost function After(steps: seq<Step>): (s: State)
    requires Legal(steps)
    ensures Inv(s)
    decreases |steps|, 1
  {
    if steps == [] then
      StartInv();
      START
    else
      var before := After(steps[..|steps| - 1]);
      DoKeepsInv(before, steps[|steps| - 1]);
      Do(before, steps[|steps| - 1])
  }

  // ---------------------------------------------------------------------------------------------
  // What every reachable state satisfies
  // ---------------------------------------------------------------------------------------------

  predicate Leads(p: Phase) {
    p == Room || p.Logging?
  }

  /** At most one writer makes room or logs, and it is the front of the queue. */
  lemma OneLeader(s: State, a: Id, b: Id)
    requires Inv(s) && a in s.phase && b in s.phase && Leads(s.phase[a]) && Leads(s.phase[b])
    ensures a == b && s.queue != [] && s.queue[0] == a
  {
    hide EventOk, TotalOps, Inserted;
    assert Placed(s, a) by {
      WhereIs(s, a);
    }
    assert Placed(s, b) by {
      WhereIs(s, b);
    }
  }

  ghost predicate Placed(s: State, id: Id) {
    id in s.result || exists j :: 0 <= j < |s.queue| && s.queue[j] == id
  }

  lemma WhereIs(s: State, id: Id)
    requires ListsOk(s) && id in s.writers
    ensures Placed(s, id)
  {
    hide AllMembers;
    var k :| 0 <= k < |s.arrived| && s.arrived[k] == id;
    if k < |AllMembers(s.history)| {
      assert AllMembers(s.history)[k] == id;
    } else {
      assert s.queue[k - |AllMembers(s.history)|] == id;
    }
  }

  /** No wake-up is lost: a writer asleep is neither done nor at the front, and the front is not asleep. */
  lemma NoLostWakeup(s: State, id: Id)
    requires Inv(s) && id in s.phase && s.phase[id] == Waiting(true)
    ensures id !in s.result && id in s.queue && s.queue[0] != id && s.phase[s.queue[0]] != Waiting(true)
  {
    hide EventOk, TotalOps, Inserted;
    WhereIs(s, id);
  }

  /** Writers are done in the order they arrived, each by one event. */
  lemma DoneInOrder(s: State)
    requires Inv(s)
    ensures AllMembers(s.history) <= s.arrived && Distinct(AllMembers(s.history))
  {
    hide EventOk, TotalOps, Inserted, AllMembers;
    var done := AllMembers(s.history);
    assert s.arrived[..|done|] == done;
    forall i, j | 0 <= i < j < |done| ensures done[i] != done[j] {
      assert s.arrived[i] == done[i] && s.arrived[j] == done[j];
    }
  }

  lemma {:induction false} TotalOpsAscend(history: seq<Event>, j: nat, k: nat)
    requires j < k <= |history|
    ensures TotalOps(history[..j]) + OpCount(history[j]) <= TotalOps(history[..k])
    decreases k
  {
    assert history[..k][..k - 1] == history[..k - 1];
    if j < k - 1 {
      TotalOpsAscend(history, j, k - 1);
    }
  }

  /** Groups have disjoint, increasing ranges of sequence numbers, all up to the last sequence. */
  lemma RangesAscend(s: State, j: nat, k: nat)
    requires Inv(s) && j < k < |s.history| && s.history[j].Group? && s.history[k].Group?
    ensures s.history[j].start + |s.history[j].ops| <= s.history[k].start
    ensures s.history[k].start + |s.history[k].ops| <= s.lastSequence + 1
  {
    hide TotalOps, GroupOps, PhasesOk, ListsOk, NoMoreSync;
    assert EventOk(s, s.history, j) && EventOk(s, s.history, k);
    TotalOpsAscend(s.history, j, k);
    TotalOpsAscend(s.history, k, |s.history|);
    assert s.history[..|s.history|] == s.history;
  }

  /** The memtable is numbered without repeats, in order, up to the last sequence. */
  lemma {:induction false} MemAscends(s: State, n: nat)
    requires Inv(s) && n <= |s.history|
    ensures Ascends(Inserted(s.history[..n]), TotalOps(s.history[..n]))
    decreases n
  {
    hide GroupOps, PhasesOk, ListsOk, NoMoreSync, Ascends;
    if n > 0 {
      MemAscends(s, n - 1);
      var e := s.history[n - 1];
      assert EventOk(s, s.history, n - 1);
      assert s.history[..n][..n - 1] == s.history[..n - 1];
      AscendsAfter(Inserted(s.history[..n - 1]), TotalOps(s.history[..n - 1]), e);
    } else {
      NoneAscends(s.history[..0]);
    }
  }

  /** Sequence numbers increase, and stay between 1 and the number of operations. */
  ghost predicate Ascends(mem: seq<Insertion>, ops: nat) {
    && (forall i, j :: 0 <= i < j < |mem| ==> mem[i].sequence < mem[j].sequence)
    && (forall i :: 0 <= i < |mem| ==> 1 <= mem[i].sequence <= ops)
  }

  lemma NoneAscends(history: seq<Event>)
    requires history == []
    ensures Ascends(Inserted(history), TotalOps(history))
  {
  }

  lemma AscendsAfter(mem: seq<Insertion>, ops: nat, e: Event)
    requires Ascends(mem, ops) && (e.Group? ==> e.start == ops + 1)
    ensures Ascends(mem + InsertedBy(e), ops + OpCount(e))
  {
  }

  lemma {:induction false} EventOf(history: seq<Event>, id: Id) returns (k: nat)
    requires id in AllMembers(history)
    ensures k < |history| && id in Members(history[k])
  {
    if id in Members(history[|history| - 1]) {
      k := |history| - 1;
    } else {
      k := EventOf(history[..|history| - 1], id);
    }
  }

  /** A write that returned OK is in a group that was logged and applied; if it asked for sync, the
      log was synced after the group was added. */
  lemma OkMeansLogged(s: State, id: Id) returns (k: nat)
    requires Inv(s) && id in s.result && s.result[id] && s.writers[id].batch.Some?
    ensures k < |s.history| && s.history[k].Group? && id in s.history[k].members
    ensures s.history[k].ok && s.history[k].added && (s.writers[id].sync ==> s.history[k].synced)
    ensures EventOk(s, s.history, k)
  {
    hide GroupOps, PhasesOk, TotalOps, Inserted;
    k := EventOf(s.history, id);
    assert EventOk(s, s.history, k);
    if s.history[k].Group? {
      var i :| 0 <= i < |s.history[k].members| && s.history[k].members[i] == id;
      assert s.writers[s.history[k].members[i]].sync ==> s.writers[s.history[k].members[0]].sync;
    }
  }

  lemma AfterSnoc(steps: seq<Step>, step: Step)
    requires Legal(steps) && Enabled(After(steps), step)
    ensures Legal(steps + [step]) && After(steps + [step]) == Do(After(steps), step)
  {
    assert (steps + [step])[..|steps|] == steps;
  }

  const WRITE := Writer(Some(Batch([Put([1], [1])], 20)), false)
  const REQUEST := Writer(None, false)

  lemma FirstArrives() returns (steps: seq<Step>)
    ensures Legal(steps)
    ensures After(steps) == State([1], map[1 := WRITE], map[1 := Room], map[], 0, [], false, [1], [])
  {
    AfterSnoc([], Enqueue(1, WRITE));
    steps := [] + [Enqueue(1, WRITE)];
  }

  lemma SecondArrives() returns (steps: seq<Step>)
    ensures Legal(steps)
    ensures After(steps) ==
            State([1, 2], map[1 := WRITE, 2 := REQUEST], map[1 := Room, 2 := Waiting(true)], map[], 0, [], false,
              [1, 2], [])
  {
    var before := FirstArrives();
    hide After, Legal, Inv;
    AfterSnoc(before, Enqueue(2, REQUEST));
    steps := before + [Enqueue(2, REQUEST)];
  }

  lemma RequestJoins(queue: seq<Id>, writers: map<Id, Writer>)
    requires queue == [1, 2] && writers == map[1 := WRITE, 2 := REQUEST]
    ensures GroupLength(queue, writers) == 2
  {
    assert queue[0] == 1 && queue[1] == 2;
    assert writers[1] == WRITE && writers[2] == REQUEST;
    var n := Joining(queue, writers, 2, 20, MaxSize(20), false);
    assert Joining(queue, writers, 1, 20, MaxSize(20), false) == 1 + n;
  }

  lemma LeaderForms(s: State)
    requires Inv(s) && s.queue != [] && s.queue[0] in s.phase && s.phase[s.queue[0]] == Room && !s.bgError
    requires s.queue[0] in s.writers && s.writers[s.queue[0]].batch.Some?
    ensures Enabled(s, RoomDone(true))
    ensures Do(s, RoomDone(true)) == s.(phase := s.phase[s.queue[0] := Logging(GroupLength(s.queue, s.writers))])
  {
  }

  lemma RoomLeft(phase: map<Id, Phase>)
    requires phase == map[1 := Room, 2 := Waiting(true)]
    ensures phase[1 := Logging(2)] == map[1 := Logging(2), 2 := Waiting(true)]
  {
  }

  lemma GroupForms() returns (steps: seq<Step>)
    ensures Legal(steps)
    ensures After(steps) ==
            State([1, 2], map[1 := WRITE, 2 := REQUEST], map[1 := Logging(2), 2 := Waiting(true)], map[], 0, [], false,
              [1, 2], [])
  {
    var before := SecondArrives();
    var s := After(before);
    RequestJoins(s.queue, s.writers);
    assert s.queue[0] == 1 && s.phase[1] == Room && s.writers[1].batch.Some?;
    hide *;
    LeaderForms(s);
    AfterSnoc(before, RoomDone(true));
    RoomLeft(s.phase);
    steps := before + [RoomDone(true)];
  }

  lemma GroupCommits(s: State, n: nat)
    requires Inv(s) && s.queue != [] && s.queue[0] in s.phase && s.phase[s.queue[0]] == Logging(n)
             && 1 <= n <= |s.queue|
    ensures Enabled(s, LogDone(true, true))
    ensures var t := Do(s, LogDone(true, true));
            && t.writers == s.writers && t.result == Results(s.queue[..n], true, s.result)
            && |t.history| == |s.history| + 1 && t.history[|s.history|].Group?
            && t.history[|s.history|].members == s.queue[..n]
  {
    hide Inv, Results, SignalMembers, SignalFront, GroupOps, InsertedBy;
  }

  /** A request to make room can be absorbed by a group: it returns OK though it never made room
      itself.  Here the request 2 queues up behind the write 1. */
  lemma RequestAbsorbed() returns (steps: seq<Step>)
    ensures Legal(steps)
    ensures var s := After(steps);
            && 2 in s.result && s.result[2] && 2 in s.writers && s.writers[2] == REQUEST
            && |s.history| == 1 && s.history[0].Group? && s.history[0].members == [1, 2]
  {
    var before := GroupForms();
    var s := After(before);
    hide *;
    GroupCommits(s, 2);
    AfterSnoc(before, LogDone(true, true));
    steps := before + [LogDone(true, true)];
    assert s.queue[..2] == [1, 2];
    ResultsAt([1, 2], true, s.result);
    assert 2 in [1, 2];
  }

  /** A done request is in one event: its own, or a group's. */
  lemma AloneOrInGroup(s: State, id: Id)
    requires Inv(s) && id in s.result && s.result[id] && s.writers[id].batch.None?
    ensures (exists k :: 0 <= k < |s.history| && s.history[k] == Alone(id, true)) <==>
            !(exists k :: 0 <= k < |s.history| && s.history[k].Group? && id in s.history[k].members)
  {
    hide GroupOps, PhasesOk, TotalOps, Inserted;
    var k := EventOf(s.history, id);
    assert EventOk(s, s.history, k);
    DoneInOrder(s);
    forall j | 0 <= j < |s.history| && id in Members(s.history[j]) ensures j == k {
      OneEvent(s.history, j, k, id);
    }
  }

  lemma {:induction false} OneEvent(history: seq<Event>, j: nat, k: nat, id: Id)
    requires Distinct(AllMembers(history)) && j < |history| && k < |history|
    requires id in Members(history[j]) && id in Members(history[k])
    ensures j == k
    decreases |history|
  {
    var init, last := history[..|history| - 1], history[|history| - 1];
    DistinctParts(AllMembers(init), Members(last));
    if j < |init| && k < |init| {
      OneEvent(init, j, k, id);
    } else if j < |init| {
      InAll(init, j, id);
    } else if k < |init| {
      InAll(init, k, id);
    }
  }

  lemma DistinctParts(a: seq<Id>, b: seq<Id>)
    requires Distinct(a + b)
    ensures Distinct(a) && forall id :: id in b ==> id !in a
  {
    DistinctSplit(a, b);
    forall i, j | 0 <= i < j < |a| ensures a[i] != a[j] {
      assert (a + b)[i] == a[i] && (a + b)[j] == a[j];
    }
  }

  lemma {:induction false} InAll(history: seq<Event>, j: nat, id: Id)
    requires j < |history| && id in Members(history[j])
    ensures id in AllMembers(history)
    decreases |history|
  {
    if j < |history| - 1 {
      InAll(history[..|history| - 1], j, id);
    }
  }
}
