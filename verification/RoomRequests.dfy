/** Requests to make room, and the groups of other writes that absorb them. */
module RoomRequests {
  import opened WriterQueue

  /** The leader has room and a batch, and forms a group that reaches the writer at index `i`. */
  ghost predicate Takes(s: State, step: Step, i: nat)
    requires Inv(s) && Enabled(s, step)
  {
    step == RoomDone(true) && s.writers[s.queue[0]].batch.Some? && i < GroupLength(s.queue, s.writers)
  }

  ghost predicate Catches(s: State, step: Step, id: Id)
    requires Inv(s) && Enabled(s, step)
  {
    exists i: nat :: i < |s.queue| && s.queue[i] == id && Takes(s, step, i)
  }

  /** Some step of the run formed a group that took the writer. */
  ghost predicate Caught(steps: seq<Step>, id: Id)
    requires Legal(steps)
  {
    steps != [] &&
    var before := steps[..|steps| - 1];
    Caught(before, id) || Catches(After(before), steps[|steps| - 1], id)
  }

  ghost predicate InGroup(s: State, id: Id) {
    exists k :: 0 <= k < |s.history| && s.history[k].Group? && id in s.history[k].members
  }

  /** The group being logged has the writer. */
  ghost predicate BeingLogged(s: State, id: Id) {
    && s.queue != [] && s.queue[0] in s.phase && s.phase[s.queue[0]].Logging?
    && s.phase[s.queue[0]].n <= |s.queue| && id in s.queue[..s.phase[s.queue[0]].n]
  }

  ghost predicate Taken(s: State, id: Id) {
    InGroup(s, id) || BeingLogged(s, id)
  }

  /** The writer at index `i` of the queue is taken if and only if the group reaches that far. */
  lemma TakenIff(s: State, i: nat)
    requires Inv(s) && Enabled(s, RoomDone(true)) && s.writers[s.queue[0]].batch.Some? && i < |s.queue|
    ensures BeingLogged(Do(s, RoomDone(true)), s.queue[i]) <==> i < GroupLength(s.queue, s.writers)
  {
    InOnePlace(s);
    LeaderForms(s);
    var n := GroupLength(s.queue, s.writers);
    hide Inv, Do, GroupLength;
    if s.queue[i] in s.queue[..n] {
      var j :| 0 <= j < n && s.queue[..n][j] == s.queue[i];
      assert s.queue[j] == s.queue[i];
    }
    if i < n {
      assert s.queue[..n][i] == s.queue[i];
    }
  }

  lemma CatchesIs(s: State, step: Step, id: Id)
    requires Inv(s) && Enabled(s, step)
    ensures Catches(s, step, id) <==>
            step == RoomDone(true) && s.writers[s.queue[0]].batch.Some?
              && id in s.queue[..GroupLength(s.queue, s.writers)]
  {
    hide GroupLength, ListsOk, HistoryOk;
    if step == RoomDone(true) && s.writers[s.queue[0]].batch.Some? {
      var n := GroupLength(s.queue, s.writers);
      if id in s.queue[..n] {
        var i :| 0 <= i < n && s.queue[..n][i] == id;
        assert s.queue[i] == id && Takes(s, step, i);
      }
      if Catches(s, step, id) {
        var i: nat :| i < |s.queue| && s.queue[i] == id && Takes(s, step, i);
        assert s.queue[..n][i] == id;
      }
    }
  }

  // ---------------------------------------------------------------------------------------------
  // One step
  // ---------------------------------------------------------------------------------------------

  lemma EnqueueTakes(s: State, id: Id, w: Writer, x: Id)
    requires Inv(s) && Enabled(s, Enqueue(id, w))
    ensures Taken(Do(s, Enqueue(id, w)), x) <==> Taken(s, x)
  {
    var t := Do(s, Enqueue(id, w));
    FrontKnown(s);
    hide Inv;
    if s.queue != [] && s.phase[s.queue[0]].Logging? {
      var n := s.phase[s.queue[0]].n;
      assert n <= |s.queue| ==> t.queue[..n] == s.queue[..n];
    }
  }

  lemma FrontKnown(s: State)
    requires Inv(s)
    ensures s.queue != [] ==> s.queue[0] in s.writers && s.queue[0] in s.phase
    ensures s.queue != [] && s.phase[s.queue[0]].Logging? ==> s.phase[s.queue[0]].n <= |s.queue|
  {
    hide ListsOk, HistoryOk;
    assert s.queue != [] ==> s.queue[0] in s.queue;
  }

  lemma WakeTakes(s: State, id: Id, x: Id)
    requires Inv(s) && Enabled(s, Wake(id))
    ensures Taken(Do(s, Wake(id)), x) <==> Taken(s, x)
  {
    FrontKnown(s);
    hide Inv, Commit;
  }

  lemma RoomDoneTakes(s: State, ok: bool, x: Id)
    requires Inv(s) && Enabled(s, RoomDone(ok))
    ensures Taken(Do(s, RoomDone(ok)), x) <==> Taken(s, x) || Catches(s, RoomDone(ok), x)
  {
    FrontKnown(s);
    CatchesIs(s, RoomDone(ok), x);
    hide Inv, Catches, GroupLength;
    if ok && s.writers[s.queue[0]].batch.Some? {
      assert s.queue[0] in s.phase;
    } else {
      CommitTakes(s, Alone(s.queue[0], ok), x);
    }
  }

  /** After a commit the new front is waiting, and the event is the last of the history. */
  lemma CommitTakes(s: State, e: Event, x: Id)
    requires |Members(e)| <= |s.queue| && Members(e) != []
    ensures Taken(Commit(s, e), x) <==> InGroup(s, x) || (e.Group? && x in e.members)
  {
    var t := Commit(s, e);
    hide SignalMembers, Results, InsertedBy, OpCount;
    assert t.queue != [] ==> t.phase[t.queue[0]] == Waiting(false);
    hide SignalFront;
    if InGroup(s, x) {
      var k :| 0 <= k < |s.history| && s.history[k].Group? && x in s.history[k].members;
      assert t.history[k] == s.history[k];
    }
    if e.Group? && x in e.members {
      assert t.history[|s.history|] == e;
    }
    if InGroup(t, x) {
      var k :| 0 <= k < |t.history| && t.history[k].Group? && x in t.history[k].members;
      assert k < |s.history| ==> s.history[k] == t.history[k];
    }
  }

  lemma LogDoneTakes(s: State, addOk: bool, syncOk: bool, x: Id)
    requires Inv(s) && Enabled(s, LogDone(addOk, syncOk))
    ensures Taken(Do(s, LogDone(addOk, syncOk)), x) <==> Taken(s, x)
  {
    FrontKnown(s);
    var e := GroupEvent(s, addOk, syncOk);
    assert e.Group? && e.members == s.queue[..s.phase[s.queue[0]].n];
    GroupHasMembers(s);
    hide Inv, GroupEvent, Commit, InGroup;
    CommitTakes(s, e, x);
  }

  lemma GroupHasMembers(s: State)
    requires Inv(s) && s.queue != [] && s.queue[0] in s.phase && s.phase[s.queue[0]].Logging?
    ensures 1 <= s.phase[s.queue[0]].n <= |s.queue|
  {
    hide ListsOk, HistoryOk;
  }

  lemma StepTakes(s: State, step: Step, x: Id)
    requires Inv(s) && Enabled(s, step)
    ensures Taken(Do(s, step), x) <==> Taken(s, x) || Catches(s, step, x)
  {
    hide Inv, Enabled, Do, Taken;
    match step
    case Enqueue(id, w) => EnqueueTakes(s, id, w, x);
    case Wake(id) => WakeTakes(s, id, x);
    case RoomDone(ok) => RoomDoneTakes(s, ok, x);
    case LogDone(addOk, syncOk) => LogDoneTakes(s, addOk, syncOk, x);
  }

  // ---------------------------------------------------------------------------------------------
  // Runs
  // ---------------------------------------------------------------------------------------------

  lemma {:induction false} CaughtIsTaken(steps: seq<Step>, id: Id)
    requires Legal(steps)
    ensures Caught(steps, id) <==> Taken(After(steps), id)
  {
    if steps != [] {
      var before, step := steps[..|steps| - 1], steps[|steps| - 1];
      CaughtIsTaken(before, id);
      StepTakes(After(before), step, id);
      hide Taken, Catches, Do, Inv;
    }
  }

  ghost predicate MadeRoom(s: State, id: Id) {
    exists k :: 0 <= k < |s.history| && s.history[k] == Alone(id, true)
  }

  /** A request to make room that returned OK made room itself, if and only if no leader with a batch,
      when it had room, found the request within reach of its group. */
  lemma RequestMadeRoomIff(steps: seq<Step>, id: Id)
    requires Legal(steps)
    requires var s := After(steps); id in s.result && s.result[id] && s.writers[id].batch.None?
    ensures MadeRoom(After(steps), id) <==> !Caught(steps, id)
  {
    var s := After(steps);
    CaughtIsTaken(steps, id);
    AloneOrInGroup(s, id);
    DoneNotQueued(s, id);
    hide After, Caught, Legal, Inv;
  }

  lemma DoneNotQueued(s: State, id: Id)
    requires Inv(s) && id in s.result
    ensures !BeingLogged(s, id)
  {
    InOnePlace(s);
    assert BeingLogged(s, id) ==> id in s.queue;
  }
}
