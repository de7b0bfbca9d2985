/** What a crash leaves of concurrent writes: the groups of the writer queue, logged, cut off at any byte,
    and recovered. */
module Durability {
  import opened Options
  import opened Coding
  import opened LogFormat
  import opened LogAttempts
  import opened WriteBatches
  import opened WriterQueue
  import LogRoundTrip
  import LogRecovery

  /** The groups' batches fit their encoding. */
  ghost predicate Small(history: seq<Event>) {
    forall k :: 0 <= k < |history| && history[k].Group? ==> SmallGroup(history[k])
  }

  ghost predicate SmallGroup(e: Event)
    requires e.Group?
  {
    OpsOk(e.ops) && 1 <= e.start < TWO64 && e.start + |e.ops| <= TWO64
  }

  ghost predicate IsLogged(e: Event) {
    e.Group? && e.added
  }

  /** The groups that were added to the log, in order; some of them may have failed to sync. */
  ghost function Logs(history: seq<Event>): (r: seq<LogRecovery.Logged>)
    requires Small(history)
    ensures LogRecovery.AllLoggedOk(r)
  {
    if history == [] then []
    else
      var e := history[|history| - 1];
      assert e.Group? ==> SmallGroup(e);
      Logs(history[..|history| - 1]) + if IsLogged(e) then [LogRecovery.Logged(e.start, e.ops)] else []
  }

  lemma LogsSnoc(history: seq<Event>, k: nat)
    requires Small(history) && k < |history|
    ensures Small(history[..k]) && Small(history[..k + 1])
    ensures var e := history[k];
            Logs(history[..k + 1]) == Logs(history[..k]) + if IsLogged(e) then [LogRecovery.Logged(e.start, e.ops)]
              else []
  {
    assert history[..k + 1][..k] == history[..k];
  }

  lemma {:induction false} LogsPrefix(history: seq<Event>, j: nat, k: nat)
    requires Small(history) && j <= k <= |history|
    ensures Small(history[..j]) && Small(history[..k]) && Logs(history[..j]) <= Logs(history[..k])
    decreases k
  {
    if j < k {
      LogsPrefix(history, j, k - 1);
      LogsSnoc(history, k - 1);
    }
  }

  // ---------------------------------------------------------------------------------------------
  // The log is numbered upwards
  // ---------------------------------------------------------------------------------------------

  lemma {:induction false} LogsBelow(s: State, k: nat)
    requires Inv(s) && Small(s.history) && k <= |s.history|
    ensures Small(s.history[..k])
    ensures LogRecovery.MaxSequence(Logs(s.history[..k]), 0) <= TotalOps(s.history[..k])
    ensures LogRecovery.Ascending(Logs(s.history[..k]), 0)
    decreases k
  {
    hide PhasesOk, ListsOk, GroupOps, NoMoreSync, Inserted, OpsOk;
    if k > 0 {
      LogsBelow(s, k - 1);
      LogsSnoc(s.history, k - 1);
      var e := s.history[k - 1];
      assert EventOk(s, s.history, k - 1);
      assert s.history[..k][..k - 1] == s.history[..k - 1];
      hide Logs, Inv;
      AscendingSnoc(Logs(s.history[..k - 1]), Logs(s.history[..k]), e, TotalOps(s.history[..k - 1]));
    }
  }

  lemma AscendingSnoc(a: seq<LogRecovery.Logged>, b: seq<LogRecovery.Logged>, e: Event, ops: nat)
    requires LogRecovery.Ascending(a, 0) && LogRecovery.MaxSequence(a, 0) <= ops
             && (e.Group? ==> e.start == ops + 1 < TWO64)
    requires b == a + if IsLogged(e) then [LogRecovery.Logged(e.start, e.ops)] else []
    ensures LogRecovery.Ascending(b, 0) && LogRecovery.MaxSequence(b, 0) <= ops + OpCount(e)
  {
    if IsLogged(e) {
      assert b[..|a|] == a && b[|a|] == LogRecovery.Logged(e.start, e.ops);
      assert LogRecovery.MaxSequence(b, 0) <= ops + OpCount(e);
      hide LogRecovery.MaxSequence;
      forall i | 0 <= i < |b| ensures b[i].start > LogRecovery.MaxSequence(b[..i], 0) {
        if i < |a| {
          assert b[..i] == a[..i];
        }
      }
    } else {
      assert b == a;
    }
  }

  // ---------------------------------------------------------------------------------------------
  // The appends
  // ---------------------------------------------------------------------------------------------

  /** The append of every group, in order, with the failure of those that were not added. */
  ghost function Appends(history: seq<Event>, failures: seq<Option<Failure>>): seq<Attempt>
    requires Small(history) && |failures| == |history|
  {
    if history == [] then []
    else
      var n := |history| - 1;
      var e := history[n];
      assert e.Group? ==> SmallGroup(e);
      Appends(history[..n], failures[..n]) + if e.Group? then [Attempt(Rep(e.start, e.ops), failures[n])] else []
  }

  /** The appends that failed are those of the groups that were not added. */
  ghost predicate Outcomes(history: seq<Event>, failures: seq<Option<Failure>>)
    requires Small(history)
  {
    && |failures| == |history|
    && forall k :: 0 <= k < |history| ==> OutcomeAt(history, failures, k)
  }

  ghost predicate OutcomeAt(history: seq<Event>, failures: seq<Option<Failure>>, k: nat)
    requires Small(history) && k < |history| == |failures|
  {
    var e := history[k];
    assert e.Group? ==> SmallGroup(e);
    && (e.Group? ==> (e.added <==> failures[k] == None))
    && (e.Group? && !e.added ==>
      Fails(OffsetAfter(Appends(history[..k], failures[..k])), Attempt(Rep(e.start, e.ops), failures[k])))
  }

  lemma OutcomesFront(history: seq<Event>, failures: seq<Option<Failure>>, k: nat)
    requires Small(history) && Outcomes(history, failures) && k <= |history|
    ensures Small(history[..k]) && Outcomes(history[..k], failures[..k])
  {
    var h, fs := history[..k], failures[..k];
    assert Small(h);
    forall i | 0 <= i < k ensures OutcomeAt(h, fs, i) {
      assert OutcomeAt(history, failures, i);
      assert h[..i] == history[..i] && fs[..i] == failures[..i];
    }
  }

  lemma {:induction false} AppendsPrefix(history: seq<Event>, failures: seq<Option<Failure>>, k: nat)
    requires Small(history) && |failures| == |history| && k <= |history|
    ensures Small(history[..k]) && Appends(history[..k], failures[..k]) <= Appends(history, failures)
    decreases |history|
  {
    if k < |history| {
      var n := |history| - 1;
      assert Small(history[..n]);
      AppendsPrefix(history[..n], failures[..n], k);
      assert history[..n][..k] == history[..k] && failures[..n][..k] == failures[..k];
    } else {
      assert history[..k] == history && failures[..k] == failures;
    }
  }

  lemma LogsRecords(a: seq<LogRecovery.Logged>, l: LogRecovery.Logged)
    requires LogRecovery.AllLoggedOk(a) && LogRecovery.LoggedOk(l)
    ensures LogRecovery.AllLoggedOk(a + [l])
    ensures LogRecovery.Records(a + [l]) == LogRecovery.Records(a) + [Rep(l.start, l.ops)]
  {
  }

  /** The appends that return OK are those of the logged groups. */
  lemma {:induction false} AppendedAreLogged(history: seq<Event>, failures: seq<Option<Failure>>)
    requires Small(history) && Outcomes(history, failures)
    ensures Appended(Appends(history, failures)) == LogRecovery.Records(Logs(history))
    decreases |history|
  {
    if history != [] {
      var n := |history| - 1;
      var e := history[n];
      OutcomesFront(history, failures, n);
      AppendedAreLogged(history[..n], failures[..n]);
      assert OutcomeAt(history, failures, n);
      var front := Appends(history[..n], failures[..n]);
      hide Outcomes, Rep, OpsOk, Fragments;
      if e.Group? {
        assert SmallGroup(e);
        var a := Attempt(Rep(e.start, e.ops), failures[n]);
        assert (front + [a])[..|front|] == front;
        if e.added {
          LogsRecords(Logs(history[..n]), LogRecovery.Logged(e.start, e.ops));
        }
      } else {
        assert Appends(history, failures) == front;
        assert Logs(history) == Logs(history[..n]);
      }
    }
  }

  /** If no append of a group failed, the log is undisturbed. */
  lemma {:induction false} AllAddedUndisturbed(history: seq<Event>, failures: seq<Option<Failure>>)
    requires Small(history) && Outcomes(history, failures)
    requires forall k :: 0 <= k < |history| && history[k].Group? ==> history[k].added
    ensures Undisturbed(Appends(history, failures))
  {
    AllAddedNoneFailed(history, failures);
    NoneFailedAligned(Appends(history, failures));
  }

  lemma {:induction false} AllAddedNoneFailed(history: seq<Event>, failures: seq<Option<Failure>>)
    requires Small(history) && Outcomes(history, failures)
    requires forall k :: 0 <= k < |history| && history[k].Group? ==> history[k].added
    ensures NoneFailed(Appends(history, failures))
    decreases |history|
  {
    if history != [] {
      var n := |history| - 1;
      OutcomesFront(history, failures, n);
      AllAddedNoneFailed(history[..n], failures[..n]);
      assert OutcomeAt(history, failures, n);
    }
  }

  // ---------------------------------------------------------------------------------------------
  // A crash
  // ---------------------------------------------------------------------------------------------

  lemma DurableIsWhole(crc: Checksum, attempts: seq<Attempt>, n: nat, m: nat, j: nat)
    requires LogRoundTrip.WholeAttempts(crc, attempts, n, m) && j <= |attempts| && |FileBytes(crc, attempts[..j])| <= n
    ensures m >= j
  {
    if m < j {
      FileGrows(crc, attempts, m + 1, j);
    }
  }

  /** A group's numbered operations are among what its log inserts. */
  lemma {:induction false} GroupInserted(history: seq<Event>, j: nat, k: nat)
    requires Small(history) && j < k <= |history| && IsLogged(history[j])
    ensures Small(history[..k])
    ensures forall x :: x in Numbered(history[j].start, history[j].ops) ==>
            x in LogRecovery.Insertions(Logs(history[..k]))
    decreases k
  {
    hide Numbered, OpsOk, Logs;
    LogsSnoc(history, k - 1);
    assert SmallGroup(history[j]);
    var e := history[k - 1];
    var b := Logs(history[..k]);
    if IsLogged(e) {
      assert b[..|b| - 1] == Logs(history[..k - 1]) && b[|b| - 1] == LogRecovery.Logged(e.start, e.ops);
      assert LogRecovery.Insertions(b) == LogRecovery.Insertions(Logs(history[..k - 1])) + Numbered(e.start, e.ops);
    } else {
      assert b == Logs(history[..k - 1]);
    }
    if j < k - 1 {
      GroupInserted(history, j, k - 1);
    }
  }

  /** All operations of the logged groups among the first `k` events, numbered. */
  ghost predicate GroupsIn(history: seq<Event>, k: nat, mem: seq<Insertion>)
    requires k <= |history|
  {
    forall j, x :: 0 <= j < k && IsLogged(history[j]) && x in Numbered(history[j].start, history[j].ops) ==> x in mem
  }

  lemma GroupsInserted(history: seq<Event>, k: nat, mem: seq<Insertion>)
    requires Small(history) && k <= |history|
    requires Small(history[..k]) ==> LogRecovery.Insertions(Logs(history[..k])) <= mem
    ensures GroupsIn(history, k, mem)
  {
    assert Small(history[..k]);
    hide Numbered, Logs, Small;
    forall j, x | 0 <= j < k && IsLogged(history[j]) && x in Numbered(history[j].start, history[j].ops)
      ensures x in mem {
      GroupInserted(history, j, k);
    }
  }

  /** The state of the database's log at a crash: the bytes that the appends of all groups left, cut off
      anywhere after those of the first `k` events, which reached the disk. */
  ghost predicate Crashed(crc: Checksum, history: seq<Event>, failures: seq<Option<Failure>>, k: nat, file: Bytes)
    requires Small(history) && |failures| == |history| && k <= |history|
  {
    AppendsPrefix(history, failures, k);
    && file <= FileBytes(crc, Appends(history, failures))
    && |FileBytes(crc, Appends(history[..k], failures[..k]))| <= |file|
  }

  /** Recovery after a crash, in every reachable state of the writer queue whose log is undisturbed: what is
      inserted is what some first `n` logged groups wrote, among them all whose bytes reached the disk; and
      the next sequence number is past all of them. */
  method RecoverAfterCrash(crc: Checksum, file: Bytes, ghost s: State, ghost failures: seq<Option<Failure>>,
          ghost k: nat)
    returns (mem: seq<Insertion>, maxSequence: nat, ghost n: nat)
    requires Inv(s) && Small(s.history) && Outcomes(s.history, failures) && k <= |s.history|
    requires Undisturbed(Appends(s.history, failures))
    requires Crashed(crc, s.history, failures, k, file)
    ensures n <= |Logs(s.history)|
            && mem == LogRecovery.Insertions(Logs(s.history)[..n]) <= LogRecovery.Insertions(Logs(s.history))
    ensures GroupsIn(s.history, k, mem)
    ensures n > 0 ==> var l := Logs(s.history)[n - 1]; maxSequence == l.start + |l.ops| - 1
  {
    ghost var ls, appends := Logs(s.history), Appends(s.history, failures);
    AppendedAreLogged(s.history, failures);
    ghost var m;
    mem, maxSequence, m := LogRecovery.RecoverLogFile(crc, file, 0, appends, ls);
    n := |Appended(appends[..m])|;
    DurableStays(crc, s.history, failures, k, file, ls, appends, m, n);
    WholeLog(s, n);
  }

  lemma WholeLog(s: State, m: nat)
    requires Inv(s) && Small(s.history) && m <= |Logs(s.history)|
    ensures var ls := Logs(s.history);
            && LogRecovery.Insertions(ls[..m]) <= LogRecovery.Insertions(ls)
            && (m > 0 ==> LogRecovery.MaxSequence(ls[..m], 0) == ls[m - 1].start + |ls[m - 1].ops| - 1)
  {
    hide *;
    var ls := Logs(s.history);
    LogsBelow(s, |s.history|);
    assert s.history[..|s.history|] == s.history;
    assert ls[..|ls|] == ls;
    LogRecovery.PrefixRecoversPrefix(ls, m, |ls|);
    if m > 0 {
      AscendingFront(ls, m);
      LogRecovery.LastIsGreatest(ls[..m], 0);
    }
  }

  lemma AscendingFront(ls: seq<LogRecovery.Logged>, m: nat)
    requires LogRecovery.Ascending(ls, 0) && m <= |ls|
    ensures LogRecovery.Ascending(ls[..m], 0)
  {
    hide LogRecovery.MaxSequence;
    forall i | 0 <= i < m ensures ls[..m][i].start > LogRecovery.MaxSequence(ls[..m][..i], 0) {
      assert ls[..m][..i] == ls[..i];
    }
  }

  lemma CrashedFacts(crc: Checksum, history: seq<Event>, failures: seq<Option<Failure>>, k: nat, file: Bytes)
    requires Small(history) && Outcomes(history, failures) && k <= |history| && Crashed(crc, history, failures, k, file)
    ensures |failures| == |history| && Small(history[..k])
    ensures |FileBytes(crc, Appends(history[..k], failures[..k]))| <= |file|
  {
  }

  /** The whole appends insert what those that reached the disk do. */
  lemma EarlyInserted(crc: Checksum, appends: seq<Attempt>, early: seq<Attempt>, ls: seq<LogRecovery.Logged>,
                      first: seq<LogRecovery.Logged>, bytes: nat, m: nat, n: nat)
    requires early <= appends && first <= ls && |Appended(early)| == |first|
    requires |FileBytes(crc, early)| <= bytes && LogRoundTrip.WholeAttempts(crc, appends, bytes, m)
    requires m <= |appends| && n == |Appended(appends[..m])| <= |ls|
    ensures LogRecovery.Insertions(first) <= LogRecovery.Insertions(ls[..n])
  {
    hide *;
    assert ls[..|first|] == first && appends[..|early|] == early;
    DurableIsWhole(crc, appends, bytes, m, |early|);
    LogRecovery.AppendedPrefix(appends, |early|, m);
    LogRecovery.PrefixRecoversPrefix(ls, |first|, n);
  }

  /** What the whole appends inserted has all groups that reached the disk. */
  lemma DurableStays(crc: Checksum, history: seq<Event>, failures: seq<Option<Failure>>, k: nat, file: Bytes,
                     ls: seq<LogRecovery.Logged>, appends: seq<Attempt>, m: nat, n: nat)
    requires Small(history) && Outcomes(history, failures) && k <= |history| && Crashed(crc, history, failures, k, file)
    requires ls == Logs(history) && appends == Appends(history, failures)
    requires LogRoundTrip.WholeAttempts(crc, appends, |file|, m) && m <= |appends|
    requires n == |Appended(appends[..m])| <= |ls|
    ensures GroupsIn(history, k, LogRecovery.Insertions(ls[..n]))
  {
    CrashedFacts(crc, history, failures, k, file);
    assert history[..|history|] == history;
    hide *;
    LogsPrefix(history, k, |history|);
    AppendsPrefix(history, failures, k);
    OutcomesFront(history, failures, k);
    AppendedAreLogged(history[..k], failures[..k]);
    EarlyInserted(crc, appends, Appends(history[..k], failures[..k]), ls, Logs(history[..k]), |file|, m, n);
    GroupsInserted(history, k, LogRecovery.Insertions(ls[..n]));
  }

  /** A write that returned OK and asked for sync is in a synced group: if the log keeps what was synced,
      all its operations are recovered. */
  lemma SyncedIsLogged(s: State, id: Id) returns (j: nat)
    requires Inv(s) && id in s.result && s.result[id] && s.writers[id].batch.Some? && s.writers[id].sync
    ensures j < |s.history| && IsLogged(s.history[j]) && s.history[j].synced && id in s.history[j].members
  {
    j := OkMeansLogged(s, id);
  }
}
