/** Recovering a write-ahead log: any prefix of the log gives a prefix of the groups that were written. */
module LogRecovery {
  import opened Coding
  import opened LogFormat
  import opened LogAttempts
  import LogRoundTrip
  import opened WriteBatches

  /** The batch of one group, as it is logged. */
  datatype Logged = Logged(start: uint64, ops: seq<Op>)

  ghost predicate LoggedOk(l: Logged) {
    OpsOk(l.ops) && l.start >= 1 && l.start + |l.ops| <= TWO64
  }

  ghost predicate AllLoggedOk(ls: seq<Logged>) {
    forall i :: 0 <= i < |ls| ==> LoggedOk(ls[i])
  }

  ghost function Records(ls: seq<Logged>): (r: seq<Bytes>)
    requires AllLoggedOk(ls)
    ensures |r| == |ls| && forall i :: 0 <= i < |ls| ==> LoggedOk(ls[i]) && r[i] == Rep(ls[i].start, ls[i].ops)
  {
    seq(|ls|, i requires 0 <= i < |ls| && LoggedOk(ls[i]) => Rep(ls[i].start, ls[i].ops))
  }

  /** What applying the groups inserts, in order. */
  ghost function Insertions(ls: seq<Logged>): seq<Insertion> {
    if ls == [] then [] else Insertions(ls[..|ls| - 1]) + Numbered(ls[|ls| - 1].start, ls[|ls| - 1].ops)
  }

  /** The greatest sequence number of `before` and the groups'. */
  ghost function MaxSequence(ls: seq<Logged>, before: nat): nat {
    if ls == [] then before
    else
      var max, last := MaxSequence(ls[..|ls| - 1], before), ls[|ls| - 1].start + |ls[|ls| - 1].ops| - 1;
      if last > max then last else max
  }

  /** Each group's numbers are past those before it; numbers may be left out, as those of a group that
      was not logged are. */
  ghost predicate Ascending(ls: seq<Logged>, before: nat) {
    forall i :: 0 <= i < |ls| ==> ls[i].start > MaxSequence(ls[..i], before)
  }

  /** In a log as written, the last group ends at the greatest number. */
  lemma LastIsGreatest(ls: seq<Logged>, before: nat)
    requires ls != [] && Ascending(ls, before)
    ensures MaxSequence(ls, before) == ls[|ls| - 1].start + |ls[|ls| - 1].ops| - 1
  {
    assert ls[|ls| - 1].start > MaxSequence(ls[..|ls| - 1], before);
  }

  method ApplyRecord(record: Bytes, ghost l: Logged) returns (out: seq<Insertion>, last: nat)
    requires LoggedOk(l) && record == Rep(l.start, l.ops)
    ensures out == Numbered(l.start, l.ops) && last == l.start + |l.ops| - 1
  {
    var batch := new WriteBatch();
    batch.rep := record;
    batch.InsertsAll(l.start, l.ops);
    var status;
    out, status := batch.InsertInto();
    last := batch.Sequence() + batch.Count() - 1;
  }

  lemma NothingYet(ls: seq<Logged>, before: nat)
    ensures Insertions(ls[..0]) == [] && MaxSequence(ls[..0], before) == before
  {
  }

  lemma Step(ls: seq<Logged>, i: nat, before: nat)
    requires i < |ls|
    ensures Insertions(ls[..i + 1]) == Insertions(ls[..i]) + Numbered(ls[i].start, ls[i].ops)
    ensures var max, last := MaxSequence(ls[..i], before), ls[i].start + |ls[i].ops| - 1;
            MaxSequence(ls[..i + 1], before) == if last > max then last else max
  {
    assert ls[..i + 1][..i] == ls[..i];
  }

  lemma AppendedPrefix(attempts: seq<Attempt>, m: nat, n: nat)
    requires m <= n <= |attempts|
    ensures Appended(attempts[..m]) <= Appended(attempts[..n])
    decreases n
  {
    if m < n {
      AppendedPrefix(attempts, m, n - 1);
      assert attempts[..n][..n - 1] == attempts[..n - 1];
    }
  }

  /** RecoverLogFile on any byte prefix of a log to which groups were appended, however they are numbered:
      the insertions of exactly the groups whose append returned OK and whose record lies wholly in the
      prefix, and the greatest sequence number. */
  method RecoverLogFile(crc: Checksum, file: Bytes, maxBefore: nat, ghost attempts: seq<Attempt>, ghost ls: seq<Logged>)
    returns (mem: seq<Insertion>, maxSequence: nat, ghost m: nat)
    requires AllLoggedOk(ls) && Appended(attempts) == Records(ls)
    requires Undisturbed(attempts) && file <= FileBytes(crc, attempts)
    ensures LogRoundTrip.WholeAttempts(crc, attempts, |file|, m) && |Appended(attempts[..m])| <= |ls|
    ensures var n := |Appended(attempts[..m])|;
            mem == Insertions(ls[..n]) && maxSequence == MaxSequence(ls[..n], maxBefore)
  {
    hide FileBytes, Aligned, Clean, Pieces, LogRoundTrip.WholeAttempts, Rep, LoggedOk, Insertions, MaxSequence;
    NothingYet(ls, maxBefore);
    var records, _, whole := LogRoundTrip.RecoverAttempts(crc, file, attempts);
    m := whole;
    WholeIsPrefix(crc, attempts, |file|, m);
    hide Appended;
    mem, maxSequence := [], maxBefore;
    var i := 0;
    while i < |records|
      invariant i <= |records| <= |ls|
      invariant mem == Insertions(ls[..i]) && maxSequence == MaxSequence(ls[..i], maxBefore)
    {
      var out, last := ApplyRecord(records[i], ls[i]);
      Step(ls, i, maxBefore);
      mem := mem + out;
      if last > maxSequence {
        maxSequence := last;
      }
      i := i + 1;
    }
  }

  lemma WholeIsPrefix(crc: Checksum, attempts: seq<Attempt>, n: nat, m: nat)
    requires LogRoundTrip.WholeAttempts(crc, attempts, n, m)
    ensures m <= |attempts| && Appended(attempts[..m]) <= Appended(attempts)
  {
    AppendedPrefix(attempts, m, |attempts|);
    assert attempts[..|attempts|] == attempts;
  }

  /** Recovering a shorter prefix gives a prefix of what a longer one gives. */
  lemma {:induction false} PrefixRecoversPrefix(ls: seq<Logged>, m: nat, n: nat)
    requires m <= n <= |ls|
    ensures Insertions(ls[..m]) <= Insertions(ls[..n])
    decreases n
  {
    if m < n {
      PrefixRecoversPrefix(ls, m, n - 1);
      assert ls[..n][..n - 1] == ls[..n - 1];
    }
  }
}
