/** Reassembly undoes fragmentation: whatever the order, the losses and the repeats, the messages
    handed out are the messages sent, in order. */
module DtlsDelivery {
  import opened Options
  import opened Coding
  import opened DtlsBitmap
  import opened DtlsReceive

  datatype Message = Message(typ: byte, body: Bytes)

  /** The messages sent, numbered from `base`. */
  ghost predicate SentOk(base: nat, msgs: seq<Message>) {
    base + |msgs| <= 0x1_0000 && forall k :: 0 <= k < |msgs| ==> |msgs[k].body| < 0x100_0000
  }

  /** A message as its sender holds it: a single fragment that is the whole message. */
  function Serialized(m: Message, seqno: nat): Bytes
    requires |m.body| < 0x100_0000 && seqno < 0x1_0000
  {
    Header(m.typ, |m.body|, seqno, 0, |m.body|) + m.body
  }

  /** The fragment is a piece of one of the messages. */
  ghost predicate Genuine(base: nat, msgs: seq<Message>, f: Fragment) {
    && base <= f.seqno < base + |msgs|
    && var m := msgs[f.seqno - base];
       f.typ == m.typ && f.msgLen == |m.body| && f.off + |f.body| <= |m.body|
         && f.body == m.body[f.off..f.off + |f.body|]
  }

  ghost predicate SlotTracks(s: Slot, m: Message) {
    && s.typ == m.typ && |s.body| == |m.body|
    && forall i :: 0 <= i < |s.body| && s.body[i].Some? ==> s.body[i].value == m.body[i]
  }

  /** All that has been put together so far is right. */
  ghost predicate Tracks(base: nat, msgs: seq<Message>, v: View) {
    && ViewOk(v) && base <= v.readSeq
    && forall i :: 0 <= i < MAX_FLIGHT && v.slots[i].Some? ==>
         var s := v.slots[i].value; s.seqno < base + |msgs| && SlotTracks(s, msgs[s.seqno - base])
  }

  ghost predicate Known(v: View, q: nat)
    requires |v.slots| == MAX_FLIGHT
  {
    var s := v.slots[q % MAX_FLIGHT]; s.Some? && s.value.seqno == q
  }

  /** Byte `i` of message `q` has been received. */
  ghost predicate Has(v: View, q: nat, i: nat)
    requires |v.slots| == MAX_FLIGHT
  {
    var s := v.slots[q % MAX_FLIGHT]; s.Some? && s.value.seqno == q && i < |s.value.body| && s.value.body[i].Some?
  }

  predicate InWindow(v: View, q: nat) {
    v.readSeq <= q < v.readSeq + MAX_FLIGHT
  }

  predicate Within(f: Fragment, i: nat) {
    f.off <= i < f.off + |f.body|
  }

  lemma SameSlot(v: View, q: nat, r: nat)
    requires InWindow(v, q) && InWindow(v, r) && q % MAX_FLIGHT == r % MAX_FLIGHT
    ensures q == r
  {
  }

  /** What a genuine fragment does: exactly when it is refused, and exactly which bytes it adds. */
  lemma AbsorbGenuine(base: nat, msgs: seq<Message>, v: View, f: Fragment, epoch: nat, maxLen: nat)
    requires SentOk(base, msgs) && Tracks(base, msgs, v) && Genuine(base, msgs, f)
    ensures var (w, alert) := Absorb(v, f, epoch, maxLen);
            && Tracks(base, msgs, w) && w.readSeq == v.readSeq
            && (alert == None <==>
              f.msgLen <= maxLen && (epoch == 1 ==> f.seqno == v.readSeq) && f.seqno != v.readSeq + MAX_FLIGHT)
            && (alert != None ==> w == v)
            && (alert == None ==> forall q: nat :: Known(w, q) <==> Known(v, q) || (q == f.seqno && InWindow(v, q)))
            && (alert == None ==> forall q: nat, i: nat :: Has(w, q, i) <==>
              Has(v, q, i) || (q == f.seqno && InWindow(v, q) && Within(f, i)))
  {
    hide Complete;
    var (w, alert) := Absorb(v, f, epoch, maxLen);
    AbsorbKeepsOk(v, f, epoch, maxLen);
    if InWindow(v, f.seqno) {
      var idx := f.seqno % MAX_FLIGHT;
      if v.slots[idx].Some? {
        SlotInWindow(v, f);
      }
      var s := SlotFor(v, f);
      assert s.seqno == f.seqno && SlotTracks(s, msgs[f.seqno - base]);
      FilledTracks(s, f, msgs[f.seqno - base]);
      if alert == None {
        assert w.slots == v.slots[idx := Some(Filled(s, f))];
        forall q: nat ensures Known(w, q) <==> Known(v, q) || (q == f.seqno && InWindow(v, q)) {
          if q % MAX_FLIGHT == idx && Known(v, q) {
            SameSlot(v, q, f.seqno);
          }
        }
        forall q: nat, i: nat ensures Has(w, q, i) <==>
          Has(v, q, i) || (q == f.seqno && InWindow(v, q) && Within(f, i)) {
          if q % MAX_FLIGHT == idx && Known(v, q) {
            SameSlot(v, q, f.seqno);
          }
        }
      }
    }
  }

  lemma FilledTracks(s: Slot, f: Fragment, m: Message)
    requires SlotTracks(s, m) && f.off + |f.body| <= |m.body| && f.body == m.body[f.off..f.off + |f.body|]
    ensures SlotTracks(Filled(s, f), m) && Filled(s, f).seqno == s.seqno
    ensures forall i :: 0 <= i < |s.body| ==> (Filled(s, f).body[i].Some? <==> s.body[i].Some? || Within(f, i))
  {
  }

  // ---------------------------------------------------------------------------------------------
  // Any run
  // ---------------------------------------------------------------------------------------------

  /** A fragment arrives, or the owner takes the next message. */
  datatype Event = Arrives(f: Fragment) | HandOut

  /** The messages handed out along a run, which stops at the first alert. */
  ghost function Run(v: View, events: seq<Event>, epoch: nat, maxLen: nat): (r: (View, seq<Bytes>))
    requires ViewOk(v) && forall e :: e in events && e.Arrives? ==> e.f.seqno < 0x1_0000
    ensures ViewOk(r.0)
    decreases events
  {
    if events == [] then (v, [])
    else
      match events[0]
      case Arrives(f) =>
        var (w, alert) := Absorb(v, f, epoch, maxLen);
        AbsorbKeepsOk(v, f, epoch, maxLen);
        if alert.Some? then (w, []) else Run(w, events[1..], epoch, maxLen)
      case HandOut =>
        if NextMessage(v) == None then Run(v, events[1..], epoch, maxLen)
        else
          AdvanceKeepsOk(v);
          var (w, out) := Run(Advanced(v), events[1..], epoch, maxLen);
          (w, [NextMessage(v).value] + out)
  }

  lemma NextIsSent(base: nat, msgs: seq<Message>, v: View)
    requires SentOk(base, msgs) && Tracks(base, msgs, v) && NextMessage(v) != None
    ensures v.readSeq < base + |msgs| && NextMessage(v) == Some(Serialized(msgs[v.readSeq - base], v.readSeq))
  {
    var s := v.slots[v.readSeq % MAX_FLIGHT].value;
    SameSlot(v, s.seqno, v.readSeq);
    assert Values(s.body) == msgs[v.readSeq - base].body;
  }

  lemma AdvanceTracks(base: nat, msgs: seq<Message>, v: View)
    requires SentOk(base, msgs) && Tracks(base, msgs, v) && v.readSeq < base + |msgs| && v.readSeq + 1 < 0x1_0000
    ensures Tracks(base, msgs, Advanced(v)) && Advanced(v).readSeq == v.readSeq + 1
  {
    AdvanceKeepsOk(v);
  }

  /** Whatever genuine fragments arrive, in whatever order and however often, the messages handed
      out are the messages sent, from the first one on and in order. */
  lemma {:induction false} HandedOutIsSent(base: nat, msgs: seq<Message>, v: View, events: seq<Event>, epoch: nat,
          maxLen: nat)
    requires SentOk(base, msgs) && Tracks(base, msgs, v) && base + |msgs| < 0x1_0000
    requires forall e :: e in events && e.Arrives? ==> Genuine(base, msgs, e.f)
    ensures forall e :: e in events && e.Arrives? ==> e.f.seqno < 0x1_0000
    ensures var (w, out) := Run(v, events, epoch, maxLen);
            && Tracks(base, msgs, w) && w.readSeq == v.readSeq + |out|
            && (out != [] ==> w.readSeq <= base + |msgs|)
            && forall k :: 0 <= k < |out| ==>
              v.readSeq + k < base + |msgs| && out[k] == Serialized(msgs[v.readSeq - base + k], v.readSeq + k)
    decreases events
  {
    hide Absorb, NextMessage, Tracks, Serialized;
    TracksOk(base, msgs, v);
    if events != [] {
      assert events[0] in events && forall e :: e in events[1..] ==> e in events;
      match events[0] {
        case Arrives(f) =>
          AbsorbGenuine(base, msgs, v, f, epoch, maxLen);
          HandedOutIsSent(base, msgs, Absorb(v, f, epoch, maxLen).0, events[1..], epoch, maxLen);
        case HandOut =>
          if NextMessage(v) == None {
            HandedOutIsSent(base, msgs, v, events[1..], epoch, maxLen);
          } else {
            NextIsSent(base, msgs, v);
            AdvanceTracks(base, msgs, v);
            HandedOutIsSent(base, msgs, Advanced(v), events[1..], epoch, maxLen);
          }
      }
    }
  }

  lemma TracksOk(base: nat, msgs: seq<Message>, v: View)
    requires Tracks(base, msgs, v)
    ensures ViewOk(v) && base <= v.readSeq
  {
  }

  // ---------------------------------------------------------------------------------------------
  // A whole flight
  // ---------------------------------------------------------------------------------------------

  /** Some fragment of message `q` is in the list. */
  ghost predicate Mentions(fs: seq<Fragment>, q: nat) {
    exists f :: f in fs && f.seqno == q
  }

  /** Byte `i` of message `q` is in some fragment of the list. */
  ghost predicate Covers(fs: seq<Fragment>, q: nat, i: nat) {
    exists f :: f in fs && f.seqno == q && Within(f, i)
  }

  ghost function AbsorbList(v: View, fs: seq<Fragment>, epoch: nat, maxLen: nat): (r: (View, Option<Alert>))
    requires |v.slots| == MAX_FLIGHT
    ensures |r.0.slots| == MAX_FLIGHT
    decreases fs
  {
    if fs == [] then (v, None)
    else
      var (w, alert) := Absorb(v, fs[0], epoch, maxLen);
      if alert.Some? then (w, alert) else AbsorbList(w, fs[1..], epoch, maxLen)
  }

  lemma MentionsStep(fs: seq<Fragment>, q: nat)
    requires fs != []
    ensures Mentions(fs, q) <==> fs[0].seqno == q || Mentions(fs[1..], q)
  {
    assert fs == [fs[0]] + fs[1..];
    assert fs[0] in fs;
  }

  lemma CoversStep(fs: seq<Fragment>, q: nat, i: nat)
    requires fs != []
    ensures Covers(fs, q, i) <==> (fs[0].seqno == q && Within(fs[0], i)) || Covers(fs[1..], q, i)
  {
    assert fs == [fs[0]] + fs[1..];
    assert fs[0] in fs;
  }

  ghost predicate Fits(msgs: seq<Message>, maxLen: nat) {
    forall k :: 0 <= k < |msgs| ==> |msgs[k].body| <= maxLen
  }

  /** Genuine fragments in the window raise no alert, and afterwards exactly their bytes are there. */
  lemma {:induction false} AbsorbAll(base: nat, msgs: seq<Message>, v: View, fs: seq<Fragment>, epoch: nat, maxLen: nat)
    requires SentOk(base, msgs) && Tracks(base, msgs, v) && Fits(msgs, maxLen)
    requires base + |msgs| <= v.readSeq + MAX_FLIGHT && (epoch == 1 ==> v.readSeq == base && |msgs| <= 1)
    requires forall f :: f in fs ==> Genuine(base, msgs, f)
    ensures var (w, alert) := AbsorbList(v, fs, epoch, maxLen);
            && alert == None && Tracks(base, msgs, w) && w.readSeq == v.readSeq
            && (forall q: nat :: InWindow(v, q) ==> (Known(w, q) <==> Known(v, q) || Mentions(fs, q)))
            && (forall q: nat, i: nat :: InWindow(v, q) ==> (Has(w, q, i) <==> Has(v, q, i) || Covers(fs, q, i)))
    decreases fs
  {
    hide Absorb, Tracks, Has, Known, Mentions, Covers;
    TracksOk(base, msgs, v);
    if fs == [] {
      NoneMentioned();
    } else {
      assert fs[0] in fs && forall f :: f in fs[1..] ==> f in fs;
      AbsorbGenuine(base, msgs, v, fs[0], epoch, maxLen);
      var w := Absorb(v, fs[0], epoch, maxLen).0;
      AbsorbAll(base, msgs, w, fs[1..], epoch, maxLen);
      forall q: nat ensures Mentions(fs, q) <==> fs[0].seqno == q || Mentions(fs[1..], q) {
        MentionsStep(fs, q);
      }
      forall q: nat, i: nat ensures Covers(fs, q, i) <==>
        (fs[0].seqno == q && Within(fs[0], i)) || Covers(fs[1..], q, i) {
        CoversStep(fs, q, i);
      }
    }
  }

  lemma NoneMentioned()
    ensures forall q: nat :: !Mentions([], q)
    ensures forall q: nat, i: nat :: !Covers([], q, i)
  {
  }

  /** The first `n` bytes of message `q`, and some fragment of it, have arrived. */
  ghost predicate Whole(v: View, q: nat, n: nat)
    requires |v.slots| == MAX_FLIGHT
  {
    Known(v, q) && forall i :: 0 <= i < n ==> Has(v, q, i)
  }

  ghost predicate CoversWhole(fs: seq<Fragment>, q: nat, n: nat) {
    Mentions(fs, q) && forall i :: 0 <= i < n ==> Covers(fs, q, i)
  }

  ghost predicate Here(base: nat, msgs: seq<Message>, v: View, q: nat)
    requires |v.slots| == MAX_FLIGHT
  {
    base <= q < base + |msgs| && Whole(v, q, |msgs[q - base].body|)
  }

  /** Every message from the next one on has arrived whole. */
  ghost predicate AllHere(base: nat, msgs: seq<Message>, v: View)
    requires |v.slots| == MAX_FLIGHT
  {
    forall q: nat :: base <= q < base + |msgs| && v.readSeq <= q ==> Here(base, msgs, v, q)
  }

  /** The next message is handed out if and only if some fragment of it and all its bytes have arrived. */
  lemma NextIffHere(base: nat, msgs: seq<Message>, v: View)
    requires SentOk(base, msgs) && Tracks(base, msgs, v) && v.readSeq < base + |msgs|
    ensures NextMessage(v) != None <==> Whole(v, v.readSeq, |msgs[v.readSeq - base].body|)
  {
    var q := v.readSeq;
    var s := v.slots[q % MAX_FLIGHT];
    if s.Some? {
      SameSlot(v, s.value.seqno, q);
      var m := msgs[q - base];
      assert SlotTracks(s.value, m);
      if NextMessage(v) != None {
        forall i | 0 <= i < |m.body| ensures Has(v, q, i) {
          assert s.value.body[i].Some?;
        }
      }
      if Whole(v, q, |m.body|) {
        forall i | 0 <= i < |s.value.body| ensures s.value.body[i].Some? {
          assert Has(v, q, i);
        }
      }
    }
  }

  lemma AdvanceLeaves(v: View, q: nat, n: nat)
    requires ViewOk(v) && v.readSeq < q < v.readSeq + MAX_FLIGHT && Whole(v, q, n)
    ensures Whole(Advanced(v), q, n)
  {
    if q % MAX_FLIGHT == v.readSeq % MAX_FLIGHT {
      SameSlot(v, q, v.readSeq);
    }
    forall i | 0 <= i < n ensures Has(Advanced(v), q, i) {
      assert Has(v, q, i);
    }
  }

  /** Taking messages until there is none. */
  ghost function TakeAll(v: View, n: nat): seq<Bytes>
    requires ViewOk(v)
    decreases n
  {
    if n == 0 || NextMessage(v) == None then []
    else
      AdvanceKeepsOk(v);
      [NextMessage(v).value] + TakeAll(Advanced(v), n - 1)
  }

  ghost function AllSerialized(base: nat, msgs: seq<Message>, from: nat): seq<Bytes>
    requires SentOk(base, msgs) && from <= |msgs|
    decreases |msgs| - from
  {
    if from == |msgs| then [] else [Serialized(msgs[from], base + from)] + AllSerialized(base, msgs, from + 1)
  }

  lemma {:induction false} TakesAllHere(base: nat, msgs: seq<Message>, v: View)
    requires SentOk(base, msgs) && base + |msgs| < 0x1_0000 && Tracks(base, msgs, v) && AllHere(base, msgs, v)
    requires base <= v.readSeq <= base + |msgs| <= v.readSeq + MAX_FLIGHT
    ensures TakeAll(v, base + |msgs| - v.readSeq) == AllSerialized(base, msgs, v.readSeq - base)
    decreases base + |msgs| - v.readSeq
  {
    if v.readSeq < base + |msgs| {
      hide NextMessage, Serialized, Tracks, Whole, Advanced;
      TracksOk(base, msgs, v);
      assert Here(base, msgs, v, v.readSeq);
      NextIffHere(base, msgs, v);
      NextIsSent(base, msgs, v);
      AdvanceTracks(base, msgs, v);
      var w := Advanced(v);
      forall q: nat | base <= q < base + |msgs| && w.readSeq <= q ensures Here(base, msgs, w, q) {
        assert Here(base, msgs, v, q);
        AdvanceLeaves(v, q, |msgs[q - base].body|);
      }
      TakesAllHere(base, msgs, w);
    }
  }

  /** A receiver that waits for a flight (one message, in the encrypted epoch) and gets a list of genuine
      fragments that cover it hands out exactly the flight's messages, for every order and every repetition. */
  lemma FlightArrives(base: nat, msgs: seq<Message>, v: View, fs: seq<Fragment>, epoch: nat, maxLen: nat)
    requires SentOk(base, msgs) && base + |msgs| < 0x1_0000 && |msgs| <= MAX_FLIGHT && Fits(msgs, maxLen)
    requires epoch == 1 ==> |msgs| <= 1
    requires ViewOk(v) && v.readSeq == base && v.slots == seq(MAX_FLIGHT, _ => None)
    requires forall f :: f in fs ==> Genuine(base, msgs, f)
    requires forall k :: 0 <= k < |msgs| ==> CoversWhole(fs, base + k, |msgs[k].body|)
    ensures var (w, alert) := AbsorbList(v, fs, epoch, maxLen);
            && alert == None && ViewOk(w) && TakeAll(w, |msgs|) == AllSerialized(base, msgs, 0)
  {
    hide AbsorbList, AllSerialized, TakeAll, Mentions, Covers, Known, Has;
    assert Tracks(base, msgs, v);
    AbsorbAll(base, msgs, v, fs, epoch, maxLen);
    var w := AbsorbList(v, fs, epoch, maxLen).0;
    forall q: nat | base <= q < base + |msgs| && w.readSeq <= q ensures Here(base, msgs, w, q) {
      assert CoversWhole(fs, base + (q - base), |msgs[q - base].body|);
      assert InWindow(v, q);
    }
    TakesAllHere(base, msgs, w);
  }

  // ---------------------------------------------------------------------------------------------
  // Records
  // ---------------------------------------------------------------------------------------------

  ghost predicate AllEncodable(fs: seq<Fragment>) {
    forall i :: 0 <= i < |fs| ==> Encodable(fs[i])
  }

  /** A record's contents: any number of fragments, one after the other. */
  ghost function EncodeFragments(fs: seq<Fragment>): Bytes
    requires AllEncodable(fs)
  {
    if fs == [] then [] else EncodeFragment(fs[0]) + EncodeFragments(fs[1..])
  }

  /** Opening a record absorbs its fragments in order. */
  lemma {:induction false} RecordOfFragments(v: View, fs: seq<Fragment>, epoch: nat, maxLen: nat)
    requires |v.slots| == MAX_FLIGHT && AllEncodable(fs)
    ensures AbsorbRecord(v, EncodeFragments(fs), epoch, maxLen) == AbsorbList(v, fs, epoch, maxLen)
    decreases fs
  {
    hide Absorb, ParseFragment, EncodeFragment;
    if fs != [] {
      FragmentRoundTrip(fs[0], EncodeFragments(fs[1..]));
      var (w, alert) := Absorb(v, fs[0], epoch, maxLen);
      if alert.None? {
        RecordOfFragments(w, fs[1..], epoch, maxLen);
      }
    }
  }

  /** Records opened one after the other, until an alert. */
  ghost function AbsorbRecords(v: View, records: seq<Bytes>, epoch: nat, maxLen: nat): (r: (View, Option<Alert>))
    requires |v.slots| == MAX_FLIGHT
    ensures |r.0.slots| == MAX_FLIGHT
    decreases records
  {
    if records == [] then (v, None)
    else
      var (w, alert) := AbsorbRecord(v, records[0], epoch, maxLen);
      if alert.Some? then (w, alert) else AbsorbRecords(w, records[1..], epoch, maxLen)
  }

  /** The records hold the fragments of `packs`, list by list. */
  ghost predicate Pack(records: seq<Bytes>, packs: seq<seq<Fragment>>) {
    |records| == |packs| && forall i :: 0 <= i < |packs| ==>
      AllEncodable(packs[i]) && records[i] == EncodeFragments(packs[i])
  }

  ghost function Unpacked(packs: seq<seq<Fragment>>): seq<Fragment> {
    if packs == [] then [] else packs[0] + Unpacked(packs[1..])
  }

  lemma {:induction false} AbsorbConcat(v: View, a: seq<Fragment>, b: seq<Fragment>, epoch: nat, maxLen: nat)
    requires |v.slots| == MAX_FLIGHT
    ensures var (w, alert) := AbsorbList(v, a, epoch, maxLen);
            AbsorbList(v, a + b, epoch, maxLen) == if alert.Some? then (w, alert) else AbsorbList(w, b, epoch, maxLen)
    decreases a
  {
    hide Absorb;
    if a == [] {
      assert a + b == b;
    } else {
      assert (a + b)[1..] == a[1..] + b;
      var (w, alert) := Absorb(v, a[0], epoch, maxLen);
      if alert.None? {
        AbsorbConcat(w, a[1..], b, epoch, maxLen);
      }
    }
  }

  /** How the fragments are packed into records makes no difference. */
  lemma {:induction false} RecordsAreFragments(v: View, records: seq<Bytes>, packs: seq<seq<Fragment>>, epoch: nat,
          maxLen: nat)
    requires |v.slots| == MAX_FLIGHT && Pack(records, packs)
    ensures AbsorbRecords(v, records, epoch, maxLen) == AbsorbList(v, Unpacked(packs), epoch, maxLen)
    decreases packs
  {
    hide AbsorbRecord, AbsorbList, AllEncodable, EncodeFragments;
    if packs != [] {
      RecordOfFragments(v, packs[0], epoch, maxLen);
      AbsorbConcat(v, packs[0], Unpacked(packs[1..]), epoch, maxLen);
      var (w, alert) := AbsorbRecord(v, records[0], epoch, maxLen);
      if alert.None? {
        RecordsAreFragments(w, records[1..], packs[1..], epoch, maxLen);
      }
    } else {
      NothingAbsorbed(v, epoch, maxLen);
    }
  }

  lemma NothingAbsorbed(v: View, epoch: nat, maxLen: nat)
    requires |v.slots| == MAX_FLIGHT
    ensures AbsorbList(v, [], epoch, maxLen) == (v, None)
  {
  }

  // ---------------------------------------------------------------------------------------------
  // Exactly seven messages ahead
  // ---------------------------------------------------------------------------------------------

  /** A fresh receiver, and eight empty messages sent: a fragment of the last one is refused with an
      alert, though one of the ninth would be ignored. */
  lemma SevenAheadAlerts(msgs: seq<Message>, v: View)
    requires msgs == seq(9, _ => Message(1, [])) && v == View(0, seq(MAX_FLIGHT, _ => None))
    ensures SentOk(0, msgs) && Tracks(0, msgs, v)
    ensures var f := Fragment(1, 0, 7, 0, []);
            Genuine(0, msgs, f) && Absorb(v, f, 0, 100) == (v, Some(InternalError))
    ensures var g := Fragment(1, 0, 8, 0, []);
            Genuine(0, msgs, g) && Absorb(v, g, 0, 100) == (v, None)
  {
    assert msgs[7] == Message(1, []) && msgs[8] == Message(1, []);
  }
}
