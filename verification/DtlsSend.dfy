/** Sending a DTLS flight: messages are cut into fragments that fit the packets. */
module DtlsSend {
  import opened Options
  import opened Coding
  import opened DtlsBitmap
  import opened DtlsReceive
  import opened DtlsDelivery

  /** DTLS_OUTGOING_MESSAGE: a ChangeCipherSpec or a handshake message as a single fragment. */
  datatype Outgoing = Outgoing(isCcs: bool, data: Bytes)

  /** The plaintext of a sealed record. */
  datatype Record = CcsRecord | HandshakeRecord(fragment: Fragment)

  datatype SealResult = SealError | NoProgress | Partial(record: Record) | Success(record: Record)

  function Plain(r: Record): nat {
    if r.CcsRecord? then 1 else HEADER_LENGTH + |r.fragment.body|
  }

  function SealedLength(r: Record, overhead: nat): nat {
    Plain(r) + overhead
  }

  function PacketLength(rs: seq<Record>, overhead: nat): nat {
    if rs == [] then 0 else PacketLength(rs[..|rs| - 1], overhead) + SealedLength(rs[|rs| - 1], overhead)
  }

  /** The handshake messages among the first `n` outgoing ones. */
  function Handshakes(out: seq<Outgoing>, n: nat): nat
    requires n <= |out|
  {
    if n == 0 then 0 else Handshakes(out, n - 1) + if out[n - 1].isCcs then 0 else 1
  }

  /** The flight's handshake messages are `msgs`, numbered from `base`. */
  ghost predicate FlightOf(out: seq<Outgoing>, base: nat, msgs: seq<Message>) {
    && SentOk(base, msgs) && Handshakes(out, |out|) == |msgs|
    && forall j :: 0 <= j < |out| && !out[j].isCcs ==>
         Handshakes(out, j) < |msgs| && base + Handshakes(out, j) < 0x1_0000 &&
         out[j].data == Serialized(msgs[Handshakes(out, j)], base + Handshakes(out, j))
  }

  /** The fragments in the records, in order. */
  function FragmentsOf(rs: seq<Record>): seq<Fragment> {
    if rs == [] then []
    else FragmentsOf(rs[..|rs| - 1]) + if rs[|rs| - 1].CcsRecord? then [] else [rs[|rs| - 1].fragment]
  }

  lemma SerializedParses(m: Message, seqno: nat)
    requires |m.body| < 0x100_0000 && seqno < 0x1_0000
    ensures ParseFragment(Serialized(m, seqno)) == Some((Fragment(m.typ, |m.body|, seqno, 0, m.body), []))
  {
    FragmentRoundTrip(Fragment(m.typ, |m.body|, seqno, 0, m.body), []);
    assert Serialized(m, seqno) + [] == Serialized(m, seqno);
  }

  /** seal_next_message, on one message and the offset reached in it. */
  function SealNextMessage(msg: Outgoing, offset: nat, maxOut: nat, overhead: nat): SealResult {
    if msg.isCcs then
      if maxOut < 1 + overhead then NoProgress else Success(CcsRecord)
    else
      match ParseFragment(msg.data)
      case None => SealError
      case Some((hdr, rest)) =>
        if hdr.off != 0 || hdr.msgLen != |hdr.body| || offset > |hdr.body| || rest != [] then SealError
        else if maxOut < HEADER_LENGTH + 1 + overhead then NoProgress
        else
          var left := |hdr.body| - offset;
          var todo := if left > maxOut - HEADER_LENGTH - overhead then maxOut - HEADER_LENGTH - overhead else left;
          var record := HandshakeRecord(hdr.(off := offset, body := hdr.body[offset..offset + todo]));
          if todo == left then Success(record) else Partial(record)
  }

  ghost predicate CoversUpTo(fs: seq<Fragment>, q: nat, n: nat) {
    forall i :: 0 <= i < n ==> Covers(fs, q, i)
  }

  /** What is sent before message `written` and, of that message, before `offset`. */
  ghost predicate SentSoFar(out: seq<Outgoing>, base: nat, msgs: seq<Message>, written: nat, offset: nat,
          fs: seq<Fragment>)
    requires FlightOf(out, base, msgs) && written <= |out|
  {
    && (forall f :: f in fs ==> Genuine(base, msgs, f))
    && (forall k :: 0 <= k < Handshakes(out, written) && k < |msgs| ==> CoversWhole(fs, base + k, |msgs[k].body|))
    && (offset > 0 ==> written < |out| && !out[written].isCcs && offset < |msgs[Handshakes(out, written)].body|)
    && CoversUpTo(fs, base + Handshakes(out, written), offset)
  }

  lemma MoreCovers(fs: seq<Fragment>, gs: seq<Fragment>, q: nat)
    requires forall f :: f in fs ==> f in gs
    ensures forall n :: CoversUpTo(fs, q, n) ==> CoversUpTo(gs, q, n)
    ensures forall n :: CoversWhole(fs, q, n) ==> CoversWhole(gs, q, n)
  {
    forall i: nat | Covers(fs, q, i) ensures Covers(gs, q, i) {
      var f :| f in fs && f.seqno == q && Within(f, i);
      assert f in gs;
    }
  }

  lemma OneMoreCovers(fs: seq<Fragment>, f: Fragment, n: nat)
    requires CoversUpTo(fs, f.seqno, n) && f.off == n
    ensures Mentions(fs + [f], f.seqno) && CoversUpTo(fs + [f], f.seqno, n + |f.body|)
  {
    MoreCovers(fs, fs + [f], f.seqno);
    assert f in fs + [f];
    forall i | 0 <= i < n + |f.body| ensures Covers(fs + [f], f.seqno, i) {
      assert i >= n ==> Within(f, i);
    }
  }

  /** What a seal result adds, and where it leaves the sender. */
  ghost predicate Sealed(r: SealResult, out: seq<Outgoing>, base: nat, msgs: seq<Message>, written: nat, offset: nat,
          maxOut: nat, overhead: nat)
    requires FlightOf(out, base, msgs) && written < |out|
  {
    && !r.SealError?
    && (r.NoProgress? <==> maxOut < (if out[written].isCcs then 1 else HEADER_LENGTH + 1) + overhead)
    && (r.Partial? || r.Success? ==> SealedLength(r.record, overhead) <= maxOut)
    && (r.Partial? ==> SealedLength(r.record, overhead) == maxOut)
    && (r.Partial? ==> r.record.HandshakeRecord? && |r.record.fragment.body| > 0 && Encodable(r.record.fragment))
    && (r.Success? && r.record.HandshakeRecord? ==> Encodable(r.record.fragment))
    && forall fs :: SentSoFar(out, base, msgs, written, offset, fs) ==>
         && (r.Success? ==> SentSoFar(out, base, msgs, written + 1, 0, fs + FragmentsOf([r.record])))
         && (r.Partial? ==>
           SentSoFar(out, base, msgs, written, offset + |r.record.fragment.body|, fs + FragmentsOf([r.record])))
  }

  lemma OneRecord(r: Record)
    ensures FragmentsOf([r]) == if r.CcsRecord? then [] else [r.fragment]
  {
    assert [r][..0] == [];
  }

  lemma HandshakeStep(out: seq<Outgoing>, n: nat)
    requires n < |out|
    ensures Handshakes(out, n + 1) == Handshakes(out, n) + if out[n].isCcs then 0 else 1
  {
  }

  lemma FlightAt(out: seq<Outgoing>, base: nat, msgs: seq<Message>, j: nat)
    requires FlightOf(out, base, msgs) && j < |out| && !out[j].isCcs
    ensures var h := Handshakes(out, j);
            && h < |msgs| && base + h < 0x1_0000 && |msgs[h].body| < 0x100_0000
            && ParseFragment(out[j].data) ==
              Some((Fragment(msgs[h].typ, |msgs[h].body|, base + h, 0, msgs[h].body), []))
  {
    hide Serialized, ParseFragment;
    var h := Handshakes(out, j);
    SerializedParses(msgs[h], base + h);
  }

  lemma SealSpec(out: seq<Outgoing>, base: nat, msgs: seq<Message>, written: nat, offset: nat, maxOut: nat,
          overhead: nat)
    requires FlightOf(out, base, msgs) && written < |out|
    requires offset > 0 ==> !out[written].isCcs && offset < |msgs[Handshakes(out, written)].body|
    ensures Sealed(SealNextMessage(out[written], offset, maxOut, overhead), out, base, msgs, written, offset, maxOut,
            overhead)
  {
    hide ParseFragment, SentSoFar, FragmentsOf, FlightOf, Handshakes, SentOk;
    var r := SealNextMessage(out[written], offset, maxOut, overhead);
    var h := Handshakes(out, written);
    if !out[written].isCcs {
      FlightAt(out, base, msgs, written);
    }
    if r.Success? || r.Partial? {
      forall fs | SentSoFar(out, base, msgs, written, offset, fs)
        ensures r.Success? ==> SentSoFar(out, base, msgs, written + 1, 0, fs + FragmentsOf([r.record]))
        ensures r.Partial? ==>
                SentSoFar(out, base, msgs, written, offset + |r.record.fragment.body|, fs + FragmentsOf([r.record]))
      {
        OneRecord(r.record);
        if out[written].isCcs {
          SealCcs(out, base, msgs, written, fs);
        } else {
          SealFragment(out, base, msgs, written, offset, fs, r.record.fragment);
        }
      }
    }
  }

  lemma SealCcs(out: seq<Outgoing>, base: nat, msgs: seq<Message>, written: nat, fs: seq<Fragment>)
    requires FlightOf(out, base, msgs) && written < |out| && out[written].isCcs
             && SentSoFar(out, base, msgs, written, 0, fs)
    ensures SentSoFar(out, base, msgs, written + 1, 0, fs + [])
  {
    hide FlightOf, Handshakes;
    HandshakeStep(out, written);
    assert fs + [] == fs;
  }

  lemma SealFragment(out: seq<Outgoing>, base: nat, msgs: seq<Message>, written: nat, offset: nat, fs: seq<Fragment>,
          f: Fragment)
    requires FlightOf(out, base, msgs) && written < |out| && !out[written].isCcs
             && SentSoFar(out, base, msgs, written, offset, fs)
    requires Handshakes(out, written) < |msgs| && Genuine(base, msgs, f) && f.seqno == base + Handshakes(out, written)
             && f.off == offset
    ensures offset + |f.body| == |msgs[Handshakes(out, written)].body| ==>
            SentSoFar(out, base, msgs, written + 1, 0, fs + [f])
    ensures offset + |f.body| < |msgs[Handshakes(out, written)].body| && |f.body| > 0 ==>
              SentSoFar(out, base, msgs, written, offset + |f.body|, fs + [f])
  {
    hide FlightOf, Handshakes, Covers, Mentions, Genuine;
    var gs, h := fs + [f], Handshakes(out, written);
    HandshakeStep(out, written);
    OneMoreCovers(fs, f, offset);
    forall k | 0 <= k < h && k < |msgs| ensures CoversWhole(gs, base + k, |msgs[k].body|) {
      MoreCovers(fs, gs, base + k);
    }
  }

  // ---------------------------------------------------------------------------------------------
  // Packets
  // ---------------------------------------------------------------------------------------------

  lemma MoreFragments(rs: seq<Record>, r: Record)
    ensures FragmentsOf(rs + [r]) == FragmentsOf(rs) + FragmentsOf([r])
  {
    assert (rs + [r])[..|rs|] == rs;
    assert [r][..0] == [];
  }

  lemma LongerPacket(rs: seq<Record>, r: Record, overhead: nat)
    ensures PacketLength(rs + [r], overhead) == PacketLength(rs, overhead) + SealedLength(r, overhead)
  {
    assert (rs + [r])[..|rs|] == rs;
  }

  ghost predicate RecordsOk(rs: seq<Record>) {
    forall r :: r in rs && r.HandshakeRecord? ==> Encodable(r.fragment)
  }

  function AllFragments(packets: seq<seq<Record>>): seq<Fragment> {
    if packets == [] then [] else AllFragments(packets[..|packets| - 1]) + FragmentsOf(packets[|packets| - 1])
  }

  ghost predicate SomeHandshake(out: seq<Outgoing>, from: nat, to: nat) {
    exists j :: from <= j < to && j < |out| && !out[j].isCcs
  }

  lemma {:induction false} NoHandshakes(out: seq<Outgoing>, n: nat)
    requires n <= |out| && !SomeHandshake(out, 0, n)
    ensures Handshakes(out, n) == 0
  {
    if n > 0 {
      NoHandshakes(out, n - 1);
    }
  }

  lemma AllSent(out: seq<Outgoing>, base: nat, msgs: seq<Message>, offset: nat, fs: seq<Fragment>)
    requires FlightOf(out, base, msgs) && SentSoFar(out, base, msgs, |out|, offset, fs)
    ensures offset == 0 && (msgs != [] ==> SomeHandshake(out, 0, |out|))
  {
    if !SomeHandshake(out, 0, |out|) {
      NoHandshakes(out, |out|);
    }
  }

  class Sender {
    const out: seq<Outgoing>
    const overhead: nat
    var written: nat
    var offset: nat

    constructor (out: seq<Outgoing>, overhead: nat)
      ensures this.out == out && this.overhead == overhead && written == 0 && offset == 0
    {
      this.out, this.overhead, written, offset := out, overhead, 0, 0;
    }

    /** There is room for one more byte of the message in progress. */
    predicate RoomIn(maxOut: nat)
      requires written < |out|
      reads this
    {
      maxOut >= (if out[written].isCcs then 1 else HEADER_LENGTH + 1) + overhead
    }

    /** seal_next_packet: as much as fits, so that what is left of the flight finds no room for one more byte. */
    method SealNextPacket(maxOut: nat, ghost base: nat, ghost msgs: seq<Message>, ghost fs: seq<Fragment>)
      returns (ok: bool, rs: seq<Record>)
      requires FlightOf(out, base, msgs) && written < |out| && SentSoFar(out, base, msgs, written, offset, fs)
      modifies this
      ensures ok <==> old(RoomIn(maxOut))
      ensures written <= |out| && SentSoFar(out, base, msgs, written, offset, fs + FragmentsOf(rs)) && RecordsOk(rs)
      ensures ok ==> PacketLength(rs, overhead) <= maxOut
                     && (written < |out| ==> !RoomIn(maxOut - PacketLength(rs, overhead)))
      ensures ok ==> written > old(written) || (written == old(written) && offset > old(offset))
      ensures SomeHandshake(out, old(written), written) || (offset > 0 && offset != old(offset))
              || (offset > 0 && written != old(written)) ==>
                maxOut >= HEADER_LENGTH + 1 + overhead
    {
      hide FlightOf, SentSoFar, FragmentsOf, PacketLength, Encodable;
      rs := [];
      assert FragmentsOf([]) == [] && PacketLength([], overhead) == 0 by { NoRecords(overhead); }
      assert fs + [] == fs;
      var left: nat := maxOut;
      while written < |out|
        invariant written <= |out| && SentSoFar(out, base, msgs, written, offset, fs + FragmentsOf(rs)) && RecordsOk(rs)
        invariant left + PacketLength(rs, overhead) == maxOut
        invariant rs == [] ==> written == old(written) && offset == old(offset)
        invariant rs != [] ==> written > old(written)
        invariant rs != [] ==> old(RoomIn(maxOut)) && offset == 0
        invariant SomeHandshake(out, old(written), written) ==> maxOut >= HEADER_LENGTH + 1 + overhead
        decreases |out| - written
      {
        InProgress(out, base, msgs, written, offset, fs + FragmentsOf(rs));
        SealSpec(out, base, msgs, written, offset, left, overhead);
        var r := SealNextMessage(out[written], offset, left, overhead);
        if r.NoProgress? {
          break;
        }
        MoreFragments(rs, r.record);
        LongerPacket(rs, r.record, overhead);
        assert fs + FragmentsOf(rs) + FragmentsOf([r.record]) == fs + FragmentsOf(rs + [r.record]);
        left := left - SealedLength(r.record, overhead);
        rs := rs + [r.record];
        if r.Partial? {
          offset := offset + |r.record.fragment.body|;
          break;
        }
        offset := 0;
        written := written + 1;
      }
      ok := rs != [];
    }

    /** send_flight, when every write succeeds: packets that fit the MTU until all is sent, or an
        error when the MTU leaves no room. */
    method SendFlight(mtu: nat, ghost base: nat, ghost msgs: seq<Message>) returns (ok: bool, packets: seq<seq<Record>>)
      requires FlightOf(out, base, msgs) && written == 0 && offset == 0
      modifies this
      ensures forall p :: p in packets ==> PacketLength(p, overhead) <= mtu && RecordsOk(p)
      ensures ok ==> written == |out| && SentSoFar(out, base, msgs, |out|, 0, AllFragments(packets))
      ensures mtu >= HEADER_LENGTH + 1 + overhead ==> ok
      ensures ok && msgs != [] ==> mtu >= HEADER_LENGTH + 1 + overhead
    {
      hide FlightOf, SentSoFar, FragmentsOf, PacketLength, RecordsOk, Handshakes;
      packets := [];
      NothingSent(out, base, msgs);
      while written < |out|
        invariant written <= |out| && SentSoFar(out, base, msgs, written, offset, AllFragments(packets))
        invariant forall p :: p in packets ==> PacketLength(p, overhead) <= mtu && RecordsOk(p)
        invariant SomeHandshake(out, 0, written) || offset > 0 ==> mtu >= HEADER_LENGTH + 1 + overhead
        decreases |out| - written, LeftOf(out, base, msgs, written) - offset
      {
        ghost var fs := AllFragments(packets);
        InProgress(out, base, msgs, written, offset, fs);
        ghost var w, o := written, offset;
        var sent, rs := SealNextPacket(mtu, base, msgs, fs);
        if !sent {
          return false, packets;
        }
        assert (packets + [rs])[..|packets|] == packets;
        packets := packets + [rs];
      }
      AllSent(out, base, msgs, offset, AllFragments(packets));
      ok := true;
    }
  }

  /** The length of the message in progress. */
  ghost function LeftOf(out: seq<Outgoing>, base: nat, msgs: seq<Message>, written: nat): nat
    requires FlightOf(out, base, msgs) && written <= |out|
  {
    if written < |out| && Handshakes(out, written) < |msgs| then |msgs[Handshakes(out, written)].body| else 0
  }

  lemma NothingSent(out: seq<Outgoing>, base: nat, msgs: seq<Message>)
    requires FlightOf(out, base, msgs)
    ensures SentSoFar(out, base, msgs, 0, 0, [])
  {
  }

  lemma NoRecords(overhead: nat)
    ensures FragmentsOf([]) == [] && PacketLength([], overhead) == 0
  {
  }

  lemma InProgress(out: seq<Outgoing>, base: nat, msgs: seq<Message>, written: nat, offset: nat, fs: seq<Fragment>)
    requires FlightOf(out, base, msgs) && written < |out| && SentSoFar(out, base, msgs, written, offset, fs)
    ensures offset > 0 ==>
            !out[written].isCcs && Handshakes(out, written) < |msgs| && offset < |msgs[Handshakes(out, written)].body|
  {
  }

  /** Send a flight for any MTU with room, deliver its fragments in any order and as often as you
      like, packed into records in any way and with fragments of earlier transmissions among them: the
      receiver raises no alert and hands out exactly the messages of the flight, in order.  In the
      encrypted epoch the flight is one message. */
  lemma FlightReassembled(out: seq<Outgoing>, base: nat, msgs: seq<Message>, sent: seq<Fragment>, records: seq<Bytes>,
                          packs: seq<seq<Fragment>>, v: View, epoch: nat, maxLen: nat)
    requires FlightOf(out, base, msgs) && SentSoFar(out, base, msgs, |out|, 0, sent)
    requires Pack(records, packs)
    requires forall f :: f in sent ==> f in Unpacked(packs)
    requires forall f :: f in Unpacked(packs) ==> Genuine(base, msgs, f)
    requires |msgs| <= MAX_FLIGHT && base + |msgs| < 0x1_0000 && Fits(msgs, maxLen) && (epoch == 1 ==> |msgs| <= 1)
    requires ViewOk(v) && v.readSeq == base && v.slots == seq(MAX_FLIGHT, _ => None)
    ensures var (w, alert) := AbsorbRecords(v, records, epoch, maxLen);
            && alert == None && ViewOk(w) && TakeAll(w, |msgs|) == AllSerialized(base, msgs, 0)
  {
    hide CoversWhole, Genuine, AbsorbList, AbsorbRecords, TakeAll, AllSerialized, Handshakes, Pack, Unpacked;
    var arrived := Unpacked(packs);
    forall k | 0 <= k < |msgs| ensures CoversWhole(arrived, base + k, |msgs[k].body|) {
      MoreCovers(sent, arrived, base + k);
    }
    FlightArrives(base, msgs, v, arrived, epoch, maxLen);
    RecordsAreFragments(v, records, packs, epoch, maxLen);
  }
}
