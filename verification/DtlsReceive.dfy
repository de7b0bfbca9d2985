/** Receiving DTLS handshake messages: fragments in any order become whole messages in order. */
module DtlsReceive {
  import opened Options
  import opened Coding
  import opened DtlsBitmap

  /** The number of messages of the largest handshake flight. */
  const MAX_FLIGHT := 7

  datatype Alert = InternalError | IllegalParameter | UnexpectedMessage | DecodeError

  datatype Fragment = Fragment(typ: byte, msgLen: nat, seqno: nat, off: nat, body: Bytes)

  predicate Encodable(f: Fragment) {
    f.msgLen < 0x100_0000 && f.seqno < 0x1_0000 && f.off < 0x100_0000 && |f.body| < 0x100_0000
  }

  function EncodeFragment(f: Fragment): (s: Bytes)
    requires Encodable(f)
    ensures |s| == HEADER_LENGTH + |f.body|
  {
    Header(f.typ, f.msgLen, f.seqno, f.off, |f.body|) + f.body
  }

  function GetU24(s: Bytes, i: nat): (n: nat)
    requires i + 3 <= |s|
    ensures n < 0x100_0000
  {
    s[i] as int * 0x1_0000 + s[i + 1] as int * 0x100 + s[i + 2] as int
  }

  /** dtls1_parse_fragment. */
  function ParseFragment(s: Bytes): (r: Option<(Fragment, Bytes)>)
    ensures r.Some? ==> Encodable(r.value.0) && |r.value.1| < |s|
  {
    if |s| < HEADER_LENGTH then None
    else
      var len := GetU24(s, 9);
      if |s| - HEADER_LENGTH < len then None
      else Some((Fragment(s[0], GetU24(s, 1), s[4] as int * 0x100 + s[5] as int, GetU24(s, 6),
        s[HEADER_LENGTH..HEADER_LENGTH + len]),
                 s[HEADER_LENGTH + len..]))
  }

  lemma FragmentRoundTrip(f: Fragment, rest: Bytes)
    requires Encodable(f)
    ensures ParseFragment(EncodeFragment(f) + rest) == Some((f, rest))
  {
    var s := EncodeFragment(f) + rest;
    HeaderFields(f.typ, f.msgLen, f.seqno, f.off, |f.body|);
    var h := Header(f.typ, f.msgLen, f.seqno, f.off, |f.body|);
    assert s[..HEADER_LENGTH] == h;
    assert GetU24(s, 1) == GetU24(h, 1) && GetU24(s, 6) == GetU24(h, 6) && GetU24(s, 9) == GetU24(h, 9);
    assert s[HEADER_LENGTH..HEADER_LENGTH + |f.body|] == f.body && s[HEADER_LENGTH + |f.body|..] == rest;
  }

  lemma HeaderFields(typ: byte, msgLen: nat, seqno: nat, off: nat, len: nat)
    requires msgLen < 0x100_0000 && seqno < 0x1_0000 && off < 0x100_0000 && len < 0x100_0000
    ensures var h := Header(typ, msgLen, seqno, off, len);
            h[0] == typ && GetU24(h, 1) == msgLen && h[4] as int * 0x100 + h[5] as int == seqno && GetU24(h, 6) == off
              && GetU24(h, 9) == len
  {
    var h := Header(typ, msgLen, seqno, off, len);
    assert h[1..4] == U24(msgLen) && h[4..6] == U16(seqno) && h[6..9] == U24(off) && h[9..12] == U24(len);
    assert h[1] == h[1..4][0] && h[2] == h[1..4][1] && h[3] == h[1..4][2];
    assert h[6] == h[6..9][0] && h[7] == h[6..9][1] && h[8] == h[6..9][2];
    assert h[9] == h[9..12][0] && h[10] == h[9..12][1] && h[11] == h[9..12][2];
    assert h[4] == h[4..6][0] && h[5] == h[4..6][1];
  }

  // ---------------------------------------------------------------------------------------------
  // What a fragment does
  // ---------------------------------------------------------------------------------------------

  /** The next message to hand out, and the messages being put together. */
  datatype View = View(readSeq: nat, slots: seq<Option<Slot>>)

  ghost predicate ViewOk(v: View) {
    && |v.slots| == MAX_FLIGHT && v.readSeq < 0x1_0000
    && forall i :: 0 <= i < MAX_FLIGHT && v.slots[i].Some? ==>
         v.slots[i].value.seqno % MAX_FLIGHT == i && v.readSeq <= v.slots[i].value.seqno < v.readSeq + MAX_FLIGHT &&
         v.slots[i].value.seqno < 0x1_0000
  }

  function EmptySlot(f: Fragment): Slot {
    Slot(f.typ, f.seqno, seq(f.msgLen, _ => None))
  }

  ghost function SlotFor(v: View, f: Fragment): Slot
    requires |v.slots| == MAX_FLIGHT
  {
    var s := v.slots[f.seqno % MAX_FLIGHT];
    if s.Some? then s.value else EmptySlot(f)
  }

  ghost function Filled(s: Slot, f: Fragment): Slot {
    if Complete(s) then s else s.(body := Put(s.body, f.off, f.body))
  }

  /** One fragment of an opened record. */
  ghost function Absorb(v: View, f: Fragment, epoch: nat, maxLen: nat): (r: (View, Option<Alert>))
    requires |v.slots| == MAX_FLIGHT
    ensures |r.0.slots| == MAX_FLIGHT
  {
    if f.off + |f.body| > f.msgLen || f.msgLen > maxLen then (v, Some(IllegalParameter))
    else if epoch == 1 && f.seqno != v.readSeq then (v, Some(UnexpectedMessage))
    else if f.seqno < v.readSeq || f.seqno > v.readSeq + MAX_FLIGHT then (v, None)
    else if f.seqno - v.readSeq >= MAX_FLIGHT then (v, Some(InternalError))
    else
      var s := SlotFor(v, f);
      if s.typ != f.typ || |s.body| != f.msgLen then (v, Some(IllegalParameter))
      else (v.(slots := v.slots[f.seqno % MAX_FLIGHT := Some(Filled(s, f))]), None)
  }

  ghost function AbsorbRecord(v: View, record: Bytes, epoch: nat, maxLen: nat): (r: (View, Option<Alert>))
    requires |v.slots| == MAX_FLIGHT
    ensures |r.0.slots| == MAX_FLIGHT
    decreases |record|
  {
    if record == [] then (v, None)
    else
      match ParseFragment(record)
      case None => (v, Some(DecodeError))
      case Some((f, rest)) =>
        var (w, alert) := Absorb(v, f, epoch, maxLen);
        if alert.Some? then (w, alert) else AbsorbRecord(w, rest, epoch, maxLen)
  }

  lemma AbsorbKeepsOk(v: View, f: Fragment, epoch: nat, maxLen: nat)
    requires ViewOk(v) && f.seqno < 0x1_0000
    ensures ViewOk(Absorb(v, f, epoch, maxLen).0)
  {
  }

  /** The slot of a message in the window holds that message. */
  lemma SlotInWindow(v: View, f: Fragment)
    requires ViewOk(v) && v.readSeq <= f.seqno < v.readSeq + MAX_FLIGHT && v.slots[f.seqno % MAX_FLIGHT].Some?
    ensures v.slots[f.seqno % MAX_FLIGHT].value.seqno == f.seqno
  {
  }

  function Values(body: seq<Option<byte>>): Bytes
    requires forall i :: 0 <= i < |body| ==> body[i].Some?
  {
    seq(|body|, i requires 0 <= i < |body| => body[i].value)
  }

  ghost function NextMessage(v: View): Option<Bytes>
    requires ViewOk(v)
  {
    var s := v.slots[v.readSeq % MAX_FLIGHT];
    if s.Some? && Complete(s.value) && |s.value.body| < 0x100_0000 then
      Some(Header(s.value.typ, |s.value.body|, s.value.seqno, 0, |s.value.body|) + Values(s.value.body))
    else None
  }

  ghost function Advanced(v: View): View
    requires ViewOk(v)
  {
    View((v.readSeq + 1) % 0x1_0000, v.slots[v.readSeq % MAX_FLIGHT := None])
  }

  lemma AdvanceKeepsOk(v: View)
    requires ViewOk(v)
    ensures ViewOk(Advanced(v))
  {
    forall i | 0 <= i < MAX_FLIGHT && Advanced(v).slots[i].Some?
      ensures v.readSeq < v.slots[i].value.seqno
    {
      assert v.slots[i].value.seqno % MAX_FLIGHT == i;
    }
  }

  // ---------------------------------------------------------------------------------------------
  // The receiver
  // ---------------------------------------------------------------------------------------------

  class Receiver {
    const maxLen: nat
    const incoming: array<HmFragment?>
    var readSeq: nat
    var epoch: nat
    ghost var Repr: set<object>

    ghost predicate SlotsApart()
      reads this, incoming
    {
      && incoming.Length == MAX_FLIGHT
      && (forall i :: 0 <= i < MAX_FLIGHT && incoming[i] != null ==> incoming[i].Objects() <= Repr - {this, incoming})
      && (forall i, j :: 0 <= i < j < MAX_FLIGHT && incoming[i] != null && incoming[j] != null ==>
            incoming[i].Objects() !! incoming[j].Objects())
    }

    ghost predicate Shape()
      reads this, Repr
    {
      && this in Repr && incoming in Repr && SlotsApart()
      && (forall i :: 0 <= i < MAX_FLIGHT && incoming[i] != null ==> incoming[i].Valid())
    }

    ghost function SlotAt(i: nat): Option<Slot>
      requires Shape() && i < MAX_FLIGHT
      reads this, Repr
    {
      if incoming[i] == null then None else Some(incoming[i].View())
    }

    ghost function Current(): (v: View)
      requires Shape()
      reads this, Repr
      ensures |v.slots| == MAX_FLIGHT
    {
      View(readSeq, seq(MAX_FLIGHT, i requires 0 <= i < MAX_FLIGHT && Shape() reads this, Repr => SlotAt(i)))
    }

    ghost predicate Valid()
      reads this, Repr
    {
      Shape() && ViewOk(Current())
    }

    constructor (maxLen: nat, epoch: nat)
      ensures Valid() && fresh(Repr) && Current() == View(0, seq(MAX_FLIGHT, _ => None))
      ensures this.maxLen == maxLen && this.epoch == epoch
    {
      this.maxLen, this.epoch, readSeq := maxLen, epoch, 0;
      incoming := new HmFragment?[MAX_FLIGHT](_ => null);
      new;
      Repr := {this, incoming};
    }

    /** Stores a new hm_fragment in an empty slot. */
    method Create(f: Fragment)
      requires Shape() && Encodable(f) && incoming[f.seqno % MAX_FLIGHT] == null
      modifies this`Repr, incoming
      ensures Shape() && fresh(Repr - old(Repr))
      ensures incoming[f.seqno % MAX_FLIGHT] != null && incoming[f.seqno % MAX_FLIGHT].msgLen == f.msgLen
      ensures Current() == old(Current()).(slots := old(Current()).slots[f.seqno % MAX_FLIGHT := Some(EmptySlot(f))])
    {
      hide HmFragment.Valid, HmFragment.View, HmFragment.Marked;
      var frag := new HmFragment(f.typ, f.seqno, f.msgLen);
      var idx := f.seqno % MAX_FLIGHT;
      incoming[idx] := frag;
      Repr := Repr + {frag, frag.data, frag.marks};
      assert SlotAt(idx) == Some(EmptySlot(f));
      assert forall j :: 0 <= j < MAX_FLIGHT && j != idx ==> SlotAt(j) == old(SlotAt(j));
    }

    /** Copies a fragment into its message, unless that is complete. */
    method Store(f: Fragment)
      requires Shape() && incoming[f.seqno % MAX_FLIGHT] != null
      requires incoming[f.seqno % MAX_FLIGHT].msgLen == f.msgLen && f.off + |f.body| <= f.msgLen
      modifies Repr
      ensures Shape() && Repr == old(Repr) && readSeq == old(readSeq) && epoch == old(epoch)
      ensures var s := old(Current()).slots[f.seqno % MAX_FLIGHT];
              s.Some? && Current() == old(Current()).(slots :=
                old(Current()).slots[f.seqno % MAX_FLIGHT := Some(Filled(s.value, f))])
    {
      hide HmFragment.Valid, HmFragment.View, HmFragment.Marked, Complete;
      var idx := f.seqno % MAX_FLIGHT;
      var frag := incoming[idx];
      ghost var s := SlotAt(idx);
      frag.AssembledIsComplete();
      if frag.assembled {
        assert Filled(s.value, f) == s.value;
        return;
      }
      assert Filled(s.value, f) == s.value.(body := Put(s.value.body, f.off, f.body));
      frag.Fill(f.off, f.body);
      assert SlotAt(idx) == Some(Filled(s.value, f));
      assert forall j :: 0 <= j < MAX_FLIGHT && j != idx ==> SlotAt(j) == old(SlotAt(j));
    }

    /** dtls1_get_incoming_message. */
    method GetIncomingMessage(f: Fragment) returns (alert: Option<Alert>)
      requires Valid() && Encodable(f) && f.seqno >= readSeq
      modifies this`Repr, incoming
      ensures Valid() && fresh(Repr - old(Repr))
      ensures var v := old(Current());
              if f.seqno - readSeq >= MAX_FLIGHT then alert == Some(InternalError) && Current() == v
              else if SlotFor(v, f).typ != f.typ
                || |SlotFor(v, f).body| != f.msgLen then alert == Some(IllegalParameter) && Current() == v
              else alert == None && Current() == v.(slots := v.slots[f.seqno % MAX_FLIGHT := Some(SlotFor(v, f))])
      ensures alert == None ==>
              incoming[f.seqno % MAX_FLIGHT] != null && incoming[f.seqno % MAX_FLIGHT].msgLen == f.msgLen
    {
      hide Header;
      if f.seqno < readSeq || f.seqno - readSeq >= MAX_FLIGHT {
        return Some(InternalError);
      }
      var idx := f.seqno % MAX_FLIGHT;
      var frag := incoming[idx];
      assert Current().slots[idx] == SlotAt(idx);
      if frag != null {
        SlotInWindow(Current(), f);
        assert frag.seqno == f.seqno;
        if frag.typ != f.typ || frag.msgLen != f.msgLen {
          return Some(IllegalParameter);
        }
        assert Current().slots == Current().slots[idx := Some(SlotFor(Current(), f))];
        return None;
      }
      Create(f);
      return None;
    }

    /** One fragment of an opened record. */
    method Take(f: Fragment) returns (alert: Option<Alert>)
      requires Valid() && Encodable(f)
      modifies Repr
      ensures Valid() && fresh(Repr - old(Repr)) && epoch == old(epoch)
      ensures (Current(), alert) == Absorb(old(Current()), f, epoch, maxLen)
    {
      hide Complete;
      if f.off > f.msgLen || f.off + |f.body| > f.msgLen || f.msgLen > maxLen {
        return Some(IllegalParameter);
      }
      if epoch == 1 && f.seqno != readSeq {
        return Some(UnexpectedMessage);
      }
      if f.seqno < readSeq || f.seqno > readSeq + MAX_FLIGHT {
        return None;
      }
      ghost var v, idx := Current(), f.seqno % MAX_FLIGHT;
      AbsorbKeepsOk(v, f, epoch, maxLen);
      alert := GetIncomingMessage(f);
      if alert.Some? {
        return;
      }
      Store(f);
      assert v.slots[idx := Some(SlotFor(v, f))][idx := Some(Filled(SlotFor(v, f), f))] ==
        v.slots[idx := Some(Filled(SlotFor(v, f), f))];
    }

    /** dtls1_open_handshake on the plaintext of a handshake record. */
    method OpenHandshake(record: Bytes) returns (alert: Option<Alert>)
      requires Valid()
      modifies Repr
      ensures Valid() && fresh(Repr - old(Repr)) && epoch == old(epoch)
      ensures (Current(), alert) == AbsorbRecord(old(Current()), record, epoch, maxLen)
    {
      hide Absorb, ParseFragment;
      var cbs := record;
      while cbs != []
        invariant Valid() && fresh(Repr - old(Repr)) && epoch == old(epoch)
        invariant AbsorbRecord(old(Current()), record, epoch, maxLen) == AbsorbRecord(Current(), cbs, epoch, maxLen)
        decreases |cbs|
      {
        var parsed := ParseFragment(cbs);
        if parsed.None? {
          return Some(DecodeError);
        }
        alert := Take(parsed.value.0);
        if alert.Some? {
          return;
        }
        cbs := parsed.value.1;
      }
      return None;
    }

    /** dtls1_get_message: the next message, with its header, if it is complete. */
    method GetMessage() returns (r: Option<Bytes>)
      requires Valid()
      ensures r == NextMessage(Current())
    {
      var frag := incoming[readSeq % MAX_FLIGHT];
      assert Current().slots[readSeq % MAX_FLIGHT] == SlotAt(readSeq % MAX_FLIGHT);
      if frag == null {
        return None;
      }
      frag.AssembledIsComplete();
      if !frag.assembled {
        return None;
      }
      assert frag.data[..] == frag.data[..HEADER_LENGTH] + frag.data[HEADER_LENGTH..];
      assert frag.data[HEADER_LENGTH..] == Values(frag.View().body);
      return Some(frag.data[..]);
    }

    /** dtls1_next_message. */
    method NextMessageDone()
      requires Valid() && NextMessage(Current()).Some?
      modifies this`readSeq, incoming
      ensures Valid() && Current() == Advanced(old(Current()))
    {
      ghost var v := Current();
      var idx := readSeq % MAX_FLIGHT;
      incoming[idx] := null;
      readSeq := (readSeq + 1) % 0x1_0000;
      assert forall j :: 0 <= j < MAX_FLIGHT && j != idx ==> SlotAt(j) == old(SlotAt(j));
      AdvanceKeepsOk(v);
      assert Current().slots == Advanced(v).slots;
    }
  }
}
