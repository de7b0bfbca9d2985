/** One incoming DTLS handshake message and the bitmap of the bytes received so far. */
module DtlsBitmap {
  import opened Options
  import opened Coding

  const HEADER_LENGTH := 12

  // ---------------------------------------------------------------------------------------------
  // Bits of a byte
  // ---------------------------------------------------------------------------------------------

  /** (1 << k) - 1 */
  function LowMask(k: nat): bv8
    requires k <= 8
  {
    if k == 0 then 0 else if k == 1 then 1 else if k == 2 then 3 else if k == 3 then 7 else if k == 4 then 15
    else if k == 5 then 31 else if k == 6 then 63 else if k == 7 then 127 else 255
  }

  function BitRange(start: nat, end: nat): bv8
    requires start <= 8 && end <= 8
  {
    !LowMask(start) & LowMask(end)
  }

  predicate Bit(x: bv8, k: nat)
    requires k < 8
  {
    if k == 0 then x & 1 != 0 else if k == 1 then x & 2 != 0 else if k == 2 then x & 4 != 0
      else if k == 3 then x & 8 != 0
    else if k == 4 then x & 16 != 0 else if k == 5 then x & 32 != 0 else if k == 6 then x & 64 != 0 else x & 128 != 0
  }

  function Or(x: bv8, y: bv8): bv8 {
    x | y
  }

  lemma RangeBits(start: nat, end: nat, k: nat)
    requires start <= 8 && end <= 8 && k < 8
    ensures Bit(BitRange(start, end), k) <==> start <= k < end
  {
  }

  lemma OrMask(x: bv8, y: bv8, m: bv8)
    ensures Or(x, y) & m != 0 <==> x & m != 0 || y & m != 0
  {
  }

  lemma OrBits(x: bv8, y: bv8, k: nat)
    requires k < 8
    ensures Bit(Or(x, y), k) <==> Bit(x, k) || Bit(y, k)
  {
    hide Or;
    if k == 0 {
      OrMask(x, y, 1);
    } else if k == 1 {
      OrMask(x, y, 2);
    } else if k == 2 {
      OrMask(x, y, 4);
    } else if k == 3 {
      OrMask(x, y, 8);
    } else if k == 4 {
      OrMask(x, y, 16);
    } else if k == 5 {
      OrMask(x, y, 32);
    } else if k == 6 {
      OrMask(x, y, 64);
    } else {
      OrMask(x, y, 128);
    }
  }

  lemma OrRange(x: bv8, start: nat, end: nat)
    requires start <= 8 && end <= 8
    ensures forall k :: 0 <= k < 8 ==> (Bit(Or(x, BitRange(start, end)), k) <==> Bit(x, k) || start <= k < end)
  {
    hide Bit, Or, BitRange;
    forall k | 0 <= k < 8 ensures Bit(Or(x, BitRange(start, end)), k) <==> Bit(x, k) || start <= k < end {
      OrBits(x, BitRange(start, end), k);
      RangeBits(start, end, k);
    }
  }

  lemma FullBits(x: bv8)
    ensures x == 0xff <==> forall k :: 0 <= k < 8 ==> Bit(x, k)
  {
    if forall k :: 0 <= k < 8 ==> Bit(x, k) {
      assert Bit(x, 0) && Bit(x, 1) && Bit(x, 2) && Bit(x, 3) && Bit(x, 4) && Bit(x, 5) && Bit(x, 6) && Bit(x, 7);
    }
  }

  lemma SameBits(x: bv8, y: bv8)
    ensures x == y <==> forall k :: 0 <= k < 8 ==> (Bit(x, k) <==> Bit(y, k))
  {
    if forall k :: 0 <= k < 8 ==> (Bit(x, k) <==> Bit(y, k)) {
      assert Bit(x, 0) <==> Bit(y, 0);
      assert Bit(x, 1) <==> Bit(y, 1);
      assert Bit(x, 2) <==> Bit(y, 2);
      assert Bit(x, 3) <==> Bit(y, 3);
      assert Bit(x, 4) <==> Bit(y, 4);
      assert Bit(x, 5) <==> Bit(y, 5);
      assert Bit(x, 6) <==> Bit(y, 6);
      assert Bit(x, 7) <==> Bit(y, 7);
    }
  }

  // ---------------------------------------------------------------------------------------------
  // The message being put together
  // ---------------------------------------------------------------------------------------------

  function U16(n: nat): (s: Bytes)
    requires n < 0x1_0000
    ensures |s| == 2
  {
    [n / 0x100, n % 0x100]
  }

  function U24(n: nat): (s: Bytes)
    requires n < 0x100_0000
    ensures |s| == 3
  {
    [n / 0x1_0000, n / 0x100 % 0x100, n % 0x100]
  }

  function Header(typ: byte, msgLen: nat, seqno: nat, off: nat, len: nat): (s: Bytes)
    requires msgLen < 0x100_0000 && seqno < 0x1_0000 && off < 0x100_0000 && len < 0x100_0000
    ensures |s| == HEADER_LENGTH
  {
    [typ] + U24(msgLen) + U16(seqno) + U24(off) + U24(len)
  }

  /** What the bitmap and the buffer stand for: the bytes received. */
  datatype Slot = Slot(typ: byte, seqno: nat, body: seq<Option<byte>>)

  ghost predicate Complete(s: Slot) {
    forall i :: 0 <= i < |s.body| ==> s.body[i].Some?
  }

  function Put(body: seq<Option<byte>>, off: nat, bs: Bytes): (r: seq<Option<byte>>)
    ensures |r| == |body|
    ensures forall i :: 0 <= i < |body| ==> r[i] == if off <= i < off + |bs| then Some(bs[i - off]) else body[i]
  {
    seq(|body|, i requires 0 <= i < |body| => if off <= i < off + |bs| then Some(bs[i - off]) else body[i])
  }

  function Overwritten(s: Bytes, off: nat, bs: Bytes): (r: Bytes)
    requires off + |bs| <= |s|
    ensures |r| == |s|
  {
    s[..off] + bs + s[off + |bs|..]
  }

  lemma PutView(was: seq<Option<byte>>, before: seq<bool>, bytes: Bytes, after: seq<bool>, now: Bytes,
          view: seq<Option<byte>>, off: nat, bs: Bytes)
    requires |was| == |before| == |bytes| == |after| == |now| == |view| && off + |bs| <= |was|
    requires forall i :: 0 <= i < |was| ==> was[i] == if before[i] then Some(bytes[i]) else None
    requires forall i :: 0 <= i < |was| ==> view[i] == if after[i] then Some(now[i]) else None
    requires forall i :: 0 <= i < |was| ==> (after[i] <==> before[i] || off <= i < off + |bs|)
    requires now == Overwritten(bytes, off, bs)
    ensures view == Put(was, off, bs)
  {
  }

  /** hm_fragment. */
  class HmFragment {
    const typ: byte
    const seqno: nat
    const msgLen: nat
    const data: array<byte>
    const marks: array<bv8>
    /** The reassembly bitmap has been released. */
    var assembled: bool

    ghost function Objects(): set<object> {
      {this, data, marks}
    }

    predicate Marked(i: nat)
      requires i < msgLen && marks.Length == (msgLen + 7) / 8
      reads marks
    {
      Bit(marks[i / 8], i % 8)
    }

    ghost predicate Valid()
      reads this, data, marks
    {
      && msgLen < 0x100_0000 && seqno < 0x1_0000
      && data.Length == HEADER_LENGTH + msgLen && marks.Length == (msgLen + 7) / 8
      && data[..HEADER_LENGTH] == Header(typ, msgLen, seqno, 0, msgLen)
      && (msgLen == 0 ==> assembled)
      && (!assembled ==> forall i, k :: 0 <= i < marks.Length && 0 <= k < 8 && 8 * i + k >= msgLen ==>
        !Bit(marks[i], k))
      && (!assembled ==> exists i :: 0 <= i < msgLen && !Marked(i))
    }

    ghost function View(): (s: Slot)
      requires Valid()
      reads this, data, marks
      ensures |s.body| == msgLen && s.typ == typ && s.seqno == seqno
    {
      Slot(typ, seqno, seq(msgLen, i requires 0 <= i < msgLen && Valid() reads this, data, marks =>
        if assembled || Marked(i) then Some(data[HEADER_LENGTH + i]) else None))
    }

    constructor (typ: byte, seqno: nat, msgLen: nat)
      requires msgLen < 0x100_0000 && seqno < 0x1_0000
      ensures Valid() && fresh(data) && fresh(marks)
      ensures View() == Slot(typ, seqno, seq(msgLen, _ => None)) && assembled == (msgLen == 0)
    {
      this.typ, this.seqno, this.msgLen := typ, seqno, msgLen;
      var header := Header(typ, msgLen, seqno, 0, msgLen);
      data := new byte[HEADER_LENGTH + msgLen](i requires 0 <= i => if i < HEADER_LENGTH then header[i] else 0);
      marks := new bv8[(msgLen + 7) / 8](_ => 0);
      assembled := msgLen == 0;
      new;
      assert forall k :: 0 <= k < 8 ==> !Bit(0, k);
      assert data[..HEADER_LENGTH] == header;
      assert msgLen > 0 ==> !Marked(0);
      assert View().body == seq(msgLen, _ => None);
    }

    /** Sets the bits of the bytes from `start` up to `end`. */
    method MarkRange(start: nat, end: nat)
      requires start < end <= msgLen && marks.Length == (msgLen + 7) / 8
      modifies marks
      ensures forall j, k :: 0 <= j < marks.Length && 0 <= k < 8 ==>
        (Bit(marks[j], k) <==> Bit(old(marks[j]), k) || start <= 8 * j + k < end)
    {
      hide Bit, Or, BitRange;
      if start / 8 == end / 8 {
        OrRange(marks[start / 8], start % 8, end % 8);
        marks[start / 8] := Or(marks[start / 8], BitRange(start % 8, end % 8));
      } else {
        OrRange(marks[start / 8], start % 8, 8);
        marks[start / 8] := Or(marks[start / 8], BitRange(start % 8, 8));
        FullBits(0xff);
        for i := start / 8 + 1 to end / 8
          invariant forall j, k :: 0 <= j < marks.Length && 0 <= k < 8 ==>
            (Bit(marks[j], k) <==> Bit(old(marks[j]), k) || (start <= 8 * j + k && j < i))
          invariant forall j :: i <= j < marks.Length ==> marks[j] == old(marks[j])
        {
          marks[i] := 0xff;
        }
        if end % 8 != 0 {
          OrRange(marks[end / 8], 0, end % 8);
          marks[end / 8] := Or(marks[end / 8], BitRange(0, end % 8));
        }
      }
    }

    /** Every byte is marked: all whole bytes of the bitmap are full, and the low bits of the last. */
    method AllMarked() returns (all: bool)
      requires msgLen > 0 && marks.Length == (msgLen + 7) / 8
      requires forall i, k :: 0 <= i < marks.Length && 0 <= k < 8 && 8 * i + k >= msgLen ==> !Bit(marks[i], k)
      ensures all <==> forall i :: 0 <= i < msgLen ==> Marked(i)
    {
      hide Bit, BitRange;
      for i := 0 to msgLen / 8
        invariant forall j :: 0 <= j < 8 * i ==> Marked(j)
      {
        FullBits(marks[i]);
        if marks[i] != 0xff {
          ghost var k :| 0 <= k < 8 && !Bit(marks[i], k);
          assert !Marked(8 * i + k);
          return false;
        }
      }
      if msgLen % 8 != 0 {
        var x, y := marks[msgLen / 8], BitRange(0, msgLen % 8);
        SameBits(x, y);
        forall k | 0 <= k < 8 ensures Bit(y, k) <==> k < msgLen % 8 {
          RangeBits(0, msgLen % 8, k);
        }
        if x != y {
          ghost var k :| 0 <= k < 8 && Bit(x, k) != Bit(y, k);
          assert !Marked(8 * (msgLen / 8) + k);
          return false;
        }
      }
      return true;
    }

    /** dtls1_hm_fragment_mark. */
    method Mark(start: nat, end: nat)
      requires msgLen > 0 && marks.Length == (msgLen + 7) / 8 && start <= end <= msgLen && !assembled
      requires forall i, k :: 0 <= i < marks.Length && 0 <= k < 8 && 8 * i + k >= msgLen ==> !Bit(marks[i], k)
      requires exists i :: 0 <= i < msgLen && !Marked(i)
      modifies this`assembled, marks
      ensures forall i :: 0 <= i < msgLen ==> (Marked(i) <==> old(Marked(i)) || start <= i < end)
      ensures assembled <==> forall i :: 0 <= i < msgLen ==> Marked(i)
      ensures forall i, k :: 0 <= i < marks.Length && 0 <= k < 8 && 8 * i + k >= msgLen ==> !Bit(marks[i], k)
    {
      if start == end {
        return;
      }
      MarkRange(start, end);
      assert forall i :: 0 <= i < msgLen ==> i == 8 * (i / 8) + i % 8;
      var all := AllMarked();
      assembled := all;
      assert forall i :: 0 <= i < msgLen ==> Marked(i) == Bit(marks[i / 8], i % 8);
    }

    /** The memcpy into the message. */
    method Copy(off: nat, bs: Bytes)
      requires data.Length == HEADER_LENGTH + msgLen && off + |bs| <= msgLen
      modifies data
      ensures data[..HEADER_LENGTH] == old(data[..HEADER_LENGTH])
      ensures data[HEADER_LENGTH..] == Overwritten(old(data[HEADER_LENGTH..]), off, bs)
    {
      forall i | 0 <= i < |bs| {
        data[HEADER_LENGTH + off + i] := bs[i];
      }
    }

    /** The message's bytes, known or not, from the marks and the buffer. */
    lemma ViewFromMarks()
      requires Valid()
      ensures forall i :: 0 <= i < msgLen ==>
        View().body[i] == if assembled || Marks()[i] then Some(data[HEADER_LENGTH..][i]) else None
    {
    }

    /** Copies a fragment's body into place and marks it. */
    method Fill(off: nat, bs: Bytes)
      requires Valid() && !assembled && off + |bs| <= msgLen
      modifies this`assembled, data, marks
      ensures Valid() && View() == old(View()).(body := Put(old(View()).body, off, bs))
      ensures assembled <==> Complete(View())
    {
      hide Bit, Header, Complete, Put, Overwritten;
      ghost var was, before, bytes := View(), Marks(), data[HEADER_LENGTH..];
      ghost var u :| 0 <= u < msgLen && !Marked(u);
      ViewFromMarks();
      Copy(off, bs);
      assert !Marked(u) && Marks() == before;
      Mark(off, off + |bs|);
      assert Valid();
      ViewFromMarks();
      hide Valid, View, Marked;
      PutView(was.body, before, bytes, Marks(), data[HEADER_LENGTH..], View().body, off, bs);
      AssembledIsComplete();
    }

    /** The marks of all bytes. */
    ghost function Marks(): (m: seq<bool>)
      requires marks.Length == (msgLen + 7) / 8
      reads marks
      ensures |m| == msgLen && forall i :: 0 <= i < msgLen ==> m[i] == Marked(i)
    {
      seq(msgLen, i requires 0 <= i < msgLen && marks.Length == (msgLen + 7) / 8 reads marks => Marked(i))
    }

    lemma AssembledIsComplete()
      requires Valid()
      ensures assembled <==> Complete(View())
    {
      if !assembled {
        var i :| 0 <= i < msgLen && !Marked(i);
        assert View().body[i].None?;
      }
    }
  }
}
