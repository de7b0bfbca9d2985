/** nanopb's encoder: the bytes of a message, and the streams that write or only measure them. */
module PbEncode {
  import opened Options
  import opened Coding
  import opened PbScalars
  import opened PbMessages

  const WT_VARINT: nat := 0
  const WT_64BIT: nat := 1
  const WT_STRING: nat := 2
  const WT_32BIT: nat := 5

  // ---------------------------------------------------------------------------------------------
  // The bytes
  // ---------------------------------------------------------------------------------------------

  /** One after the other, if both can be written. */
  function Join(a: Option<Bytes>, b: Option<Bytes>): Option<Bytes> {
    if a.Some? && b.Some? then Some(a.value + b.value) else None
  }

  lemma JoinEmpty(a: Option<Bytes>)
    ensures Join(Some([]), a) == a
  {
    if a.Some? {
      assert [] + a.value == a.value;
    }
  }

  lemma JoinMore(done: Bytes, b: Bytes, rest: Option<Bytes>)
    ensures Join(Some(done), Join(Some(b), rest)) == Join(Some(done + b), rest)
  {
    if rest.Some? {
      assert done + (b + rest.value) == done + b + rest.value;
    }
  }

  function Tag(wire: nat, tag: nat): Bytes {
    Varint(tag * 8 + wire)
  }

  function WireOf(t: FieldType): nat {
    match t
    case TScalar(SFixed32) => WT_32BIT
    case TScalar(SFixed64) => WT_64BIT
    case TScalar(_) => WT_VARINT
    case _ => WT_STRING
  }

  /** The length of a string field, and the string. */
  function Prefixed(s: Bytes): Bytes {
    Varint(|s|) + s
  }

  function EncodeScalars(t: Scalar, items: seq<Value>, k: nat): Bytes
    requires k <= |items| && forall i :: 0 <= i < |items| ==> ValueOk(TScalar(t), items[i])
    decreases |items| - k
  {
    if k == |items| then []
    else
      assert ValueOk(TScalar(t), items[k]);
      EncodeScalar(t, items[k].n) + EncodeScalars(t, items, k + 1)
  }

  function EncodeValue(t: FieldType, v: Value): Option<Bytes>
    requires ValueOk(t, v)
    decreases t, 1, 0
  {
    match t
    case TScalar(s) => Some(EncodeScalar(s, v.n))
    case TBytes(max) => if |v.bytes| > max then None else Some(Prefixed(v.bytes))
    case TString(_) => Some(Prefixed(v.bytes))
    case TFixedBytes(_) => Some(Prefixed(v.bytes))
    case TMessage(fields) => Delimited(EncodeFields(fields, v.slots, 0))
  }

  /** Values that are not packed each have their tag. */
  function EncodeItems(f: Field, items: seq<Value>, k: nat): Option<Bytes>
    requires k <= |items| && forall i :: 0 <= i < |items| ==> ValueOk(f.t, items[i])
    decreases f.t, 2, |items| - k
  {
    if k == |items| then Some([])
    else Join(Join(Some(Tag(WireOf(f.t), f.tag)), EncodeValue(f.t, items[k])), EncodeItems(f, items, k + 1))
  }

  /** Whether a field that is not repeated is written. */
  predicate Present(f: Field, slot: Slot)
    requires slot.One?
  {
    match f.rule
    case Required => true
    case Optional(explicit) => if explicit then slot.has else !IsZero(f.t, slot.v)
    case _ => slot.has
  }

  function EncodeField(f: Field, slot: Slot): Option<Bytes>
    requires SlotOk(f, slot)
    decreases f.t, 3, 0
  {
    if f.rule.Repeated? then
      if slot.items == [] then Some([])
      else if |slot.items| > f.rule.max then None
      else if f.t.TScalar? then Some(Tag(WT_STRING, f.tag) + Prefixed(EncodeScalars(f.t.t, slot.items, 0)))
      else EncodeItems(f, slot.items, 0)
    else if Present(f, slot) then Join(Some(Tag(WireOf(f.t), f.tag)), EncodeValue(f.t, slot.v))
    else Some([])
  }

  function EncodeFields(fields: seq<Field>, slots: seq<Slot>, k: nat): Option<Bytes>
    requires MessageOk(fields, slots) && k <= |fields|
    decreases TMessage(fields), 0, |fields| - k
  {
    if k == |fields| then Some([]) else Join(EncodeField(fields[k], slots[k]), EncodeFields(fields, slots, k + 1))
  }

  lemma ScalarsStep(t: Scalar, items: seq<Value>, i: nat, done: Bytes)
    requires i < |items| && (forall i :: 0 <= i < |items| ==> ValueOk(TScalar(t), items[i]))
    ensures ValueOk(TScalar(t), items[i]) && items[i].Number? && Holds(t, items[i].n)
    ensures done + EncodeScalars(t, items, i) == done + EncodeScalar(t, items[i].n) + EncodeScalars(t, items, i + 1)
  {
    assert ValueOk(TScalar(t), items[i]);
    hide EncodeScalar;
  }

  lemma NoScalars(t: Scalar, items: seq<Value>, done: Bytes)
    requires forall i :: 0 <= i < |items| ==> ValueOk(TScalar(t), items[i])
    ensures done + EncodeScalars(t, items, |items|) == done
  {
  }

  lemma FieldEmptyIff(f: Field, slot: Slot)
    requires SlotOk(f, slot)
    ensures EncodeField(f, slot) == Some([]) <==> FieldIsZero(f, slot)
  {
    if f.rule.Repeated? && slot.items != [] && !f.t.TScalar? {
      assert EncodeItems(f, slot.items, 0) != Some([]) by {
        hide EncodeValue, IsZero;
      }
    }
  }

  /** A message has no bytes exactly if none of its fields is there: those whose presence is judged by the value are
      zero. */
  lemma {:induction false} EmptyIff(fields: seq<Field>, slots: seq<Slot>, k: nat)
    requires MessageOk(fields, slots) && k <= |fields|
    ensures EncodeFields(fields, slots, k) == Some([]) <==> AllZero(fields, slots, k)
    decreases |fields| - k
  {
    hide EncodeField, FieldIsZero;
    if k < |fields| {
      FieldEmptyIff(fields[k], slots[k]);
      EmptyIff(fields, slots, k + 1);
    }
  }

  lemma WrittenField(f: Field, v: Value)
    requires f.rule == Optional(true) && ValueOk(f.t, v)
    ensures EncodeField(f, One(true, v)) == Join(Some(Tag(WireOf(f.t), f.tag)), EncodeValue(f.t, v))
  {
  }

  /** The documented examples of the wire format: field 1 with the number 150, field 2 with the text "testing". */
  lemma DocumentedBytes(number: Field, text: Field)
    requires number.tag == 1 && number.rule == Optional(true) && number.t == TScalar(SUint(W32))
    requires text.tag == 2 && text.rule == Optional(true) && text.t == TString(8)
    ensures EncodeField(number, One(true, Number(150))) == Some([0x08, 0x96, 0x01])
    ensures EncodeField(text, One(true, Raw([0x74, 0x65, 0x73, 0x74, 0x69, 0x6e, 0x67]))) ==
            Some([0x12, 0x07, 0x74, 0x65, 0x73, 0x74, 0x69, 0x6e, 0x67])
  {
    var n, t := Number(150), Raw([0x74, 0x65, 0x73, 0x74, 0x69, 0x6e, 0x67]);
    assert Varint(150) == [150 % 128 + 128] + Varint(1) == [0x96, 0x01];
    assert Varint(8) == [0x08] && Varint(0x12) == [0x12] && Varint(7) == [0x07];
    assert EncodeValue(number.t, n) == Some([0x96, 0x01]);
    assert EncodeValue(text.t, t) == Some([0x07] + t.bytes);
    assert Tag(WireOf(number.t), 1) == [0x08] && Tag(WireOf(text.t), 2) == [0x12];
    WrittenField(number, n);
    WrittenField(text, t);
    hide EncodeField, EncodeValue, Varint, Tag;
    assert [0x08] + [0x96, 0x01] == [0x08, 0x96, 0x01];
    assert [0x12] + ([0x07] + t.bytes) == [0x12, 0x07, 0x74, 0x65, 0x73, 0x74, 0x69, 0x6e, 0x67];
  }

  // ---------------------------------------------------------------------------------------------
  // Streams
  // ---------------------------------------------------------------------------------------------

  /** pb_ostream_t: `sizing` is a null callback, `state` is everything the callback wrote. */
  class OStream {
    const sizing: bool
    const maxSize: nat
    var written: nat
    var state: Bytes

    predicate Valid()
      reads this
    {
      !sizing ==> written <= maxSize
    }

    /** There is room for `n` more bytes. */
    predicate Fits(n: nat)
      reads this
    {
      sizing || written + n <= maxSize
    }

    /** What is written after the bytes. */
    function With(b: Bytes): Bytes
      reads this
    {
      if sizing then state else state + b
    }

    /** PB_OSTREAM_SIZING, or a stream that goes on where another is. */
    constructor (sizing: bool, maxSize: nat, state: Bytes)
      ensures this.sizing == sizing && this.maxSize == maxSize && this.state == state && written == 0 && Valid()
    {
      this.sizing, this.maxSize, this.state, written := sizing, maxSize, state, 0;
    }

    method Write(buf: Bytes) returns (ok: bool)
      requires Valid()
      modifies this
      ensures Valid() && (ok <==> old(Fits(|buf|)))
      ensures ok ==> written == old(written) + |buf| && state == old(With(buf))
    {
      if |buf| > 0 && !sizing {
        if written + |buf| > maxSize {
          return false;
        }
        state := state + buf;
      }
      written := written + |buf|;
      ok := true;
    }

    /** pb_write without data: only a sizing stream is given a size alone. */
    method Skip(size: nat) returns (ok: bool)
      requires Valid() && sizing
      modifies this
      ensures Valid() && ok && written == old(written) + size && state == old(state)
    {
      written := written + size;
      ok := true;
    }

    method WriteVarint(value: nat) returns (ok: bool)
      requires Valid()
      modifies this
      ensures Valid() && (ok <==> old(Fits(|Varint(value)|)))
      ensures ok ==> written == old(written) + |Varint(value)| && state == old(With(Varint(value)))
    {
      if value <= 0x7f {
        assert Varint(value) == [value];
        ok := Write([value]);
        return;
      }
      var buffer: Bytes, v: nat := [], value;
      hide VarintSoFar, Varint;
      VarintStart(value);
      while v > 0
        invariant VarintSoFar(value, buffer, v)
        modifies {}
      {
        VarintStep(value, buffer, v);
        buffer := buffer + [v % 0x80 + 0x80];
        v := v / 0x80;
      }
      VarintEnd(value, buffer);
      var last := |buffer| - 1;
      ok := Write(buffer[last := buffer[last] - 0x80]);
    }

    method WriteTag(wire: nat, tag: nat) returns (ok: bool)
      requires Valid()
      modifies this
      ensures Valid() && (ok <==> old(Fits(|Tag(wire, tag)|)))
      ensures ok ==> written == old(written) + |Tag(wire, tag)| && state == old(With(Tag(wire, tag)))
    {
      ok := WriteVarint(tag * 8 + wire);
    }

    method WriteString(s: Bytes) returns (ok: bool)
      requires Valid()
      modifies this
      ensures Valid() && (ok <==> old(Fits(|Prefixed(s)|)))
      ensures ok ==> written == old(written) + |Prefixed(s)| && state == old(With(Prefixed(s)))
    {
      ok := WriteVarint(|s|);
      if ok {
        ok := Write(s);
      }
    }

    method WriteScalar(t: Scalar, n: int) returns (ok: bool)
      requires Valid() && Holds(t, n)
      modifies this
      ensures Valid() && (ok <==> old(Fits(|EncodeScalar(t, n)|)))
      ensures ok ==> written == old(written) + |EncodeScalar(t, n)| && state == old(With(EncodeScalar(t, n)))
    {
      match t
      case SBool => ok := WriteVarint(n);
      case SInt(_) => ok := WriteVarint(n % TWO64);
      case SUint(_) => ok := WriteVarint(n);
      case SZigzag(_) => ok := WriteVarint(Zigzag(n));
      case SFixed32 => ok := Write(EncodeFixed32(n));
      case SFixed64 => ok := Write(EncodeFixed64(n));
    }

    /** The size of a packed array's payload: known for fixed types, else by writing to a sizing stream. */
    method PackedSize(t: Scalar, items: seq<Value>) returns (size: nat)
      requires forall i :: 0 <= i < |items| ==> ValueOk(TScalar(t), items[i])
      ensures size == |EncodeScalars(t, items, 0)|
    {
      if t == SFixed32 {
        FixedSize(t, items, 4, 0);
        return 4 * |items|;
      }
      if t == SFixed64 {
        FixedSize(t, items, 8, 0);
        return 8 * |items|;
      }
      var sizestream := new OStream(true, 0, []);
      for i := 0 to |items|
        invariant sizestream.Valid() && fresh(sizestream)
        invariant sizestream.written + |EncodeScalars(t, items, i)| == |EncodeScalars(t, items, 0)|
      {
        assert ValueOk(TScalar(t), items[i]);
        var ok := sizestream.WriteScalar(t, items[i].n);
      }
      size := sizestream.written;
    }

    method WritePacked(tag: nat, t: Scalar, items: seq<Value>) returns (ok: bool)
      requires Valid() && forall i :: 0 <= i < |items| ==> ValueOk(TScalar(t), items[i])
      modifies this
      ensures Valid() && var b := Tag(WT_STRING, tag) + Prefixed(EncodeScalars(t, items, 0));
              (ok <==> old(Fits(|b|))) && (ok ==> written == old(written) + |b| && state == old(With(b)))
    {
      hide Varint, EncodeScalar;
      ghost var all := EncodeScalars(t, items, 0);
      ok := WriteTag(WT_STRING, tag);
      if !ok {
        return;
      }
      var size := PackedSize(t, items);
      ok := WriteVarint(size);
      if !ok {
        return;
      }
      if sizing {
        ok := Skip(size);
        return;
      }
      ok := WriteScalars(t, items);
    }

    method WriteScalars(t: Scalar, items: seq<Value>) returns (ok: bool)
      requires Valid() && !sizing && forall i :: 0 <= i < |items| ==> ValueOk(TScalar(t), items[i])
      modifies this
      ensures Valid() && var b := EncodeScalars(t, items, 0);
              (ok <==> old(Fits(|b|))) && (ok ==> written == old(written) + |b| && state == old(state) + b)
    {
      hide EncodeScalar, EncodeScalars, ValueOk;
      ghost var all := EncodeScalars(t, items, 0);
      ghost var done: Bytes := [];
      for i := 0 to |items|
        invariant Valid() && all == done + EncodeScalars(t, items, i)
        invariant state == old(state) + done && written == old(written) + |done|
      {
        assert ValueOk(TScalar(t), items[i]);
        ScalarsStep(t, items, i, done);
        ok := WriteScalar(t, items[i].n);
        if !ok {
          return;
        }
        done := done + EncodeScalar(t, items[i].n);
      }
      NoScalars(t, items, done);
      ok := true;
    }

    /** What a call that writes `b` promises: it succeeds if there is something to write and room. */
    twostate predicate Wrote(new b: Option<Bytes>, ok: bool)
      reads this
    {
      && Valid() && (ok <==> b.Some? && old(Fits(|b.value|)))
      && (ok ==> written == old(written) + |b.value| && state == old(With(b.value)))
    }

    method WriteValue(t: FieldType, v: Value) returns (ok: bool)
      requires Valid() && ValueOk(t, v)
      modifies this
      ensures Wrote(EncodeValue(t, v), ok)
      decreases t, 1, 0
    {
      match t
      case TScalar(s) => ok := WriteScalar(s, v.n);
      case TBytes(max) =>
        if |v.bytes| > max {
          return false;
        }
        ok := WriteString(v.bytes);
      case TString(size) => ok := WriteString(v.bytes);
      case TFixedBytes(length) => ok := WriteString(v.bytes);
      case TMessage(fields) => ok := EncodeSubmessage(fields, v.slots);
    }

    /** The message is measured first, and then written to a stream with room for just that many bytes. */
    method EncodeSubmessage(fields: seq<Field>, slots: seq<Slot>) returns (ok: bool)
      requires Valid() && MessageOk(fields, slots)
      modifies this
      ensures Wrote(Delimited(EncodeFields(fields, slots, 0)), ok)
      decreases TMessage(fields), 0, |fields| + 1
    {
      hide MessageOk, EncodeFields, Varint;
      ghost var body := EncodeFields(fields, slots, 0);
      var substream := new OStream(true, 0, []);
      ok := substream.Encode(fields, slots);
      if !ok {
        return;
      }
      var size := substream.written;
      assert size == |body.value|;
      ok := WriteVarint(size);
      if !ok {
        return;
      }
      if sizing {
        ok := Skip(size);
        return;
      }
      if written + size > maxSize {
        return false;
      }
      substream := new OStream(false, size, state);
      ok := substream.Encode(fields, slots);
      written := written + substream.written;
      state := substream.state;
      if substream.written != size {
        return false;
      }
    }

    method WriteItems(f: Field, items: seq<Value>) returns (ok: bool)
      requires Valid() && forall i :: 0 <= i < |items| ==> ValueOk(f.t, items[i])
      modifies this
      ensures Wrote(EncodeItems(f, items, 0), ok)
      decreases f.t, 2, 0
    {
      hide Tag, ValueOk, EncodeValue;
      ghost var done: Bytes := [];
      JoinEmpty(EncodeItems(f, items, 0));
      ok := true;
      for i := 0 to |items|
        invariant ok && Valid() && EncodeItems(f, items, 0) == Join(Some(done), EncodeItems(f, items, i))
        invariant written == old(written) + |done| && state == old(With(done))
      {
        assert ValueOk(f.t, items[i]);
        ok := WriteTag(WireOf(f.t), f.tag);
        if !ok {
          return;
        }
        ok := WriteValue(f.t, items[i]);
        if !ok {
          return;
        }
        ghost var b := Tag(WireOf(f.t), f.tag) + EncodeValue(f.t, items[i]).value;
        JoinMore(done, b, EncodeItems(f, items, i + 1));
        done := done + b;
      }
    }

    method WriteField(f: Field, slot: Slot) returns (ok: bool)
      requires Valid() && SlotOk(f, slot)
      modifies this
      ensures Wrote(EncodeField(f, slot), ok)
      decreases f.t, 3, 0
    {
      hide Tag, ValueOk;
      if f.rule.Repeated? {
        if slot.items == [] {
          return true;
        }
        if |slot.items| > f.rule.max {
          return false;
        }
        if f.t.TScalar? {
          ok := WritePacked(f.tag, f.t.t, slot.items);
        } else {
          ok := WriteItems(f, slot.items);
        }
      } else {
        if !Present(f, slot) {
          return true;
        }
        ok := WriteTag(WireOf(f.t), f.tag);
        if ok {
          ok := WriteValue(f.t, slot.v);
        }
      }
    }

    /** pb_encode. */
    method Encode(fields: seq<Field>, slots: seq<Slot>) returns (ok: bool)
      requires Valid() && MessageOk(fields, slots)
      modifies this
      ensures Wrote(EncodeFields(fields, slots, 0), ok)
      decreases TMessage(fields), 0, |fields|
    {
      hide EncodeField, SlotOk;
      ghost var done: Bytes := [];
      JoinEmpty(EncodeFields(fields, slots, 0));
      ok := true;
      for k := 0 to |fields|
        invariant ok && Valid() && EncodeFields(fields, slots, 0) == Join(Some(done), EncodeFields(fields, slots, k))
        invariant written == old(written) + |done| && state == old(With(done))
      {
        ok := WriteField(fields[k], slots[k]);
        if !ok {
          return;
        }
        ghost var b := EncodeField(fields[k], slots[k]).value;
        JoinMore(done, b, EncodeFields(fields, slots, k + 1));
        done := done + b;
      }
    }
  }

  /** pb_get_encoded_size: the sizing pass gives the length of the bytes, to any depth. */
  method GetEncodedSize(fields: seq<Field>, slots: seq<Slot>) returns (size: Option<nat>)
    requires MessageOk(fields, slots)
    ensures var b := EncodeFields(fields, slots, 0); size == if b.Some? then Some(|b.value|) else None
  {
    var stream := new OStream(true, 0, []);
    var ok := stream.Encode(fields, slots);
    size := if ok then Some(stream.written) else None;
  }

  /** A message with its length before it. */
  function Delimited(body: Option<Bytes>): Option<Bytes> {
    if body.None? then None else Some(Prefixed(body.value))
  }

  /** While digits are left they follow the buffer; then the last byte still has its top bit set. */
  ghost predicate VarintSoFar(value: nat, buffer: Bytes, v: nat) {
    if v > 0 then Varint(value) == buffer + Varint(v)
    else
      buffer != [] &&
      var last := |buffer| - 1;
      buffer[last] >= 0x80 && Varint(value) == buffer[..last] + [buffer[last] - 0x80]
  }

  lemma VarintStart(value: nat)
    requires value > 0
    ensures VarintSoFar(value, [], value)
  {
  }

  lemma VarintStep(value: nat, buffer: Bytes, v: nat)
    requires v > 0 && VarintSoFar(value, buffer, v)
    ensures VarintSoFar(value, buffer + [v % 0x80 + 0x80], v / 0x80)
  {
    if v < 0x80 {
      assert (buffer + [v + 0x80])[..|buffer|] == buffer;
    } else {
      assert buffer + [v % 0x80 + 0x80] + Varint(v / 0x80) == buffer + Varint(v);
    }
  }

  lemma VarintEnd(value: nat, buffer: Bytes)
    requires VarintSoFar(value, buffer, 0)
    ensures buffer != [] && buffer[|buffer| - 1] >= 0x80
    ensures Varint(value) == buffer[|buffer| - 1 := buffer[|buffer| - 1] - 0x80]
  {
    var last := |buffer| - 1;
    assert buffer[last := buffer[last] - 0x80] == buffer[..last] + [buffer[last] - 0x80];
  }

  lemma {:induction false} FixedSize(t: Scalar, items: seq<Value>, size: nat, k: nat)
    requires k <= |items| && forall i :: 0 <= i < |items| ==> ValueOk(TScalar(t), items[i])
    requires (t == SFixed32 && size == 4) || (t == SFixed64 && size == 8)
    ensures |EncodeScalars(t, items, k)| == size * (|items| - k)
    decreases |items| - k
  {
    if k < |items| {
      assert ValueOk(TScalar(t), items[k]);
      FixedSize(t, items, size, k + 1);
    }
  }
}
