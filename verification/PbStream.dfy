/** nanopb's input streams: the decoder's loops, each against the function it computes. */
module PbStream {
  import opened Options
  import opened Coding
  import opened PbScalars
  import opened PbMessages
  import opened PbEncode
  import opened PbDecode

  /** What a call that reads as `spec` says promises of its result and of what is left to read. */
  predicate Reads<T(==)>(spec: Option<(T, Bytes)>, r: Option<T>, rest: Bytes) {
    match spec
    case None => r.None?
    case Some((v, rest')) => r == Some(v) && rest == rest'
  }

  /** pb_istream_t over a buffer. */
  class IStream {
    const data: Bytes
    var pos: nat
    var left: nat

    predicate Valid()
      reads this
    {
      pos + left <= |data|
    }

    /** What is left to read. */
    function Rest(): (r: Bytes)
      requires Valid()
      reads this
      ensures |r| == left
    {
      data[pos..pos + left]
    }

    function End(): nat
      reads this
    {
      pos + left
    }

    constructor (data: Bytes, pos: nat, left: nat)
      requires pos + left <= |data|
      ensures Valid() && this.data == data && this.pos == pos && this.left == left
    {
      this.data, this.pos, this.left := data, pos, left;
    }

    method ReadByte() returns (r: Option<byte>)
      requires Valid()
      modifies this
      ensures Valid() && (r.Some? <==> old(left) > 0) && left == old(left) - (if r.Some? then 1 else 0)
              && End() == old(End())
      ensures r.Some? ==> r.value == old(Rest())[0] && Rest() == old(Rest())[1..]
    {
      if left == 0 {
        return None;
      }
      r := Some(data[pos]);
      pos, left := pos + 1, left - 1;
    }

    /** pb_read. */
    method Read(count: nat) returns (r: Option<Bytes>)
      requires Valid()
      modifies this
      ensures Valid() && End() == old(End()) && Reads(Take(old(Rest()), count), r, Rest())
    {
      if left < count {
        return None;
      }
      r := Some(data[pos..pos + count]);
      assert old(Rest())[..count] == data[pos..pos + count] && old(Rest())[count..] == data[pos + count..pos + left];
      pos, left := pos + count, left - count;
    }

    /** pb_decode_varint32. */
    method ReadVarint32() returns (r: Option<uint32>)
      requires Valid()
      modifies this
      ensures Valid() && End() == old(End()) && Reads(TakeVarint32(old(Rest())), r, Rest())
    {
      var b := ReadByte();
      if b.None? {
        return None;
      }
      if b.value < 0x80 {
        return Some(b.value);
      }
      var bitpos: nat, result: uint32 := 7, b.value % 0x80;
      while true
        invariant Valid() && End() == old(End()) && TakeVarint32(old(Rest())) == MoreVarint32(Rest(), bitpos, result)
        decreases left
      {
        hide Shl;
        ghost var before := Rest();
        b := ReadByte();
        if b.None? {
          return None;
        }
        if bitpos >= 32 {
          var extension := if bitpos < 63 then 0xff else 0x01;
          if b.value % 0x80 != 0 && (result < TWO31 || b.value != extension) {
            return None;
          }
        } else {
          result := (result + Shl(b.value % 0x80, bitpos)) % TWO32;
        }
        bitpos := bitpos + 7;
        if b.value < 0x80 {
          if bitpos == 35 && b.value / 16 != 0 {
            return None;
          }
          return Some(result);
        }
      }
    }

    /** pb_decode_varint. */
    method ReadVarint64() returns (r: Option<uint64>)
      requires Valid()
      modifies this
      ensures Valid() && End() == old(End()) && Reads(GetVarint64(old(Rest())), r, Rest())
    {
      var n: nat, result: uint64, scale: nat := 0, 0, 1;
      ghost var whole: nat := 0;
      ghost var s := Rest();
      hide Midway, Low, Scaled, GetVarint64;
      MidwayStart(s);
      while true
        invariant Valid() && End() == old(End()) && n <= |s| && Rest() == s[n..] && result == Low(whole, true)
                  && Midway(s, n, whole, scale)
        decreases left
      {
        if n == 10 {
          MidwayEnd(s, n, whole, scale);
          return None;
        }
        var b := ReadByte();
        if b.None? {
          MidwayEnd(s, n, whole, scale);
          return None;
        }
        MidwayStep(s, n, whole, scale);
        whole := whole + Scaled(b.value % 0x80, scale);
        result := Low(result + Scaled(b.value % 0x80, scale), true);
        n, scale := n + 1, scale * 128;
        if b.value < 0x80 {
          return Some(result);
        }
      }
    }

    method ReadScalar(t: Scalar) returns (r: Option<int>)
      requires Valid()
      modifies this
      ensures Valid() && End() == old(End()) && Reads(DecodeScalar(t, old(Rest())), r, Rest())
    {
      hide TakeVarint32, GetVarint64, DecodeFixed32, DecodeFixed64, Signed, Unzigzag;
      match t
      case SBool =>
        var v := ReadVarint32();
        r := if v.None? then None else Some(if v.value != 0 then 1 else 0);
      case SInt(w) =>
        var v := ReadVarint64();
        if v.None? {
          return None;
        }
        var n := Signed(v.value, if w == W64 then W64 else W32);
        r := if Signed(n, w) == n then Some(n) else None;
      case SUint(w) =>
        var v := ReadVarint64();
        r := if v.None? || v.value % Range(w) != v.value then None else Some(v.value);
      case SZigzag(w) =>
        var v := ReadVarint64();
        if v.None? {
          return None;
        }
        var n := Unzigzag(v.value);
        r := if Signed(n, w) == n then Some(n) else None;
      case SFixed32 =>
        var b := Read(4);
        r := if b.None? then None else Some(DecodeFixed32(b.value));
      case SFixed64 =>
        var b := Read(8);
        r := if b.None? then None else Some(DecodeFixed64(b.value));
    }

    /** pb_make_string_substream: the substream is limited to the string, and this stream keeps the rest
        of the count until the substream is closed. */
    method MakeSubstream() returns (sub: Option<IStream>)
      requires Valid()
      modifies this
      ensures Valid() && sub.None? == TakePrefixed(old(Rest())).None?
      ensures sub.Some? ==>
                var (body, rest) := TakePrefixed(old(Rest())).value;
                && fresh(sub.value) && sub.value.Valid() && sub.value.data == data
                && sub.value.Rest() == body && sub.value.pos == pos && left == |rest|
                && pos + |body| + |rest| == old(End())
                && data[pos + |body|..pos + |body| + |rest|] == rest
    {
      hide TakeVarint32;
      var size := ReadVarint32();
      if size.None? || left < size.value {
        return None;
      }
      ghost var s := Rest();
      assert s[..size.value] == data[pos..pos + size.value] && s[size.value..] == data[pos + size.value..pos + left];
      var limited := new IStream(data, pos, size.value);
      left := left - size.value;
      sub := Some(limited);
    }

    /** pb_close_string_substream: what the substream did not read is skipped. */
    method CloseSubstream(sub: IStream)
      requires sub.Valid() && sub.data == data && sub.pos + sub.left + left <= |data|
      modifies this`pos
      ensures Valid() && pos == old(sub.End())
    {
      pos := sub.pos + sub.left;
    }

    /** The items of a packed array, until the stream or the array ends. */
    method ReadPacked(t: Scalar, items: seq<Value>, max: nat) returns (r: Option<seq<Value>>)
      requires Valid()
      modifies this
      ensures Valid() && End() == old(End()) && r == DecodePacked(t, old(Rest()), items, max)
    {
      hide DecodeScalar;
      var more := items;
      while left > 0 && |more| < max
        invariant Valid() && End() == old(End())
                  && DecodePacked(t, old(Rest()), items, max) == DecodePacked(t, Rest(), more, max)
        decreases left
      {
        var n := ReadScalar(t);
        if n.None? {
          return None;
        }
        more := more + [Number(n.value)];
      }
      r := if left != 0 then None else Some(more);
    }

    method ReadValue(t: FieldType, was: Value) returns (r: Option<Value>)
      requires Valid()
      modifies this
      ensures Valid() && Reads(DecodeValue(t, old(Rest()), was), r, Rest()) && (r.Some? ==> End() == old(End()))
      decreases left, 1
    {
      hide TakeVarint32, DecodeScalar, Text, DecodeMessage, TakePrefixed;
      match t
      case TScalar(c) =>
        var n := ReadScalar(c);
        r := if n.None? then None else Some(Number(n.value));
      case TBytes(max) =>
        var size := ReadVarint32();
        if size.None? || size.value > max {
          return None;
        }
        var b := Read(size.value);
        r := if b.None? then None else Some(Raw(b.value));
      case TString(length) =>
        var size := ReadVarint32();
        if size.None? || size.value + 1 > length {
          return None;
        }
        var b := Read(size.value);
        r := if b.None? then None else Some(Raw(Text(b.value)));
      case TFixedBytes(length) =>
        var size := ReadVarint32();
        if size.None? {
          return None;
        }
        if size.value == 0 {
          return Some(Raw(seq(length, _ => 0)));
        }
        if size.value != length {
          return None;
        }
        var b := Read(length);
        r := if b.None? then None else Some(Raw(b.value));
      case TMessage(fields) => r := ReadMessage(fields, was);
    }

    /** pb_dec_submessage. */
    method ReadMessage(fields: seq<Field>, was: Value) returns (r: Option<Value>)
      requires Valid()
      modifies this
      ensures Valid() && Reads(DecodeValue(TMessage(fields), old(Rest()), was), r, Rest())
              && (r.Some? ==> End() == old(End()))
      decreases left, 0
    {
      hide TakeVarint32, DecodeMessage;
      var sub := MakeSubstream();
      if sub.None? {
        return None;
      }
      var slots := sub.value.Decode(fields, SlotsOf(was));
      if slots.None? {
        return None;
      }
      CloseSubstream(sub.value);
      r := Some(Message(slots.value));
    }

    /** decode_static_field. */
    method ReadField(f: Field, wire: nat, was: Slot) returns (r: Option<Slot>)
      requires Valid()
      modifies this
      ensures Valid() && Reads(DecodeField(f, wire, old(Rest()), was), r, Rest()) && (r.Some? ==> End() == old(End()))
      decreases left, 2
    {
      hide TakeVarint32, DecodeValue, DecodePacked, Initial;
      match f.rule
      case Repeated(max) =>
        var items := if was.Many? then was.items else [];
        if wire == WT_STRING && f.t.TScalar? {
          var sub := MakeSubstream();
          if sub.None? {
            return None;
          }
          var more := sub.value.ReadPacked(f.t.t, items, max);
          if more.None? {
            return None;
          }
          CloseSubstream(sub.value);
          return Some(Many(more.value));
        }
        if |items| >= max {
          return None;
        }
        var v := ReadValue(f.t, Initial(f.t, f.init));
        r := if v.None? then None else Some(Many(items + [v.value]));
      case Oneof(_) =>
        var v := ReadValue(f.t, if was.One? && was.has then was.v else Initial(f.t, f.init));
        r := if v.None? then None else Some(One(true, v.value));
      case _ =>
        var v := ReadValue(f.t, if was.One? then was.v else f.init);
        r := if v.None? then None else Some(One(true, v.value));
    }

    method Skip(wire: nat) returns (ok: bool)
      requires Valid()
      modifies this
      ensures Valid() && match SkipField(wire, old(Rest()))
              case None => !ok
              case Some(rest) => ok && Rest() == rest && End() == old(End())
    {
      hide TakeVarint32;
      if wire == WT_VARINT {
        while true
          invariant Valid() && End() == old(End()) && SkipVarint(Rest()) == SkipVarint(old(Rest()))
          decreases left
        {
          var b := ReadByte();
          if b.None? {
            return false;
          }
          if b.value < 0x80 {
            return true;
          }
        }
      } else if wire == WT_64BIT {
        var b := Read(8);
        ok := b.Some?;
      } else if wire == WT_STRING {
        var size := ReadVarint32();
        if size.None? {
          return false;
        }
        var b := Read(size.value);
        ok := b.Some?;
      } else if wire == WT_32BIT {
        var b := Read(4);
        ok := b.Some?;
      } else {
        ok := false;
      }
    }

    /** pb_decode_noinit: the message, when the bytes are one. */
    method Decode(fields: seq<Field>, into: seq<Slot>) returns (r: Option<seq<Slot>>)
      requires Valid()
      modifies this
      ensures Valid() && r == DecodeMessage(fields, old(Rest()), into) && (r.Some? ==> End() == old(End()))
      decreases left, 3
    {
      hide TakeVarint32, DecodeField, ClearOthers, Seen, SkipField, Find;
      var slots, seen: set<nat> := into, {};
      while left > 0 && |slots| == |fields|
        invariant Valid() && End() == old(End()) && left <= old(left)
        invariant DecodeFields(fields, old(Rest()), into, {}) == DecodeFields(fields, Rest(), slots, seen)
        decreases left
      {
        var n := ReadVarint32();
        if n.None? {
          return None;
        }
        if n.value == 0 {
          break;
        }
        var k := Find(fields, n.value / 8, 0);
        if k.None? {
          var ok := Skip(n.value % 8);
          if !ok {
            return None;
          }
        } else {
          var slot := ReadField(fields[k.value], n.value % 8, slots[k.value]);
          if slot.None? {
            return None;
          }
          slots := ClearOthers(fields, slots, k.value)[k.value := slot.value];
          seen := Seen(fields, k.value, seen);
        }
      }
      r := if AllSeen(fields, seen) then Some(slots) else None;
    }
  }

  /** pb_field_iter_t: it goes round the fields and counts the required ones it has passed. */
  class FieldIter {
    const fields: seq<Field>
    var pos: nat
    var requiredIndex: nat

    predicate Valid()
      reads this
    {
      pos < |fields| && requiredIndex == RequiredBefore(fields, pos)
    }

    constructor (fields: seq<Field>)
      requires fields != []
      ensures Valid() && this.fields == fields && pos == 0
    {
      this.fields, pos, requiredIndex := fields, 0, 0;
    }

    /** pb_field_iter_next: false when it wrapped to the beginning. */
    method Next() returns (more: bool)
      requires Valid()
      modifies this
      ensures Valid() && more == (old(pos) + 1 < |fields|) && pos == if more then old(pos) + 1 else 0
    {
      if pos + 1 == |fields| {
        pos, requiredIndex := 0, 0;
        return false;
      }
      if fields[pos].rule == Required {
        requiredIndex := requiredIndex + 1;
      }
      pos := pos + 1;
      more := true;
    }

    /** pb_field_iter_find: wherever it starts, it finds the one field with the tag, or comes back. */
    method FindTag(tag: nat) returns (found: bool)
      requires Valid() && forall j, k :: 0 <= j < k < |fields| ==> fields[j].tag != fields[k].tag
      modifies this
      ensures Valid() && Find(fields, tag, 0) == if found then Some(pos) else None
      ensures !found ==> pos == old(pos)
    {
      var start := pos;
      ghost var n := 0;
      while true
        invariant Valid() && n < |fields| && pos == if start + n < |fields| then start + n else start + n - |fields|
        invariant forall i :: 0 <= i < |fields| && Passed(start, n, |fields|, i) ==> fields[i].tag != tag
        decreases |fields| - n
      {
        if fields[pos].tag == tag {
          FindOwn(fields, pos, 0);
          return true;
        }
        var more := Next();
        n := n + 1;
        if pos == start {
          assert forall i :: 0 <= i < |fields| ==> Passed(start, n, |fields|, i);
          return false;
        }
      }
    }
  }

  /** Place `i` is among the first `n` from the start, going round. */
  ghost predicate Passed(start: nat, n: nat, count: nat, i: int) {
    start <= i < start + n || i < start + n - count
  }

  /** The first `n` bytes of a varint give `whole`; the rest is to be scaled. */
  ghost predicate Midway(s: Bytes, n: nat, whole: nat, scale: nat) {
    n <= 10 && n <= |s| && GetVarint(s, true) == Kept(Coding.Rest(s, n, 10, whole, scale), true)
  }

  lemma MidwayStart(s: Bytes)
    ensures Midway(s, 0, 0, 1) && Low(0, true) == 0
  {
    RestStart(s, true);
  }

  lemma MidwayEnd(s: Bytes, n: nat, whole: nat, scale: nat)
    requires Midway(s, n, whole, scale) && (n == 10 || n == |s|)
    ensures GetVarint64(s) == None
  {
    TakeEnd(s, n, 10, whole, scale);
  }

  lemma MidwayStep(s: Bytes, n: nat, whole: nat, scale: nat)
    requires Midway(s, n, whole, scale) && n < 10 && n < |s|
    ensures var next := whole + Scaled(s[n] % 0x80, scale);
            && Low(Low(whole, true) + Scaled(s[n] % 0x80, scale), true) == Low(next, true)
            && (s[n] < 0x80 ==> GetVarint64(s) == Some((Low(next, true), s[n + 1..])))
            && (s[n] >= 0x80 ==> Midway(s, n + 1, next, scale * 128))
  {
    hide Coding.Rest, Low, Scaled;
    TakeStep(s, n, 10, whole, scale);
    Cut(whole, Scaled(s[n] % 0x80, scale), true);
  }
}
