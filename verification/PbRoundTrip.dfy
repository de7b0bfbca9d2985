/** What the encoder writes, the decoder reads back. */
module PbRoundTrip {
  import opened Options
  import opened Coding
  import opened PbScalars
  import opened PbMessages
  import opened PbEncode
  import opened PbDecode

  // ---------------------------------------------------------------------------------------------
  // What comes back
  // ---------------------------------------------------------------------------------------------

  /** Every string has room for its terminating zero. */
  ghost predicate ValueFits(t: FieldType, v: Value)
    requires ValueOk(t, v)
    decreases t, 1, 0
  {
    match t
    case TString(size) => |v.bytes| < size
    case TMessage(fields) => MessageFits(fields, v.slots, 0)
    case _ => true
  }

  ghost predicate ItemsFit(t: FieldType, items: seq<Value>, k: nat)
    requires k <= |items| && forall i :: 0 <= i < |items| ==> ValueOk(t, items[i])
    decreases t, 2, |items| - k
  {
    k == |items| || (ValueFits(t, items[k]) && ItemsFit(t, items, k + 1))
  }

  ghost predicate FieldFits(f: Field, slot: Slot)
    requires SlotOk(f, slot)
    decreases f.t, 3, 0
  {
    if f.rule.Repeated? then ItemsFit(f.t, slot.items, 0)
    else Present(f, slot) ==> ValueFits(f.t, slot.v)
  }

  ghost predicate MessageFits(fields: seq<Field>, slots: seq<Slot>, k: nat)
    requires MessageOk(fields, slots) && k <= |fields|
    decreases TMessage(fields), 0, |fields| - k
  {
    k == |fields| || (FieldFits(fields[k], slots[k]) && MessageFits(fields, slots, k + 1))
  }

  /** The value with absent fields, at any depth, at their defaults. */
  function Normal(t: FieldType, v: Value): Value
    requires ValueOk(t, v)
    decreases t, 1, 0
  {
    match t
    case TMessage(fields) => Message(NormalSlots(fields, v.slots, 0))
    case _ => v
  }

  function NormalItems(t: FieldType, items: seq<Value>, k: nat): (r: seq<Value>)
    requires k <= |items| && forall i :: 0 <= i < |items| ==> ValueOk(t, items[i])
    ensures |r| == k && forall i :: 0 <= i < k ==> r[i] == Normal(t, items[i])
    decreases t, 2, k
  {
    if k == 0 then [] else NormalItems(t, items, k - 1) + [Normal(t, items[k - 1])]
  }

  function NormalSlot(f: Field, slot: Slot): Slot
    requires SlotOk(f, slot)
    decreases f.t, 3, 0
  {
    if f.rule.Repeated? then Many(NormalItems(f.t, slot.items, |slot.items|))
    else if Present(f, slot) then One(true, Normal(f.t, slot.v))
    else InitialSlot(f)
  }

  function NormalSlots(fields: seq<Field>, slots: seq<Slot>, k: nat): (r: seq<Slot>)
    requires MessageOk(fields, slots) && k <= |fields|
    ensures |r| == |fields| - k
    ensures forall i :: 0 <= i < |r| ==> r[i] == NormalSlot(fields[k + i], slots[k + i])
    decreases TMessage(fields), 0, |fields| - k
  {
    if k == |fields| then [] else [NormalSlot(fields[k], slots[k])] + NormalSlots(fields, slots, k + 1)
  }

  // ---------------------------------------------------------------------------------------------
  // Pieces
  // ---------------------------------------------------------------------------------------------

  lemma TagRead(wire: nat, tag: nat, rest: Bytes)
    requires wire < 8 && 0 < tag < 0x2000_0000
    ensures TakeVarint32(Tag(wire, tag) + rest) == Some((tag * 8 + wire, rest))
  {
    Varint32Read(tag * 8 + wire, rest);
  }

  lemma PrefixedRead(b: Bytes, rest: Bytes)
    requires |b| < TWO32
    ensures TakeVarint32(Prefixed(b) + rest) == Some((|b|, b + rest))
            && TakePrefixed(Prefixed(b) + rest) == Some((b, rest))
  {
    Varint32Read(|b|, b + rest);
    assert Prefixed(b) + rest == Varint(|b|) + (b + rest);
    assert (b + rest)[..|b|] == b && (b + rest)[|b|..] == rest;
  }

  lemma {:induction false} TextIsWhole(s: Bytes)
    requires 0 !in s
    ensures Text(s) == s
  {
    if s != [] {
      TextIsWhole(s[1..]);
    }
  }

  lemma {:induction false} PackedRoundTrip(t: Scalar, items: seq<Value>, k: nat, max: nat)
    requires k <= |items| <= max && forall i :: 0 <= i < |items| ==> ValueOk(TScalar(t), items[i])
    ensures DecodePacked(t, EncodeScalars(t, items, k), items[..k], max) == Some(items)
    decreases |items| - k
  {
    if k < |items| {
      assert ValueOk(TScalar(t), items[k]);
      hide DecodeScalar, EncodeScalar;
      ScalarRoundTrip(t, items[k].n, EncodeScalars(t, items, k + 1));
      PackedRoundTrip(t, items, k + 1, max);
      assert items[..k] + [items[k]] == items[..k + 1];
    } else {
      assert items[..k] == items;
    }
  }

  /** One tag and what its field reads. */
  lemma OneTag(fields: seq<Field>, k: nat, wire: nat, payload: Bytes, slots: seq<Slot>, seen: set<nat>)
    requires DescriptorOk(fields) && |slots| == |fields| && k < |fields| && wire < 8
    ensures DecodeFields(fields, Tag(wire, fields[k].tag) + payload, slots, seen) ==
            match DecodeField(fields[k], wire, payload, slots[k])
            case None => None
            case Some((slot, rest)) => DecodeFields(fields, rest, ClearOthers(fields, slots, k)[k := slot],
              Seen(fields, k, seen))
  {
    TagRead(wire, fields[k].tag, payload);
    FindOwn(fields, k, 0);
    hide Tag, TakeVarint32, DecodeField, ClearOthers, Seen;
  }

  // ---------------------------------------------------------------------------------------------
  // Round trips
  // ---------------------------------------------------------------------------------------------

  /** Values without fields of their own. */
  lemma LeafRoundTrip(t: FieldType, v: Value, rest: Bytes, was: Value)
    requires !t.TMessage? && ValueOk(t, v) && EncodeValue(t, v).Some? && |EncodeValue(t, v).value| < TWO32
    ensures DecodeValue(t, EncodeValue(t, v).value + rest, was) == if ValueFits(t, v) then Some((v, rest)) else None
  {
    hide TakeVarint32, DecodeScalar, EncodeScalar, Varint, Text;
    if t.TScalar? {
      ScalarRoundTrip(t.t, v.n, rest);
    } else {
      PrefixedRead(v.bytes, rest);
      hide Prefixed;
      assert (v.bytes + rest)[..|v.bytes|] == v.bytes && (v.bytes + rest)[|v.bytes|..] == rest;
      match t
      case TString(_) => TextIsWhole(v.bytes);
      case TFixedBytes(length) => assert length == 0 ==> seq(length, _ => 0) == v.bytes;
      case TBytes(_) =>
    }
  }

  /** A value is read back if its strings fit, and not read at all otherwise. */
  lemma {:induction false} ValueRoundTrip(t: FieldType, v: Value, rest: Bytes, was: Value)
    requires TypeOk(t) && ValueOk(t, v) && EncodeValue(t, v).Some? && |EncodeValue(t, v).value| < TWO32
    requires t.TMessage? ==> was == Message(Defaults(t.fields, 0))
    ensures DecodeValue(t, EncodeValue(t, v).value + rest, was) == if ValueFits(t, v) then Some((Normal(t, v), rest))
            else None
    decreases t, 1, 0
  {
    if t.TMessage? {
      var body := EncodeFields(t.fields, v.slots, 0).value;
      PrefixedRead(body, rest);
      MessageRoundTrip(t.fields, v.slots);
      hide Prefixed, TakePrefixed, EncodeFields, DecodeMessage, MessageFits, NormalSlots, Defaults;
    } else {
      LeafRoundTrip(t, v, rest, was);
    }
  }

  /** The fields from `k` on that a message writes, put one after the other into a message that has
      those before `k`. */
  ghost predicate Partial(fields: seq<Field>, slots: seq<Slot>, cur: seq<Slot>, k: nat)
    requires MessageOk(fields, slots)
  {
    && |cur| == |fields|
    && forall i :: 0 <= i < |fields| ==>
      cur[i] == if i < k then NormalSlot(fields[i], slots[i]) else InitialSlot(fields[i])
  }

  /** The tracked required fields before `k` were seen. */
  ghost predicate SeenBefore(fields: seq<Field>, seen: set<nat>, k: nat)
    requires k <= |fields|
  {
    forall i: nat :: i < RequiredBefore(fields, k) && i < MAX_REQUIRED ==> i in seen
  }

  /** Only a oneof's other members are cleared, and while a field is read they are absent. */
  lemma NothingToClear(fields: seq<Field>, slots: seq<Slot>, cur: seq<Slot>, k: nat)
    requires MessageOk(fields, slots) && Partial(fields, slots, cur, k) && k < |fields|
    requires fields[k].rule.Oneof? ==> slots[k].One? && slots[k].has
    ensures ClearOthers(fields, cur, k) == cur
  {
    forall i | 0 <= i < |cur| ensures ClearOthers(fields, cur, k)[i] == cur[i] {
      if fields[k].rule.Oneof? && i < k && fields[i].rule == fields[k].rule {
        assert SlotOk(fields[i], slots[i]) && !slots[i].has;
      }
    }
  }

  /** A value with its tag, where the value is not packed. */
  lemma TaggedValue(fields: seq<Field>, k: nat, v: Value, rest: Bytes, cur: seq<Slot>, seen: set<nat>)
    requires DescriptorOk(fields) && k < |fields| == |cur| && ClearOthers(fields, cur, k) == cur
    requires ValueOk(fields[k].t, v) && EncodeValue(fields[k].t, v).Some? && |EncodeValue(fields[k].t, v).value| < TWO32
    requires var f := fields[k];
             if f.rule.Repeated? then cur[k].Many? && |cur[k].items| < f.rule.max && !f.t.TScalar?
               else cur[k] == InitialSlot(f)
    ensures var f := fields[k];
            var slot := if f.rule.Repeated? then Many(cur[k].items + [Normal(f.t, v)]) else One(true, Normal(f.t, v));
            DecodeFields(fields, Tag(WireOf(f.t), f.tag) + (EncodeValue(f.t, v).value + rest), cur, seen) ==
            if ValueFits(f.t, v) then DecodeFields(fields, rest, cur[k := slot], Seen(fields, k, seen)) else None
    decreases fields[k].t, 2, 0
  {
    var f := fields[k];
    assert TypeOk(f.t);
    OneTag(fields, k, WireOf(f.t), EncodeValue(f.t, v).value + rest, cur, seen);
    ValueRoundTrip(f.t, v, rest, Initial(f.t, f.init));
    hide Tag, DecodeValue, EncodeValue, Normal, ValueFits, ClearOthers, Seen, DecodeFields, DescriptorOk, ValueOk;
  }

  /** One item of a repeated field that is not packed. */
  lemma FirstItem(fields: seq<Field>, k: nat, slot: Slot, j: nat, cur: seq<Slot>, rest: Bytes, seen: set<nat>)
    requires DescriptorOk(fields) && k < |fields| == |cur|
    requires fields[k].rule.Repeated? && !fields[k].t.TScalar? && SlotOk(fields[k], slot)
    requires j < |slot.items| <= fields[k].rule.max
    requires EncodeItems(fields[k], slot.items, j).Some?
             && |EncodeItems(fields[k], slot.items, j).value| < TWO32
    requires cur[k] == Many(NormalItems(fields[k].t, slot.items, j))
    ensures var f, items := fields[k], slot.items;
            && EncodeItems(f, items, j + 1).Some? && |EncodeItems(f, items, j + 1).value| < TWO32
            && DecodeFields(fields, EncodeItems(f, items, j).value + rest, cur, seen) ==
               if ValueFits(f.t, items[j])
               then DecodeFields(fields, EncodeItems(f, items, j + 1).value + rest,
                 cur[k := Many(NormalItems(f.t, items, j + 1))], seen) else None
    decreases fields[k].t, 2, 1
  {
    var f, items := fields[k], slot.items;
    var b, more, tag := EncodeValue(f.t, items[j]).value, EncodeItems(f, items, j + 1).value, Tag(WireOf(f.t), f.tag);
    assert EncodeItems(f, items, j).value + rest == tag + (b + (more + rest));
    assert NormalItems(f.t, items, j + 1) == cur[k].items + [Normal(f.t, items[j])];
    assert ClearOthers(fields, cur, k) == cur && Seen(fields, k, seen) == seen;
    assert ValueOk(f.t, items[j]);
    hide *;
    TaggedValue(fields, k, items[j], more + rest, cur, seen);
  }

  lemma {:induction false} ItemsRoundTrip(fields: seq<Field>, k: nat, slot: Slot, j: nat, cur: seq<Slot>,
          rest: Bytes, seen: set<nat>)
    requires DescriptorOk(fields) && k < |fields| == |cur|
    requires fields[k].rule.Repeated? && !fields[k].t.TScalar? && SlotOk(fields[k], slot)
    requires j <= |slot.items| <= fields[k].rule.max
    requires EncodeItems(fields[k], slot.items, j).Some?
             && |EncodeItems(fields[k], slot.items, j).value| < TWO32
    requires cur[k] == Many(NormalItems(fields[k].t, slot.items, j))
    ensures var f, items := fields[k], slot.items;
            DecodeFields(fields, EncodeItems(f, items, j).value + rest, cur, seen) ==
            if ItemsFit(f.t, items, j)
            then DecodeFields(fields, rest, cur[k := Many(NormalItems(f.t, items, |items|))], seen) else None
    decreases fields[k].t, 3, |slot.items| - j
  {
    var f, items := fields[k], slot.items;
    if j == |items| {
      assert [] + rest == rest;
      assert cur[k := cur[k]] == cur;
    } else {
      var fits := ItemsFit(f.t, items, j);
      assert fits == (ValueFits(f.t, items[j]) && ItemsFit(f.t, items, j + 1));
      hide *;
      FirstItem(fields, k, slot, j, cur, rest, seen);
      var next := cur[k := Many(NormalItems(f.t, items, j + 1))];
      if ValueFits(f.t, items[j]) {
        ItemsRoundTrip(fields, k, slot, j + 1, next, rest, seen);
        assert next[k := Many(NormalItems(f.t, items, |items|))] == cur[k := Many(NormalItems(f.t, items, |items|))];
      }
    }
  }

  lemma PackedField(fields: seq<Field>, k: nat, slot: Slot, cur: seq<Slot>, rest: Bytes, seen: set<nat>)
    requires DescriptorOk(fields) && k < |fields| == |cur|
    requires fields[k].rule.Repeated? && fields[k].t.TScalar? && SlotOk(fields[k], slot) && cur[k] == Many([])
    requires 0 < |slot.items| <= fields[k].rule.max && EncodeField(fields[k], slot).Some?
    requires |EncodeField(fields[k], slot).value| < TWO32
    ensures DecodeFields(fields, EncodeField(fields[k], slot).value + rest, cur, seen) ==
            DecodeFields(fields, rest, cur[k := slot], seen)
  {
    var f, items := fields[k], slot.items;
    var body := EncodeScalars(f.t.t, items, 0);
    assert items[..0] == [];
    assert EncodeField(f, slot).value + rest == Tag(WT_STRING, f.tag) + (Prefixed(body) + rest);
    assert |body| < TWO32 && f.rule == Repeated(f.rule.max) && f.t == TScalar(f.t.t);
    assert ClearOthers(fields, cur, k) == cur && Seen(fields, k, seen) == seen;
    hide Tag, Prefixed, TakePrefixed, DecodePacked, EncodeScalars, DecodeFields, DescriptorOk, ClearOthers,
      Seen, EncodeField;
    OneTag(fields, k, WT_STRING, Prefixed(body) + rest, cur, seen);
    PrefixedRead(body, rest);
    PackedRoundTrip(f.t.t, items, 0, f.rule.max);
  }

  /** A field's variables are read back into a message that does not have them yet, whatever follows them in
      the stream. */
  lemma {:induction false} FieldRead(fields: seq<Field>, k: nat, slot: Slot, cur: seq<Slot>, rest: Bytes,
          seen: set<nat>)
    requires DescriptorOk(fields) && k < |fields| == |cur| && SlotOk(fields[k], slot)
             && cur[k] == InitialSlot(fields[k])
    requires slot.One? && Present(fields[k], slot) ==> ClearOthers(fields, cur, k) == cur
    requires EncodeField(fields[k], slot).Some? && |EncodeField(fields[k], slot).value| < TWO32
    ensures DecodeFields(fields, EncodeField(fields[k], slot).value + rest, cur, seen) ==
            if !FieldFits(fields[k], slot) then None
            else DecodeFields(fields, rest, cur[k := NormalSlot(fields[k], slot)],
              if slot.One? && Present(fields[k], slot) then Seen(fields, k, seen) else seen)
    decreases fields[k].t, 4, 0
  {
    var f := fields[k];
    if f.rule.Repeated? {
      if slot.items == [] {
        assert [] + rest == rest;
        assert cur[k := Many([])] == cur;
      } else if f.t.TScalar? {
        PackedField(fields, k, slot, cur, rest, seen);
        ScalarsFit(f.t, slot.items, 0);
      } else {
        ItemsRoundTrip(fields, k, slot, 0, cur, rest, seen);
      }
    } else if Present(f, slot) {
      TaggedValue(fields, k, slot.v, rest, cur, seen);
      var b := EncodeValue(f.t, slot.v).value;
      assert Tag(WireOf(f.t), f.tag) + b + rest == Tag(WireOf(f.t), f.tag) + (b + rest);
    } else {
      assert [] + rest == rest;
      assert cur[k := InitialSlot(f)] == cur;
    }
  }

  /** The same while the fields of a message are read in order. */
  lemma {:induction false} FieldRoundTrip(fields: seq<Field>, slots: seq<Slot>, k: nat, cur: seq<Slot>, rest: Bytes,
          seen: set<nat>)
    requires DescriptorOk(fields) && MessageOk(fields, slots) && k < |fields| && Partial(fields, slots, cur, k)
    requires SlotOk(fields[k], slots[k])
    requires EncodeField(fields[k], slots[k]).Some? && |EncodeField(fields[k], slots[k]).value| < TWO32
    ensures DecodeFields(fields, EncodeField(fields[k], slots[k]).value + rest, cur, seen) ==
            if FieldFits(fields[k], slots[k])
            then DecodeFields(fields, rest, cur[k := NormalSlot(fields[k], slots[k])], Seen(fields, k, seen)) else None
    decreases fields[k].t, 5, 0
  {
    if slots[k].One? && Present(fields[k], slots[k]) {
      NothingToClear(fields, slots, cur, k);
    }
    FieldRead(fields, k, slots[k], cur, rest, seen);
    assert !(slots[k].One? && Present(fields[k], slots[k])) ==> Seen(fields, k, seen) == seen;
    hide DecodeFields, EncodeField, FieldFits, NormalSlot, InitialSlot, ClearOthers;
  }

  lemma {:induction false} ScalarsFit(t: FieldType, items: seq<Value>, k: nat)
    requires t.TScalar? && k <= |items| && forall i :: 0 <= i < |items| ==> ValueOk(t, items[i])
    ensures NormalItems(t, items, |items|) == items && ItemsFit(t, items, k)
    decreases |items| - k
  {
    if k < |items| {
      ScalarsFit(t, items, k + 1);
    }
  }

  lemma PartialStep(fields: seq<Field>, slots: seq<Slot>, cur: seq<Slot>, k: nat)
    requires MessageOk(fields, slots) && k < |fields| && Partial(fields, slots, cur, k)
    ensures Partial(fields, slots, cur[k := NormalSlot(fields[k], slots[k])], k + 1)
  {
    hide NormalSlot, InitialSlot;
  }

  lemma SeenStep(fields: seq<Field>, seen: set<nat>, k: nat)
    requires k < |fields| && SeenBefore(fields, seen, k)
    ensures SeenBefore(fields, Seen(fields, k, seen), k + 1)
  {
  }

  lemma {:induction false} FieldsRoundTrip(fields: seq<Field>, slots: seq<Slot>, k: nat, cur: seq<Slot>, seen: set<nat>)
    requires DescriptorOk(fields) && MessageOk(fields, slots) && k <= |fields| && Partial(fields, slots, cur, k)
             && SeenBefore(fields, seen, k)
    requires EncodeFields(fields, slots, k).Some? && |EncodeFields(fields, slots, k).value| < TWO32
    ensures var r := DecodeFields(fields, EncodeFields(fields, slots, k).value, cur, seen);
            && (r.Some? <==> MessageFits(fields, slots, k))
            && (r.Some? ==> r.value.0 == NormalSlots(fields, slots, 0) && AllSeen(fields, r.value.1))
    decreases TMessage(fields), 0, |fields| - k
  {
    if k < |fields| {
      var more := EncodeFields(fields, slots, k + 1).value;
      FieldRoundTrip(fields, slots, k, cur, more, seen);
      PartialStep(fields, slots, cur, k);
      SeenStep(fields, seen, k);
      FieldsRoundTrip(fields, slots, k + 1, cur[k := NormalSlot(fields[k], slots[k])], Seen(fields, k, seen));
      hide DecodeFields, EncodeField, FieldFits, NormalSlot, Seen, SeenBefore, AllSeen, NormalSlots, Partial,
        DescriptorOk;
    } else {
      assert cur == NormalSlots(fields, slots, 0);
    }
  }

  /** Encoding a message and decoding the bytes gives the message back, if and only if its strings
      have room for their terminating zeros. */
  lemma {:induction false} MessageRoundTrip(fields: seq<Field>, slots: seq<Slot>)
    requires DescriptorOk(fields) && MessageOk(fields, slots)
    requires EncodeFields(fields, slots, 0).Some? && |EncodeFields(fields, slots, 0).value| < TWO32
    ensures DecodeMessage(fields, EncodeFields(fields, slots, 0).value, Defaults(fields, 0)) ==
            if MessageFits(fields, slots, 0) then Some(NormalSlots(fields, slots, 0)) else None
    decreases TMessage(fields), 0, |fields| + 1
  {
    FieldsRoundTrip(fields, slots, 0, Defaults(fields, 0), {});
    hide DecodeFields, EncodeFields, MessageFits, NormalSlots, Defaults, AllSeen;
  }

  // ---------------------------------------------------------------------------------------------
  // What a reader of the message sees
  // ---------------------------------------------------------------------------------------------

  ghost predicate ValueAgrees(t: FieldType, a: Value, b: Value)
    decreases t, 1, 0
  {
    match t
    case TMessage(fields) => a.Message? && b.Message? && MessageAgrees(fields, a.slots, b.slots)
    case _ => a == b
  }

  /** The same presence, and the same value where there is one. */
  ghost predicate SlotAgrees(f: Field, a: Slot, b: Slot)
    decreases f.t, 2, 0
  {
    if f.rule.Repeated? then
      a.Many? && b.Many? && |a.items| == |b.items| && forall i :: 0 <= i < |a.items| ==>
        ValueAgrees(f.t, a.items[i], b.items[i])
    else a.One? && b.One? && a.has == b.has && (a.has ==> ValueAgrees(f.t, a.v, b.v))
  }

  ghost predicate MessageAgrees(fields: seq<Field>, a: seq<Slot>, b: seq<Slot>)
    decreases TMessage(fields), 0, 0
  {
    |a| == |b| == |fields| && forall k :: 0 <= k < |fields| ==> SlotAgrees(fields[k], a[k], b[k])
  }

  /** A value that is not written because it is zero agrees with the initial one. */
  lemma {:induction false} ZeroAgrees(t: FieldType, v: Value, init: Value)
    requires TypeOk(t) && ValueOk(t, v) && IsZero(t, v) && (t.TMessage? || (ValueOk(t, init) && IsZero(t, init)))
    ensures ValueAgrees(t, v, Initial(t, init))
    decreases t, 1, 0
  {
    if t.TMessage? {
      forall k | 0 <= k < |t.fields| ensures SlotAgrees(t.fields[k], v.slots[k], Defaults(t.fields, 0)[k]) {
        var f, slot := t.fields[k], v.slots[k];
        assert SlotOk(f, slot) && TypeOk(f.t) && InitOk(f);
        ZeroField(t.fields, v.slots, 0, k);
        if f.rule == Optional(false) {
          ZeroAgrees(f.t, slot.v, f.init);
        }
      }
    }
  }

  lemma {:induction false} ZeroField(fields: seq<Field>, slots: seq<Slot>, from: nat, k: nat)
    requires AllZero(fields, slots, from) && from <= k < |fields| == |slots|
    ensures FieldIsZero(fields[k], slots[k])
    decreases k - from
  {
    if from < k {
      ZeroField(fields, slots, from + 1, k);
    }
  }

  lemma {:induction false} NormalAgrees(t: FieldType, v: Value)
    requires TypeOk(t) && ValueOk(t, v)
    ensures ValueAgrees(t, v, Normal(t, v))
    decreases t, 1, 0
  {
    if t.TMessage? {
      forall k | 0 <= k < |t.fields| ensures SlotAgrees(t.fields[k], v.slots[k], NormalSlots(t.fields, v.slots, 0)[k]) {
        assert SlotOk(t.fields[k], v.slots[k]) && TypeOk(t.fields[k].t) && InitOk(t.fields[k]);
        SlotNormalAgrees(t.fields[k], v.slots[k]);
      }
    }
  }

  lemma {:induction false} SlotNormalAgrees(f: Field, slot: Slot)
    requires TypeOk(f.t) && InitOk(f) && SlotOk(f, slot)
    ensures SlotAgrees(f, slot, NormalSlot(f, slot))
    decreases f.t, 2, 0
  {
    if f.rule.Repeated? {
      forall i | 0 <= i < |slot.items| ensures ValueAgrees(f.t, slot.items[i], Normal(f.t, slot.items[i])) {
        NormalAgrees(f.t, slot.items[i]);
      }
    } else if Present(f, slot) {
      NormalAgrees(f.t, slot.v);
    } else if f.rule == Optional(false) {
      ZeroAgrees(f.t, slot.v, f.init);
    }
  }

  /** Decoding what was encoded into a fresh message succeeds if and only if the strings have room for
      their terminating zeros; then every field is present in one if it is in the other, with the same
      value. */
  lemma RoundTrip(fields: seq<Field>, slots: seq<Slot>)
    requires DescriptorOk(fields) && MessageOk(fields, slots)
    requires EncodeFields(fields, slots, 0).Some? && |EncodeFields(fields, slots, 0).value| < TWO32
    ensures var r := DecodeMessage(fields, EncodeFields(fields, slots, 0).value, Defaults(fields, 0));
            && (r.Some? <==> MessageFits(fields, slots, 0))
            && (r.Some? ==> MessageAgrees(fields, slots, r.value))
  {
    MessageRoundTrip(fields, slots);
    NormalAgrees(TMessage(fields), Message(slots));
    hide EncodeFields, DecodeMessage, MessageFits, NormalSlots, Defaults, MessageOk, DescriptorOk, MessageAgrees;
  }

  // ---------------------------------------------------------------------------------------------
  // The string that fills its variable
  // ---------------------------------------------------------------------------------------------

  /** A required string of one byte in a one-byte variable, without a zero, is written, and what is
      written cannot be read. */
  lemma FullStringUnreadable()
    ensures var fields, slots := [Field(1, Required, TString(1), Raw([]))], [One(true, Raw([97]))];
            && DescriptorOk(fields) && MessageOk(fields, slots)
            && EncodeFields(fields, slots, 0) == Some([10, 1, 97])
            && DecodeMessage(fields, [10, 1, 97], Defaults(fields, 0)) == None
  {
    var fields, slots := [Field(1, Required, TString(1), Raw([]))], [One(true, Raw([97]))];
    var f := fields[0];
    assert ValueOk(f.t, f.init) && ValueOk(f.t, slots[0].v);
    assert EncodeFields(fields, slots, 1) == Some([]);
    assert Tag(WT_STRING, 1) == [10] && Prefixed([97]) == [1, 97];
    assert WireOf(f.t) == WT_STRING && EncodeValue(f.t, slots[0].v) == Some([1, 97]);
    assert [10] + [1, 97] == [10, 1, 97];
    assert EncodeField(f, slots[0]) == Some([10, 1, 97]);
    assert [10, 1, 97] + [] == [10, 1, 97];
    assert EncodeFields(fields, slots, 0) == Some([10, 1, 97]);
    assert !MessageFits(fields, slots, 0);
    MessageRoundTrip(fields, slots);
  }
}
