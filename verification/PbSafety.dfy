/** Whatever bytes are decoded, the message stays within its variables, and can be encoded again. */
module PbSafety {
  import opened Options
  import opened Coding
  import opened PbScalars
  import opened PbMessages
  import opened PbEncode
  import opened PbDecode
  import opened PbRoundTrip

  // ---------------------------------------------------------------------------------------------
  // Messages within their variables
  // ---------------------------------------------------------------------------------------------

  /** Byte strings fit, strings end with a zero, arrays are not overrun. */
  ghost predicate SoundValue(t: FieldType, v: Value)
    decreases t, 1, 0
  {
    && ValueOk(t, v)
    && match t
       case TBytes(max) => |v.bytes| <= max
       case TString(size) => |v.bytes| < size
       case TMessage(fields) => SoundMessage(fields, v.slots)
       case _ => true
  }

  ghost predicate SoundSlot(f: Field, slot: Slot)
    decreases f.t, 2, 0
  {
    && SlotOk(f, slot)
    && if f.rule.Repeated? then |slot.items| <= f.rule.max && forall i :: 0 <= i < |slot.items| ==>
      SoundValue(f.t, slot.items[i])
       else SoundValue(f.t, slot.v)
  }

  ghost predicate SoundMessage(fields: seq<Field>, slots: seq<Slot>)
    decreases TMessage(fields), 0, 0
  {
    MessageOk(fields, slots) && forall k :: 0 <= k < |fields| ==> SoundSlot(fields[k], slots[k])
  }

  /** The defaults are sound. */
  ghost predicate SoundType(t: FieldType)
    decreases t, 1
  {
    t.TMessage? ==> SoundDescriptor(t.fields)
  }

  ghost predicate SoundField(f: Field)
    decreases f.t, 2
  {
    SoundType(f.t) && (f.t.TMessage? || SoundValue(f.t, f.init))
  }

  ghost predicate SoundDescriptor(fields: seq<Field>)
    decreases TMessage(fields), 0
  {
    forall k :: 0 <= k < |fields| ==> SoundField(fields[k])
  }

  lemma {:induction false} InitialSound(t: FieldType, init: Value)
    requires SoundType(t) && (t.TMessage? || SoundValue(t, init))
    ensures SoundValue(t, Initial(t, init))
    decreases t, 1
  {
    if t.TMessage? {
      DefaultsSound(t.fields);
    }
  }

  lemma {:induction false} InitialSlotSound(f: Field)
    requires SoundField(f)
    ensures SoundSlot(f, InitialSlot(f))
    decreases f.t, 2
  {
    InitialSound(f.t, f.init);
  }

  lemma {:induction false} DefaultsSound(fields: seq<Field>)
    requires SoundDescriptor(fields)
    ensures SoundMessage(fields, Defaults(fields, 0))
    decreases TMessage(fields), 0
  {
    forall k | 0 <= k < |fields| ensures SoundSlot(fields[k], Defaults(fields, 0)[k]) {
      assert SoundField(fields[k]);
      InitialSlotSound(fields[k]);
    }
  }

  // ---------------------------------------------------------------------------------------------
  // Decoding
  // ---------------------------------------------------------------------------------------------

  lemma {:induction false} DecodePackedSound(t: Scalar, s: Bytes, items: seq<Value>, max: nat)
    requires |items| <= max && forall i :: 0 <= i < |items| ==> SoundValue(TScalar(t), items[i])
    ensures var r := DecodePacked(t, s, items, max);
            r.Some? ==> |r.value| <= max && forall i :: 0 <= i < |r.value| ==> SoundValue(TScalar(t), r.value[i])
    decreases |s|
  {
    if s != [] && |items| < max && DecodeScalar(t, s).Some? {
      var (n, rest) := DecodeScalar(t, s).value;
      assert SoundValue(TScalar(t), Number(n));
      DecodePackedSound(t, rest, items + [Number(n)], max);
    }
  }

  lemma {:induction false} DecodeValueSound(t: FieldType, s: Bytes, was: Value)
    requires SoundType(t) && (t.TMessage? ==> SoundValue(t, was))
    ensures var r := DecodeValue(t, s, was); r.Some? ==> SoundValue(t, r.value.0)
    decreases |s|, 0
  {
    hide TakeVarint32;
    if t.TMessage? && TakePrefixed(s).Some? {
      DecodeMessageSound(t.fields, TakePrefixed(s).value.0, was.slots);
      hide SoundMessage, MessageOk, DecodeMessage, SoundDescriptor;
      MessageIsOk(t.fields, was.slots);
    }
  }

  lemma MessageIsOk(fields: seq<Field>, slots: seq<Slot>)
    requires SoundMessage(fields, slots)
    ensures MessageOk(fields, slots)
  {
  }

  lemma {:induction false} DecodeFieldSound(f: Field, wire: nat, s: Bytes, was: Slot)
    requires SoundField(f) && SoundSlot(f, was)
    ensures var r := DecodeField(f, wire, s, was); r.Some? ==> SoundSlot(f, r.value.0)
    decreases |s|, 1
  {
    InitialSound(f.t, f.init);
    hide TakeVarint32, DecodeScalar, DecodeValue, DecodePacked, Initial;
    if f.rule.Repeated? {
      if wire == WT_STRING && f.t.TScalar? {
        if TakePrefixed(s).Some? {
          DecodePackedSound(f.t.t, TakePrefixed(s).value.0, was.items, f.rule.max);
        }
      } else {
        DecodeValueSound(f.t, s, Initial(f.t, f.init));
      }
    } else if f.rule.Oneof? && !was.has {
      DecodeValueSound(f.t, s, Initial(f.t, f.init));
    } else {
      DecodeValueSound(f.t, s, was.v);
    }
  }

  /** A field read into a sound message leaves it sound: a oneof still has at most one member. */
  lemma FieldPut(fields: seq<Field>, slots: seq<Slot>, k: nat, slot: Slot)
    requires SoundDescriptor(fields) && SoundMessage(fields, slots) && k < |fields| && SoundSlot(fields[k], slot)
    ensures SoundMessage(fields, ClearOthers(fields, slots, k)[k := slot])
  {
    var next := ClearOthers(fields, slots, k)[k := slot];
    forall i | 0 <= i < |fields| ensures SoundSlot(fields[i], next[i]) {
      assert SoundField(fields[i]) && SoundSlot(fields[i], slots[i]);
      InitialSlotSound(fields[i]);
    }
    forall i, j | 0 <= i < j < |fields| && fields[i].rule.Oneof? && fields[i].rule == fields[j].rule
      ensures !(next[i].has && next[j].has) {
      assert SoundSlot(fields[i], next[i]) && SoundSlot(fields[j], next[j]);
    }
  }

  lemma {:induction false} DecodeFieldsSound(fields: seq<Field>, s: Bytes, slots: seq<Slot>, seen: set<nat>)
    requires SoundDescriptor(fields) && SoundMessage(fields, slots)
    ensures var r := DecodeFields(fields, s, slots, seen); r.Some? ==> SoundMessage(fields, r.value.0)
    decreases |s|, 2
  {
    hide SoundMessage, DecodeField, SkipField, ClearOthers, Seen, Find, SoundField;
    if s != [] && |slots| == |fields| && TakeVarint32(s).Some? && TakeVarint32(s).value.0 != 0 {
      var (n, rest) := TakeVarint32(s).value;
      hide TakeVarint32;
      var found := Find(fields, n / 8, 0);
      if found.None? {
        if SkipField(n % 8, rest).Some? {
          DecodeFieldsSound(fields, SkipField(n % 8, rest).value, slots, seen);
        }
      } else {
        var k := found.value;
        SlotIsSound(fields, slots, k);
        DecodeFieldSound(fields[k], n % 8, rest, slots[k]);
        if DecodeField(fields[k], n % 8, rest, slots[k]).Some? {
          var (slot, rest') := DecodeField(fields[k], n % 8, rest, slots[k]).value;
          FieldPut(fields, slots, k, slot);
          DecodeFieldsSound(fields, rest', ClearOthers(fields, slots, k)[k := slot], Seen(fields, k, seen));
        }
      }
    }
  }

  lemma SlotIsSound(fields: seq<Field>, slots: seq<Slot>, k: nat)
    requires SoundMessage(fields, slots) && k < |fields|
    ensures |slots| == |fields| && SoundSlot(fields[k], slots[k])
  {
  }

  /** For every input, what is decoded into a sound message is a sound message. */
  lemma {:induction false} DecodeMessageSound(fields: seq<Field>, s: Bytes, slots: seq<Slot>)
    requires SoundDescriptor(fields) && SoundMessage(fields, slots)
    ensures var r := DecodeMessage(fields, s, slots); r.Some? ==> SoundMessage(fields, r.value)
    decreases |s|, 3
  {
    DecodeFieldsSound(fields, s, slots, {});
  }

  // ---------------------------------------------------------------------------------------------
  // Encoding again
  // ---------------------------------------------------------------------------------------------

  lemma {:induction false} SoundValueEncodes(t: FieldType, v: Value)
    requires SoundValue(t, v)
    ensures EncodeValue(t, v).Some? && ValueFits(t, v)
    decreases t, 1, 0
  {
    if t.TMessage? {
      SoundFieldsEncode(t.fields, v.slots, 0);
    }
  }

  lemma {:induction false} SoundItemsEncode(f: Field, items: seq<Value>, k: nat)
    requires k <= |items| && forall i :: 0 <= i < |items| ==> ValueOk(f.t, items[i]) && SoundValue(f.t, items[i])
    ensures EncodeItems(f, items, k).Some? && ItemsFit(f.t, items, k)
    decreases f.t, 2, |items| - k
  {
    if k < |items| {
      SoundValueEncodes(f.t, items[k]);
      SoundItemsEncode(f, items, k + 1);
    }
  }

  lemma {:induction false} SoundSlotEncodes(f: Field, slot: Slot)
    requires SoundSlot(f, slot)
    ensures EncodeField(f, slot).Some? && FieldFits(f, slot)
    decreases f.t, 3, 0
  {
    if f.rule.Repeated? {
      SoundItemsEncode(f, slot.items, 0);
    } else {
      SoundValueEncodes(f.t, slot.v);
    }
  }

  lemma {:induction false} SoundFieldsEncode(fields: seq<Field>, slots: seq<Slot>, k: nat)
    requires SoundMessage(fields, slots) && k <= |fields|
    ensures EncodeFields(fields, slots, k).Some? && MessageFits(fields, slots, k)
    decreases TMessage(fields), 0, |fields| - k
  {
    if k < |fields| {
      SoundSlotEncodes(fields[k], slots[k]);
      SoundFieldsEncode(fields, slots, k + 1);
    }
  }

  /** Whatever was received, if it could be decoded, the message can be encoded again, and decoding that
      gives a message that agrees with it. */
  lemma DecodedReencodes(fields: seq<Field>, s: Bytes, slots: seq<Slot>)
    requires DescriptorOk(fields) && SoundDescriptor(fields)
    requires DecodeMessage(fields, s, Defaults(fields, 0)) == Some(slots)
    ensures MessageOk(fields, slots) && EncodeFields(fields, slots, 0).Some?
    ensures var b := EncodeFields(fields, slots, 0).value;
            |b| < TWO32 ==>
              var again := DecodeMessage(fields, b, Defaults(fields, 0));
              again.Some? && MessageAgrees(fields, slots, again.value)
  {
    DefaultsSound(fields);
    DecodeMessageSound(fields, s, Defaults(fields, 0));
    SoundFieldsEncode(fields, slots, 0);
    hide DecodeMessage, EncodeFields, MessageFits, MessageAgrees, Defaults, DescriptorOk, SoundDescriptor;
    if |EncodeFields(fields, slots, 0).value| < TWO32 {
      RoundTrip(fields, slots);
    }
  }
}
