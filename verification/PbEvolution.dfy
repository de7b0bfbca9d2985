/** Decoding what other encoders write: unknown fields, other descriptors, arrays that are not packed, and
    values given more than once. */
module PbEvolution {
  import opened Options
  import opened Coding
  import opened PbScalars
  import opened PbMessages
  import opened PbEncode
  import opened PbDecode
  import opened PbRoundTrip

  // ---------------------------------------------------------------------------------------------
  // Unknown fields
  // ---------------------------------------------------------------------------------------------

  ghost predicate Unknown(fields: seq<Field>, tag: nat) {
    forall i :: 0 <= i < |fields| ==> fields[i].tag != tag
  }

  lemma {:induction false} SkipVarintRead(v: nat, rest: Bytes)
    ensures SkipVarint(Varint(v) + rest) == Some(rest)
    decreases v
  {
    VarintHead(v, rest);
    if v >= 128 {
      SkipVarintRead(v / 128, rest);
    }
  }

  lemma UnknownTag(fields: seq<Field>, tag: nat, wire: nat, b: Bytes, slots: seq<Slot>, seen: set<nat>)
    requires 0 < tag < 0x2000_0000 && wire < 8 && Unknown(fields, tag) && |slots| == |fields|
    ensures DecodeFields(fields, Tag(wire, tag) + b, slots, seen) ==
            match SkipField(wire, b) case None => None case Some(rest) => DecodeFields(fields, rest, slots, seen)
  {
    TagRead(wire, tag, b);
    hide Tag, TakeVarint32, SkipField, DecodeField, ClearOthers, Seen;
    assert Find(fields, tag, 0) == None;
  }

  /** A field whose tag the descriptor does not have is skipped, whatever follows: a varint, eight bytes, a
      length and that many bytes, or four bytes. */
  lemma UnknownSkipped(fields: seq<Field>, tag: nat, wire: nat, b: Bytes, v: nat, rest: Bytes, slots: seq<Slot>,
          seen: set<nat>)
    requires 0 < tag < 0x2000_0000 && (forall i :: 0 <= i < |fields| ==> fields[i].tag != tag) && |slots| == |fields|
    requires || (wire == 0 && b == Varint(v))
             || (wire == 1 && |b| == 8)
             || (wire == 2 && exists s :: |s| < TWO32 && b == Varint(|s|) + s)
             || (wire == 5 && |b| == 4)
    ensures DecodeFields(fields, Tag(wire, tag) + b + rest, slots, seen) == DecodeFields(fields, rest, slots, seen)
  {
    assert Tag(wire, tag) + b + rest == Tag(wire, tag) + (b + rest);
    UnknownTag(fields, tag, wire, b + rest, slots, seen);
    hide Tag, DecodeFields, Varint, TakePrefixed;
    if wire == 0 {
      SkipVarintRead(v, rest);
    } else if wire == 2 {
      var s :| |s| < TWO32 && b == Varint(|s|) + s;
      PrefixedRead(s, rest);
    } else {
      assert (b + rest)[|b|..] == rest;
    }
  }

  /** An unknown field of another wire type, or one that is cut off, is an error. */
  lemma UnknownRefused(fields: seq<Field>, tag: nat, wire: nat, b: Bytes, slots: seq<Slot>, seen: set<nat>)
    requires 0 < tag < 0x2000_0000 && (forall i :: 0 <= i < |fields| ==> fields[i].tag != tag) && |slots| == |fields|
    requires || wire == 3 || wire == 4 || wire == 6 || wire == 7
             || (wire == 0 && forall i :: 0 <= i < |b| ==> b[i] >= 128)
             || (wire == 1 && |b| < 8)
             || (wire == 2 && exists n, s :: |s| < n < TWO32 && b == Varint(n) + s)
             || (wire == 5 && |b| < 4)
    ensures DecodeFields(fields, Tag(wire, tag) + b, slots, seen) == None
  {
    UnknownTag(fields, tag, wire, b, slots, seen);
    hide Tag, DecodeFields, Varint, TakeVarint32;
    if wire == 0 {
      SkipVarintFails(b);
    } else if wire == 2 {
      var n, s :| |s| < n < TWO32 && b == Varint(n) + s;
      Varint32Read(n, s);
    }
  }

  lemma {:induction false} SkipVarintFails(b: Bytes)
    requires forall i :: 0 <= i < |b| ==> b[i] >= 128
    ensures SkipVarint(b) == None
    decreases |b|
  {
    if b != [] {
      SkipVarintFails(b[1..]);
    }
  }

  // ---------------------------------------------------------------------------------------------
  // Fields of another descriptor
  // ---------------------------------------------------------------------------------------------

  lemma ValueSkipped(fields: seq<Field>, f: Field, v: Value, rest: Bytes, slots: seq<Slot>, seen: set<nat>)
    requires 0 < f.tag < 0x2000_0000 && Unknown(fields, f.tag) && |slots| == |fields|
    requires ValueOk(f.t, v) && EncodeValue(f.t, v).Some? && |EncodeValue(f.t, v).value| < TWO32
    ensures DecodeFields(fields, Tag(WireOf(f.t), f.tag) + EncodeValue(f.t, v).value + rest, slots, seen) ==
            DecodeFields(fields, rest, slots, seen)
  {
    var b := EncodeValue(f.t, v).value;
    var n := if f.t.TScalar? then ScalarNumber(f.t.t, v.n) else 0;
    var s := if f.t.TScalar? then [] else if f.t.TMessage? then EncodeFields(f.t.fields, v.slots, 0).value else v.bytes;
    assert !f.t.TScalar? ==> b == Varint(|s|) + s;
    assert f.t.TScalar? ==>
      if f.t.t == SFixed32 then |b| == 4 else if f.t.t == SFixed64 then |b| == 8 else b == Varint(n);
    hide DecodeFields, Tag, Varint, EncodeValue;
    UnknownSkipped(fields, f.tag, WireOf(f.t), b, n, rest, slots, seen);
  }

  /** The number whose varint a scalar is written as. */
  function ScalarNumber(t: Scalar, n: int): nat
    requires Holds(t, n)
  {
    match t
    case SInt(_) => n % TWO64
    case SZigzag(_) => Zigzag(n)
    case _ => n
  }

  lemma {:induction false} ItemsSkipped(fields: seq<Field>, f: Field, items: seq<Value>, k: nat, rest: Bytes,
          slots: seq<Slot>, seen: set<nat>)
    requires 0 < f.tag < 0x2000_0000 && Unknown(fields, f.tag) && |slots| == |fields|
    requires k <= |items| && forall i :: 0 <= i < |items| ==> ValueOk(f.t, items[i])
    requires EncodeItems(f, items, k).Some? && |EncodeItems(f, items, k).value| < TWO32
    ensures DecodeFields(fields, EncodeItems(f, items, k).value + rest, slots, seen) ==
            DecodeFields(fields, rest, slots, seen)
    decreases |items| - k
  {
    if k == |items| {
      assert [] + rest == rest;
    } else {
      var b, more := EncodeValue(f.t, items[k]).value, EncodeItems(f, items, k + 1).value;
      assert EncodeItems(f, items, k).value + rest == Tag(WireOf(f.t), f.tag) + b + (more + rest);
      hide DecodeFields, Tag, EncodeValue;
      ValueSkipped(fields, f, items[k], more + rest, slots, seen);
      ItemsSkipped(fields, f, items, k + 1, rest, slots, seen);
    }
  }

  /** Whatever an encoder writes for a field that the decoder does not know is skipped. */
  lemma FieldSkipped(fields: seq<Field>, f: Field, slot: Slot, rest: Bytes, slots: seq<Slot>, seen: set<nat>)
    requires 0 < f.tag < 0x2000_0000 && (forall i :: 0 <= i < |fields| ==> fields[i].tag != f.tag)
             && |slots| == |fields|
    requires SlotOk(f, slot) && EncodeField(f, slot).Some? && |EncodeField(f, slot).value| < TWO32
    ensures DecodeFields(fields, EncodeField(f, slot).value + rest, slots, seen) ==
            DecodeFields(fields, rest, slots, seen)
  {
    hide DecodeFields, Tag, EncodeValue, Varint;
    assert [] + rest == rest;
    if f.rule.Repeated? {
      if slot.items != [] && f.t.TScalar? {
        var body := EncodeScalars(f.t.t, slot.items, 0);
        assert Prefixed(body) == Varint(|body|) + body;
        UnknownSkipped(fields, f.tag, 2, Prefixed(body), 0, rest, slots, seen);
      } else if slot.items != [] {
        ItemsSkipped(fields, f, slot.items, 0, rest, slots, seen);
      }
    } else if Present(f, slot) {
      ValueSkipped(fields, f, slot.v, rest, slots, seen);
    }
  }

  // ---------------------------------------------------------------------------------------------
  // Two descriptors
  // ---------------------------------------------------------------------------------------------

  /** Where both have a tag, both mean the same field by it. */
  ghost predicate Compatible(theirs: seq<Field>, ours: seq<Field>) {
    forall i, j :: 0 <= i < |theirs| && 0 <= j < |ours| && theirs[i].tag == ours[j].tag ==> theirs[i] == ours[j]
  }

  /** One of the first `k` fields has the tag. */
  ghost predicate Came(theirs: seq<Field>, k: nat, tag: nat)
    requires k <= |theirs|
  {
    exists i :: 0 <= i < k && theirs[i].tag == tag
  }

  /** What arrives of a field. */
  ghost predicate Arrives(theirs: seq<Field>, slots: seq<Slot>, k: nat, f: Field, slot: Slot)
    requires MessageOk(theirs, slots) && k <= |theirs|
  {
    && (forall i :: 0 <= i < k && theirs[i].tag == f.tag ==>
          SlotOk(theirs[i], slots[i]) && slot == NormalSlot(theirs[i], slots[i]))
    && (!Came(theirs, k, f.tag) ==> slot == InitialSlot(f))
  }

  ghost predicate Arrived(theirs: seq<Field>, slots: seq<Slot>, k: nat, ours: seq<Field>, cur: seq<Slot>)
    requires MessageOk(theirs, slots) && k <= |theirs|
  {
    |cur| == |ours| && forall j :: 0 <= j < |ours| ==> Arrives(theirs, slots, k, ours[j], cur[j])
  }

  /** The required fields seen are those that came, of which 64 are tracked. */
  ghost predicate SeenCame(theirs: seq<Field>, k: nat, ours: seq<Field>, seen: set<nat>)
    requires k <= |theirs|
  {
    forall j :: 0 <= j < |ours| && ours[j].rule == Required && RequiredBefore(ours, j) < MAX_REQUIRED ==>
      (RequiredBefore(ours, j) in seen <==> Came(theirs, k, ours[j].tag))
  }

  ghost predicate CommonFit(theirs: seq<Field>, slots: seq<Slot>, k: nat, ours: seq<Field>)
    requires MessageOk(theirs, slots) && k <= |theirs|
  {
    forall i :: k <= i < |theirs| && Known(ours, theirs[i].tag) ==>
      SlotOk(theirs[i], slots[i]) && FieldFits(theirs[i], slots[i])
  }

  ghost predicate Known(ours: seq<Field>, tag: nat) {
    exists j :: 0 <= j < |ours| && ours[j].tag == tag
  }

  lemma KnownIs(ours: seq<Field>, tag: nat) returns (j: nat)
    requires Known(ours, tag)
    ensures j < |ours| && ours[j].tag == tag
  {
    j :| 0 <= j < |ours| && ours[j].tag == tag;
  }

  lemma {:induction false} RequiredAscend(fields: seq<Field>, i: nat, j: nat)
    requires i <= j <= |fields|
    ensures RequiredBefore(fields, i) <= RequiredBefore(fields, j)
    ensures i < j && fields[i].rule == Required ==> RequiredBefore(fields, i) < RequiredBefore(fields, j)
    decreases j
  {
    if i < j {
      RequiredAscend(fields, i, j - 1);
    }
  }

  lemma RequiredOnce(fields: seq<Field>, i: nat, j: nat)
    requires i < |fields| && j < |fields| && i != j && fields[i].rule == Required && fields[j].rule == Required
    ensures RequiredBefore(fields, i) != RequiredBefore(fields, j)
  {
    RequiredAscend(fields, if i < j then i else j, if i < j then j else i);
  }

  lemma {:induction false} RequiredAt(fields: seq<Field>, k: nat, n: nat) returns (j: nat)
    requires k <= |fields| && n < RequiredBefore(fields, k)
    ensures j < k && fields[j].rule == Required && RequiredBefore(fields, j) == n
    decreases k
  {
    if n < RequiredBefore(fields, k - 1) {
      j := RequiredAt(fields, k - 1, n);
    } else {
      j := k - 1;
    }
  }

  /** All tracked required fields were seen if and only if they came. */
  lemma AllSeenIff(theirs: seq<Field>, ours: seq<Field>, seen: set<nat>)
    requires SeenCame(theirs, |theirs|, ours, seen)
    ensures AllSeen(ours, seen) <==> RequiredCome(theirs, ours)
  {
    if AllSeen(ours, seen) {
      forall j | 0 <= j < |ours| && ours[j].rule == Required && RequiredBefore(ours, j) < MAX_REQUIRED
        ensures Came(theirs, |theirs|, ours[j].tag)
      {
        RequiredAscend(ours, j, |ours|);
      }
    }
    if RequiredCome(theirs, ours) {
      forall n: nat | n < RequiredBefore(ours, |ours|) && n < MAX_REQUIRED ensures n in seen {
        var j := RequiredAt(ours, |ours|, n);
      }
    }
  }

  /** Every required field that is tracked is one that the encoder has. */
  ghost predicate RequiredCome(theirs: seq<Field>, ours: seq<Field>) {
    forall j :: 0 <= j < |ours| && ours[j].rule == Required && RequiredBefore(ours, j) < MAX_REQUIRED ==>
      Came(theirs, |theirs|, ours[j].tag)
  }

  lemma CameStep(theirs: seq<Field>, k: nat, tag: nat)
    requires k < |theirs|
    ensures Came(theirs, k + 1, tag) <==> Came(theirs, k, tag) || theirs[k].tag == tag
  {
    if Came(theirs, k, tag) {
      var i :| 0 <= i < k && theirs[i].tag == tag;
      assert theirs[i].tag == tag && i < k + 1;
    }
  }

  lemma OneArrives(theirs: seq<Field>, slots: seq<Slot>, k: nat, f: Field, was: Slot, now: Slot)
    requires MessageOk(theirs, slots) && DescriptorOk(theirs) && k < |theirs| && Arrives(theirs, slots, k, f, was)
    requires SlotOk(theirs[k], slots[k])
    requires now == if theirs[k].tag == f.tag then NormalSlot(theirs[k], slots[k]) else was
    ensures Arrives(theirs, slots, k + 1, f, now)
  {
    CameStep(theirs, k, f.tag);
    hide NormalSlot, InitialSlot, SlotOk;
  }

  /** One field more has come. */
  lemma ArrivedStep(theirs: seq<Field>, slots: seq<Slot>, k: nat, ours: seq<Field>, cur: seq<Slot>, next: seq<Slot>)
    requires MessageOk(theirs, slots) && DescriptorOk(theirs) && k < |theirs| && SlotOk(theirs[k], slots[k])
    requires Arrived(theirs, slots, k, ours, cur) && |next| == |ours|
    requires forall j :: 0 <= j < |ours| ==>
               next[j] == if theirs[k].tag == ours[j].tag then NormalSlot(theirs[k], slots[k]) else cur[j]
    ensures Arrived(theirs, slots, k + 1, ours, next)
  {
    hide NormalSlot, InitialSlot, SlotOk, Arrives, MessageOk, DescriptorOk;
    forall j | 0 <= j < |ours| ensures Arrives(theirs, slots, k + 1, ours[j], next[j]) {
      assert Arrives(theirs, slots, k, ours[j], cur[j]);
      OneArrives(theirs, slots, k, ours[j], cur[j], next[j]);
    }
  }

  lemma SeenStepCame(theirs: seq<Field>, k: nat, ours: seq<Field>, j: nat, seen: set<nat>)
    requires k < |theirs| && DescriptorOk(ours) && SeenCame(theirs, k, ours, seen)
    requires j < |ours| && theirs[k].tag == ours[j].tag
    ensures SeenCame(theirs, k + 1, ours, Seen(ours, j, seen))
  {
    forall i | 0 <= i < |ours| && ours[i].rule == Required && RequiredBefore(ours, i) < MAX_REQUIRED
      ensures RequiredBefore(ours, i) in Seen(ours, j, seen) <==> Came(theirs, k + 1, ours[i].tag)
    {
      CameStep(theirs, k, ours[i].tag);
      if i != j && ours[j].rule == Required {
        RequiredOnce(ours, i, j);
      }
      assert i != j ==> ours[i].tag != ours[j].tag;
    }
  }

  lemma SeenStepOther(theirs: seq<Field>, k: nat, ours: seq<Field>, seen: set<nat>)
    requires k < |theirs| && SeenCame(theirs, k, ours, seen)
    requires forall j :: 0 <= j < |ours| && ours[j].rule == Required ==> ours[j].tag != theirs[k].tag
    ensures SeenCame(theirs, k + 1, ours, seen)
  {
    forall i | 0 <= i < |ours| && ours[i].rule == Required && RequiredBefore(ours, i) < MAX_REQUIRED
      ensures RequiredBefore(ours, i) in seen <==> Came(theirs, k + 1, ours[i].tag)
    {
      CameStep(theirs, k, ours[i].tag);
    }
  }

  /** While a member of a oneof is read, the others are not there. */
  lemma OthersAbsent(theirs: seq<Field>, slots: seq<Slot>, k: nat, ours: seq<Field>, cur: seq<Slot>, j: nat)
    requires MessageOk(theirs, slots) && DescriptorOk(ours) && Compatible(theirs, ours)
    requires k < |theirs| && j < |ours| && theirs[k] == ours[j] && SlotOk(theirs[k], slots[k])
    requires Arrived(theirs, slots, k, ours, cur) && slots[k].One? && Present(theirs[k], slots[k])
    ensures ClearOthers(ours, cur, j) == cur
  {
    forall i | 0 <= i < |cur| ensures ClearOthers(ours, cur, j)[i] == cur[i] {
      if ours[j].rule.Oneof? && i != j && ours[i].rule == ours[j].rule {
        assert Arrives(theirs, slots, k, ours[i], cur[i]);
        if Came(theirs, k, ours[i].tag) {
          var n :| 0 <= n < k && theirs[n].tag == ours[i].tag;
          assert theirs[n] == ours[i] && SlotOk(theirs[n], slots[n]) && !slots[n].has;
        }
      }
    }
  }

  /** The field at `k` of the encoder's message, when it is one of ours. */
  lemma CommonField(theirs: seq<Field>, slots: seq<Slot>, k: nat, ours: seq<Field>, cur: seq<Slot>, j: nat, rest: Bytes,
          seen: set<nat>)
    requires MessageOk(theirs, slots) && DescriptorOk(theirs) && DescriptorOk(ours) && Compatible(theirs, ours)
    requires k < |theirs| && j < |ours| && theirs[k].tag == ours[j].tag && SlotOk(theirs[k], slots[k])
    requires Arrived(theirs, slots, k, ours, cur) && SeenCame(theirs, k, ours, seen)
    requires EncodeField(theirs[k], slots[k]).Some? && |EncodeField(theirs[k], slots[k]).value| < TWO32
    ensures var next := cur[j := NormalSlot(theirs[k], slots[k])];
            && Arrived(theirs, slots, k + 1, ours, next) && SeenCame(theirs, k + 1, ours, Seen(ours, j, seen))
            && DecodeFields(ours, EncodeField(theirs[k], slots[k]).value + rest, cur, seen) ==
               if FieldFits(theirs[k], slots[k]) then DecodeFields(ours, rest, next, Seen(ours, j, seen)) else None
  {
    var f, slot := theirs[k], slots[k];
    assert theirs[k] == ours[j];
    NotYet(theirs, slots, k, ours, cur, j);
    if slot.One? && Present(f, slot) {
      OthersAbsent(theirs, slots, k, ours, cur, j);
    }
    SeenStepCame(theirs, k, ours, j, seen);
    assert !(slot.One? && Present(f, slot)) ==> Seen(ours, j, seen) == seen;
    FieldRead(ours, j, slot, cur, rest, seen);
    var next := cur[j := NormalSlot(f, slot)];
    assert forall i :: 0 <= i < |ours| && i != j ==> ours[i].tag != f.tag;
    hide DecodeFields, EncodeField, FieldFits, NormalSlot, InitialSlot, Present, ClearOthers, SlotOk, Seen, MessageOk,
      DescriptorOk;
    ArrivedStep(theirs, slots, k, ours, cur, next);
  }

  lemma NotYet(theirs: seq<Field>, slots: seq<Slot>, k: nat, ours: seq<Field>, cur: seq<Slot>, j: nat)
    requires MessageOk(theirs, slots) && DescriptorOk(theirs) && k < |theirs| && j < |ours|
    requires theirs[k].tag == ours[j].tag && Arrived(theirs, slots, k, ours, cur)
    ensures cur[j] == InitialSlot(ours[j])
  {
    assert Arrives(theirs, slots, k, ours[j], cur[j]);
    hide NormalSlot, InitialSlot, SlotOk;
  }

  lemma {:induction false} TheirFieldsRead(theirs: seq<Field>, slots: seq<Slot>, k: nat, ours: seq<Field>,
          cur: seq<Slot>,
          seen: set<nat>)
    requires MessageOk(theirs, slots) && DescriptorOk(theirs) && DescriptorOk(ours) && Compatible(theirs, ours)
    requires k <= |theirs| && Arrived(theirs, slots, k, ours, cur) && SeenCame(theirs, k, ours, seen)
    requires EncodeFields(theirs, slots, k).Some? && |EncodeFields(theirs, slots, k).value| < TWO32
    ensures var r := DecodeFields(ours, EncodeFields(theirs, slots, k).value, cur, seen);
            && (r.Some? <==> CommonFit(theirs, slots, k, ours))
            && (r.Some? ==>
              Arrived(theirs, slots, |theirs|, ours, r.value.0) && SeenCame(theirs, |theirs|, ours, r.value.1))
    decreases |theirs| - k
  {
    if k < |theirs| {
      var f, more := theirs[k], EncodeFields(theirs, slots, k + 1).value;
      assert SlotOk(f, slots[k]) && 0 < f.tag < 0x2000_0000;
      FitStep(theirs, slots, k, ours);
      if Known(ours, f.tag) {
        var j := KnownIs(ours, f.tag);
        CommonField(theirs, slots, k, ours, cur, j, more, seen);
        hide DecodeFields, EncodeField, FieldFits, NormalSlot, Arrived, SeenCame, CommonFit, Known, Compatible, SlotOk,
          Seen;
        if FieldFits(f, slots[k]) {
          TheirFieldsRead(theirs, slots, k + 1, ours, cur[j := NormalSlot(f, slots[k])], Seen(ours, j, seen));
        }
      } else {
        assert forall j :: 0 <= j < |ours| ==> ours[j].tag != f.tag;
        hide DecodeFields, EncodeField, FieldFits, NormalSlot, CommonFit, Compatible, SlotOk;
        FieldSkipped(ours, f, slots[k], more, cur, seen);
        ArrivedStep(theirs, slots, k, ours, cur, cur);
        SeenStepOther(theirs, k, ours, seen);
        TheirFieldsRead(theirs, slots, k + 1, ours, cur, seen);
      }
    }
  }

  lemma FitStep(theirs: seq<Field>, slots: seq<Slot>, k: nat, ours: seq<Field>)
    requires MessageOk(theirs, slots) && k < |theirs| && SlotOk(theirs[k], slots[k])
    ensures CommonFit(theirs, slots, k, ours) <==>
            (Known(ours, theirs[k].tag) ==> FieldFits(theirs[k], slots[k])) && CommonFit(theirs, slots, k + 1, ours)
  {
    hide Known, FieldFits, SlotOk, MessageOk;
  }

  lemma NothingArrived(theirs: seq<Field>, slots: seq<Slot>, ours: seq<Field>)
    requires MessageOk(theirs, slots)
    ensures Arrived(theirs, slots, 0, ours, Defaults(ours, 0)) && SeenCame(theirs, 0, ours, {})
  {
    hide InitialSlot;
  }

  /** A message written with one descriptor and read with another that means the same by the tags they share:
      reading succeeds if and only if the strings of shared fields have room for their zeros and no required
      field (of the first 64) is missing from the writer's descriptor.  Then shared fields have the values
      written, and the others are at their defaults. */
  lemma OtherDescriptor(theirs: seq<Field>, slots: seq<Slot>, ours: seq<Field>)
    requires DescriptorOk(theirs) && MessageOk(theirs, slots) && DescriptorOk(ours) && Compatible(theirs, ours)
    requires EncodeFields(theirs, slots, 0).Some? && |EncodeFields(theirs, slots, 0).value| < TWO32
    ensures var r := DecodeMessage(ours, EncodeFields(theirs, slots, 0).value, Defaults(ours, 0));
            && (r.Some? <==> CommonFit(theirs, slots, 0, ours) && RequiredCome(theirs, ours))
            && (r.Some? ==>
                  && |r.value| == |ours|
                  && forall j :: 0 <= j < |ours| ==> Arrives(theirs, slots, |theirs|, ours[j], r.value[j]))
  {
    NothingArrived(theirs, slots, ours);
    TheirFieldsRead(theirs, slots, 0, ours, Defaults(ours, 0), {});
    hide CommonFit, RequiredCome, SeenCame, DecodeFields, EncodeFields, Defaults, Arrives, AllSeen, DescriptorOk,
      MessageOk;
    var r := DecodeFields(ours, EncodeFields(theirs, slots, 0).value, Defaults(ours, 0), {});
    if r.Some? {
      AllSeenIff(theirs, ours, r.value.1);
    }
  }

  // ---------------------------------------------------------------------------------------------
  // Values given more than once
  // ---------------------------------------------------------------------------------------------

  /** A value that is no message replaces what was there, and unsets the other members of its oneof. */
  lemma ValueReplaces(fields: seq<Field>, k: nat, v: Value, rest: Bytes, cur: seq<Slot>, seen: set<nat>)
    requires DescriptorOk(fields) && k < |fields| == |cur| && !fields[k].rule.Repeated? && !fields[k].t.TMessage?
    requires ValueOk(fields[k].t, v) && EncodeValue(fields[k].t, v).Some? && |EncodeValue(fields[k].t, v).value| < TWO32
    requires ValueFits(fields[k].t, v)
    ensures var f, next := fields[k], ClearOthers(fields, cur, k)[k := One(true, v)];
            && DecodeFields(fields, Tag(WireOf(f.t), f.tag) + EncodeValue(f.t, v).value + rest, cur, seen) ==
               DecodeFields(fields, rest, next, Seen(fields, k, seen))
            && next[k] == One(true, v)
            && forall i :: 0 <= i < |fields| && i != k ==>
                 next[i] == if f.rule.Oneof? && fields[i].rule == f.rule then InitialSlot(fields[i]) else cur[i]
  {
    var f := fields[k];
    var b := EncodeValue(f.t, v).value;
    assert Tag(WireOf(f.t), f.tag) + b + rest == Tag(WireOf(f.t), f.tag) + (b + rest);
    OneTag(fields, k, WireOf(f.t), b + rest, cur, seen);
    var was := if f.rule.Oneof? then if cur[k].One? && cur[k].has then cur[k].v else Initial(f.t, f.init)
      else if cur[k].One? then cur[k].v else f.init;
    LeafRoundTrip(f.t, v, rest, was);
    hide DecodeFields, Tag, EncodeValue, DecodeValue, ValueFits, Seen, DescriptorOk, ValueOk;
  }

  /** A message that is given again is read into what is there already; a member of a oneof that is not the
      one set starts from its defaults. */
  lemma MessageMerges(fields: seq<Field>, k: nat, body: Bytes, rest: Bytes, cur: seq<Slot>, seen: set<nat>)
    requires DescriptorOk(fields) && k < |fields| == |cur| && !fields[k].rule.Repeated? && fields[k].t.TMessage?
    requires |body| < TWO32 && cur[k].One? && cur[k].v.Message?
    ensures var f := fields[k];
            var from := if f.rule.Oneof? && !cur[k].has then Defaults(f.t.fields, 0) else cur[k].v.slots;
            DecodeFields(fields, Tag(WT_STRING, f.tag) + Prefixed(body) + rest, cur, seen) ==
            match DecodeMessage(f.t.fields, body, from)
            case None => None
            case Some(slots) =>
              DecodeFields(fields, rest, ClearOthers(fields, cur, k)[k := One(true, Message(slots))],
                Seen(fields, k, seen))
  {
    var f := fields[k];
    assert Tag(WT_STRING, f.tag) + Prefixed(body) + rest == Tag(WT_STRING, f.tag) + (Prefixed(body) + rest);
    OneTag(fields, k, WT_STRING, Prefixed(body) + rest, cur, seen);
    PrefixedRead(body, rest);
    hide DecodeFields, Tag, Prefixed, TakePrefixed, DecodeMessage, Seen, ClearOthers, DescriptorOk, Defaults;
  }

  /** A scalar array that is not packed is read as well, item by item, until it is full. */
  lemma UnpackedItem(fields: seq<Field>, k: nat, n: int, rest: Bytes, cur: seq<Slot>, seen: set<nat>)
    requires DescriptorOk(fields) && k < |fields| == |cur| && fields[k].rule.Repeated? && fields[k].t.TScalar?
    requires Holds(fields[k].t.t, n) && cur[k].Many?
    ensures var f := fields[k];
            DecodeFields(fields, Tag(WireOf(f.t), f.tag) + EncodeScalar(f.t.t, n) + rest, cur, seen) ==
            if |cur[k].items| < f.rule.max
            then DecodeFields(fields, rest, cur[k := Many(cur[k].items + [Number(n)])], seen) else None
  {
    var f := fields[k];
    var b := EncodeScalar(f.t.t, n);
    assert Tag(WireOf(f.t), f.tag) + b + rest == Tag(WireOf(f.t), f.tag) + (b + rest);
    OneTag(fields, k, WireOf(f.t), b + rest, cur, seen);
    ScalarRoundTrip(f.t.t, n, rest);
    assert WireOf(f.t) != WT_STRING;
    assert ClearOthers(fields, cur, k) == cur && Seen(fields, k, seen) == seen;
    hide DecodeFields, Tag, EncodeScalar, DecodeScalar, Seen, ClearOthers, DescriptorOk;
  }

  lemma {:induction false} PackedAppends(t: Scalar, items: seq<Value>, k: nat, was: seq<Value>, max: nat)
    requires k <= |items| && |was| <= max && forall i :: 0 <= i < |items| ==> ValueOk(TScalar(t), items[i])
    ensures DecodePacked(t, EncodeScalars(t, items, k), was, max) ==
            if |was| + |items| - k <= max then Some(was + items[k..]) else None
    decreases |items| - k
  {
    if k < |items| {
      assert ValueOk(TScalar(t), items[k]);
      hide DecodeScalar, EncodeScalar;
      ScalarRoundTrip(t, items[k].n, EncodeScalars(t, items, k + 1));
      if |was| < max {
        PackedAppends(t, items, k + 1, was + [items[k]], max);
        assert was + [items[k]] + items[k + 1..] == was + items[k..];
      }
    } else {
      assert was + items[k..] == was;
    }
  }

  /** A packed array is appended to what is there; it is an error if that is more than the variable holds. */
  lemma PackedMore(fields: seq<Field>, k: nat, items: seq<Value>, rest: Bytes, cur: seq<Slot>, seen: set<nat>)
    requires DescriptorOk(fields) && k < |fields| == |cur| && fields[k].rule.Repeated? && fields[k].t.TScalar?
    requires cur[k].Many? && |cur[k].items| <= fields[k].rule.max
    requires forall i :: 0 <= i < |items| ==> ValueOk(fields[k].t, items[i])
    requires fields[k].t == TScalar(fields[k].t.t) && |EncodeScalars(fields[k].t.t, items, 0)| < TWO32
    ensures var f := fields[k];
            DecodeFields(fields, Tag(WT_STRING, f.tag) + Prefixed(EncodeScalars(f.t.t, items, 0)) + rest, cur, seen) ==
            if |cur[k].items| + |items| <= f.rule.max
            then DecodeFields(fields, rest, cur[k := Many(cur[k].items + items)], seen) else None
  {
    var f := fields[k];
    var body := EncodeScalars(f.t.t, items, 0);
    assert Tag(WT_STRING, f.tag) + Prefixed(body) + rest == Tag(WT_STRING, f.tag) + (Prefixed(body) + rest);
    OneTag(fields, k, WT_STRING, Prefixed(body) + rest, cur, seen);
    PrefixedRead(body, rest);
    PackedAppends(f.t.t, items, 0, cur[k].items, f.rule.max);
    assert items[0..] == items;
    assert ClearOthers(fields, cur, k) == cur && Seen(fields, k, seen) == seen;
    hide DecodeFields, Tag, Prefixed, TakePrefixed, DecodePacked, EncodeScalars, Seen, ClearOthers, DescriptorOk;
  }
}
