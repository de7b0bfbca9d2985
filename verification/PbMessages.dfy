/** Message descriptors and messages, and what nanopb's encoder writes for them. */
module PbMessages {
  import opened Coding
  import opened PbScalars

  /** The data type of a field; sizes are those of the C variables. */
  datatype FieldType =
    | TScalar(t: Scalar)
    | TBytes(max: nat)
    | TString(size: nat)
    | TFixedBytes(length: nat)
    | TMessage(fields: seq<Field>)

  /** Repetition rule: an optional field may have a has_ variable, the members of a oneof share a
      which_ variable. */
  datatype Rule = Required | Optional(explicit: bool) | Repeated(max: nat) | Oneof(group: nat)

  datatype Field = Field(tag: nat, rule: Rule, t: FieldType, init: Value)

  /** A string is its text, up to the first zero byte or the end of its variable. */
  datatype Value = Number(n: int) | Raw(bytes: Bytes) | Message(slots: seq<Slot>)

  /** A field's variables: for a oneof member, `has` says that which_ names it. */
  datatype Slot = One(has: bool, v: Value) | Many(items: seq<Value>)

  // ---------------------------------------------------------------------------------------------
  // Well-formedness
  // ---------------------------------------------------------------------------------------------

  ghost predicate ValueOk(t: FieldType, v: Value)
    decreases t, 1, 0
  {
    match t
    case TScalar(s) => v.Number? && Holds(s, v.n)
    case TBytes(_) => v.Raw?
    case TString(size) => v.Raw? && |v.bytes| <= size && 0 !in v.bytes
    case TFixedBytes(length) => v.Raw? && |v.bytes| == length
    case TMessage(fields) => v.Message? && MessageOk(fields, v.slots)
  }

  ghost predicate SlotOk(f: Field, slot: Slot)
    decreases f.t, 2, 0
  {
    if f.rule.Repeated? then slot.Many? && forall k :: 0 <= k < |slot.items| ==> ValueOk(f.t, slot.items[k])
    else slot.One? && ValueOk(f.t, slot.v) && (f.rule == Required || f.rule == Optional(false) ==> slot.has)
  }

  /** The variables of a message hold values of their types, and no oneof has two members. */
  ghost predicate MessageOk(fields: seq<Field>, slots: seq<Slot>)
    decreases TMessage(fields), 0, 0
  {
    && |slots| == |fields|
    && (forall k :: 0 <= k < |fields| ==> SlotOk(fields[k], slots[k]))
    && (forall j, k :: 0 <= j < k < |fields| && fields[j].rule.Oneof? && fields[j].rule == fields[k].rule ==>
      !(slots[j].has && slots[k].has))
  }

  ghost predicate TypeOk(t: FieldType)
    decreases t, 1
  {
    t.TMessage? ==> DescriptorOk(t.fields)
  }

  ghost predicate DescriptorOk(fields: seq<Field>)
    decreases TMessage(fields), 0
  {
    && (forall k :: 0 <= k < |fields| ==> 0 < fields[k].tag < 0x2000_0000 && TypeOk(fields[k].t) && InitOk(fields[k]))
    && (forall j, k :: 0 <= j < k < |fields| ==> fields[j].tag != fields[k].tag)
  }

  /** The default is a value of the type; where presence is judged by the value, it is zero. */
  ghost predicate InitOk(f: Field) {
    f.t.TMessage? || (ValueOk(f.t, f.init) && (f.rule == Optional(false) ==> IsZero(f.t, f.init)))
  }

  // ---------------------------------------------------------------------------------------------
  // pb_check_proto3_default_value
  // ---------------------------------------------------------------------------------------------

  predicate IsZero(t: FieldType, v: Value)
    decreases t, 1, 0
  {
    match t
    case TScalar(_) => v == Number(0)
    case TBytes(_) => v == Raw([])
    case TString(_) => v == Raw([])
    case TFixedBytes(length) => length == 0
    case TMessage(fields) => v.Message? && AllZero(fields, v.slots, 0)
  }

  /** A field that would not be written: for a oneof member, the whole loop has the same meaning as
      with the test of which_ itself. */
  predicate FieldIsZero(f: Field, slot: Slot)
    decreases f.t, 2, 0
  {
    match f.rule
    case Required => false
    case Repeated(_) => slot.Many? && slot.items == []
    case Oneof(_) => slot.One? && !slot.has
    case Optional(explicit) => slot.One? && if explicit then !slot.has else IsZero(f.t, slot.v)
  }

  predicate AllZero(fields: seq<Field>, slots: seq<Slot>, k: nat)
    decreases TMessage(fields), 0, |fields| - k
  {
    k >= |fields| || k >= |slots| || (FieldIsZero(fields[k], slots[k]) && AllZero(fields, slots, k + 1))
  }
}
