/** nanopb's decoder: messages from bytes, and the streams it reads from. */
module PbDecode {
  import opened Options
  import opened Coding
  import opened PbScalars
  import opened PbMessages
  import opened PbEncode

  const MAX_REQUIRED: nat := 64

  // ---------------------------------------------------------------------------------------------
  // Defaults
  // ---------------------------------------------------------------------------------------------

  function Initial(t: FieldType, init: Value): Value
    decreases t, 1, 0
  {
    match t
    case TMessage(fields) => Message(Defaults(fields, 0))
    case _ => init
  }

  /** Required fields, and optional ones without a has_ variable, always count as there. */
  function InitialSlot(f: Field): Slot
    decreases f.t, 2, 0
  {
    match f.rule
    case Required => One(true, Initial(f.t, f.init))
    case Optional(explicit) => One(!explicit, Initial(f.t, f.init))
    case Repeated(_) => Many([])
    case Oneof(_) => One(false, Initial(f.t, f.init))
  }

  /** pb_message_set_to_defaults, from field `k` on. */
  function Defaults(fields: seq<Field>, k: nat): (slots: seq<Slot>)
    requires k <= |fields|
    ensures |slots| == |fields| - k
    ensures forall i :: 0 <= i < |slots| ==> slots[i] == InitialSlot(fields[k + i])
    decreases TMessage(fields), 0, |fields| - k
  {
    if k == |fields| then [] else [InitialSlot(fields[k])] + Defaults(fields, k + 1)
  }

  // ---------------------------------------------------------------------------------------------
  // Fields
  // ---------------------------------------------------------------------------------------------

  function Take(s: Bytes, n: nat): (r: Option<(Bytes, Bytes)>)
    ensures r.Some? ==> s == r.value.0 + r.value.1 && |r.value.0| == n
  {
    if |s| < n then None else Some((s[..n], s[n..]))
  }

  /** A length and that many bytes. */
  function TakePrefixed(s: Bytes): (r: Option<(Bytes, Bytes)>)
    ensures r.Some? ==> |r.value.0| + |r.value.1| < |s|
  {
    match TakeVarint32(s)
    case None => None
    case Some((size, rest)) => Take(rest, size)
  }

  /** What is left of a string once its bytes are in a C variable. */
  function Text(s: Bytes): (r: Bytes)
    ensures r <= s && 0 !in r
  {
    if s == [] || s[0] == 0 then [] else [s[0]] + Text(s[1..])
  }

  /** Item after item until the payload or the array ends. */
  function DecodePacked(t: Scalar, s: Bytes, items: seq<Value>, max: nat): Option<seq<Value>>
    decreases |s|
  {
    if s == [] then Some(items)
    else if |items| >= max then None
    else
      match DecodeScalar(t, s)
      case None => None
      case Some((n, rest)) => DecodePacked(t, rest, items + [Number(n)], max)
  }

  /** The slots of a message under way, when the value is one. */
  function SlotsOf(v: Value): seq<Slot> {
    if v.Message? then v.slots else []
  }

  function DecodeValue(t: FieldType, s: Bytes, was: Value): (r: Option<(Value, Bytes)>)
    ensures r.Some? ==> |r.value.1| < |s|
    decreases |s|, 0
  {
    match t
    case TScalar(c) => (
      match DecodeScalar(c, s)
      case None => None
      case Some((n, rest)) => Some((Number(n), rest)))
    case TBytes(max) => (
      match TakeVarint32(s)
      case None => None
      case Some((size, rest)) =>
        if size > max || size > |rest| then None else Some((Raw(rest[..size]), rest[size..])))
    case TString(length) => (
      match TakeVarint32(s)
      case None => None
      case Some((size, rest)) =>
        if size + 1 > length || size > |rest| then None else Some((Raw(Text(rest[..size])), rest[size..])))
    case TFixedBytes(length) => (
      match TakeVarint32(s)
      case None => None
      case Some((size, rest)) =>
        if size == 0 then Some((Raw(seq(length, _ => 0)), rest))
        else if size != length || size > |rest| then None
        else Some((Raw(rest[..size]), rest[size..])))
    case TMessage(fields) => (
      match TakePrefixed(s)
      case None => None
      case Some((body, rest)) =>
        match DecodeMessage(fields, body, SlotsOf(was))
        case None => None
        case Some(slots) => Some((Message(slots), rest)))
  }

  /** The first field with the tag, which pb_field_iter_find reaches from wherever it stands. */
  function Find(fields: seq<Field>, tag: nat, k: nat): (r: Option<nat>)
    requires k <= |fields|
    ensures r.Some? ==> k <= r.value < |fields| && fields[r.value].tag == tag
    ensures r.None? ==> forall i :: k <= i < |fields| ==> fields[i].tag != tag
    decreases |fields| - k
  {
    if k == |fields| then None else if fields[k].tag == tag then Some(k) else Find(fields, tag, k + 1)
  }

  lemma {:induction false} FindOwn(fields: seq<Field>, k: nat, from: nat)
    requires from <= k < |fields| && forall i, j :: 0 <= i < j < |fields| ==> fields[i].tag != fields[j].tag
    ensures Find(fields, fields[k].tag, from) == Some(k)
    decreases k - from
  {
    if from < k {
      FindOwn(fields, k, from + 1);
    }
  }

  /** Setting a member of a oneof unsets the others. */
  function ClearOthers(fields: seq<Field>, slots: seq<Slot>, k: nat): (r: seq<Slot>)
    requires k < |fields| == |slots|
    ensures |r| == |slots|
    ensures forall i :: 0 <= i < |r| ==>
              r[i] == if fields[k].rule.Oneof? && i != k && fields[i].rule == fields[k].rule then InitialSlot(fields[i])
                else slots[i]
  {
    seq(|slots|, i requires 0 <= i < |slots| =>
      if fields[k].rule.Oneof? && i != k && fields[i].rule == fields[k].rule then InitialSlot(fields[i]) else slots[i])
  }

  /** decode_static_field: the field's new variables and what follows in the stream. */
  function DecodeField(f: Field, wire: nat, s: Bytes, was: Slot): (r: Option<(Slot, Bytes)>)
    ensures r.Some? ==> |r.value.1| < |s|
    decreases |s|, 1
  {
    match f.rule
    case Repeated(max) =>
      var items := if was.Many? then was.items else [];
      if wire == WT_STRING && f.t.TScalar? then
        match TakePrefixed(s)
        case None => None
        case Some((body, rest)) =>
          match DecodePacked(f.t.t, body, items, max)
          case None => None
          case Some(more) => Some((Many(more), rest))
      else if |items| >= max then None
      else (
        match DecodeValue(f.t, s, Initial(f.t, f.init))
        case None => None
        case Some((v, rest)) => Some((Many(items + [v]), rest)))
    case Oneof(_) => (
      var v := if was.One? && was.has then was.v else Initial(f.t, f.init);
      match DecodeValue(f.t, s, v)
      case None => None
      case Some((v', rest)) => Some((One(true, v'), rest)))
    case _ => (
      match DecodeValue(f.t, s, if was.One? then was.v else f.init)
      case None => None
      case Some((v', rest)) => Some((One(true, v'), rest)))
  }

  // ---------------------------------------------------------------------------------------------
  // Messages
  // ---------------------------------------------------------------------------------------------

  function SkipVarint(s: Bytes): (r: Option<Bytes>)
    ensures r.Some? ==> |r.value| < |s|
  {
    if s == [] then None else if s[0] < 128 then Some(s[1..]) else SkipVarint(s[1..])
  }

  /** pb_skip_field. */
  function SkipField(wire: nat, s: Bytes): (r: Option<Bytes>)
    ensures r.Some? ==> |r.value| <= |s|
  {
    if wire == WT_VARINT then SkipVarint(s)
    else if wire == WT_64BIT then if |s| < 8 then None else Some(s[8..])
    else if wire == WT_STRING then
      match TakePrefixed(s)
      case None => None
      case Some((_, rest)) => Some(rest)
    else if wire == WT_32BIT then if |s| < 4 then None else Some(s[4..])
    else None
  }

  /** The number of required fields before field `k`. */
  function RequiredBefore(fields: seq<Field>, k: nat): nat
    requires k <= |fields|
  {
    if k == 0 then 0 else RequiredBefore(fields, k - 1) + if fields[k - 1].rule == Required then 1 else 0
  }

  /** The required fields seen, of which only the first 64 are tracked. */
  function Seen(fields: seq<Field>, k: nat, seen: set<nat>): set<nat>
    requires k < |fields|
  {
    if fields[k].rule == Required && RequiredBefore(fields, k) < MAX_REQUIRED then seen + {RequiredBefore(fields, k)}
      else seen
  }

  /** The loop of pb_decode_noinit: a zero tag ends the message early, unknown fields are skipped. */
  function DecodeFields(fields: seq<Field>, s: Bytes, slots: seq<Slot>, seen: set<nat>): Option<(seq<Slot>, set<nat>)>
    decreases |s|, 2
  {
    if s == [] || |slots| != |fields| then Some((slots, seen))
    else
      match TakeVarint32(s)
      case None => None
      case Some((n, rest)) =>
        if n == 0 then Some((slots, seen))
        else
          match Find(fields, n / 8, 0)
          case None => (
            match SkipField(n % 8, rest)
            case None => None
            case Some(rest') => DecodeFields(fields, rest', slots, seen))
          case Some(k) =>
            match DecodeField(fields[k], n % 8, rest, slots[k])
            case None => None
            case Some((slot, rest')) =>
              DecodeFields(fields, rest', ClearOthers(fields, slots, k)[k := slot], Seen(fields, k, seen))
  }

  /** Every required field that is tracked was there. */
  predicate AllSeen(fields: seq<Field>, seen: set<nat>) {
    forall i :: 0 <= i < RequiredBefore(fields, |fields|) && i < MAX_REQUIRED ==> i in seen
  }

  /** pb_decode_noinit. */
  function DecodeMessage(fields: seq<Field>, s: Bytes, slots: seq<Slot>): Option<seq<Slot>>
    decreases |s|, 3
  {
    match DecodeFields(fields, s, slots, {})
    case None => None
    case Some((slots', seen)) => if AllSeen(fields, seen) then Some(slots') else None
  }
}
