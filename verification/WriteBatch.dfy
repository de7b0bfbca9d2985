/** Write batches: a header with sequence number and count, and the operations one after the other. */
module WriteBatches {
  import opened Options
  import opened Coding

  const HEADER := 12
  const TYPE_DELETION: byte := 0
  const TYPE_VALUE: byte := 1

  datatype Op = Put(key: Bytes, value: Bytes) | Delete(key: Bytes)

  datatype Status = Ok | Corruption(message: string)

  function EncodeOp(op: Op): (s: Bytes)
    ensures s != []
  {
    match op
    case Put(key, value) => [TYPE_VALUE] + LengthPrefixed(key) + LengthPrefixed(value)
    case Delete(key) => [TYPE_DELETION] + LengthPrefixed(key)
  }

  function EncodeOps(ops: seq<Op>): Bytes {
    if ops == [] then [] else EncodeOps(ops[..|ops| - 1]) + EncodeOp(ops[|ops| - 1])
  }

  /** A batch's bytes. */
  function Rep(sequence: uint64, ops: seq<Op>): (s: Bytes)
    requires |ops| < TWO32
    ensures |s| >= HEADER
  {
    EncodeFixed64(sequence) + EncodeFixed32(|ops|) + EncodeOps(ops)
  }

  predicate OpOk(op: Op) {
    |op.key| < TWO32 && (op.Put? ==> |op.value| < TWO32)
  }

  ghost predicate OpsOk(ops: seq<Op>) {
    |ops| < TWO32 && forall op :: op in ops ==> OpOk(op)
  }

  lemma {:induction false} OpsConcat(a: seq<Op>, b: seq<Op>)
    ensures EncodeOps(a + b) == EncodeOps(a) + EncodeOps(b)
  {
    hide EncodeOp;
    if b == [] {
      assert a + b == a;
    } else {
      OpsConcat(a, b[..|b| - 1]);
      assert (a + b)[..|a + b| - 1] == a + b[..|b| - 1];
    }
  }

  /** One operation at the front of the input. */
  function TakeOp(s: Bytes): (r: Option<(Op, Bytes)>)
    requires s != []
    ensures r.Some? ==> |r.value.1| < |s|
  {
    if s[0] == TYPE_VALUE then
      match GetLengthPrefixed(s[1..])
      case None => None
      case Some((key, rest)) =>
        (match GetLengthPrefixed(rest)
         case None => None
         case Some((value, rest2)) => Some((Put(key, value), rest2)))
    else if s[0] == TYPE_DELETION then
      match GetLengthPrefixed(s[1..])
      case None => None
      case Some((key, rest)) => Some((Delete(key), rest))
    else None
  }

  function TakeMessage(s: Bytes): string
    requires s != []
  {
    if s[0] == TYPE_VALUE then "bad WriteBatch Put" else if s[0] == TYPE_DELETION then "bad WriteBatch Delete"
      else "unknown WriteBatch tag"
  }

  /** The operations handed over before the input ends or goes wrong. */
  function TakeOps(s: Bytes): (r: (seq<Op>, Option<string>))
    decreases |s|
  {
    if s == [] then ([], None)
    else
      match TakeOp(s)
      case None => ([], Some(TakeMessage(s)))
      case Some((op, rest)) => var (ops, e) := TakeOps(rest); ([op] + ops, e)
  }

  lemma TakeEncoded(op: Op, rest: Bytes)
    requires OpOk(op)
    ensures TakeOp(EncodeOp(op) + rest) == Some((op, rest))
  {
    hide LengthPrefixed, GetLengthPrefixed;
    match op {
      case Put(key, value) =>
        assert (EncodeOp(op) + rest)[1..] == LengthPrefixed(key) + (LengthPrefixed(value) + rest);
        LengthPrefixedRoundTrip(key, LengthPrefixed(value) + rest);
        LengthPrefixedRoundTrip(value, rest);
      case Delete(key) =>
        assert (EncodeOp(op) + rest)[1..] == LengthPrefixed(key) + rest;
        LengthPrefixedRoundTrip(key, rest);
    }
  }

  lemma {:induction false} TakeAllEncoded(ops: seq<Op>)
    requires forall op :: op in ops ==> OpOk(op)
    ensures TakeOps(EncodeOps(ops)) == (ops, None)
    decreases ops
  {
    hide EncodeOp, TakeOp, OpOk;
    if ops != [] {
      OpsConcat([ops[0]], ops[1..]);
      assert [ops[0]] + ops[1..] == ops;
      assert [ops[0]][..0] == [];
      assert EncodeOps([ops[0]]) == EncodeOp(ops[0]);
      TakeEncoded(ops[0], EncodeOps(ops[1..]));
      TakeAllEncoded(ops[1..]);
    }
  }

  /** Operations up to input that is no operation. */
  lemma {:induction false} TakeUpTo(ops: seq<Op>, bad: Bytes)
    requires (forall op :: op in ops ==> OpOk(op)) && bad != [] && TakeOp(bad) == None
    ensures TakeOps(EncodeOps(ops) + bad) == (ops, Some(TakeMessage(bad)))
    decreases ops
  {
    hide EncodeOp, TakeOp, OpOk, TakeMessage;
    if ops == [] {
      assert EncodeOps(ops) + bad == bad;
    } else {
      OpsConcat([ops[0]], ops[1..]);
      assert [ops[0]] + ops[1..] == ops;
      assert [ops[0]][..0] == [];
      assert EncodeOps([ops[0]]) == EncodeOp(ops[0]);
      assert EncodeOps(ops) + bad == EncodeOp(ops[0]) + (EncodeOps(ops[1..]) + bad);
      TakeEncoded(ops[0], EncodeOps(ops[1..]) + bad);
      TakeUpTo(ops[1..], bad);
    }
  }

  lemma PutCut(key: Bytes, value: Bytes, n: nat)
    requires |key| < TWO32 && |value| < TWO32 && n < |LengthPrefixed(key) + LengthPrefixed(value)|
    ensures TakeOp([TYPE_VALUE] + (LengthPrefixed(key) + LengthPrefixed(value))[..n]) == None
  {
    hide LengthPrefixed, GetLengthPrefixed;
    var k, v := LengthPrefixed(key), LengthPrefixed(value);
    var s := [TYPE_VALUE] + (k + v)[..n];
    assert s[1..] == (k + v)[..n];
    CutOf(k, v, n);
    if n < |k| {
      LengthPrefixedCut(key, n);
    } else {
      LengthPrefixedRoundTrip(key, v[..n - |k|]);
      LengthPrefixedCut(value, n - |k|);
    }
  }

  lemma OpCut(op: Op, n: nat)
    requires OpOk(op) && 0 < n < |EncodeOp(op)|
    ensures TakeOp(EncodeOp(op)[..n]) == None
  {
    hide LengthPrefixed, GetLengthPrefixed;
    match op {
      case Put(key, value) =>
        PutCut(key, value, n - 1);
        hide TakeOp;
        assert EncodeOp(op)[..n] == [TYPE_VALUE] + (LengthPrefixed(key) + LengthPrefixed(value))[..n - 1];
      case Delete(key) =>
        LengthPrefixedCut(key, n - 1);
        assert EncodeOp(op)[..n][1..] == LengthPrefixed(key)[..n - 1];
    }
  }

  /** A batch that ends inside an operation hands over the operations before it, and is an error. */
  lemma OpsCut(ops: seq<Op>, op: Op, n: nat)
    requires (forall op :: op in ops ==> OpOk(op)) && OpOk(op) && 0 < n < |EncodeOp(op)|
    ensures TakeOps(EncodeOps(ops) + EncodeOp(op)[..n]) ==
            (ops, Some(if op.Put? then "bad WriteBatch Put" else "bad WriteBatch Delete"))
  {
    OpCut(op, n);
    TakeUpTo(ops, EncodeOp(op)[..n]);
    hide TakeOps, TakeOp, LengthPrefixed;
    assert EncodeOp(op)[..n][0] == EncodeOp(op)[0];
  }

  /** So is one with a tag that is neither. */
  lemma UnknownTag(ops: seq<Op>, tag: byte, rest: Bytes)
    requires (forall op :: op in ops ==> OpOk(op)) && tag > 1
    ensures TakeOps(EncodeOps(ops) + ([tag] + rest)) == (ops, Some("unknown WriteBatch tag"))
  {
    TakeUpTo(ops, [tag] + rest);
    hide TakeOps;
  }

  /** What a handler is given: an operation with its sequence number. */
  datatype Insertion = Insertion(sequence: nat, op: Op)

  function Numbered(sequence: nat, ops: seq<Op>): (r: seq<Insertion>)
    ensures |r| == |ops|
    ensures forall i :: 0 <= i < |ops| ==> r[i] == Insertion(sequence + i, ops[i])
  {
    seq(|ops|, i requires 0 <= i < |ops| => Insertion(sequence + i, ops[i]))
  }

  lemma OpsSnoc(ops: seq<Op>, op: Op)
    ensures EncodeOps(ops + [op]) == EncodeOps(ops) + EncodeOp(op)
  {
    assert (ops + [op])[..|ops|] == ops;
  }

  lemma Regroup(a: Bytes, b: Bytes, c: Bytes, d: Bytes)
    ensures a + b + c + d == a + b + (c + d)
  {
  }

  /** The loop that hands each operation to the inserter. */
  method Iterate(s: Bytes, start: nat) returns (out: seq<Insertion>, found: nat, e: Option<string>)
    ensures out == Numbered(start, TakeOps(s).0) && found == |TakeOps(s).0| && e == TakeOps(s).1
  {
    hide TakeOp, TakeOps;
    var input, sequence := s, start;
    out, found := [], 0;
    ghost var done: seq<Op> := [];
    while input != []
      invariant found == |done| && sequence == start + found && out == Numbered(start, done)
      invariant TakeOps(s).0 == done + TakeOps(input).0 && TakeOps(s).1 == TakeOps(input).1
      decreases |input|
    {
      TakeStep(input);
      var r := TakeOp(input);
      if r.None? {
        return out, found, Some(TakeMessage(input));
      }
      Slide(done, r.value.0, TakeOps(r.value.1).0);
      found := found + 1;
      out := out + [Insertion(sequence, r.value.0)];
      done := done + [r.value.0];
      sequence := sequence + 1;
      input := r.value.1;
    }
    TakeNothing();
    e := None;
  }

  lemma TakeNothing()
    ensures TakeOps([]) == ([], None)
  {
  }

  lemma TakeStep(s: Bytes)
    requires s != []
    ensures TakeOps(s) == match TakeOp(s)
                          case None => ([], Some(TakeMessage(s)))
                          case Some((op, rest)) => ([op] + TakeOps(rest).0, TakeOps(rest).1)
  {
    hide TakeOp;
  }

  lemma Slide(a: seq<Op>, x: Op, b: seq<Op>)
    ensures a + ([x] + b) == a + [x] + b
  {
  }

  class WriteBatch {
    var rep: Bytes

    /** The batch holds the operations, numbered from `sequence`. */
    ghost predicate Holds(sequence: uint64, ops: seq<Op>)
      reads this
    {
      OpsOk(ops) && rep == Rep(sequence, ops)
    }

    constructor ()
      ensures Holds(0, [])
    {
      rep := seq(HEADER, _ => 0);
      new;
      assert rep == Rep(0, []);
    }

    method Clear()
      modifies this
      ensures Holds(0, [])
    {
      rep := seq(HEADER, _ => 0);
      assert rep == Rep(0, []);
    }

    function Count(): uint32
      requires |rep| >= HEADER
      reads this
    {
      DecodeFixed32(rep[8..12])
    }

    function Sequence(): uint64
      requires |rep| >= HEADER
      reads this
    {
      DecodeFixed64(rep[..8])
    }

    lemma HeaderHolds(sequence: uint64, ops: seq<Op>)
      requires Holds(sequence, ops)
      ensures Count() == |ops| && Sequence() == sequence
      ensures rep[..8] == EncodeFixed64(sequence) && rep[HEADER..] == EncodeOps(ops)
    {
      Fixed32RoundTrip(|ops|);
      Fixed64RoundTrip(sequence);
      hide EncodeFixed32, DecodeFixed32, EncodeFixed64, DecodeFixed64;
      assert rep[8..12] == EncodeFixed32(|ops|) && rep[..8] == EncodeFixed64(sequence);
    }

    method SetCount(n: uint32)
      requires |rep| >= HEADER
      modifies this
      ensures rep == old(rep[..8]) + EncodeFixed32(n) + old(rep[HEADER..])
    {
      rep := rep[..8] + EncodeFixed32(n) + rep[HEADER..];
    }

    method SetSequence(n: uint64, ghost s: uint64, ghost ops: seq<Op>)
      requires Holds(s, ops)
      modifies this
      ensures Holds(n, ops)
    {
      rep := EncodeFixed64(n) + rep[8..];
    }

    lemma RepIs(s: uint64, ops: seq<Op>, bytes: Bytes)
      requires OpsOk(ops) && bytes == EncodeFixed64(s) + EncodeFixed32(|ops|) + EncodeOps(ops) && rep == bytes
      ensures Holds(s, ops)
    {
    }

    method Add(op: Op, ghost s: uint64, ghost ops: seq<Op>)
      requires Holds(s, ops) && OpsOk(ops + [op])
      modifies this
      ensures Holds(s, ops + [op])
    {
      HeaderHolds(s, ops);
      OpsSnoc(ops, op);
      var n := Count() + 1;
      assert n == |ops + [op]| < TWO32;
      hide *;
      SetCount(n);
      Regroup(EncodeFixed64(s), EncodeFixed32(|ops + [op]|), EncodeOps(ops), EncodeOp(op));
      rep := rep + EncodeOp(op);
      RepIs(s, ops + [op], rep);
    }

    /** WriteBatchInternal::Append. */
    method Append(src: WriteBatch, ghost s: uint64, ghost ops: seq<Op>, ghost s2: uint64, ghost more: seq<Op>)
      requires src != this && Holds(s, ops) && src.Holds(s2, more) && OpsOk(ops + more)
      modifies this
      ensures Holds(s, ops + more)
    {
      HeaderHolds(s, ops);
      src.HeaderHolds(s2, more);
      OpsConcat(ops, more);
      var n, tail := Count() + src.Count(), src.rep[HEADER..];
      assert n == |ops + more| < TWO32;
      hide *;
      SetCount(n);
      Regroup(EncodeFixed64(s), EncodeFixed32(|ops + more|), EncodeOps(ops), EncodeOps(more));
      rep := rep + tail;
      RepIs(s, ops + more, rep);
    }

    /** Iterate with MemTableInserter: the insertions made and the status, for any bytes. */
    method InsertInto() returns (out: seq<Insertion>, status: Status)
      ensures |rep| < HEADER ==> out == [] && status.Corruption?
      ensures |rep| >= HEADER ==>
                var (ops, e) := TakeOps(rep[HEADER..]);
                && out == Numbered(Sequence(), ops)
                && status == (if e.Some? then Corruption(e.value)
                  else if |ops| != Count() then Corruption("WriteBatch has wrong count") else Ok)
    {
      hide DecodeFixed64, DecodeFixed32, TakeOps;
      if |rep| < HEADER {
        return [], Corruption("malformed WriteBatch (too small)");
      }
      var found, e;
      out, found, e := Iterate(rep[HEADER..], Sequence());
      if e.Some? {
        return out, Corruption(e.value);
      }
      if found != Count() {
        return out, Corruption("WriteBatch has wrong count");
      }
      status := Ok;
    }

    /** Applying a well-formed batch inserts its operations, numbered from its sequence number. */
    lemma InsertsAll(s: uint64, ops: seq<Op>)
      requires Holds(s, ops)
      ensures TakeOps(rep[HEADER..]) == (ops, None) && Count() == |ops| && Sequence() == s
    {
      HeaderHolds(s, ops);
      TakeAllEncoded(ops);
    }
  }
}
