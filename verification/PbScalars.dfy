/** Protocol Buffers on the wire, as nanopb reads and writes it: varints, zigzag, and the scalar
    field types with the widths of their C variables. */
module PbScalars {
  import opened Options
  import opened Coding

  const TWO31: nat := 0x8000_0000

  /** The size of an integer variable, in bits. */
  datatype Width = W8 | W16 | W32 | W64

  /** The values an unsigned variable of the width holds are below this. */
  function Range(w: Width): (r: nat)
    ensures r >= 256 && r % 2 == 0
  {
    match w
    case W8 => 0x100
    case W16 => 0x1_0000
    case W32 => TWO32
    case W64 => TWO64
  }

  /** A cast to a signed integer of the width. */
  function Signed(v: int, w: Width): (n: int)
    ensures -(Range(w) / 2) <= n < Range(w) / 2
  {
    var m := v % Range(w);
    if m < Range(w) / 2 then m else m - Range(w)
  }

  predicate InWidth(n: int, w: Width) {
    -(Range(w) / 2) <= n < Range(w) / 2
  }

  // ---------------------------------------------------------------------------------------------
  // Zigzag
  // ---------------------------------------------------------------------------------------------

  /** pb_encode_svarint's shift and complement, in 64 bits. */
  function Zigzag(n: int): uint64
    requires InWidth(n, W64)
  {
    var shifted := n % TWO64 * 2 % TWO64;
    if n < 0 then TWO64 - 1 - shifted else shifted
  }

  /** pb_decode_svarint's shift and complement, cast to a signed integer. */
  function Unzigzag(v: uint64): int {
    if v % 2 == 1 then Signed(TWO64 - 1 - v / 2, W64) else Signed(v / 2, W64)
  }

  lemma ZigzagRoundTrip(n: int)
    requires InWidth(n, W64)
    ensures Unzigzag(Zigzag(n)) == n
    ensures Zigzag(n) == if n < 0 then -2 * n - 1 else 2 * n
  {
    ModOf(n, TWO64, if n < 0 then -1 else 0);
    var v := if n < 0 then n + TWO64 else n;
    ModOf(v * 2, TWO64, if n < 0 then 1 else 0);
    var z := Zigzag(n);
    if n < 0 {
      assert z / 2 == -n - 1;
      ModOf(TWO64 - 1 - z / 2, TWO64, 0);
    } else {
      assert z / 2 == n;
      ModOf(n, TWO64, 0);
    }
  }

  // ---------------------------------------------------------------------------------------------
  // 32-bit varints
  // ---------------------------------------------------------------------------------------------

  function Pow2(n: nat): (p: nat)
    ensures p >= 1
  {
    if n == 0 then 1 else 2 * Pow2(n - 1)
  }

  function Shl(v: nat, bits: nat): nat {
    v * Pow2(bits)
  }

  /** The bytes after the first of a 32-bit varint: bits beyond 32 may only be zero, or extend the
      sign of a negative number that was written in 64 bits. */
  function MoreVarint32(s: Bytes, bitpos: nat, result: uint32): (r: Option<(uint32, Bytes)>)
    ensures r.Some? ==> |r.value.1| < |s|
  {
    if s == [] then None
    else
      var b := s[0];
      if bitpos >= 32 && b % 128 != 0 && (result < TWO31 || b != if bitpos < 63 then 0xff else 0x01) then None
      else
        var next := if bitpos >= 32 then result else (result + Shl(b % 128, bitpos)) % TWO32;
        if b >= 128 then MoreVarint32(s[1..], bitpos + 7, next)
        else if bitpos == 28 && b / 16 != 0 then None
        else Some((next, s[1..]))
  }

  /** pb_decode_varint32. */
  function TakeVarint32(s: Bytes): (r: Option<(uint32, Bytes)>)
    ensures r.Some? ==> |r.value.1| < |s|
  {
    if s == [] then None
    else if s[0] < 128 then Some((s[0], s[1..]))
    else MoreVarint32(s[1..], 7, s[0] % 128)
  }

  lemma {:induction false} Pow2Sum(a: nat, b: nat)
    ensures Pow2(a + b) == Pow2(a) * Pow2(b)
    decreases b
  {
    if b > 0 {
      Pow2Sum(a, b - 1);
      assert Pow2(a) * Pow2(b) == Pow2(a) * Pow2(b - 1) * 2;
    }
  }

  lemma Pow2Of7()
    ensures Pow2(7) == 128
  {
    assert Pow2(3) == 8;
  }

  lemma Pow2Of28()
    ensures Pow2(28) == 0x1000_0000
  {
    Pow2Of7();
    Pow2Sum(7, 7);
    Pow2Sum(14, 14);
  }

  lemma VarintHead(v: nat, rest: Bytes)
    ensures var s := Varint(v) + rest;
            && s != []
            && (v < 128 ==> s[0] == v && s[1..] == rest)
            && (v >= 128 ==> s[0] == v % 128 + 128 && s[1..] == Varint(v / 128) + rest)
  {
  }

  lemma TimesLess(a: nat, b: nat, k: nat)
    requires a < b
    ensures a * k + k <= b * k
  {
    assert b * k == (b - a - 1) * k + a * k + k;
  }

  /** The low seven bits of a number go in at the bit position, and leave room for the rest. */
  lemma LowBits(v: nat, bitpos: nat, result: nat)
    requires v >= 128 && result < Pow2(bitpos)
    ensures var next := result + Shl(v % 128, bitpos);
            next < Pow2(bitpos + 7) && next + Shl(v / 128, bitpos + 7) == result + Shl(v, bitpos)
  {
    Pow2Sum(bitpos, 7);
    Pow2Of7();
    var p, low, high := Pow2(bitpos), v % 128, v / 128;
    TimesLess(low, 128, p);
    assert v * p == low * p + high * (p * 128) by {
      assert v == low + 128 * high;
      assert (low + 128 * high) * p == low * p + high * (p * 128);
    }
  }

  lemma MoreStep(s: Bytes, bitpos: nat, result: uint32)
    requires s != [] && bitpos < 32 && result + Shl(s[0] % 128, bitpos) < TWO32
    ensures var next := result + Shl(s[0] % 128, bitpos);
            MoreVarint32(s, bitpos, result) ==
            if s[0] >= 128 then MoreVarint32(s[1..], bitpos + 7, next)
            else if bitpos == 28 && s[0] / 16 != 0 then None
            else Some((next, s[1..]))
  {
  }

  lemma FourBitsLeft(v: nat, bitpos: nat)
    requires Shl(v, bitpos) < TWO32
    ensures bitpos == 28 ==> v < 16
  {
    if bitpos == 28 {
      Pow2Of28();
    }
  }

  lemma {:induction false} MoreVarint32RoundTrip(v: nat, rest: Bytes, bitpos: nat, result: nat)
    requires bitpos <= 28 && bitpos % 7 == 0 && result < Pow2(bitpos) && result + Shl(v, bitpos) < TWO32
    ensures MoreVarint32(Varint(v) + rest, bitpos, result) == Some((result + Shl(v, bitpos), rest))
    decreases v
  {
    hide *;
    VarintHead(v, rest);
    FourBitsLeft(v, bitpos);
    var s := Varint(v) + rest;
    if v >= 128 {
      var next := result + Shl(v % 128, bitpos);
      LowBits(v, bitpos, result);
      assert s[0] % 128 == v % 128;
      MoreVarint32RoundTrip(v / 128, rest, bitpos + 7, next);
      MoreStep(s, bitpos, result);
    } else {
      assert s[0] % 128 == v;
      MoreStep(s, bitpos, result);
    }
  }

  lemma ShlSeven(v: nat)
    ensures Pow2(7) == 128 && v % 128 + Shl(v / 128, 7) == v
  {
    Pow2Of7();
  }

  /** What the encoder writes for a 32-bit number is read back. */
  lemma Varint32Read(v: nat, rest: Bytes)
    requires v < TWO32
    ensures TakeVarint32(Varint(v) + rest) == Some((v, rest))
  {
    VarintHead(v, rest);
    hide Varint, MoreVarint32;
    if v >= 128 {
      ShlSeven(v);
      hide Shl, Pow2;
      MoreVarint32RoundTrip(v / 128, rest, 7, v % 128);
    }
  }

  // ---------------------------------------------------------------------------------------------
  // Scalar fields
  // ---------------------------------------------------------------------------------------------

  datatype Scalar = SBool | SInt(w: Width) | SUint(w: Width) | SZigzag(w: Width) | SFixed32 | SFixed64

  /** The numbers a field's variable can hold; a bool is 0 or 1. */
  predicate Holds(t: Scalar, n: int) {
    match t
    case SBool => 0 <= n < 2
    case SInt(w) => InWidth(n, w)
    case SUint(w) => 0 <= n < Range(w)
    case SZigzag(w) => InWidth(n, w)
    case SFixed32 => 0 <= n < TWO32
    case SFixed64 => 0 <= n < TWO64
  }

  function EncodeScalar(t: Scalar, n: int): (s: Bytes)
    requires Holds(t, n)
    ensures s != []
  {
    match t
    case SBool => Varint(n)
    case SInt(_) => Varint(n % TWO64)
    case SUint(_) => Varint(n)
    case SZigzag(_) => Varint(Zigzag(n))
    case SFixed32 => EncodeFixed32(n)
    case SFixed64 => EncodeFixed64(n)
  }


  function DecodeScalar(t: Scalar, s: Bytes): (r: Option<(int, Bytes)>)
    ensures r.Some? ==> |r.value.1| < |s| && Holds(t, r.value.0)
  {
    match t
    case SBool => (
      match TakeVarint32(s)
      case None => None
      case Some((v, rest)) => Some((if v != 0 then 1 else 0, rest)))
    case SInt(w) => (
      match GetVarint64(s)
      case None => None
      case Some((v, rest)) =>
        var n := Signed(v, if w == W64 then W64 else W32);
        if Signed(n, w) == n then Some((n, rest)) else None)
    case SUint(w) => (
      match GetVarint64(s)
      case None => None
      case Some((v, rest)) => if v % Range(w) == v then Some((v, rest)) else None)
    case SZigzag(w) => (
      match GetVarint64(s)
      case None => None
      case Some((v, rest)) => if Signed(Unzigzag(v), w) == Unzigzag(v) then Some((Unzigzag(v), rest)) else None)
    case SFixed32 => if |s| < 4 then None else Some((DecodeFixed32(s[..4]), s[4..]))
    case SFixed64 => if |s| < 8 then None else Some((DecodeFixed64(s[..8]), s[8..]))
  }

  lemma SignedBack(n: int, w: Width)
    requires InWidth(n, w)
    ensures Signed(n, w) == n && Signed(n % TWO64, if w == W64 then W64 else W32) == n && InWidth(n, W64)
  {
    SignedOfWidth(n, w);
    SignedOfWidth(n, if w == W64 then W64 else W32);
    if w != W64 {
      SameLowBits(n);
    } else {
      assert n % TWO64 == if n < 0 then n + TWO64 else n;
    }
  }

  lemma SignedOfWidth(n: int, w: Width)
    requires InWidth(n, w)
    ensures Signed(n, w) == n
  {
    assert n % Range(w) == if n < 0 then n + Range(w) else n by {
      ModOf(n, Range(w), if n < 0 then -1 else 0);
    }
  }

  lemma ModOf(n: int, m: nat, q: int)
    requires m > 0 && 0 <= n - q * m < m
    ensures n % m == n - q * m
  {
    var a, b := n / m, n % m;
    assert n == a * m + b;
    assert (a - q) * m == a * m - q * m && (q - a) * m == q * m - a * m;
    if a > q {
      TimesLess(0, a - q, m);
    } else if a < q {
      TimesLess(0, q - a, m);
    }
  }

  lemma SameLowBits(n: int)
    requires InWidth(n, W32)
    ensures Signed(n % TWO64, W32) == Signed(n, W32)
  {
    if n < 0 {
      ModOf(n, TWO64, -1);
      ModOf(n + TWO64, TWO32, TWO32 - 1);
      ModOf(n, TWO32, -1);
    } else {
      ModOf(n, TWO64, 0);
    }
  }

  /** Every value a variable can hold is read back from what is written for it. */
  lemma ScalarRoundTrip(t: Scalar, n: int, rest: Bytes)
    requires Holds(t, n)
    ensures DecodeScalar(t, EncodeScalar(t, n) + rest) == Some((n, rest))
  {
    match t
    case SBool => BoolRoundTrip(n, rest);
    case SInt(w) => IntRoundTrip(w, n, rest);
    case SUint(w) => UintRoundTrip(w, n, rest);
    case SZigzag(w) => SintRoundTrip(w, n, rest);
    case SFixed32 => FixedRoundTrip(n, rest);
    case SFixed64 => Fixed64ReadBack(n, rest);
  }

  lemma BoolRoundTrip(n: int, rest: Bytes)
    requires Holds(SBool, n)
    ensures DecodeScalar(SBool, EncodeScalar(SBool, n) + rest) == Some((n, rest))
  {
    hide Varint, TakeVarint32;
    Varint32Read(n, rest);
  }

  lemma IntRoundTrip(w: Width, n: int, rest: Bytes)
    requires Holds(SInt(w), n)
    ensures DecodeScalar(SInt(w), EncodeScalar(SInt(w), n) + rest) == Some((n, rest))
  {
    hide Varint, GetVarint64;
    SignedBack(n, w);
    Varint64RoundTrip(n % TWO64, rest);
    hide Signed, InWidth;
  }

  lemma UintRoundTrip(w: Width, n: int, rest: Bytes)
    requires Holds(SUint(w), n)
    ensures DecodeScalar(SUint(w), EncodeScalar(SUint(w), n) + rest) == Some((n, rest))
  {
    hide Varint, GetVarint64;
    Varint64RoundTrip(n, rest);
  }

  lemma SintRoundTrip(w: Width, n: int, rest: Bytes)
    requires Holds(SZigzag(w), n)
    ensures DecodeScalar(SZigzag(w), EncodeScalar(SZigzag(w), n) + rest) == Some((n, rest))
  {
    SignedBack(n, w);
    ZigzagRoundTrip(n);
    hide Varint, GetVarint64, Zigzag, Unzigzag, Signed, InWidth;
    Varint64RoundTrip(Zigzag(n), rest);
  }

  lemma FixedRoundTrip(n: int, rest: Bytes)
    requires Holds(SFixed32, n)
    ensures DecodeScalar(SFixed32, EncodeScalar(SFixed32, n) + rest) == Some((n, rest))
  {
    hide EncodeFixed32, DecodeFixed32;
    Fixed32RoundTrip(n);
    assert (EncodeFixed32(n) + rest)[..4] == EncodeFixed32(n);
  }

  lemma Fixed64ReadBack(n: int, rest: Bytes)
    requires Holds(SFixed64, n)
    ensures DecodeScalar(SFixed64, EncodeScalar(SFixed64, n) + rest) == Some((n, rest))
  {
    hide EncodeFixed64, DecodeFixed64;
    Fixed64RoundTrip(n);
    assert (EncodeFixed64(n) + rest)[..8] == EncodeFixed64(n);
  }
}
