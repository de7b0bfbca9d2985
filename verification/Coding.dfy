/** Fixed-width and variable-width integers and length-prefixed strings, as bytes. */
module Coding {
  import opened Options

  type byte = b: int | 0 <= b < 256

  type Bytes = seq<byte>

  const TWO32: nat := 0x1_0000_0000
  const TWO64: nat := 0x1_0000_0000_0000_0000

  type uint32 = n: nat | n < TWO32
  type uint64 = n: nat | n < TWO64

  // ---------------------------------------------------------------------------------------------
  // Fixed width, little endian
  // ---------------------------------------------------------------------------------------------

  function EncodeFixed32(v: uint32): (s: Bytes)
    ensures |s| == 4
  {
    [v % 0x100, v / 0x100 % 0x100, v / 0x1_0000 % 0x100, v / 0x100_0000]
  }

  function DecodeFixed32(s: Bytes): uint32
    requires |s| == 4
  {
    s[0] as int + s[1] as int * 0x100 + s[2] as int * 0x1_0000 + s[3] as int * 0x100_0000
  }

  lemma Fixed32RoundTrip(v: uint32)
    ensures DecodeFixed32(EncodeFixed32(v)) == v
  {
  }

  function EncodeFixed64(v: uint64): (s: Bytes)
    ensures |s| == 8
  {
    EncodeFixed32(v % TWO32) + EncodeFixed32(v / TWO32)
  }

  function DecodeFixed64(s: Bytes): uint64
    requires |s| == 8
  {
    DecodeFixed32(s[..4]) + DecodeFixed32(s[4..]) * TWO32
  }

  lemma Fixed64RoundTrip(v: uint64)
    ensures DecodeFixed64(EncodeFixed64(v)) == v
  {
    Fixed32RoundTrip(v % TWO32);
    Fixed32RoundTrip(v / TWO32);
    hide EncodeFixed32, DecodeFixed32;
    var s := EncodeFixed64(v);
    assert s[..4] == EncodeFixed32(v % TWO32) && s[4..] == EncodeFixed32(v / TWO32);
  }

  function Pow256(n: nat): (p: nat)
    ensures p >= 1
  {
    if n == 0 then 1 else 256 * Pow256(n - 1)
  }

  lemma Powers256()
    ensures Pow256(0) == 1 && Pow256(1) == 0x100 && Pow256(2) == 0x1_0000 && Pow256(3) == 0x100_0000
    ensures Pow256(4) == TWO32
  {
  }

  lemma Fixed32Bytes(v: uint32, i: nat)
    requires i < 4
    ensures EncodeFixed32(v)[i] == v / Pow256(i) % 256
  {
    Powers256();
    hide Pow256;
  }

  lemma LowHalf(v: nat, i: nat)
    requires i < 4
    ensures v % TWO32 / Pow256(i) % 256 == v / Pow256(i) % 256
  {
    Powers256();
    hide Pow256;
    var q, m := v / TWO32, v % TWO32;
    assert v == q * TWO32 + m;
    if i == 0 {
      LowByte(v, m, 1, q * 0x100_0000);
    } else if i == 1 {
      LowByte(v, m, 0x100, q * 0x1_0000);
    } else if i == 2 {
      LowByte(v, m, 0x1_0000, q * 0x100);
    } else {
      LowByte(v, m, 0x100_0000, q);
    }
  }

  lemma LowByte(v: nat, m: nat, n: nat, q: nat)
    requires n > 0 && v == q * 256 * n + m
    ensures v / n % 256 == m / n % 256
  {
    var x := m / n;
    assert m == x * n + m % n;
    assert (q * 256 + x) * n == q * 256 * n + x * n;
    DivIs(v, n, q * 256 + x, m % n);
  }

  lemma {:induction false} Pow256Add(n: nat)
    requires n >= 4
    ensures Pow256(n) == TWO32 * Pow256(n - 4)
  {
    if n == 4 {
      Powers256();
    } else {
      Pow256Add(n - 1);
    }
  }

  /** The low bytes come first. */
  lemma Fixed64Bytes(v: uint64, i: nat)
    requires i < 8
    ensures EncodeFixed64(v)[i] == v / Pow256(i) % 256
  {
    if i < 4 {
      Fixed32Bytes(v % TWO32, i);
      LowHalf(v, i);
    } else {
      Fixed32Bytes(v / TWO32, i - 4);
      Pow256Add(i);
      DivTwice(v, TWO32, Pow256(i - 4));
    }
    hide EncodeFixed32, Pow256;
  }

  /** Dividing twice is dividing by the product. */
  lemma DivTwice(v: nat, a: nat, b: nat)
    requires a > 0 && b > 0
    ensures a * b > 0 && v / a / b == v / (a * b)
  {
    var q, r := v / a / b, v / a % b;
    var s := v % a;
    assert v / a == q * b + r && v == v / a * a + s;
    assert (q * b + r) * a == q * (a * b) + r * a;
    assert r * a <= (b - 1) * a == a * b - a;
    DivIs(v, a * b, q, r * a + s);
  }

  lemma DivIs(v: nat, n: nat, q: nat, r: nat)
    requires v == q * n + r && r < n
    ensures v / n == q
  {
    var d := v / n;
    assert v == d * n + v % n;
    assert d > q ==> d * n >= (q + 1) * n;
    assert d < q ==> q * n >= (d + 1) * n;
  }

  // ---------------------------------------------------------------------------------------------
  // Variable width: seven bits a byte, the low ones first
  // ---------------------------------------------------------------------------------------------

  function Varint(v: nat): (s: Bytes)
    ensures s != []
  {
    if v < 128 then [v] else [v % 128 + 128] + Varint(v / 128)
  }

  function Pow128(n: nat): (p: nat)
    ensures p >= 1
  {
    if n == 0 then 1 else 128 * Pow128(n - 1)
  }

  /** The number at the front of `s`, in at most `max` bytes, and what follows it. */
  function TakeVarint(s: Bytes, max: nat): (r: Option<(nat, Bytes)>)
    ensures r.Some? ==> |r.value.1| < |s|
    decreases max
  {
    if max == 0 || s == [] then None
    else if s[0] < 128 then Some((s[0], s[1..]))
    else
      match TakeVarint(s[1..], max - 1)
      case None => None
      case Some((v, rest)) => Some((s[0] as int - 128 + 128 * v, rest))
  }

  const VARINT32_BYTES: nat := 5
  const VARINT64_BYTES: nat := 10

  function Low(x: nat, wide: bool): (r: nat)
    ensures r < if wide then TWO64 else TWO32
  {
    if wide then x % TWO64 else x % TWO32
  }

  /** The result keeps its low 32 or 64 bits. */
  function GetVarint(s: Bytes, wide: bool): Option<(nat, Bytes)> {
    match TakeVarint(s, if wide then VARINT64_BYTES else VARINT32_BYTES)
    case None => None
    case Some((v, rest)) => Some((Low(v, wide), rest))
  }

  function GetVarint32(s: Bytes): (r: Option<(uint32, Bytes)>)
    ensures r.Some? ==> |r.value.1| < |s|
  {
    match GetVarint(s, false)
    case None => None
    case Some((v, rest)) => Some((v, rest))
  }

  function GetVarint64(s: Bytes): (r: Option<(uint64, Bytes)>)
    ensures r.Some? ==> |r.value.1| < |s|
  {
    match GetVarint(s, true)
    case None => None
    case Some((v, rest)) => Some((v, rest))
  }

  lemma {:induction false} TakeVarintRoundTrip(v: nat, max: nat, rest: Bytes)
    requires 0 < max && v < Pow128(max)
    ensures TakeVarint(Varint(v) + rest, max) == Some((v, rest))
    ensures |Varint(v)| <= max
    decreases max
  {
    if v < 128 {
      assert ([v] + rest)[1..] == rest;
    } else {
      TakeVarintRoundTrip(v / 128, max - 1, rest);
      assert (Varint(v) + rest)[1..] == Varint(v / 128) + rest;
    }
  }

  lemma Widths()
    ensures TWO32 <= Pow128(VARINT32_BYTES) && TWO64 <= Pow128(VARINT64_BYTES)
  {
    assert Pow128(1) == 128 && Pow128(2) == 0x4000 && Pow128(3) == 0x20_0000 && Pow128(4) == 0x1000_0000;
    assert Pow128(5) == 0x8_0000_0000 && Pow128(6) == 0x400_0000_0000 && Pow128(7) == 0x2_0000_0000_0000;
    assert Pow128(8) == 0x100_0000_0000_0000 && Pow128(9) == 0x8000_0000_0000_0000;
  }

  lemma Varint32RoundTrip(v: uint32, rest: Bytes)
    ensures GetVarint32(Varint(v) + rest) == Some((v, rest))
  {
    hide Pow128, TakeVarint, Varint;
    Widths();
    TakeVarintRoundTrip(v, VARINT32_BYTES, rest);
  }

  lemma Varint64RoundTrip(v: uint64, rest: Bytes)
    ensures GetVarint64(Varint(v) + rest) == Some((v, rest))
  {
    hide Pow128, TakeVarint, Varint;
    Widths();
    TakeVarintRoundTrip(v, VARINT64_BYTES, rest);
  }

  /** Byte `i` holds the `i`-th seven bits, with the high bit exactly if more follow, and no byte is wasted. */
  lemma {:induction false} VarintBytes(v: nat, i: nat)
    requires i < |Varint(v)|
    ensures Varint(v)[i] == v / Pow128(i) % 128 + if i + 1 < |Varint(v)| then 128 else 0
    ensures i + 1 < |Varint(v)| <==> v >= Pow128(i + 1)
    decreases v
  {
    if v < 128 {
      assert Pow128(0) == 1 && Pow128(1) == 128;
    } else if i == 0 {
      assert Varint(v)[0] == v % 128 + 128 && Pow128(0) == 1 && Pow128(1) == 128;
    } else {
      VarintBytes(v / 128, i - 1);
      DivTwice(v, 128, Pow128(i - 1));
      DivAtLeast(v, 128, Pow128(i));
    }
  }

  /** What is read from any bytes: it ends at the first byte with a clear top bit, if there is one in time, and its
      digits are the low seven bits of the bytes. */
  lemma {:induction false} TakeVarintIs(s: Bytes, max: nat) returns (n: nat)
    ensures match TakeVarint(s, max)
            case None => forall i :: 0 <= i < max && i < |s| ==> s[i] >= 128
            case Some((v, rest)) =>
              && n < max && n < |s| && s[n] < 128 && (forall i :: 0 <= i < n ==> s[i] >= 128) && rest == s[n + 1..]
              && v < Pow128(n + 1) && forall i :: 0 <= i <= n ==> v / Pow128(i) % 128 == s[i] % 128
    decreases max
  {
    n := 0;
    assert Pow128(0) == 1 && Pow128(1) == 128;
    if max > 0 && s != [] && s[0] >= 128 {
      var t := s[1..];
      var m := TakeVarintIs(t, max - 1);
      match TakeVarint(t, max - 1) {
        case None =>
          forall i | 0 <= i < max && i < |s| ensures s[i] >= 128 {
            assert i > 0 ==> s[i] == t[i - 1];
          }
        case Some((high, rest)) =>
          n := m + 1;
          DigitsOn(s, high, m);
      }
    }
  }

  lemma DigitsOn(s: Bytes, high: nat, m: nat)
    requires m + 1 < |s| && s[0] >= 128 && high < Pow128(m + 1)
    requires forall i :: 0 <= i <= m ==> high / Pow128(i) % 128 == s[1..][i] % 128
    ensures var v := s[0] as int - 128 + 128 * high;
            v < Pow128(m + 2) && forall i :: 0 <= i <= m + 1 ==> v / Pow128(i) % 128 == s[i] % 128
  {
    var v := s[0] as int - 128 + 128 * high;
    assert v / 128 == high && v % 128 == s[0] % 128;
    assert Pow128(0) == 1 && Pow128(m + 2) == 128 * Pow128(m + 1);
    hide Pow128;
    forall i | 0 <= i <= m + 1 ensures v / Pow128(i) % 128 == s[i] % 128 {
      if i > 0 {
        DigitOn(v, i);
        assert s[i] == s[1..][i - 1];
      }
    }
  }

  lemma DigitOn(v: nat, i: nat)
    requires i > 0
    ensures v / Pow128(i) == v / 128 / Pow128(i - 1)
  {
    DivTwice(v, 128, Pow128(i - 1));
  }

  lemma DivAtLeast(v: nat, a: nat, b: nat)
    requires a > 0
    ensures v / a >= b <==> v >= a * b
  {
    assert v == v / a * a + v % a;
    assert v / a >= b ==> v / a * a >= b * a;
    assert v / a < b ==> (v / a + 1) * a <= b * a;
  }

  /** EncodeVarint32, one branch for each length. */
  method EncodeVarint32(v: uint32) returns (s: Bytes)
    ensures s == Varint(v)
  {
    var b1, b2, b3, b4 := v / 0x80, v / 0x4000, v / 0x20_0000, v / 0x1000_0000;
    assert b1 / 128 == b2 && b2 / 128 == b3 && b3 / 128 == b4;
    if v < 0x80 {
      s := [v];
    } else if v < 0x4000 {
      s := [v % 128 + 128, b1];
    } else if v < 0x20_0000 {
      s := [v % 128 + 128, b1 % 128 + 128, b2];
      assert Varint(b1) == [b1 % 128 + 128] + Varint(b2);
    } else if v < 0x1000_0000 {
      s := [v % 128 + 128, b1 % 128 + 128, b2 % 128 + 128, b3];
      assert Varint(b2) == [b2 % 128 + 128] + Varint(b3);
      assert Varint(b1) == [b1 % 128 + 128] + Varint(b2);
    } else {
      s := [v % 128 + 128, b1 % 128 + 128, b2 % 128 + 128, b3 % 128 + 128, b4];
      assert Varint(b3) == [b3 % 128 + 128] + Varint(b4);
      assert Varint(b2) == [b2 % 128 + 128] + Varint(b3);
      assert Varint(b1) == [b1 % 128 + 128] + Varint(b2);
    }
  }

  method EncodeVarint64(v: uint64) returns (s: Bytes)
    ensures s == Varint(v)
  {
    s := [];
    var n: nat := v;
    while n >= 128
      invariant Varint(v) == s + Varint(n)
    {
      s := s + [n % 128 + 128];
      n := n / 128;
    }
    s := s + [n];
  }

  /** GetVarint32Ptr and GetVarint64Ptr: the loop that shifts each byte into a result of fixed width. */
  method DecodeVarint(s: Bytes, wide: bool) returns (r: Option<(nat, Bytes)>)
    ensures r == GetVarint(s, wide)
  {
    hide *;
    var max: nat := if wide then VARINT64_BYTES else VARINT32_BYTES;
    var result: nat, scale: nat, i := 0, 1, 0;
    ghost var whole: nat := 0;
    RestStart(s, wide);
    while i < max && i < |s|
      invariant i <= max && i <= |s| && result == Low(whole, wide)
      invariant GetVarint(s, wide) == Kept(Rest(s, i, max, whole, scale), wide)
    {
      var b := s[i];
      var part := Scaled(if b < 128 then b else b - 128, scale);
      TakeStep(s, i, max, whole, scale);
      Cut(whole, part, wide);
      if b < 128 {
        KeptIs(whole + part, s[i + 1..], wide);
        return Some((Low(result + part, wide), s[i + 1..]));
      }
      result := Low(result + part, wide);
      whole := whole + part;
      scale := scale * 128;
      i := i + 1;
    }
    TakeEnd(s, i, max, whole, scale);
    KeptNone(wide);
    return None;
  }

  ghost function Kept(r: Option<(nat, Bytes)>, wide: bool): Option<(nat, Bytes)> {
    match r
    case None => None
    case Some((v, rest)) => Some((Low(v, wide), rest))
  }

  lemma KeptIs(v: nat, rest: Bytes, wide: bool)
    ensures Kept(Some((v, rest)), wide) == Some((Low(v, wide), rest))
  {
  }

  lemma KeptNone(wide: bool)
    ensures Kept(None, wide) == None
  {
  }

  function Scaled(b: nat, scale: nat): nat {
    b * scale
  }

  /** What is still to be read gives, once shifted past the bits read so far. */
  ghost function Rest(s: Bytes, i: nat, max: nat, low: nat, scale: nat): Option<(nat, Bytes)>
    requires i <= |s| && i <= max
  {
    Shifted(TakeVarint(s[i..], max - i), low, scale)
  }

  lemma RestStart(s: Bytes, wide: bool)
    ensures GetVarint(s, wide) == Kept(Rest(s, 0, if wide then VARINT64_BYTES else VARINT32_BYTES, 0, 1), wide)
    ensures Low(0, wide) == 0
  {
    hide TakeVarint;
    assert s[0..] == s;
  }

  lemma TakeEnd(s: Bytes, i: nat, max: nat, low: nat, scale: nat)
    requires i <= |s| && i <= max && (i == max || i == |s|)
    ensures Rest(s, i, max, low, scale) == None
  {
  }

  lemma TakeStep(s: Bytes, i: nat, max: nat, low: nat, scale: nat)
    requires i < max && i < |s|
    ensures Rest(s, i, max, low, scale) ==
            if s[i] < 128 then Some((low + Scaled(s[i], scale), s[i + 1..]))
            else Rest(s, i + 1, max, low + Scaled(s[i] - 128, scale), scale * 128)
  {
    assert s[i..][1..] == s[i + 1..];
    if s[i] >= 128 {
      ShiftMore(TakeVarint(s[i + 1..], max - i - 1), low, scale, s[i] - 128);
    }
  }

  /** What the rest of a varint gives once it is shifted past the bits read so far. */
  ghost function Shifted(r: Option<(nat, Bytes)>, low: nat, scale: nat): Option<(nat, Bytes)> {
    match r
    case None => None
    case Some((v, rest)) => Some((low + scale * v, rest))
  }

  lemma ShiftMore(r: Option<(nat, Bytes)>, low: nat, scale: nat, b: nat)
    ensures Shifted(match r case None => None case Some((v, rest)) => Some((b + 128 * v, rest)), low, scale) ==
            Shifted(r, low + b * scale, scale * 128)
  {
    if r.Some? {
      assert low + scale * (b + 128 * r.value.0) == low + b * scale + scale * 128 * r.value.0;
    }
  }

  lemma Cut(x: nat, y: nat, wide: bool)
    ensures Low(Low(x, wide) + y, wide) == Low(x + y, wide)
  {
  }

  // ---------------------------------------------------------------------------------------------
  // Length-prefixed strings
  // ---------------------------------------------------------------------------------------------

  /** PutLengthPrefixedSlice: the length is cut to 32 bits. */
  function LengthPrefixed(s: Bytes): Bytes {
    Varint(|s| % TWO32) + s
  }

  function GetLengthPrefixed(s: Bytes): (r: Option<(Bytes, Bytes)>)
    ensures r.Some? ==> |r.value.1| < |s|
  {
    match GetVarint32(s)
    case None => None
    case Some((n, rest)) => if |rest| >= n then Some((rest[..n], rest[n..])) else None
  }

  lemma LengthPrefixedRoundTrip(s: Bytes, rest: Bytes)
    requires |s| < TWO32
    ensures GetLengthPrefixed(LengthPrefixed(s) + rest) == Some((s, rest))
  {
    Varint32RoundTrip(|s|, s + rest);
    assert LengthPrefixed(s) + rest == Varint(|s|) + (s + rest);
    assert (s + rest)[..|s|] == s && (s + rest)[|s|..] == rest;
  }

  // ---------------------------------------------------------------------------------------------
  // Input that ends too early
  // ---------------------------------------------------------------------------------------------

  /** A varint that is cut short is refused. */
  lemma {:induction false} VarintCut(v: nat, n: nat, max: nat)
    requires n < |Varint(v)|
    ensures TakeVarint(Varint(v)[..n], max) == None
    decreases n
  {
    if n > 0 {
      assert v >= 128 && Varint(v)[..n][0] == v % 128 + 128;
      assert Varint(v)[..n][1..] == Varint(v / 128)[..n - 1];
      if max > 0 {
        VarintCut(v / 128, n - 1, max - 1);
      }
    }
  }

  lemma GetVarintCut(v: nat, n: nat)
    requires n < |Varint(v)|
    ensures GetVarint32(Varint(v)[..n]) == None && GetVarint64(Varint(v)[..n]) == None
  {
    VarintCut(v, n, VARINT32_BYTES);
    VarintCut(v, n, VARINT64_BYTES);
    hide TakeVarint, Varint;
  }

  lemma LengthPrefixedCut(s: Bytes, n: nat)
    requires |s| < TWO32 && n < |LengthPrefixed(s)|
    ensures GetLengthPrefixed(LengthPrefixed(s)[..n]) == None
  {
    var prefix := Varint(|s|);
    hide Varint, GetVarint32;
    CutOf(prefix, s, n);
    if n < |prefix| {
      GetVarintCut(|s|, n);
    } else {
      Varint32RoundTrip(|s|, s[..n - |prefix|]);
    }
  }

  /** A cut inside the first part, or behind it. */
  lemma CutOf(a: Bytes, b: Bytes, n: nat)
    requires n <= |a| + |b|
    ensures (a + b)[..n] == if n < |a| then a[..n] else a + b[..n - |a|]
  {
  }
}
