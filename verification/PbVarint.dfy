/** What nanopb's reader of 32-bit varints accepts of the numbers that have 64 bits. */
module PbVarint {
  import opened Options
  import opened Coding
  import opened PbScalars

  const P28: nat := 0x1000_0000
  const P35: nat := 0x8_0000_0000
  const P42: nat := 0x400_0000_0000
  const P49: nat := 0x2_0000_0000_0000
  const P56: nat := 0x100_0000_0000_0000
  const P63: nat := 0x8000_0000_0000_0000

  predicate Uniform(group: nat) {
    group == 0 || group == 127
  }

  /** A number with 32 bits, or a negative one, of which bits 32 to 34 are not looked at and the groups of seven
      bits above them may be zero each. */
  predicate Accepted(v: uint64) {
    || v < TWO32
    || (v >= P63 && v / 0x8000_0000 % 2 == 1 && Uniform(v / P35 % 128) && Uniform(v / P42 % 128)
        && Uniform(v / P49 % 128) && Uniform(v / P56 % 128))
  }

  /** The varint of any 64-bit number is read as its low 32 bits if it is accepted, and refused otherwise. */
  lemma Varint32Iff(v: uint64, rest: Bytes)
    ensures TakeVarint32(Varint(v) + rest) == if Accepted(v) then Some((v % TWO32, rest)) else None
  {
    if v < TWO32 {
      Varint32Read(v, rest);
    } else {
      FirstBytes(v, rest);
      hide TakeVarint32, MoreVarint32, Varint, Extends;
      if v >= P35 {
        TopBytes(v / P35, 35, v % TWO32, rest);
        ExtendsIff(v);
      }
    }
  }

  /** A number that has more than 32 bits, and is not the extension of a negative one, but is accepted. */
  lemma OverflowAccepted(v: uint64, rest: Bytes)
    requires v == 0x8000_0001_8000_0000
    ensures TakeVarint32(Varint(v) + rest) == Some((0x8000_0000, rest))
  {
    hide TakeVarint32, Varint;
    Varint32Iff(v, rest);
    assert v == P63 + TWO32 + 0x8000_0000;
    assert v % TWO32 == 0x8000_0000;
    assert v / P35 == 0x1000_0000 && v / P42 == 0x20_0000 && v / P49 == 0x4000 && v / P56 == 0x80;
  }

  // ---------------------------------------------------------------------------------------------
  // The first five bytes
  // ---------------------------------------------------------------------------------------------

  lemma Powers()
    ensures Pow2(7) == 128 && Pow2(14) == 0x4000 && Pow2(21) == 0x20_0000 && Pow2(28) == P28
  {
    Pow2Of7();
    Pow2Sum(7, 7);
    Pow2Sum(14, 7);
    Pow2Of28();
  }

  /** One more byte that is not the last, before bit 32. */
  lemma OneMore(w: nat, rest: Bytes, bitpos: nat, result: uint32)
    requires w >= 128 && bitpos < 32
    ensures MoreVarint32(Varint(w) + rest, bitpos, result) ==
            MoreVarint32(Varint(w / 128) + rest, bitpos + 7, (result + Shl(w % 128, bitpos)) % TWO32)
  {
    VarintHead(w, rest);
    hide Varint, Shl;
    var s := Varint(w) + rest;
    assert s[0] % 128 == w % 128;
  }

  lemma FirstBytes(v: uint64, rest: Bytes)
    requires v >= TWO32
    ensures TakeVarint32(Varint(v) + rest) ==
            if v < P35 then None else MoreVarint32(Varint(v / P35) + rest, 35, v % TWO32)
  {
    VarintHead(v, rest);
    hide Varint, MoreVarint32;
    MiddleBytes(v, rest);
    hide *;
    assert P28 == 0x1000_0000 && P35 == P28 * 128 && TWO32 == P28 * 16;
    if v < P35 {
      LastOverflows(v / P28, rest, v % P28);
    } else {
      Powers();
      OneByte(v, P28, P35, 28, rest);
      ModTwice(v);
    }
  }

  lemma ModTwice(v: nat)
    ensures v % P35 % TWO32 == v % TWO32
  {
  }

  lemma MiddleBytes(v: uint64, rest: Bytes)
    requires v >= TWO32
    ensures MoreVarint32(Varint(v / 128) + rest, 7, v % 128) ==
            MoreVarint32(Varint(v / P28) + rest, 28, v % P28)
  {
    Powers();
    assert P28 == 0x1000_0000 && TWO32 == P28 * 16;
    hide *;
    MiddleByte(v, 128, 0x4000, 7, rest);
    MiddleByte(v, 0x4000, 0x20_0000, 14, rest);
    MiddleByte(v, 0x20_0000, P28, 21, rest);
  }

  /** One more byte that is not the last, before bit 32: the low part grows by seven bits. */
  lemma OneByte(v: uint64, p: nat, q: nat, bitpos: nat, rest: Bytes)
    requires 0 < p <= P28 && q == p * 128 && p == Pow2(bitpos) && bitpos < 32 && v >= q
    ensures MoreVarint32(Varint(v / p) + rest, bitpos, v % p) ==
            MoreVarint32(Varint(v / q) + rest, bitpos + 7, v % q % TWO32)
  {
    assert P28 < TWO32;
    DivAtLeast(v, p, 128);
    OneMore(v / p, rest, bitpos, v % p);
    ShlIs(v / p % 128, bitpos);
    hide *;
    DivTwice(v, p, 128);
    LowPart(v, p);
  }

  lemma MiddleByte(v: uint64, p: nat, q: nat, bitpos: nat, rest: Bytes)
    requires 0 < p <= P28 && q == p * 128 <= P28 && p == Pow2(bitpos) && bitpos < 32 && v >= q
    ensures MoreVarint32(Varint(v / p) + rest, bitpos, v % p) == MoreVarint32(Varint(v / q) + rest, bitpos + 7, v % q)
  {
    assert P28 < TWO32;
    hide *;
    OneByte(v, p, q, bitpos, rest);
    SmallMod(v, q);
  }

  lemma SmallMod(v: nat, q: nat)
    requires 0 < q < TWO32
    ensures v % q % TWO32 == v % q
  {
    var r := v % q;
    assert r < TWO32;
  }

  lemma ShlIs(v: nat, bitpos: nat)
    ensures Shl(v, bitpos) == v * Pow2(bitpos)
  {
  }

  lemma LastOverflows(w: nat, rest: Bytes, result: uint32)
    requires 16 <= w < 128
    ensures MoreVarint32(Varint(w) + rest, 28, result) == None
  {
    VarintHead(w, rest);
    hide Varint, Shl;
  }

  /** Seven bits more of the low part. */
  lemma LowPart(v: nat, p: nat)
    requires p > 0
    ensures v % p + v / p % 128 * p == v % (p * 128)
  {
    var q, r := v / p, v % p;
    var low, high := q % 128, q / 128;
    Distribute(q, low, high, p);
    ModIs(v, p * 128, high, low * p + r);
  }

  lemma Distribute(q: nat, low: nat, high: nat, p: nat)
    requires q == high * 128 + low && low < 128
    ensures q * p == high * (p * 128) + low * p && low * p + p <= p * 128
  {
    TimesLess(low, 128, p);
    assert (high * 128 + low) * p == high * (p * 128) + low * p;
  }

  lemma ModIs(v: nat, n: nat, q: nat, r: nat)
    requires v == q * n + r && r < n
    ensures v % n == r
  {
    DivIs(v, n, q, r);
  }

  // ---------------------------------------------------------------------------------------------
  // The bytes after them
  // ---------------------------------------------------------------------------------------------

  /** The rest of a number is all zeros or the extension of a sign, byte by byte, and ends at bit 63 or later. */
  predicate Extends(w: nat, bitpos: nat, negative: bool)
    requires w > 0
  {
    if w < 128 then w == 1 && bitpos >= 63 && negative
    else (w % 128 == 0 || (w % 128 == 127 && bitpos < 63 && negative)) && Extends(w / 128, bitpos + 7, negative)
  }

  lemma {:induction false} TopBytes(w: nat, bitpos: nat, result: uint32, rest: Bytes)
    requires w > 0 && bitpos >= 35
    ensures MoreVarint32(Varint(w) + rest, bitpos, result) ==
            if Extends(w, bitpos, result >= 0x8000_0000) then Some((result, rest)) else None
    decreases w
  {
    VarintHead(w, rest);
    hide Varint, Shl;
    var s := Varint(w) + rest;
    if w >= 128 {
      TopBytes(w / 128, bitpos + 7, result, rest);
      assert s[0] % 128 == w % 128;
    }
  }

  lemma ExtendsIff(v: uint64)
    requires v >= P35
    ensures Extends(v / P35, 35, v % TWO32 >= 0x8000_0000) <==> Accepted(v)
  {
    var negative := v % TWO32 >= 0x8000_0000;
    assert negative <==> v / 0x8000_0000 % 2 == 1;
    DivTwice(v, P35, 128);
    DivTwice(v, P42, 128);
    DivTwice(v, P49, 128);
    DivTwice(v, P56, 128);
    Groups(v / P35, v / P42, v / P49, v / P56, v / P63, negative);
  }

  lemma Groups(w0: nat, w1: nat, w2: nat, w3: nat, w4: nat, negative: bool)
    requires w0 > 0 && w1 == w0 / 128 && w2 == w1 / 128 && w3 == w2 / 128 && w4 == w3 / 128 && w4 < 2
    ensures Extends(w0, 35, negative) <==>
            w4 == 1 && negative && Uniform(w0 % 128) && Uniform(w1 % 128) && Uniform(w2 % 128) && Uniform(w3 % 128)
  {
    hide Extends;
    ExtendsStep(w0, 35, negative);
    if w1 > 0 {
      ExtendsStep(w1, 42, negative);
    }
    if w2 > 0 {
      ExtendsStep(w2, 49, negative);
    }
    if w3 > 0 {
      ExtendsStep(w3, 56, negative);
    }
    if w4 > 0 {
      ExtendsStep(w4, 63, negative);
    }
  }

  lemma ExtendsStep(w: nat, bitpos: nat, negative: bool)
    requires w > 0
    ensures Extends(w, bitpos, negative) <==>
            if w < 128 then w == 1 && bitpos >= 63 && negative
            else (w % 128 == 0 || (w % 128 == 127 && bitpos < 63 && negative)) && Extends(w / 128, bitpos + 7, negative)
  {
  }
}
