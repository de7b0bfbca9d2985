/** CRC32C: the striped loop gives the byte-at-a-time checksum (section 12.1 of RFC 3720). */
module Crc32c {

  type Byte = bv8

  /** The Castagnoli polynomial, bit-reversed. */
  const POLY: bv32 := 0x82f63b78
  const XOR: bv32 := 0xffffffff

  // Words are combined only through these functions, so that proofs can leave their bits aside.

  function Xor(x: bv32, y: bv32): bv32 {
    x ^ y
  }

  function Shr1(x: bv32): bv32 {
    x >> 1
  }

  function Shr8(x: bv32): bv32 {
    x >> 8
  }

  function Shl(x: bv32, n: nat): bv32
    requires n <= 32
  {
    x << n
  }

  /** The low byte. */
  function Low(x: bv32): bv32 {
    x & 0xff
  }

  function Wide(b: Byte): bv32 {
    b as bv32
  }

  predicate Odd(x: bv32) {
    x & 1 == 1
  }

  function Bit(x: bv32): bv32 {
    if Odd(x) then Xor(Shr1(x), POLY) else Shr1(x)
  }

  /** The state after one zero byte: what the byte extension table holds for the low bytes. */
  function Zero(x: bv32): bv32 {
    Bit(Bit(Bit(Bit(Bit(Bit(Bit(Bit(x))))))))
  }

  /** The state after `n` zero bytes. */
  function Zeros(x: bv32, n: nat): bv32 {
    if n == 0 then x else Zero(Zeros(x, n - 1))
  }

  /** The reference: each byte is xored in and shifted out bit by bit. */
  function Plain(l: bv32, data: seq<Byte>): bv32 {
    if data == [] then l else Zero(Xor(Plain(l, data[..|data| - 1]), Wide(data[|data| - 1])))
  }

  function Crc(crc: bv32, data: seq<Byte>): bv32 {
    Xor(Plain(Xor(crc, XOR), data), XOR)
  }

  lemma XorCommutes(x: bv32, y: bv32)
    ensures Xor(x, y) == Xor(y, x)
  {
  }

  lemma XorAssociates(x: bv32, y: bv32, z: bv32)
    ensures Xor(Xor(x, y), z) == Xor(x, Xor(y, z))
  {
  }

  lemma XorCancels(x: bv32, z: bv32)
    ensures Xor(Xor(x, z), z) == x
  {
  }

  lemma XorSelf(x: bv32)
    ensures Xor(x, x) == 0 && Xor(x, 0) == x == Xor(0, x)
  {
  }

  /** (a + p) + (b + q) is (a + b) + (p + q). */
  lemma XorTwos(a: bv32, b: bv32, p: bv32, q: bv32)
    ensures Xor(Xor(a, p), Xor(b, q)) == Xor(Xor(a, b), Xor(p, q))
  {
    hide Xor;
    XorAssociates(a, p, Xor(b, q));
    XorAssociates(p, b, q);
    XorCommutes(p, b);
    XorAssociates(b, p, q);
    XorAssociates(a, b, Xor(p, q));
  }

  lemma {:induction false} PlainConcat(l: bv32, a: seq<Byte>, b: seq<Byte>)
    ensures Plain(l, a + b) == Plain(Plain(l, a), b)
  {
    hide Zero, Xor;
    if b == [] {
      assert a + b == a;
    } else {
      PlainConcat(l, a, b[..|b| - 1]);
      assert (a + b)[..|a + b| - 1] == a + b[..|b| - 1];
    }
  }

  /** One byte takes one state to another. */
  predicate Moves(l: bv32, b: Byte, r: bv32) {
    Zero(Xor(l, Wide(b))) == r
  }

  lemma {:induction false} PlainMoves(data: seq<Byte>, states: seq<bv32>)
    requires |states| == |data| + 1 && forall i :: 0 <= i < |data| ==> Moves(states[i], data[i], states[i + 1])
    ensures Plain(states[0], data) == states[|data|]
  {
    hide Zero, Xor;
    if data != [] {
      var n := |data| - 1;
      assert forall i :: 0 <= i < n ==> Moves(states[i], data[i], states[i + 1]);
      PlainMoves(data[..n], states[..n + 1]);
    }
  }

  lemma CheckMoves()
    ensures Moves(0xffffffff, 0x31, 0x6f0a661c) && Moves(0x6f0a661c, 0x32, 0x8caa3b9f)
    ensures Moves(0x8caa3b9f, 0x33, 0xef84d04d) && Moves(0xef84d04d, 0x34, 0x09c50b11)
    ensures Moves(0x09c50b11, 0x35, 0xe72edcca) && Moves(0xe72edcca, 0x36, 0xbeca8e79)
    ensures Moves(0xbeca8e79, 0x37, 0xedbd6815) && Moves(0xedbd6815, 0x38, 0x9f787f65)
    ensures Moves(0x9f787f65, 0x39, 0x1cf96d7c)
  {
  }

  /** The published check value of CRC-32C, over the digits from 1 to 9. */
  lemma CheckValue()
    ensures Crc(0, [0x31, 0x32, 0x33, 0x34, 0x35, 0x36, 0x37, 0x38, 0x39]) == 0xe3069283
  {
    CheckMoves();
    hide Moves, Plain;
    PlainMoves([0x31, 0x32, 0x33, 0x34, 0x35, 0x36, 0x37, 0x38, 0x39],
               [0xffffffff, 0x6f0a661c, 0x8caa3b9f, 0xef84d04d, 0x09c50b11, 0xe72edcca,
                0xbeca8e79, 0xedbd6815, 0x9f787f65, 0x1cf96d7c]);
    assert Xor(0, XOR) == 0xffffffff && Xor(0x1cf96d7c, XOR) == 0xe3069283;
  }

  /** Extending over a and then over b is extending over a followed by b. */
  lemma ExtendLaw(crc: bv32, a: seq<Byte>, b: seq<Byte>)
    ensures Crc(Crc(crc, a), b) == Crc(crc, a + b)
  {
    hide Xor, Plain;
    PlainConcat(Xor(crc, XOR), a, b);
    XorCancels(Plain(Xor(crc, XOR), a), XOR);
  }

  // ---------------------------------------------------------------------------------------------
  // Linearity
  // ---------------------------------------------------------------------------------------------

  lemma ShiftLinear(x: bv32, y: bv32)
    ensures Shr1(Xor(x, y)) == Xor(Shr1(x), Shr1(y))
  {
  }

  lemma OddLinear(x: bv32, y: bv32)
    ensures Odd(Xor(x, y)) <==> Odd(x) != Odd(y)
  {
  }

  lemma BitLinear(x: bv32, y: bv32)
    ensures Bit(Xor(x, y)) == Xor(Bit(x), Bit(y))
  {
    hide Xor, Shr1, Odd;
    ShiftLinear(x, y);
    OddLinear(x, y);
    var s, t := Shr1(x), Shr1(y);
    XorTwos(s, t, POLY, POLY);
    XorSelf(POLY);
    XorSelf(Xor(s, t));
    XorAssociates(s, t, POLY);
    XorAssociates(s, POLY, t);
    XorCommutes(POLY, t);
  }

  lemma ZeroLinear(x: bv32, y: bv32)
    ensures Zero(Xor(x, y)) == Xor(Zero(x), Zero(y))
  {
    hide Bit, Xor;
    BitLinear(x, y);
    var x1, y1 := Bit(x), Bit(y);
    BitLinear(x1, y1);
    var x2, y2 := Bit(x1), Bit(y1);
    BitLinear(x2, y2);
    var x3, y3 := Bit(x2), Bit(y2);
    BitLinear(x3, y3);
    var x4, y4 := Bit(x3), Bit(y3);
    BitLinear(x4, y4);
    var x5, y5 := Bit(x4), Bit(y4);
    BitLinear(x5, y5);
    var x6, y6 := Bit(x5), Bit(y5);
    BitLinear(x6, y6);
    BitLinear(Bit(x6), Bit(y6));
  }

  lemma {:induction false} ZerosLinear(x: bv32, y: bv32, n: nat)
    ensures Zeros(Xor(x, y), n) == Xor(Zeros(x, n), Zeros(y, n))
  {
    hide Zero, Xor;
    if n > 0 {
      ZerosLinear(x, y, n - 1);
      ZeroLinear(Zeros(x, n - 1), Zeros(y, n - 1));
    }
  }

  lemma {:induction false} ZerosAdd(x: bv32, m: nat, n: nat)
    ensures Zeros(Zeros(x, m), n) == Zeros(x, m + n)
  {
    hide Zero;
    if n > 0 {
      ZerosAdd(x, m, n - 1);
    }
  }

  lemma ShiftedEven(x: bv32)
    requires Low(x) == 0
    ensures !Odd(x) && !Odd(Shr1(x)) && !Odd(Shr1(Shr1(x))) && !Odd(Shr1(Shr1(Shr1(x))))
            && !Odd(Shr1(Shr1(Shr1(Shr1(x)))))
    ensures !Odd(Shr1(Shr1(Shr1(Shr1(Shr1(x)))))) && !Odd(Shr1(Shr1(Shr1(Shr1(Shr1(Shr1(x)))))))
    ensures !Odd(Shr1(Shr1(Shr1(Shr1(Shr1(Shr1(Shr1(x))))))))
  {
  }

  lemma EightShifts(x: bv32)
    ensures Shr1(Shr1(Shr1(Shr1(Shr1(Shr1(Shr1(Shr1(x)))))))) == Shr8(x)
  {
  }

  /** A state whose low byte is zero is just shifted. */
  lemma ZeroShifts(x: bv32)
    requires Low(x) == 0
    ensures Zero(x) == Shr8(x)
  {
    hide Shr1, Shr8, Low, Odd;
    ShiftedEven(x);
    EightShifts(x);
  }

  // ---------------------------------------------------------------------------------------------
  // Tables
  // ---------------------------------------------------------------------------------------------

  /** kByteExtensionTable. */
  function ByteTable(c: bv32): bv32 {
    Zero(c)
  }

  /** kStrideExtensionTable3, 2, 1 and 0: a byte at bit `shift`, sixteen bytes on. */
  function StrideTable(shift: nat, c: bv32): bv32
    requires shift <= 24
  {
    Zeros(Shl(c, shift), 16)
  }

  lemma LowSplit(x: bv32)
    ensures x == Xor(Low(x), x & 0xffffff00) && Low(x & 0xffffff00) == 0 && Shr8(x & 0xffffff00) == Shr8(x)
  {
  }

  lemma TableStep(x: bv32)
    ensures Xor(ByteTable(Low(x)), Shr8(x)) == Zero(x)
  {
    LowSplit(x);
    hide Zero, Xor, Shr8, Low;
    ZeroLinear(Low(x), x & 0xffffff00);
    ZeroShifts(x & 0xffffff00);
  }

  function Octet1(c: bv32): bv32 {
    (c >> 8) & 0xff
  }

  function Octet2(c: bv32): bv32 {
    (c >> 16) & 0xff
  }

  function Octet3(c: bv32): bv32 {
    c >> 24
  }

  lemma ByteSplit(c: bv32)
    ensures c == Xor(Xor(Xor(Shl(Low(c), 0), Shl(Octet1(c), 8)), Shl(Octet2(c), 16)), Shl(Octet3(c), 24))
  {
  }

  /** The four stride tables together move a partial state sixteen bytes on. */
  lemma StrideStep(c: bv32)
    ensures Xor(Xor(Xor(StrideTable(0, Low(c)), StrideTable(8, Octet1(c))), StrideTable(16, Octet2(c))),
            StrideTable(24, Octet3(c))) ==
            Zeros(c, 16)
  {
    ByteSplit(c);
    hide Zeros, Xor, Shl, Octet1, Octet2, Octet3, Low;
    var a, b, d, e := Shl(Low(c), 0), Shl(Octet1(c), 8), Shl(Octet2(c), 16), Shl(Octet3(c), 24);
    ZerosLinear(a, b, 16);
    ZerosLinear(Xor(a, b), d, 16);
    ZerosLinear(Xor(Xor(a, b), d), e, 16);
  }

  // ---------------------------------------------------------------------------------------------
  // Words
  // ---------------------------------------------------------------------------------------------

  /** ReadUint32LE. */
  function Word(data: seq<Byte>, p: nat): bv32
    requires p + 4 <= |data|
  {
    Xor(Xor(Xor(Wide(data[p]), Shl(Wide(data[p + 1]), 8)), Shl(Wide(data[p + 2]), 16)), Shl(Wide(data[p + 3]), 24))
  }

  lemma ByteMoves(b: Byte)
    ensures Zero(Shl(Wide(b), 8)) == Wide(b) && Zero(Shl(Wide(b), 16)) == Shl(Wide(b), 8)
            && Zero(Shl(Wide(b), 24)) == Shl(Wide(b), 16)
  {
    MovedByte(b);
    hide Zero, Shl, Shr8, Low, Wide;
    ZeroShifts(Shl(Wide(b), 8));
    ZeroShifts(Shl(Wide(b), 16));
    ZeroShifts(Shl(Wide(b), 24));
  }

  lemma MovedByte(b: Byte)
    ensures var x := Wide(b);
            && Low(Shl(x, 8)) == 0 && Low(Shl(x, 16)) == 0 && Low(Shl(x, 24)) == 0
            && Shr8(Shl(x, 8)) == x && Shr8(Shl(x, 16)) == Shl(x, 8) && Shr8(Shl(x, 24)) == Shl(x, 16)
  {
  }

  /** Four bytes at once: the word is xored into the state, then four zero bytes follow. */
  lemma WordStep(l: bv32, data: seq<Byte>, p: nat)
    requires p + 4 <= |data|
    ensures Plain(l, data[p..p + 4]) == Zeros(Xor(Word(data, p), l), 4)
  {
    hide Zero, Xor, Shl, Wide;
    var b0, b1, b2, b3 := Wide(data[p]), Wide(data[p + 1]), Wide(data[p + 2]), Wide(data[p + 3]);
    PlainFour(l, data[p..p + 4]);
    ByteMoves(data[p + 1]);
    ByteMoves(data[p + 2]);
    ByteMoves(data[p + 3]);
    var s1 := Xor(l, b0);
    ZeroLinear(s1, Shl(b1, 8));
    var s2 := Xor(s1, Shl(b1, 8));
    FewZeros(s2);
    FewZeros(Shl(b2, 16));
    ZerosLinear(s2, Shl(b2, 16), 2);
    var s3 := Xor(s2, Shl(b2, 16));
    FewZeros(s3);
    FewZeros(Shl(b3, 24));
    ZerosLinear(s3, Shl(b3, 24), 3);
    var s4 := Xor(s3, Shl(b3, 24));
    FewZeros(s4);
    XorCommutes(l, b0);
    assert s1 == Xor(b0, l);
    XorMove(b0, l, Shl(b1, 8));
    XorMove(Xor(b0, Shl(b1, 8)), l, Shl(b2, 16));
    XorMove(Xor(Xor(b0, Shl(b1, 8)), Shl(b2, 16)), l, Shl(b3, 24));
  }

  lemma XorMove(a: bv32, l: bv32, b: bv32)
    ensures Xor(Xor(a, l), b) == Xor(Xor(a, b), l)
  {
    hide Xor;
    XorAssociates(a, l, b);
    XorCommutes(l, b);
    XorAssociates(a, b, l);
  }

  lemma FewZeros(x: bv32)
    ensures Zeros(x, 1) == Zero(x) && Zeros(x, 2) == Zero(Zero(x)) && Zeros(x, 3) == Zero(Zero(Zero(x)))
            && Zeros(x, 4) == Zero(Zero(Zero(Zero(x))))
  {
    hide Zero;
    assert Zeros(x, 1) == Zero(Zeros(x, 0));
    assert Zeros(x, 2) == Zero(Zeros(x, 1));
    assert Zeros(x, 3) == Zero(Zeros(x, 2));
  }

  lemma PlainFour(l: bv32, d: seq<Byte>)
    requires |d| == 4
    ensures Plain(l, d) == Zero(Xor(Zero(Xor(Zero(Xor(Zero(Xor(l, Wide(d[0]))), Wide(d[1]))), Wide(d[2]))), Wide(d[3])))
  {
    hide Zero, Xor, Wide;
    assert d[..3][..2] == d[..2] && d[..2][..1] == d[..1] && d[..1][..0] == [];
    assert Plain(l, d[..1]) == Zero(Xor(l, Wide(d[0])));
    assert Plain(l, d[..2]) == Zero(Xor(Plain(l, d[..1]), Wide(d[1])));
    assert Plain(l, d[..3]) == Zero(Xor(Plain(l, d[..2]), Wide(d[2])));
  }

  // ---------------------------------------------------------------------------------------------
  // Four partial states
  // ---------------------------------------------------------------------------------------------

  /** The state that four partial states stand for. */
  function Combine(c0: bv32, c1: bv32, c2: bv32, c3: bv32): bv32 {
    Xor(Xor(Xor(Zeros(c0, 16), Zeros(c1, 12)), Zeros(c2, 8)), Zeros(c3, 4))
  }

  /** Four words, one after the other. */
  function Fold4(l: bv32, w0: bv32, w1: bv32, w2: bv32, w3: bv32): bv32 {
    Zeros(Xor(w3, Zeros(Xor(w2, Zeros(Xor(w1, Zeros(Xor(w0, l), 4)), 4)), 4)), 4)
  }

  lemma Fold4IsCombine(l: bv32, w0: bv32, w1: bv32, w2: bv32, w3: bv32)
    ensures Fold4(l, w0, w1, w2, w3) == Combine(Xor(w0, l), w1, w2, w3)
  {
    hide Zeros, Xor;
    var c0 := Xor(w0, l);
    var s1 := Zeros(c0, 4);
    ZerosLinear(w1, s1, 4);
    ZerosAdd(c0, 4, 4);
    XorCommutes(Zeros(w1, 4), Zeros(c0, 8));
    var s2 := Xor(Zeros(c0, 8), Zeros(w1, 4));
    ZerosLinear(w2, s2, 4);
    ZerosLinear(Zeros(c0, 8), Zeros(w1, 4), 4);
    ZerosAdd(c0, 8, 4);
    ZerosAdd(w1, 4, 4);
    XorCommutes(Zeros(w2, 4), Xor(Zeros(c0, 12), Zeros(w1, 8)));
    var s3 := Xor(Xor(Zeros(c0, 12), Zeros(w1, 8)), Zeros(w2, 4));
    ZerosLinear(w3, s3, 4);
    ZerosLinear(Xor(Zeros(c0, 12), Zeros(w1, 8)), Zeros(w2, 4), 4);
    ZerosLinear(Zeros(c0, 12), Zeros(w1, 8), 4);
    ZerosAdd(c0, 12, 4);
    ZerosAdd(w1, 8, 4);
    ZerosAdd(w2, 4, 4);
    XorCommutes(Zeros(w3, 4), Xor(Xor(Zeros(c0, 16), Zeros(w1, 12)), Zeros(w2, 8)));
  }

  lemma CombineLinear(a0: bv32, a1: bv32, a2: bv32, a3: bv32, b0: bv32, b1: bv32, b2: bv32, b3: bv32)
    ensures Combine(Xor(a0, b0), Xor(a1, b1), Xor(a2, b2), Xor(a3, b3)) ==
            Xor(Combine(a0, a1, a2, a3), Combine(b0, b1, b2, b3))
  {
    hide Zeros, Xor;
    ZerosLinear(a0, b0, 16);
    ZerosLinear(a1, b1, 12);
    ZerosLinear(a2, b2, 8);
    ZerosLinear(a3, b3, 4);
    var p, q, r, s := Zeros(a0, 16), Zeros(a1, 12), Zeros(a2, 8), Zeros(a3, 4);
    var t, u, v, w := Zeros(b0, 16), Zeros(b1, 12), Zeros(b2, 8), Zeros(b3, 4);
    XorTwos(p, q, t, u);
    XorTwos(Xor(p, q), r, Xor(t, u), v);
    XorTwos(Xor(Xor(p, q), r), s, Xor(Xor(t, u), v), w);
  }

  lemma CombineZeros(c0: bv32, c1: bv32, c2: bv32, c3: bv32, n: nat)
    ensures Combine(Zeros(c0, n), Zeros(c1, n), Zeros(c2, n), Zeros(c3, n)) == Zeros(Combine(c0, c1, c2, c3), n)
  {
    hide Zeros, Xor;
    ZerosAdd(c0, n, 16);
    ZerosAdd(c0, 16, n);
    ZerosAdd(c1, n, 12);
    ZerosAdd(c1, 12, n);
    ZerosAdd(c2, n, 8);
    ZerosAdd(c2, 8, n);
    ZerosAdd(c3, n, 4);
    ZerosAdd(c3, 4, n);
    ZerosLinear(Zeros(c0, 16), Zeros(c1, 12), n);
    ZerosLinear(Xor(Zeros(c0, 16), Zeros(c1, 12)), Zeros(c2, 8), n);
    ZerosLinear(Xor(Xor(Zeros(c0, 16), Zeros(c1, 12)), Zeros(c2, 8)), Zeros(c3, 4), n);
  }

  /** One swath: each partial state takes its word. */
  lemma SwathStep(c0: bv32, c1: bv32, c2: bv32, c3: bv32, w0: bv32, w1: bv32, w2: bv32, w3: bv32)
    ensures Combine(Xor(w0, Zeros(c0, 16)), Xor(w1, Zeros(c1, 16)), Xor(w2, Zeros(c2, 16)), Xor(w3, Zeros(c3, 16))) ==
            Fold4(Combine(c0, c1, c2, c3), w0, w1, w2, w3)
  {
    var c := Combine(c0, c1, c2, c3);
    CombineLinear(w0, w1, w2, w3, Zeros(c0, 16), Zeros(c1, 16), Zeros(c2, 16), Zeros(c3, 16));
    CombineZeros(c0, c1, c2, c3, 16);
    Fold4IsCombine(c, w0, w1, w2, w3);
    CombineLinear(w0, w1, w2, w3, c, 0, 0, 0);
    XorSelf(w1);
    XorSelf(w2);
    XorSelf(w3);
    ZeroStays(12);
    ZeroStays(8);
    ZeroStays(4);
    hide Zeros, Xor, Fold4;
    XorSelf(Zeros(c, 16));
  }

  lemma {:induction false} ZeroStays(n: nat)
    ensures Zeros(0, n) == 0
  {
    if n > 0 {
      ZeroStays(n - 1);
      ZeroShifts(0);
    }
  }

  /** One word: the first partial state takes it and becomes the last. */
  lemma RotateStep(c0: bv32, c1: bv32, c2: bv32, c3: bv32, w: bv32)
    ensures Combine(c1, c2, c3, Xor(w, Zeros(c0, 16))) == Zeros(Xor(w, Combine(c0, c1, c2, c3)), 4)
  {
    hide Zeros, Xor;
    ZerosLinear(w, Combine(c0, c1, c2, c3), 4);
    ZerosLinear(Xor(Xor(Zeros(c0, 16), Zeros(c1, 12)), Zeros(c2, 8)), Zeros(c3, 4), 4);
    ZerosLinear(Xor(Zeros(c0, 16), Zeros(c1, 12)), Zeros(c2, 8), 4);
    ZerosLinear(Zeros(c0, 16), Zeros(c1, 12), 4);
    ZerosAdd(c0, 16, 4);
    ZerosAdd(c1, 12, 4);
    ZerosAdd(c2, 8, 4);
    ZerosAdd(c3, 4, 4);
    ZerosLinear(w, Zeros(c0, 16), 4);
    XorRotate(Zeros(w, 4), Zeros(c0, 20), Zeros(c1, 16), Zeros(c2, 12), Zeros(c3, 8));
  }

  lemma XorRotate(w: bv32, a: bv32, b: bv32, c: bv32, d: bv32)
    ensures Xor(Xor(Xor(b, c), d), Xor(w, a)) == Xor(w, Xor(Xor(Xor(a, b), c), d))
  {
    hide Xor;
    XorCommutes(Xor(Xor(b, c), d), Xor(w, a));
    XorAssociates(w, a, Xor(Xor(b, c), d));
    XorAssociates(a, Xor(b, c), d);
    XorAssociates(a, b, c);
  }

  /** Sixteen bytes are four words. */
  lemma SwathIsFold(l: bv32, data: seq<Byte>, p: nat)
    requires p + 16 <= |data|
    ensures Plain(l, data[..p + 16]) ==
            Fold4(Plain(l, data[..p]), Word(data, p), Word(data, p + 4), Word(data, p + 8), Word(data, p + 12))
  {
    hide Zeros, Xor, Word, Plain;
    WordOn(l, data, p);
    WordOn(l, data, p + 4);
    WordOn(l, data, p + 8);
    WordOn(l, data, p + 12);
  }

  lemma WordOn(l: bv32, data: seq<Byte>, p: nat)
    requires p + 4 <= |data|
    ensures Plain(l, data[..p + 4]) == Zeros(Xor(Word(data, p), Plain(l, data[..p])), 4)
  {
    hide Zeros, Xor, Word, Plain;
    assert data[..p + 4] == data[..p] + data[p..p + 4];
    PlainConcat(l, data[..p], data[p..p + 4]);
    WordStep(Plain(l, data[..p]), data, p);
  }

  // ---------------------------------------------------------------------------------------------
  // Extend
  // ---------------------------------------------------------------------------------------------

  /** STEP1 on the state reached at `p`. */
  method Step1(l: bv32, data: seq<Byte>, p: nat, ghost start: bv32) returns (r: bv32)
    requires p < |data| && l == Plain(start, data[..p])
    ensures r == Plain(start, data[..p + 1])
  {
    hide Zero, Xor, Wide, Low, Shr8;
    var x := Xor(l, Wide(data[p]));
    LowOfXor(l, data[p]);
    r := Xor(ByteTable(Xor(Low(l), Wide(data[p]))), Shr8(l));
    TableStep(x);
    assert data[..p + 1][..p] == data[..p];
  }

  lemma LowOfXor(l: bv32, b: Byte)
    ensures Low(Xor(l, Wide(b))) == Xor(Low(l), Wide(b)) && Shr8(Xor(l, Wide(b))) == Shr8(l)
  {
  }

  /** STEP4. */
  method Step4(c: bv32, w: bv32) returns (r: bv32)
    ensures r == Xor(w, Zeros(c, 16))
  {
    StrideStep(c);
    hide Zeros, Xor, Low, Octet1, Octet2, Octet3;
    var a, b, d, e := StrideTable(0, Low(c)), StrideTable(8, Octet1(c)), StrideTable(16, Octet2(c)),
      StrideTable(24, Octet3(c));
    r := Xor(Xor(Xor(Xor(w, a), b), d), e);
    XorAssociates(w, a, b);
    XorAssociates(w, Xor(a, b), d);
    XorAssociates(w, Xor(Xor(a, b), d), e);
  }

  /** STEP4W. */
  method Step4W(w: bv32, l: bv32) returns (r: bv32)
    ensures r == Zeros(Xor(w, l), 4)
  {
    hide Zero, Xor, Low, Shr8;
    r := Xor(w, l);
    for i := 0 to 4
      invariant r == Zeros(Xor(w, l), i)
    {
      TableStep(r);
      r := Xor(Shr8(r), ByteTable(Low(r)));
      XorCommutes(Shr8(Zeros(Xor(w, l), i)), ByteTable(Low(Zeros(Xor(w, l), i))));
    }
  }

  /** The striped part, over whole words from `p` on. */
  method Stripe(l: bv32, data: seq<Byte>, p: nat, ghost start: bv32) returns (r: bv32, next: nat)
    requires p + 16 <= |data| && l == Plain(start, data[..p])
    ensures p < next <= |data| && r == Plain(start, data[..next])
  {
    hide Zeros, Xor, Word, Plain, Combine, Fold4;
    SwathIsFold(start, data, p);
    Fold4IsCombine(l, Word(data, p), Word(data, p + 4), Word(data, p + 8), Word(data, p + 12));
    var c0, c1, c2, c3 := Xor(Word(data, p), l), Word(data, p + 4), Word(data, p + 8), Word(data, p + 12);
    next := p + 16;
    while |data| - next >= 16
      invariant p < next <= |data| && Combine(c0, c1, c2, c3) == Plain(start, data[..next])
    {
      SwathIsFold(start, data, next);
      SwathStep(c0, c1, c2, c3, Word(data, next), Word(data, next + 4), Word(data, next + 8), Word(data, next + 12));
      c0 := Step4(c0, Word(data, next));
      c1 := Step4(c1, Word(data, next + 4));
      c2 := Step4(c2, Word(data, next + 8));
      c3 := Step4(c3, Word(data, next + 12));
      next := next + 16;
    }
    while |data| - next >= 4
      invariant p < next <= |data| && Combine(c0, c1, c2, c3) == Plain(start, data[..next])
    {
      WordOn(start, data, next);
      RotateStep(c0, c1, c2, c3, Word(data, next));
      c0 := Step4(c0, Word(data, next));
      c0, c1, c2, c3 := c1, c2, c3, c0;
      next := next + 4;
    }
    r := 0;
    r := Step4W(c0, r);
    r := Step4W(c1, r);
    r := Step4W(c2, r);
    r := Step4W(c3, r);
    assert r == Fold4(0, c0, c1, c2, c3) by {
      FoldSteps(0, c0, c1, c2, c3);
    }
    Fold4IsCombine(0, c0, c1, c2, c3);
    XorSelf(c0);
  }

  lemma FoldSteps(l: bv32, c0: bv32, c1: bv32, c2: bv32, c3: bv32)
    ensures Fold4(l, c0, c1, c2, c3) == Zeros(Xor(c3, Zeros(Xor(c2, Zeros(Xor(c1, Zeros(Xor(c0, l), 4)), 4)), 4)), 4)
  {
  }

  /** Extend, for data that starts at any address modulo four. */
  method Extend(crc: bv32, data: seq<Byte>, address: nat) returns (r: bv32)
    ensures r == Crc(crc, data)
  {
    hide Xor, Plain;
    ghost var start := Xor(crc, XOR);
    var l, p := Xor(crc, XOR), 0;
    assert l == Plain(start, data[..0]) by {
      PlainNone(start, data);
    }
    var x := (address + 3) / 4 * 4 - address;
    if x <= |data| {
      while p != x
        invariant p <= x && l == Plain(start, data[..p])
      {
        l := Step1(l, data, p, start);
        p := p + 1;
      }
    }
    if |data| - p >= 16 {
      l, p := Stripe(l, data, p, start);
    }
    while p != |data|
      invariant p <= |data| && l == Plain(start, data[..p])
    {
      l := Step1(l, data, p, start);
      p := p + 1;
    }
    assert data[..p] == data;
    r := Xor(l, XOR);
  }

  lemma PlainNone(l: bv32, data: seq<Byte>)
    ensures Plain(l, data[..0]) == l
  {
  }
}
