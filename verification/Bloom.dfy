/** Bloom filters: a key that was added is never denied. */
module BloomFilters {
  import opened Coding

  /** Any hash of byte strings. */
  type Hash = Bytes -> uint32

  // ---------------------------------------------------------------------------------------------
  // Bits
  // ---------------------------------------------------------------------------------------------

  /** b & (1 << k) is not zero. */
  predicate TestBit(b: nat, k: nat) {
    if k == 0 then b % 2 == 1 else TestBit(b / 2, k - 1)
  }

  /** b | (1 << k). */
  function SetBit(b: nat, k: nat): nat {
    if k == 0 then b / 2 * 2 + 1 else SetBit(b / 2, k - 1) * 2 + b % 2
  }

  function Pow2(w: nat): (p: nat)
    ensures p >= 1
  {
    if w == 0 then 1 else 2 * Pow2(w - 1)
  }

  lemma {:induction false} SetBitBits(b: nat, k: nat, j: nat)
    ensures TestBit(SetBit(b, k), j) <==> j == k || TestBit(b, j)
    decreases k
  {
    if k > 0 {
      var h := SetBit(b / 2, k - 1);
      assert (h * 2 + b % 2) / 2 == h && (h * 2 + b % 2) % 2 == b % 2;
      if j > 0 {
        SetBitBits(b / 2, k - 1, j - 1);
      }
    } else if j > 0 {
      assert (b / 2 * 2 + 1) / 2 == b / 2;
    }
  }

  lemma {:induction false} SetBitWidth(b: nat, k: nat, w: nat)
    requires k < w && b < Pow2(w)
    ensures SetBit(b, k) < Pow2(w)
    decreases w
  {
    HalfWidth(b, w);
    if k > 0 {
      SetBitWidth(b / 2, k - 1, w - 1);
      Doubled(SetBit(b / 2, k - 1), b % 2, w);
    } else {
      Doubled(b / 2, 1, w);
    }
  }

  lemma HalfWidth(b: nat, w: nat)
    requires w > 0 && b < Pow2(w)
    ensures b / 2 < Pow2(w - 1)
  {
  }

  lemma Doubled(h: nat, r: nat, w: nat)
    requires w > 0 && h < Pow2(w - 1) && r < 2
    ensures h * 2 + r < Pow2(w)
  {
  }

  lemma ByteWidth()
    ensures Pow2(8) == 256
  {
    assert Pow2(4) == 16;
  }

  /** Bit `p` of a bit array. */
  predicate Has(bitArray: Bytes, p: nat)
    requires p < 8 * |bitArray|
  {
    TestBit(bitArray[p / 8], p % 8)
  }

  function SetAt(bitArray: Bytes, p: nat): (r: Bytes)
    requires p < 8 * |bitArray|
    ensures |r| == |bitArray|
  {
    ByteWidth();
    SetBitWidth(bitArray[p / 8], p % 8, 8);
    bitArray[p / 8 := SetBit(bitArray[p / 8], p % 8)]
  }

  lemma SetAtBits(bitArray: Bytes, p: nat, q: nat)
    requires p < 8 * |bitArray| && q < 8 * |bitArray|
    ensures Has(SetAt(bitArray, p), q) <==> q == p || Has(bitArray, q)
  {
    SetBitBits(bitArray[p / 8], p % 8, q % 8);
  }

  // ---------------------------------------------------------------------------------------------
  // The filter
  // ---------------------------------------------------------------------------------------------

  /** Rotate right by 17 bits. */
  function Delta(h: uint32): uint32 {
    h / 0x2_0000 + h % 0x2_0000 * 0x8000
  }

  /** The j-th probe of a hash, in 32 bits. */
  function Probe(h: uint32, j: nat): uint32 {
    if j == 0 then h else (Probe(h, j - 1) + Delta(h)) % TWO32
  }

  lemma {:induction false} ProbeSum(h: uint32, j: nat, d: nat)
    requires d == Delta(h)
    ensures Probe(h, j) == (h + j * d) % TWO32
    decreases j
  {
    hide Delta;
    if j > 0 {
      ProbeSum(h, j - 1, d);
      ModSum(h + (j - 1) * d, d);
      MulStep(j, d);
    }
  }

  lemma MulStep(j: nat, d: nat)
    requires j > 0
    ensures (j - 1) * d + d == j * d
  {
  }

  /** A probe is the hash plus a multiple of its rotation by 17 bits. */
  lemma ProbeIs(h: uint32, j: nat)
    ensures Probe(h, j) == (h + j * ((h / 0x2_0000 + h % 0x2_0000 * 0x8000) as int)) % TWO32
  {
    ProbeSum(h, j, Delta(h));
    hide Probe;
  }

  lemma ModSum(a: nat, d: nat)
    ensures (a % TWO32 + d) % TWO32 == (a + d) % TWO32
  {
    var q := a / TWO32;
    assert a == q * TWO32 + a % TWO32;
    assert (a % TWO32 + d + q * TWO32) % TWO32 == (a % TWO32 + d) % TWO32;
  }

  /** Bit `p` of an array of so many bits is one of the first `k` probes of the key. */
  ghost predicate Probed(hash: Hash, key: Bytes, bits: nat, k: nat, p: nat)
    requires bits > 0
  {
    exists j :: 0 <= j < k && Probe(hash(key), j) % bits == p
  }

  lemma ProbedStep(hash: Hash, key: Bytes, bits: nat, k: nat, p: nat)
    requires bits > 0
    ensures Probed(hash, key, bits, k + 1, p) <==> Probed(hash, key, bits, k, p) || Probe(hash(key), k) % bits == p
  {
    hide Probe;
  }

  /** Exactly the probes of the key have been set. */
  ghost predicate Added(hash: Hash, key: Bytes, was: Bytes, now: Bytes, k: nat) {
    && |now| == |was| > 0
    && forall p :: 0 <= p < 8 * |was| ==> (Has(now, p) <==> Has(was, p) || Probed(hash, key, 8 * |was|, k, p))
  }

  /** The bits set are the probes of the keys. */
  ghost predicate Exactly(hash: Hash, keys: seq<Bytes>, bitArray: Bytes, k: nat) {
    && bitArray != []
    && forall p :: 0 <= p < 8 * |bitArray| ==>
         (Has(bitArray, p) <==> exists i :: 0 <= i < |keys| && Probed(hash, keys[i], 8 * |bitArray|, k, p))
  }

  lemma ExactlyMore(hash: Hash, keys: seq<Bytes>, key: Bytes, was: Bytes, now: Bytes, k: nat)
    requires Exactly(hash, keys, was, k) && Added(hash, key, was, now, k)
    ensures Exactly(hash, keys + [key], now, k)
  {
    hide Has, Probed;
    var more, bits := keys + [key], 8 * |was|;
    forall p | 0 <= p < bits
      ensures Has(now, p) <==> exists i :: 0 <= i < |more| && Probed(hash, more[i], bits, k, p)
    {
      if Has(was, p) {
        var i :| 0 <= i < |keys| && Probed(hash, keys[i], bits, k, p);
        assert more[i] == keys[i];
      }
      if Probed(hash, key, bits, k, p) {
        assert more[|keys|] == key;
      }
      if i :| 0 <= i < |more| && Probed(hash, more[i], bits, k, p) {
        assert i < |keys| ==> more[i] == keys[i];
      }
    }
  }

  lemma NothingSet(hash: Hash, bytes: nat, k: nat)
    requires bytes > 0
    ensures Exactly(hash, [], seq(bytes, _ => 0), k)
  {
    var zeros: Bytes := seq(bytes, _ => 0);
    forall p | 0 <= p < 8 * bytes ensures !Has(zeros, p) {
      ZeroBits(p % 8);
    }
  }

  lemma {:induction false} ZeroBits(k: nat)
    ensures !TestBit(0, k)
    decreases k
  {
    if k > 0 {
      ZeroBits(k - 1);
    }
  }

  /** Bit `k` in terms of powers of two. */
  lemma {:induction false} TestBitIs(b: nat, k: nat)
    ensures TestBit(b, k) <==> b / Pow2(k) % 2 == 1
    decreases k
  {
    if k > 0 {
      TestBitIs(b / 2, k - 1);
      DivTwice(b, 2, Pow2(k - 1));
    }
  }

  /** The first `k` probes of the key are set. */
  ghost predicate AllSet(hash: Hash, key: Bytes, bitArray: Bytes, k: nat) {
    bitArray != [] && forall j :: 0 <= j < k ==> ProbeSet(hash, key, bitArray, j)
  }

  ghost predicate ProbeSet(hash: Hash, key: Bytes, bitArray: Bytes, j: nat)
    requires bitArray != []
  {
    Has(bitArray, Probe(hash(key), j) % (8 * |bitArray|))
  }

  /** Every bit of one array is in another of the same length. */
  ghost predicate Within(a: Bytes, b: Bytes) {
    |a| == |b| && forall p :: 0 <= p < 8 * |a| && Has(a, p) ==> Has(b, p)
  }

  lemma MoreBits(hash: Hash, key: Bytes, a: Bytes, b: Bytes, k: nat)
    requires AllSet(hash, key, a, k) && Within(a, b)
    ensures AllSet(hash, key, b, k)
  {
    forall j | 0 <= j < k ensures ProbeSet(hash, key, b, j) {
      assert ProbeSet(hash, key, a, j);
    }
  }

  lemma AddedStep(hash: Hash, key: Bytes, first: Bytes, was: Bytes, now: Bytes, j: nat, bit: nat)
    requires Added(hash, key, first, was, j) && |now| == |was| && bit == Probe(hash(key), j) % (8 * |first|)
    requires forall p :: 0 <= p < 8 * |was| ==> (Has(now, p) <==> p == bit || Has(was, p))
    ensures Added(hash, key, first, now, j + 1)
  {
    hide Has, Probed, Probe;
    forall p | 0 <= p < 8 * |first|
      ensures Has(now, p) <==> Has(first, p) || Probed(hash, key, 8 * |first|, j + 1, p)
    {
      ProbedStep(hash, key, 8 * |first|, j, p);
    }
  }

  /** Sets the probes of one key, and no other bits. */
  method AddKey(hash: Hash, key: Bytes, bitArray: Bytes, k: nat) returns (r: Bytes)
    requires bitArray != []
    ensures Within(bitArray, r) && AllSet(hash, key, r, k) && Added(hash, key, bitArray, r, k)
  {
    r := bitArray;
    var h := hash(key);
    var delta := Delta(h);
    var bits := 8 * |bitArray|;
    for j := 0 to k
      invariant Within(bitArray, r) && AllSet(hash, key, r, j) && h == Probe(hash(key), j)
      invariant Added(hash, key, bitArray, r, j)
    {
      hide TestBit, SetBit, SetAt, Has;
      ghost var was := r;
      var bitpos := h % bits;
      forall p | 0 <= p < bits ensures Has(SetAt(was, bitpos), p) <==> p == bitpos || Has(was, p) {
        SetAtBits(was, bitpos, p);
      }
      r := SetAt(r, bitpos);
      AddedStep(hash, key, bitArray, was, r, j, bitpos);
      MoreBits(hash, key, was, r, j);
      assert ProbeSet(hash, key, r, j);
      h := (h + delta) % TWO32;
    }
  }

  /** The number of probes for a number of bits per key, between 1 and 30. */
  ghost predicate ProbesOk(k: nat) {
    1 <= k <= 30
  }

  /** The filter of the keys: at least 64 bits, of which exactly those that a key probes are set, and the number of
      probes. */
  ghost predicate FilterOf(hash: Hash, keys: seq<Bytes>, bitsPerKey: nat, k: nat, filter: Bytes) {
    var bits := if |keys| * bitsPerKey < 64 then 64 else |keys| * bitsPerKey;
    var bytes := (bits + 7) / 8;
    && |filter| == bytes + 1 && filter[bytes] == k
    && Exactly(hash, keys, filter[..bytes], k)
  }

  /** BloomFilterPolicy::CreateFilter: the bit array and the number of probes. */
  method CreateFilter(hash: Hash, keys: seq<Bytes>, bitsPerKey: nat, k: nat) returns (filter: Bytes)
    requires ProbesOk(k)
    ensures forall i :: 0 <= i < |keys| ==> MayMatch(hash, keys[i], filter)
    ensures FilterOf(hash, keys, bitsPerKey, k, filter)
  {
    var bits := |keys| * bitsPerKey;
    if bits < 64 {
      bits := 64;
    }
    var bytes := (bits + 7) / 8;
    var bitArray: Bytes := seq(bytes, _ => 0);
    NothingSet(hash, bytes, k);
    for i := 0 to |keys|
      invariant Exactly(hash, keys[..i], bitArray, k)
      invariant |bitArray| == bytes && forall m :: 0 <= m < i ==> AllSet(hash, keys[m], bitArray, k)
    {
      hide AllSet, Within, TestBit, Has, Added, Exactly;
      ghost var was := bitArray;
      bitArray := AddKey(hash, keys[i], bitArray, k);
      SameLength(was, bitArray);
      ExactlyMore(hash, keys[..i], keys[i], was, bitArray, k);
      assert keys[..i] + [keys[i]] == keys[..i + 1];
      forall m | 0 <= m < i ensures AllSet(hash, keys[m], bitArray, k) {
        MoreBits(hash, keys[m], was, bitArray, k);
      }
    }
    filter := bitArray + [k];
    assert filter[..bytes] == bitArray && keys[..|keys|] == keys;
    forall i | 0 <= i < |keys| ensures MayMatch(hash, keys[i], filter) {
      MatchesItsKeys(hash, keys[i], bitArray, k);
    }
  }

  lemma SameLength(a: Bytes, b: Bytes)
    requires Within(a, b)
    ensures |a| == |b|
  {
  }

  /** What KeyMayMatch answers. */
  ghost predicate MayMatch(hash: Hash, key: Bytes, filter: Bytes) {
    && |filter| >= 2
    && (filter[|filter| - 1] > 30 || AllSet(hash, key, filter[..|filter| - 1], filter[|filter| - 1]))
  }

  lemma MatchesItsKeys(hash: Hash, key: Bytes, bitArray: Bytes, k: nat)
    requires bitArray != [] && k < 256 && AllSet(hash, key, bitArray, k)
    ensures MayMatch(hash, key, bitArray + [k])
  {
    assert (bitArray + [k])[..|bitArray|] == bitArray;
  }

  /** It is yes exactly for an unknown number of probes or if all probes of the key are set. */
  lemma MayMatchIs(hash: Hash, key: Bytes, bitArray: Bytes, k: nat)
    requires bitArray != [] && k < 256
    ensures !MayMatch(hash, key, []) && !MayMatch(hash, key, [k])
    ensures MayMatch(hash, key, bitArray + [k]) <==>
            k > 30 || forall p :: Probed(hash, key, 8 * |bitArray|, k, p) ==> Has(bitArray, p)
  {
    hide Has, Probe;
    var bits := 8 * |bitArray|;
    assert (bitArray + [k])[..|bitArray|] == bitArray;
    if AllSet(hash, key, bitArray, k) {
      forall p | Probed(hash, key, bits, k, p) ensures Has(bitArray, p) {
        var j :| 0 <= j < k && Probe(hash(key), j) % bits == p;
        assert ProbeSet(hash, key, bitArray, j);
      }
    }
    if forall p :: Probed(hash, key, bits, k, p) ==> Has(bitArray, p) {
      forall j | 0 <= j < k ensures ProbeSet(hash, key, bitArray, j) {
        assert Probed(hash, key, bits, k, Probe(hash(key), j) % bits);
      }
    }
  }

  method KeyMayMatch(hash: Hash, key: Bytes, filter: Bytes) returns (r: bool)
    ensures r <==> MayMatch(hash, key, filter)
  {
    var len := |filter|;
    if len < 2 {
      return false;
    }
    var bitArray := filter[..len - 1];
    var bits := (len - 1) * 8;
    var k := filter[len - 1];
    if k > 30 {
      return true;
    }
    var h := hash(key);
    var delta := Delta(h);
    for j := 0 to k
      invariant h == Probe(hash(key), j) && AllSet(hash, key, bitArray, j)
    {
      var bitpos := h % bits;
      if !TestBit(filter[bitpos / 8], bitpos % 8) {
        assert !ProbeSet(hash, key, bitArray, j);
        return false;
      }
      assert ProbeSet(hash, key, bitArray, j);
      h := (h + delta) % TWO32;
    }
    return true;
  }
}
