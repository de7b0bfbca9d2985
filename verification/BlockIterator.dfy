/** Block and Block::Iter: walking and seeking the entries of a block from its bytes. */
module BlockIterator {
  import opened Options
  import opened Coding
  import opened BlockFormat

  /** A strict total order on keys. */
  ghost predicate StrictOrder(less: (Bytes, Bytes) -> bool) {
    (forall a :: !less(a, a)) && (forall a, b, c :: less(a, b) && less(b, c) ==> less(a, c))
  }

  ghost predicate Increasing(less: (Bytes, Bytes) -> bool, es: seq<KV>) {
    forall i, j :: 0 <= i < j < |es| ==> less(es[i].key, es[j].key)
  }

  // ---------------------------------------------------------------------------------------------
  // Decoding one entry
  // ---------------------------------------------------------------------------------------------

  /** shared, non-shared and value lengths, and where the key delta begins. */
  datatype Header = Header(shared: nat, nonShared: nat, valueLength: nat, start: nat)

  /** DecodeEntry on data[p..limit]. */
  function DecodeEntry(data: Bytes, p: nat, limit: nat): (r: Option<Header>)
    requires p <= limit <= |data|
    ensures r.Some? ==> p < r.value.start && r.value.start + r.value.nonShared + r.value.valueLength <= limit
  {
    if limit - p < 3 then None
    else if data[p] < 128 && data[p + 1] < 128 && data[p + 2] < 128 then
      Checked(Header(data[p], data[p + 1], data[p + 2], p + 3), limit)
    else
      match GetVarint32(data[p..limit])
      case None => None
      case Some((shared, r1)) =>
        match GetVarint32(r1)
        case None => None
        case Some((nonShared, r2)) =>
          match GetVarint32(r2)
          case None => None
          case Some((valueLength, r3)) => Checked(Header(shared, nonShared, valueLength, limit - |r3|), limit)
  }

  /** The check at the end of DecodeEntry, whose sum of the two lengths is a 32-bit one; sizes here are below that. */
  function Checked(h: Header, limit: nat): (r: Option<Header>)
    ensures r.Some? ==> r.value == h && h.start + h.nonShared + h.valueLength <= limit
  {
    if h.start <= limit && h.nonShared + h.valueLength <= limit - h.start then Some(h) else None
  }

  lemma SmallVarint(n: nat, rest: Bytes)
    requires n < 128
    ensures Varint(n) == [n] && (Varint(n) + rest)[1..] == rest
  {
  }

  lemma BigVarint(n: nat)
    requires n >= 128
    ensures Varint(n)[0] >= 128
  {
  }

  /** Decoding what the builder wrote. */
  lemma DecodeEncoded(data: Bytes, p: nat, limit: nat, shared: nat, e: KV)
    requires p <= limit <= |data| && shared <= |e.key| < TWO32 && |e.value| < TWO32
    requires p + |EncodeEntry(shared, e)| <= limit && data[p..p + |EncodeEntry(shared, e)|] == EncodeEntry(shared, e)
    ensures var start := p + |EncodeEntry(shared, e)| - (|e.key| - shared) - |e.value|;
            && DecodeEntry(data, p, limit) == Some(Header(shared, |e.key| - shared, |e.value|, start))
            && data[start..start + |e.key| - shared] == e.key[shared..]
            && data[start + |e.key| - shared..start + |e.key| - shared + |e.value|] == e.value
  {
    hide Varint, GetVarint32;
    var a, b, c := Varint(shared), Varint(|e.key| - shared), Varint(|e.value|);
    var bytes := EncodeEntry(shared, e);
    var tail := data[p + |bytes|..limit];
    var r3 := e.key[shared..] + e.value + tail;
    assert data[p..limit] == bytes + tail;
    assert bytes + tail == a + (b + (c + r3));
    Varint32RoundTrip(shared, b + (c + r3));
    Varint32RoundTrip(|e.key| - shared, c + r3);
    Varint32RoundTrip(|e.value|, r3);
    Pieces(data, p, bytes, a + b + c, e.key[shared..], e.value);
    FastPath(shared, |e.key| - shared, |e.value|, data[p..limit], r3);
    assert data[p] == data[p..limit][0] && data[p + 1] == data[p..limit][1] && data[p + 2] == data[p..limit][2];
  }

  lemma Pieces(data: Bytes, p: nat, bytes: Bytes, head: Bytes, k: Bytes, v: Bytes)
    requires p + |bytes| <= |data| && data[p..p + |bytes|] == bytes && bytes == head + k + v
    ensures var start := p + |bytes| - |k| - |v|;
            start == p + |head| && data[start..start + |k|] == k && data[start + |k|..start + |k| + |v|] == v
  {
    var start := p + |head|;
    assert data[start..start + |k|] == data[p..p + |bytes|][|head|..|head| + |k|] == bytes[|head|..|head| + |k|];
    assert data[start + |k|..start + |k| + |v|] == data[p..p + |bytes|][|head| + |k|..] == bytes[|head| + |k|..];
  }

  /** The one-byte fast path is taken exactly when all three lengths fit a byte. */
  lemma FastPath(x: nat, y: nat, z: nat, s: Bytes, rest: Bytes)
    requires s == Varint(x) + (Varint(y) + (Varint(z) + rest))
    ensures |s| >= 3
    ensures (s[0] < 128 && s[1] < 128 && s[2] < 128) <==> (x < 128 && y < 128 && z < 128)
    ensures x < 128 && y < 128 && z < 128 ==>
            s[0] == x && s[1] == y && s[2] == z && |Varint(x)| == |Varint(y)| == |Varint(z)| == 1
  {
    hide Varint;
    if x < 128 {
      SmallVarint(x, Varint(y) + (Varint(z) + rest));
      if y < 128 {
        SmallVarint(y, Varint(z) + rest);
        if z < 128 {
          SmallVarint(z, rest);
        } else {
          BigVarint(z);
        }
      } else {
        BigVarint(y);
      }
    } else {
      BigVarint(x);
    }
  }

  // ---------------------------------------------------------------------------------------------
  // Where things are in a finished block
  // ---------------------------------------------------------------------------------------------

  lemma {:induction false} Fixed32At(ns: seq<nat>, k: nat)
    requires forall i :: 0 <= i < |ns| ==> ns[i] < TWO32
    requires k < |ns|
    ensures Fixed32s(ns)[4 * k..4 * k + 4] == EncodeFixed32(ns[k])
    decreases ns
  {
    var init := ns[..|ns| - 1];
    if k < |init| {
      Fixed32At(init, k);
      assert Fixed32s(ns)[4 * k..4 * k + 4] == Fixed32s(init)[4 * k..4 * k + 4];
    }
  }

  lemma RestartSlice(rs: seq<nat>, before: Bytes, after: Bytes, k: nat)
    requires forall i :: 0 <= i < |rs| ==> rs[i] < TWO32
    requires k < |rs|
    ensures var data, r := before + Fixed32s(rs) + after, |before| + 4 * k;
            r + 4 <= |data| && DecodeFixed32(data[r..r + 4]) == rs[k]
  {
    hide EncodeFixed32, DecodeFixed32;
    Fixed32At(rs, k);
    Fixed32RoundTrip(rs[k]);
    hide Fixed32s;
    var data, r := before + Fixed32s(rs) + after, |before| + 4 * k;
    assert data[r..r + 4] == Fixed32s(rs)[4 * k..4 * k + 4];
  }

  /** Restart point `k` as the array holds it. */
  lemma RestartAt(interval: nat, es: seq<KV>, k: nat)
    requires interval > 0 && Small(interval, es) && k < NumRestarts(interval, |es|)
    ensures var data, r := Contents(interval, es), |Buffer(interval, es)| + 4 * k;
            r + 4 <= |data| && k * interval <= |es|
              && DecodeFixed32(data[r..r + 4]) == Offset(interval, es, k * interval)
  {
    RestartsSmall(interval, es);
    RestartInside(interval, |es|, k);
    var rs := Restarts(interval, es);
    assert rs[k] == Offset(interval, es, k * interval);
    hide Buffer, Restarts, Fixed32s, EncodeFixed32, DecodeFixed32, NumRestarts;
    RestartSlice(rs, Buffer(interval, es), EncodeFixed32(|rs|), k);
  }

  lemma CountAt(interval: nat, es: seq<KV>)
    requires interval > 0 && Small(interval, es)
    ensures var data := Contents(interval, es);
            && |data| == |Buffer(interval, es)| + 4 * NumRestarts(interval, |es|) + 4
            && DecodeFixed32(data[|data| - 4..]) == NumRestarts(interval, |es|)
  {
    RestartsSmall(interval, es);
    var rs := Restarts(interval, es);
    hide Small, Buffer, Restarts, Fixed32s, EncodeFixed32, DecodeFixed32, NumRestarts;
    Fixed32RoundTrip(|rs|);
    Tail(Buffer(interval, es) + Fixed32s(rs), EncodeFixed32(|rs|));
  }

  lemma Tail(a: Bytes, b: Bytes)
    ensures |a + b| == |a| + |b| && (a + b)[|a + b| - |b|..] == b
  {
  }

  lemma OffsetStep(interval: nat, es: seq<KV>, i: nat)
    requires interval > 0 && i < |es|
    ensures Shared(interval, es, i) <= |es[i].key|
    ensures Buffer(interval, es[..i + 1]) == Buffer(interval, es[..i]) + EncodeEntry(Shared(interval, es, i), es[i])
  {
    hide EncodeEntry, Shared;
    assert es[..i + 1][..i] == es[..i];
    SharedPrefix(interval, es, i);
    SharedWithin(interval, es, i);
  }

  /** A key is no longer than all the key bytes written up to it. */
  lemma {:induction false} KeyShort(interval: nat, es: seq<KV>, i: nat)
    requires interval > 0 && i < |es|
    ensures |es[i].key| <= Offset(interval, es, i + 1) && |es[i].value| <= Offset(interval, es, i + 1)
  {
    hide EncodeEntry, Shared, Buffer;
    OffsetStep(interval, es, i);
    EntryLong(Shared(interval, es, i), es[i]);
    SharedWithin(interval, es, i);
    if i > 0 {
      KeyShort(interval, es, i - 1);
    } else {
      NothingShared(interval, es);
    }
  }

  lemma NothingShared(interval: nat, es: seq<KV>)
    requires interval > 0 && es != []
    ensures Shared(interval, es, 0) == 0
  {
    DivUnique(interval, 0, 0, 0);
  }

  /** The bytes of entry `i`. */
  lemma EntryAt(interval: nat, es: seq<KV>, i: nat)
    requires interval > 0 && Small(interval, es) && i < |es|
    ensures var data, p, q := Contents(interval, es), Offset(interval, es, i), Offset(interval, es, i + 1);
            && p < q <= |Buffer(interval, es)| <= |data|
            && Shared(interval, es, i) <= |es[i].key|
            && data[p..q] == EncodeEntry(Shared(interval, es, i), es[i])
            && |es[i].key| < TWO32 && |es[i].value| < TWO32
  {
    hide EncodeEntry, Shared, Buffer, Restarts;
    OffsetsAscend(interval, es, i + 1, |es|);
    assert es[..|es|] == es;
    OffsetStep(interval, es, i);
    KeyShort(interval, es, i);
    RestartsSmall(interval, es);
    Middle(Contents(interval, es), Buffer(interval, es), Buffer(interval, es[..i + 1]), Buffer(interval, es[..i]),
           EncodeEntry(Shared(interval, es, i), es[i]));
  }

  lemma Middle(data: Bytes, all: Bytes, upTo: Bytes, before: Bytes, e: Bytes)
    requires all <= data && upTo <= all && upTo == before + e
    ensures data[|before|..|upTo|] == e
  {
  }

  lemma SharedPrefix(interval: nat, es: seq<KV>, i: nat)
    requires interval > 0 && i < |es|
    ensures Shared(interval, es[..i + 1], i) == Shared(interval, es, i)
  {
  }

  lemma SharedWithin(interval: nat, es: seq<KV>, i: nat)
    requires interval > 0 && i < |es|
    ensures Shared(interval, es, i) <= |es[i].key|
    ensures i > 0 ==> Shared(interval, es, i) <= |es[i - 1].key|
  {
  }

  lemma EntryLong(shared: nat, e: KV)
    requires shared <= |e.key|
    ensures |EncodeEntry(shared, e)| >= |e.key| - shared + |e.value|
  {
  }

  /** What DecodeEntry finds at the place of entry `i`. */
  lemma EntryDecodes(interval: nat, es: seq<KV>, i: nat)
    requires interval > 0 && Small(interval, es) && i < |es|
    ensures var data, p, limit := Contents(interval, es), Offset(interval, es, i), |Buffer(interval, es)|;
            var n := Shared(interval, es, i);
            && p <= limit <= |data| && n <= |es[i].key|
            && var d := DecodeEntry(data, p, limit);
               && d.Some? && d.value.shared == n
               && data[d.value.start..d.value.start + d.value.nonShared] == es[i].key[n..]
               && d.value.start + d.value.nonShared + d.value.valueLength == Offset(interval, es, i + 1) <= limit
               && data[d.value.start + d.value.nonShared..Offset(interval, es, i + 1)] == es[i].value
  {
    hide Small, Contents, Shared, Buffer, EncodeEntry, DecodeEntry;
    EntryAt(interval, es, i);
    DecodeEncoded(Contents(interval, es), Offset(interval, es, i), |Buffer(interval, es)|, Shared(interval, es, i),
      es[i]);
  }

  lemma OffsetOrder(interval: nat, es: seq<KV>, i: nat, j: nat)
    requires interval > 0 && i <= |es| && j <= |es|
    ensures Offset(interval, es, i) < Offset(interval, es, j) <==> i < j
  {
    if i < j {
      OffsetsAscend(interval, es, i, j);
    } else {
      OffsetsAscend(interval, es, j, i);
    }
  }

  lemma LastOffset(interval: nat, es: seq<KV>)
    requires interval > 0
    ensures Offset(interval, es, |es|) == |Buffer(interval, es)| && Offset(interval, es, 0) == 0
  {
    assert es[..|es|] == es;
  }

  /** Every entry is before the restart point after the last one. */
  lemma RestartsReach(interval: nat, n: nat, i: nat)
    requires interval > 0 && i < n
    ensures i < NumRestarts(interval, n) * interval
  {
    var q, r := (n - 1) / interval, (n - 1) % interval;
    assert n - 1 == q * interval + r;
    assert (q + 1) * interval == q * interval + interval;
  }

  /** A restart point shares nothing. */
  lemma RestartSharesNothing(interval: nat, es: seq<KV>, k: nat)
    requires interval > 0 && k * interval < |es|
    ensures Shared(interval, es, k * interval) == 0
  {
    DivUnique(interval, k * interval, k, 0);
  }

  lemma MoreThanOne(interval: nat, n: nat)
    requires interval > 0 && NumRestarts(interval, n) > 1
    ensures n > 0
  {
  }

  // ---------------------------------------------------------------------------------------------
  // The iterator
  // ---------------------------------------------------------------------------------------------

  class BlockIter {
    const less: (Bytes, Bytes) -> bool
    const data: Bytes
    const restarts: nat
    const numRestarts: nat
    ghost const interval: nat
    ghost const es: seq<KV>
    var current: nat
    var restartIndex: nat
    var key: Bytes
    var valueStart: nat
    var valueLength: nat
    var corrupt: bool
    /** The entry stood on; their number is the invalid place. */
    ghost var at: nat

    ghost predicate Shape() {
      && interval > 0 && Small(interval, es) && data == Contents(interval, es)
      && restarts == |Buffer(interval, es)| <= |data| && numRestarts == NumRestarts(interval, |es|)
      && StrictOrder(less) && Increasing(less, es)
    }

    ghost predicate Standing(i: nat)
      requires Shape()
      reads this
    {
      && i < |es| && current == Offset(interval, es, i) && key == es[i].key
      && valueStart + valueLength == Offset(interval, es, i + 1) <= |data|
      && data[valueStart..valueStart + valueLength] == es[i].value
      && restartIndex < numRestarts && restartIndex * interval <= i <= (restartIndex + 1) * interval
    }

    /** The next entry to parse is `i`, and the key has the prefix it shares. */
    ghost predicate Pending(i: nat)
      requires Shape()
      reads this
    {
      && i <= |es| && valueStart + valueLength == Offset(interval, es, i)
      && (i < |es| ==>
            && Shared(interval, es, i) <= |key|
            && key[..Shared(interval, es, i)] == es[i].key[..Shared(interval, es, i)]
            && restartIndex < numRestarts && restartIndex * interval <= i)
    }

    ghost predicate Ok()
      reads this
    {
      && Shape() && at <= |es| && !corrupt
      && (at < |es| ==> Standing(at))
      && (at == |es| ==> current >= restarts)
    }

    predicate Valid()
      reads this
    {
      current < restarts
    }

    /** Block::Block and NewIterator. */
    constructor (less: (Bytes, Bytes) -> bool, data: Bytes, ghost interval: nat, ghost es: seq<KV>)
      requires interval > 0 && Small(interval, es) && data == Contents(interval, es)
      requires StrictOrder(less) && Increasing(less, es)
      ensures Ok() && at == |es| && this.interval == interval && this.es == es && this.less == less
    {
      CountAt(interval, es);
      this.less, this.data := less, data;
      this.interval, this.es := interval, es;
      var n: nat := DecodeFixed32(data[|data| - 4..]);
      numRestarts := n;
      restarts := |data| - (1 + n) * 4;
      current, restartIndex, key, valueStart, valueLength, corrupt := |data| - (1 + n) * 4, n, [], 0, 0, false;
      at := |es|;
    }

    method GetRestartPoint(index: nat) returns (offset: nat)
      requires Shape() && index < numRestarts
      ensures index * interval <= |es| && offset == Offset(interval, es, index * interval)
    {
      hide Small, Contents, Buffer, Shared, Offset, DecodeFixed32, NumRestarts, Increasing, StrictOrder;
      RestartAt(interval, es, index);
      offset := DecodeFixed32(data[restarts + index * 4..restarts + index * 4 + 4]);
    }

    method SeekToRestartPoint(index: nat)
      requires Shape() && index < numRestarts
      modifies this`key, this`restartIndex, this`valueStart, this`valueLength
      ensures index * interval <= |es| && Pending(index * interval)
    {
      hide Small, Contents, Shared;
      key := [];
      restartIndex := index;
      var offset := GetRestartPoint(index);
      valueStart, valueLength := offset, 0;
      if index * interval < |es| {
        RestartSharesNothing(interval, es, index);
      }
    }

    /** Moves restartIndex to the last restart point before the current entry. */
    method AdvanceRestartIndex(ghost i: nat)
      requires Shape() && i < |es| && current == Offset(interval, es, i)
      requires restartIndex < numRestarts && restartIndex * interval <= i
      modifies this`restartIndex
      ensures restartIndex < numRestarts && restartIndex * interval <= i <= (restartIndex + 1) * interval
    {
      hide Small, Contents, Offset, NumRestarts;
      RestartsReach(interval, |es|, i);
      while restartIndex + 1 < numRestarts
        invariant restartIndex < numRestarts && restartIndex * interval <= i
        decreases numRestarts - restartIndex
      {
        var next := GetRestartPoint(restartIndex + 1);
        OffsetOrder(interval, es, (restartIndex + 1) * interval, i);
        if next >= current {
          return;
        }
        restartIndex := restartIndex + 1;
      }
    }

    method ParseNextKey(ghost i: nat) returns (more: bool)
      requires Shape() && Pending(i) && !corrupt
      modifies this
      ensures Ok() && at == i && (more <==> i < |es|)
    {
      hide Small, Contents, Shared, Buffer, EncodeEntry, DecodeEntry, StrictOrder, Increasing, NumRestarts;
      at := i;
      current := valueStart + valueLength;
      LastOffset(interval, es);
      OffsetOrder(interval, es, i, |es|);
      if current >= restarts {
        current, restartIndex := restarts, numRestarts;
        return false;
      }
      EntryDecodes(interval, es, i);
      var h := DecodeEntry(data, current, restarts).value;
      key := key[..h.shared] + data[h.start..h.start + h.nonShared];
      valueStart, valueLength := h.start + h.nonShared, h.valueLength;
      assert key == es[i].key;
      AdvanceRestartIndex(i);
      more := true;
    }

    /** After standing on entry `i`, the next one is pending. */
    lemma NextIsPending(i: nat)
      requires Shape() && Standing(i)
      ensures Pending(i + 1)
    {
      hide Small, Contents, Buffer, EncodeEntry, Common;
    }

    function Current(): (e: KV)
      requires Ok() && at < |es| && Valid()
      reads this
      ensures e == es[at]
    {
      KV(key, data[valueStart..valueStart + valueLength])
    }

    lemma ValidIffAt()
      requires Ok()
      ensures Valid() <==> at < |es|
    {
      hide Small, Contents, Buffer;
      LastOffset(interval, es);
      OffsetOrder(interval, es, at, |es|);
    }

    method SeekToFirst()
      requires Ok()
      modifies this
      ensures Ok() && at == 0
    {
      hide Small, Contents, Buffer, Shared, Offset;
      SeekToRestartPoint(0);
      var _ := ParseNextKey(0);
    }

    method Next()
      requires Ok() && Valid()
      modifies this
      ensures Ok() && at == old(at) + 1
    {
      hide Small, Contents, Buffer, Shared, Offset, Standing, Pending;
      ValidIffAt();
      NextIsPending(at);
      var _ := ParseNextKey(at + 1);
    }

    /** Parses on from entry `i` until the current entry ends at or after `limit`, the place of entry
        `stop + 1`. */
    method ParseUntil(limit: nat, ghost i: nat, ghost stop: nat)
      requires Shape() && Pending(i) && !corrupt
      requires es != [] ==> i <= stop < |es| && limit == Offset(interval, es, stop + 1)
      requires es == [] ==> i == stop == 0
      modifies this
      ensures Ok() && at == stop
    {
      hide Small, Contents, Buffer, Shared, Offset, Pending;
      ghost var j := i;
      var more := ParseNextKey(j);
      if es != [] {
        OffsetOrder(interval, es, j + 1, stop + 1);
      }
      while more && valueStart + valueLength < limit
        invariant Ok() && at == j <= stop && (more <==> es != [])
        invariant more ==> (valueStart + valueLength < limit <==> j < stop)
        decreases stop - j
      {
        NextIsPending(j);
        j := j + 1;
        more := ParseNextKey(j);
        OffsetOrder(interval, es, j + 1, stop + 1);
      }
    }

    method Prev()
      requires Ok() && Valid()
      modifies this
      ensures Ok() && at == if old(at) == 0 then |es| else old(at) - 1
    {
      hide Small, Contents, Buffer, Shared, Offset, Pending;
      ValidIffAt();
      var original := current;
      ghost var i := at;
      var point := GetRestartPoint(restartIndex);
      OffsetOrder(interval, es, restartIndex * interval, i);
      while point >= original
        invariant Shape() && !corrupt && at == i && restartIndex < numRestarts && restartIndex * interval <= i
        invariant point >= original <==> restartIndex * interval >= i
        decreases restartIndex
      {
        if restartIndex == 0 {
          current, restartIndex, at := restarts, numRestarts, |es|;
          return;
        }
        restartIndex := restartIndex - 1;
        TimesMonotone(interval, restartIndex, restartIndex + 1);
        point := GetRestartPoint(restartIndex);
        OffsetOrder(interval, es, restartIndex * interval, i);
      }
      ghost var first := restartIndex * interval;
      SeekToRestartPoint(restartIndex);
      ParseUntil(original, first, i - 1);
    }

    method SeekToLast()
      requires Ok()
      modifies this
      ensures Ok() && at == if es == [] then 0 else |es| - 1
    {
      hide Small, Contents, Buffer, Shared, Offset, Pending, NumRestarts, Increasing, StrictOrder;
      LastOffset(interval, es);
      RestartInside(interval, |es|, numRestarts - 1);
      SeekToRestartPoint(numRestarts - 1);
      ParseUntil(restarts, (numRestarts - 1) * interval, if es == [] then 0 else |es| - 1);
    }

    /** The key at a restart point, straight from the bytes. */
    method RestartKey(index: nat) returns (k: Bytes)
      requires Shape() && index < numRestarts && index * interval < |es|
      ensures k == es[index * interval].key
    {
      hide Small, Contents, Buffer, Shared, Offset, DecodeEntry;
      var regionOffset := GetRestartPoint(index);
      EntryDecodes(interval, es, index * interval);
      RestartSharesNothing(interval, es, index);
      var h := DecodeEntry(data, regionOffset, restarts).value;
      k := data[h.start..h.start + h.nonShared];
    }

    /** The last restart point whose key is before the target, by binary search. */
    method FindRestart(target: Bytes) returns (left: nat)
      requires Ok()
      ensures left < numRestarts && left * interval <= |es|
      ensures left == 0 || (left * interval < |es| && less(es[left * interval].key, target))
    {
      hide Small, Contents, Buffer, Offset;
      left := 0;
      var right := numRestarts - 1;
      while left < right
        invariant left <= right < numRestarts && left * interval <= |es|
        invariant left == 0 || (left * interval < |es| && less(es[left * interval].key, target))
      {
        var mid := (left + right + 1) / 2;
        RestartInside(interval, |es|, mid);
        MoreThanOne(interval, |es|);
        var midKey := RestartKey(mid);
        if less(midKey, target) {
          left := mid;
        } else {
          right := mid - 1;
        }
      }
    }

    /** Stands on the first entry whose key is not before the target. */
    method Seek(target: Bytes)
      requires Ok()
      modifies this
      ensures Ok()
      ensures forall i :: 0 <= i < at ==> less(es[i].key, target)
      ensures at < |es| ==> !less(es[at].key, target)
    {
      hide Small, Contents, Buffer, Shared, Offset, Pending, NumRestarts;
      var left := FindRestart(target);
      SeekToRestartPoint(left);
      ghost var j := left * interval;
      assert forall i :: 0 <= i < j ==> less(es[i].key, es[j].key);
      while true
        invariant Shape() && !corrupt && Pending(j) && j <= |es|
        invariant forall i :: 0 <= i < j ==> less(es[i].key, target)
        decreases |es| - j
      {
        var more := ParseNextKey(j);
        if !more || !less(key, target) {
          return;
        }
        NextIsPending(j);
        j := j + 1;
      }
    }
  }
}
