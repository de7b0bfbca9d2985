/** Data blocks: prefix-compressed entries with restart points, as BlockBuilder writes them. */
module BlockFormat {
  import opened Coding

  datatype KV = KV(key: Bytes, value: Bytes)

  /** The length of the longest common prefix. */
  function Common(a: Bytes, b: Bytes): (n: nat)
    ensures n <= |a| && n <= |b| && a[..n] == b[..n]
  {
    if a == [] || b == [] || a[0] != b[0] then 0
    else
      var m := Common(a[1..], b[1..]);
      assert a[..m + 1] == [a[0]] + a[1..][..m] && b[..m + 1] == [b[0]] + b[1..][..m];
      m + 1
  }

  /** Only the first entry after a restart point is written whole. */
  function Shared(interval: nat, es: seq<KV>, i: nat): (n: nat)
    requires interval > 0 && i < |es|
    ensures n <= |es[i].key| && (n > 0 ==> i > 0 && n <= |es[i - 1].key| && es[i - 1].key[..n] == es[i].key[..n])
  {
    if i % interval == 0 then 0 else Common(es[i - 1].key, es[i].key)
  }

  /** Nothing is shared at a restart point; elsewhere all that the key has in common with the one before. */
  lemma SharedIs(interval: nat, es: seq<KV>, i: nat)
    requires interval > 0 && i < |es|
    ensures var n := Shared(interval, es, i);
            if i % interval == 0 then n == 0
            else n == |es[i].key| || n == |es[i - 1].key| || es[i].key[n] != es[i - 1].key[n]
  {
    if i % interval != 0 {
      CommonEnds(es[i - 1].key, es[i].key);
    }
  }

  lemma {:induction false} CommonEnds(a: Bytes, b: Bytes)
    ensures var n := Common(a, b); n == |a| || n == |b| || a[n] != b[n]
  {
    if a != [] && b != [] && a[0] == b[0] {
      CommonEnds(a[1..], b[1..]);
    }
  }

  function EncodeEntry(shared: nat, e: KV): (s: Bytes)
    requires shared <= |e.key|
    ensures |s| >= 3
  {
    Varint(shared) + Varint(|e.key| - shared) + Varint(|e.value|) + e.key[shared..] + e.value
  }

  /** The entries' bytes. */
  function Buffer(interval: nat, es: seq<KV>): Bytes
    requires interval > 0
  {
    if es == [] then []
    else Buffer(interval, es[..|es| - 1]) + EncodeEntry(Shared(interval, es, |es| - 1), es[|es| - 1])
  }

  /** Where entry `i` begins. */
  function Offset(interval: nat, es: seq<KV>, i: nat): nat
    requires interval > 0 && i <= |es|
  {
    |Buffer(interval, es[..i])|
  }

  function NumRestarts(interval: nat, n: nat): (r: nat)
    requires interval > 0
    ensures r > 0
  {
    if n == 0 then 1 else (n - 1) / interval + 1
  }

  /** The offsets of every `interval`-th entry. */
  function Restarts(interval: nat, es: seq<KV>): (r: seq<nat>)
    requires interval > 0
    ensures |r| == NumRestarts(interval, |es|)
    ensures forall k :: 0 <= k < |r| && k * interval <= |es| ==> r[k] == Offset(interval, es, k * interval)
  {
    var n := NumRestarts(interval, |es|);
    seq(n, k requires 0 <= k < n => if k * interval <= |es| then Offset(interval, es, k * interval) else 0)
  }

  function Fixed32s(ns: seq<nat>): (s: Bytes)
    requires forall i :: 0 <= i < |ns| ==> ns[i] < TWO32
    ensures |s| == 4 * |ns|
  {
    if ns == [] then [] else Fixed32s(ns[..|ns| - 1]) + EncodeFixed32(ns[|ns| - 1])
  }

  /** Offsets fit 32 bits. */
  ghost predicate Small(interval: nat, es: seq<KV>)
    requires interval > 0
  {
    |Buffer(interval, es)| < TWO32 && |es| < TWO32
  }

  lemma {:induction false} OffsetsAscend(interval: nat, es: seq<KV>, i: nat, j: nat)
    requires interval > 0 && i <= j <= |es|
    ensures Offset(interval, es, i) <= Offset(interval, es, j)
            && (i < j ==> Offset(interval, es, i) + 3 <= Offset(interval, es, j))
    ensures Buffer(interval, es[..i]) <= Buffer(interval, es[..j])
    decreases j
  {
    hide EncodeEntry, Shared;
    if i < j {
      OffsetsAscend(interval, es, i, j - 1);
      assert es[..j][..j - 1] == es[..j - 1];
    }
  }

  lemma RestartsSmall(interval: nat, es: seq<KV>)
    requires interval > 0 && Small(interval, es)
    ensures forall k :: 0 <= k < |Restarts(interval, es)| ==> Restarts(interval, es)[k] < TWO32
    ensures |Restarts(interval, es)| < TWO32
  {
    NumRestartsBound(interval, |es|);
    forall k | 0 <= k < |Restarts(interval, es)| ensures Restarts(interval, es)[k] < TWO32 {
      if k * interval <= |es| {
        OffsetsAscend(interval, es, k * interval, |es|);
        assert es[..|es|] == es;
      }
    }
  }

  /** A finished block: entries, restart array, number of restarts. */
  ghost function Contents(interval: nat, es: seq<KV>): Bytes
    requires interval > 0 && Small(interval, es)
  {
    RestartsSmall(interval, es);
    var rs := Restarts(interval, es);
    Buffer(interval, es) + Fixed32s(rs) + EncodeFixed32(|rs|)
  }

  lemma NumRestartsStep(interval: nat, n: nat)
    requires interval > 0 && n > 0
    ensures NumRestarts(interval, n + 1) == NumRestarts(interval, n) + if n % interval == 0 then 1 else 0
    ensures n % interval == 0 ==> NumRestarts(interval, n) * interval == n
  {
    DivStep(interval, n - 1);
  }

  lemma DivStep(k: nat, m: nat)
    requires k > 0
    ensures (m + 1) / k == m / k + if (m + 1) % k == 0 then 1 else 0
    ensures (m + 1) % k == 0 ==> (m / k + 1) * k == m + 1
    ensures (m + 1) % k == if m % k == k - 1 then 0 else m % k + 1
  {
    var q, r := m / k, m % k;
    assert m == q * k + r;
    if r == k - 1 {
      assert m + 1 == (q + 1) * k;
      DivUnique(k, m + 1, q + 1, 0);
    } else {
      DivUnique(k, m + 1, q, r + 1);
    }
  }

  lemma NumRestartsBound(interval: nat, n: nat)
    requires interval > 0
    ensures NumRestarts(interval, n) <= if n == 0 then 1 else n
  {
    if n > 0 {
      var q := (n - 1) / interval;
      assert q * interval <= n - 1;
      if q > 0 {
        TimesMonotone(q, 0, interval);
      }
    }
  }

  lemma {:induction false} TimesMonotone(k: nat, a: nat, b: nat)
    requires a < b
    ensures a * k + k <= b * k
    decreases b
  {
    if a + 1 < b {
      TimesMonotone(k, a, b - 1);
    }
    assert (b - 1) * k + k == b * k;
  }

  lemma DivUnique(k: nat, n: nat, q: nat, r: nat)
    requires k > 0 && r < k && n == q * k + r
    ensures n / k == q && n % k == r
  {
    var a, b := n / k, n % k;
    assert n == a * k + b && b < k;
    if a > q {
      TimesMonotone(k, q, a);
    } else if a < q {
      TimesMonotone(k, a, q);
    }
  }

  // ---------------------------------------------------------------------------------------------
  // The builder
  // ---------------------------------------------------------------------------------------------

  lemma {:induction false} CommonIs(a: Bytes, b: Bytes, n: nat)
    requires n <= |a| && n <= |b| && a[..n] == b[..n] && (n == |a| || n == |b| || a[n] != b[n])
    ensures Common(a, b) == n
    decreases n
  {
    if n > 0 {
      assert a[0] == a[..n][0] && b[0] == b[..n][0];
      assert a[1..][..n - 1] == a[..n][1..] && b[1..][..n - 1] == b[..n][1..];
      CommonIs(a[1..], b[1..], n - 1);
    }
  }

  /** The counter says whether the next entry is a restart point, and so what it shares. */
  lemma AddedEntry(interval: nat, es: seq<KV>, e: KV, shared: nat, buffer: Bytes, counter: nat)
    requires interval > 0 && buffer == Buffer(interval, es)
    requires counter == if es == [] then 0 else (|es| - 1) % interval + 1
    requires shared == if counter < interval then Common(if es == [] then [] else es[|es| - 1].key, e.key) else 0
    ensures shared <= |e.key| && Buffer(interval, es + [e]) == buffer + EncodeEntry(shared, e)
    ensures es != [] ==> (counter == interval <==> |es| % interval == 0)
    ensures (if counter < interval then counter else 0) + 1 == |es| % interval + 1
  {
    hide Varint, Common;
    var n := |es|;
    assert (es + [e])[..n] == es;
    if n > 0 {
      CounterStep(interval, n);
    } else {
      DivUnique(interval, 0, 0, 0);
    }
    assert Shared(interval, es + [e], n) == shared;
  }

  lemma CounterStep(interval: nat, n: nat)
    requires interval > 0 && n > 0
    ensures var counter := (n - 1) % interval + 1;
            counter <= interval && (counter == interval <==> n % interval == 0)
              && (counter < interval ==> counter == n % interval)
  {
    DivStep(interval, n - 1);
  }

  lemma AddedRestart(interval: nat, es: seq<KV>, e: KV)
    requires interval > 0
    ensures Restarts(interval, es + [e]) ==
            Restarts(interval, es) + if es != [] && |es| % interval == 0 then [|Buffer(interval, es)|] else []
  {
    hide Buffer;
    var n := |es|;
    var a, b := Restarts(interval, es), Restarts(interval, es + [e]);
    if n > 0 {
      NumRestartsStep(interval, n);
    } else {
      DivUnique(interval, 0, 0, 0);
    }
    forall k | 0 <= k < |a| ensures k * interval <= n && b[k] == a[k] {
      RestartInside(interval, n, k);
      assert (es + [e])[..k * interval] == es[..k * interval];
    }
    if n > 0 && n % interval == 0 {
      assert |a| * interval == n;
      assert (es + [e])[..n] == es;
      assert b[|a|] == |Buffer(interval, es)|;
    }
  }

  /** Restart point `k` is an entry, or the end of an empty block. */
  lemma RestartInside(interval: nat, n: nat, k: nat)
    requires interval > 0 && k < NumRestarts(interval, n)
    ensures k * interval <= n && (n > 0 ==> k * interval < n)
  {
    if n > 0 {
      var q := (n - 1) / interval;
      assert q * interval <= n - 1;
      if k < q {
        TimesMonotone(interval, k, q);
      }
    }
  }

  lemma EntryAppended(buffer: Bytes, shared: nat, e: KV)
    requires shared <= |e.key|
    ensures buffer + Varint(shared) + Varint(|e.key| - shared) + Varint(|e.value|) + e.key[shared..] + e.value ==
            buffer + EncodeEntry(shared, e)
  {
    hide Varint;
  }

  class BlockBuilder {
    const interval: nat
    var buffer: Bytes
    var restarts: seq<nat>
    var counter: nat
    var lastKey: Bytes
    var finished: bool

    /** The builder has been given the entries and not finished. */
    ghost predicate Holds(es: seq<KV>)
      reads this
    {
      && interval > 0 && !finished
      && buffer == Buffer(interval, es) && restarts == Restarts(interval, es)
      && counter == (if es == [] then 0 else (|es| - 1) % interval + 1)
      && lastKey == (if es == [] then [] else es[|es| - 1].key)
    }

    constructor (interval: nat)
      requires interval >= 1
      ensures this.interval == interval && Holds([])
    {
      this.interval := interval;
      buffer, restarts, counter, lastKey, finished := [], [0], 0, [], false;
      new;
      assert restarts == Restarts(interval, []);
    }

    method SharedLength(key: Bytes) returns (shared: nat)
      ensures shared == Common(lastKey, key)
    {
      shared := 0;
      var minLength := if |lastKey| < |key| then |lastKey| else |key|;
      while shared < minLength && lastKey[shared] == key[shared]
        invariant shared <= minLength && lastKey[..shared] == key[..shared]
      {
        shared := shared + 1;
      }
      CommonIs(lastKey, key, shared);
    }

    method Add(key: Bytes, value: Bytes, ghost es: seq<KV>)
      requires Holds(es)
      modifies this
      ensures Holds(es + [KV(key, value)])
    {
      hide Varint, Common, Buffer, Restarts, EncodeEntry;
      ghost var e := KV(key, value);
      var shared := 0;
      if counter < interval {
        shared := SharedLength(key);
      } else {
        restarts := restarts + [|buffer|];
        counter := 0;
      }
      AddedEntry(interval, es, e, shared, buffer, old(counter));
      AddedRestart(interval, es, e);
      var nonShared := |key| - shared;
      buffer := buffer + Varint(shared) + Varint(nonShared) + Varint(|value|);
      buffer := buffer + key[shared..];
      buffer := buffer + value;
      lastKey := lastKey[..shared] + key[shared..];
      counter := counter + 1;
      assert lastKey == key;
      EntryAppended(old(buffer), shared, e);
    }

    /** Appends the restart array and its length. */
    method Finish(ghost es: seq<KV>)
      requires Holds(es) && Small(interval, es)
      modifies this
      ensures buffer == Contents(interval, es) && finished
    {
      RestartsSmall(interval, es);
      for i := 0 to |restarts|
        invariant restarts == old(restarts) && buffer == old(buffer) + Fixed32s(restarts[..i])
      {
        assert restarts[..i + 1][..i] == restarts[..i];
        buffer := buffer + EncodeFixed32(restarts[i]);
      }
      assert restarts[..|restarts|] == restarts;
      buffer := buffer + EncodeFixed32(|restarts|);
      finished := true;
    }
  }
}
