/** HandleTable: the cache's hash table, whose buckets are chains. */
module HandleTables {
  import opened Options

  type Key = string
  type Id = nat

  /** A chain element: the handle and what is compared. */
  datatype Node = Node(id: Id, key: Key, hash: nat)

  predicate Matches(n: Node, key: Key, hash: nat) {
    n.hash == hash && n.key == key
  }

  /** FindPointer: the place of the matching element of a chain, or the chain's end. */
  function FindPointer(chain: seq<Node>, key: Key, hash: nat): (i: nat)
    ensures i <= |chain| && (i < |chain| ==> Matches(chain[i], key, hash))
    ensures forall j :: 0 <= j < i ==> !Matches(chain[j], key, hash)
  {
    if chain == [] || Matches(chain[0], key, hash) then 0
    else
      var i := FindPointer(chain[1..], key, hash);
      assert forall j :: 1 <= j < i + 1 ==> chain[j] == chain[1..][j - 1];
      i + 1
  }

  function Total(list: seq<seq<Node>>): nat {
    if list == [] then 0 else Total(list[..|list| - 1]) + |list[|list| - 1]|
  }

  ghost predicate InTable(list: seq<seq<Node>>, n: Node) {
    exists b :: 0 <= b < |list| && n in list[b]
  }

  ghost function Elements(list: seq<seq<Node>>): set<Node> {
    set b, n | 0 <= b < |list| && n in list[b] :: n
  }

  lemma InElements(list: seq<seq<Node>>)
    ensures forall n :: n in Elements(list) <==> InTable(list, n)
  {
  }

  ghost function Listed(chain: seq<Node>): set<Node> {
    set n | n in chain
  }

  /** No two elements of a chain match the same key. */
  ghost predicate ChainOk(chain: seq<Node>) {
    forall i, j :: 0 <= i < j < |chain| ==> !Matches(chain[i], chain[j].key, chain[j].hash)
  }

  /** Every element is in the bucket of its hash, and no key is there twice. */
  ghost predicate TableOk(list: seq<seq<Node>>) {
    && |list| > 0
    && (forall b, n :: 0 <= b < |list| && n in list[b] ==> n.hash % |list| == b)
    && (forall b :: 0 <= b < |list| ==> ChainOk(list[b]))
  }

  lemma {:induction false} TotalUpdate(list: seq<seq<Node>>, b: nat, chain: seq<Node>)
    requires b < |list|
    ensures Total(list[b := chain]) == Total(list) - |list[b]| + |chain|
    decreases |list|
  {
    var k := |list| - 1;
    if b < k {
      TotalUpdate(list[..k], b, chain);
      assert list[b := chain][..k] == list[..k][b := chain];
    } else {
      assert list[b := chain][..k] == list[..k];
    }
  }

  lemma {:induction false} TotalOfEmpty(list: seq<seq<Node>>)
    requires forall b :: 0 <= b < |list| ==> list[b] == []
    ensures Total(list) == 0
  {
    if list != [] {
      TotalOfEmpty(list[..|list| - 1]);
    }
  }

  /** An element of the table is in the bucket of its hash. */
  lemma InBucket(list: seq<seq<Node>>, n: Node)
    requires TableOk(list)
    ensures InTable(list, n) <==> n in list[n.hash % |list|]
  {
  }

  /** Four, doubled any number of times. */
  predicate Doubling(n: nat) {
    n == 4 || (n > 4 && n % 2 == 0 && Doubling(n / 2))
  }

  lemma DoublingOn(n: nat)
    ensures Doubling(4) && (Doubling(n) ==> n >= 4 && Doubling(n * 2))
  {
  }

  /** A bucket for every element. */
  ghost predicate LengthOk(list: seq<seq<Node>>, elems: nat) {
    Doubling(|list|) && elems <= |list|
  }

  class HandleTable {
    var elems: nat
    var list: seq<seq<Node>>

    ghost predicate Valid()
      reads this
    {
      TableOk(list) && elems == Total(list) && LengthOk(list, elems)
    }

    ghost predicate Has(n: Node)
      reads this
    {
      n in Elements(list)
    }

    constructor ()
      ensures Valid() && forall n :: !Has(n)
    {
      elems := 0;
      list := [[], [], [], []];
      new;
      TotalOfEmpty(list);
    }

    method Lookup(key: Key, hash: nat) returns (r: Option<Node>)
      requires Valid()
      ensures r.Some? ==> Has(r.value) && Matches(r.value, key, hash)
      ensures r.None? ==> forall n :: Has(n) ==> !Matches(n, key, hash)
    {
      var chain := list[hash % |list|];
      var i := FindPointer(chain, key, hash);
      FoundOrAbsent(list, hash % |list|, key, hash);
      if i < |chain| {
        return Some(chain[i]);
      }
      return None;
    }

    /** Replaces the element with the same key, or appends to the chain and makes room. */
    method Insert(h: Node) returns (was: Option<Node>)
      requires Valid()
      modifies this
      ensures Valid()
      ensures was.Some? ==> old(Has(was.value)) && Matches(was.value, h.key, h.hash)
      ensures was.None? ==> forall n :: old(Has(n)) ==> !Matches(n, h.key, h.hash)
      ensures forall n :: Has(n) <==> n == h || (old(Has(n)) && was != Some(n))
    {
      hide TableOk, Total, Elements;
      var b, i := Slot(h.key, h.hash);
      var chain := list[b];
      was := if i < |chain| then Some(chain[i]) else None;
      var longer := Put(chain, i, h);
      PutInTable(list, b, i, h, list[b := longer]);
      TotalUpdate(list, b, longer);
      list := list[b := longer];
      if was == None {
        elems := elems + 1;
        if elems > |list| {
          Resize();
        }
      }
    }

    method Slot(key: Key, hash: nat) returns (b: nat, i: nat)
      requires Valid()
      ensures |list| > 0 && b == hash % |list| && i <= |list[b]|
      ensures i < |list[b]| ==> Matches(list[b][i], key, hash) && Has(list[b][i])
      ensures forall j :: 0 <= j < i ==> !Matches(list[b][j], key, hash)
      ensures i == |list[b]| ==> forall n :: Has(n) ==> !Matches(n, key, hash)
    {
      b := hash % |list|;
      i := FindPointer(list[b], key, hash);
      FoundOrAbsent(list, b, key, hash);
    }

    method Remove(key: Key, hash: nat) returns (was: Option<Node>)
      requires Valid()
      modifies this
      ensures Valid()
      ensures was.Some? ==> old(Has(was.value)) && Matches(was.value, key, hash)
      ensures was.None? ==> forall n :: old(Has(n)) ==> !Matches(n, key, hash)
      ensures forall n :: Has(n) <==> old(Has(n)) && was != Some(n)
    {
      hide TableOk, Total, Elements;
      var b, i := Slot(key, hash);
      var chain := list[b];
      if i == |chain| {
        return None;
      }
      was := Some(chain[i]);
      TakeFromTable(list, b, i, list[b := chain[..i] + chain[i + 1..]]);
      TotalUpdate(list, b, chain[..i] + chain[i + 1..]);
      list := list[b := chain[..i] + chain[i + 1..]];
      AtLeastOne(list, old(list), elems);
      elems := elems - 1;
    }

    /** Moves every element to a longer table. */
    method Resize()
      requires TableOk(list) && elems == Total(list)
      modifies this
      ensures Valid() && elems == old(elems) && (|list| == 4 || |list| < 2 * elems)
      ensures Elements(list) == old(Elements(list))
    {
      hide Doubling;
      var newLength := LengthFor(elems);
      var newList: seq<seq<Node>> := seq(newLength, _ => []);
      TotalOfEmpty(newList);
      for i := 0 to |list|
        invariant list == old(list) && elems == old(elems) && |newList| == newLength
        invariant TableOk(newList) && Total(newList) == Total(list[..i])
        invariant Elements(newList) == Elements(list[..i])
      {
        assert list[..i + 1][..i] == list[..i];
        newList := Rehash(newList, list, i);
      }
      assert list[..|list|] == list;
      list := newList;
    }
  }

  /** The shortest length with a bucket for every element. */
  method LengthFor(elems: nat) returns (n: nat)
    ensures Doubling(n) && n >= elems && (n == 4 || n < 2 * elems)
  {
    hide Doubling;
    n := 4;
    DoublingOn(n);
    while n < elems
      invariant Doubling(n) && (n == 4 || n < 2 * elems)
    {
      DoublingOn(n);
      n := n * 2;
    }
  }

  /** Moves the chain of bucket `b`, element by element, to the front of the new chains. */
  method Rehash(into: seq<seq<Node>>, list: seq<seq<Node>>, b: nat) returns (r: seq<seq<Node>>)
    requires TableOk(list) && b < |list| && TableOk(into) && Elements(into) == Elements(list[..b])
    ensures |r| == |into| && TableOk(r) && Total(r) == Total(into) + |list[b]|
    ensures Elements(r) == Elements(list[..b + 1])
  {
    r := into;
    var h := list[b];
    for k := 0 to |h|
      invariant |r| == |into| && TableOk(r) && Total(r) == Total(into) + k
      invariant Elements(r) == Elements(into) + Listed(h[..k])
    {
      hide TableOk, Total, ChainOk, Elements;
      var slot := h[k].hash % |r|;
      Fresh(list, b, k, r, into);
      var next := r[slot := [h[k]] + r[slot]];
      PrependToTable(r, slot, h[k], next);
      TotalUpdate(r, slot, [h[k]] + r[slot]);
      r := next;
      ListedSnoc(h, k);
    }
    assert h[..|h|] == h;
    LastBucket(list, b);
  }

  lemma ListedSnoc(h: seq<Node>, k: nat)
    requires k < |h|
    ensures Listed(h[..k + 1]) == Listed(h[..k]) + {h[k]}
  {
    assert h[..k + 1] == h[..k] + [h[k]];
  }

  /** Only the bucket of its hash need be searched for a key. */
  lemma FoundOrAbsent(list: seq<seq<Node>>, b: nat, key: Key, hash: nat)
    requires TableOk(list) && b == hash % |list|
    ensures var i := FindPointer(list[b], key, hash);
            if i < |list[b]| then list[b][i] in Elements(list) else forall n :: n in Elements(list) ==>
              !Matches(n, key, hash)
  {
    var i := FindPointer(list[b], key, hash);
    BucketWithin(list, b);
    if i < |list[b]| {
      assert list[b][i] in Listed(list[b]);
    } else {
      forall n | n in Elements(list) ensures !Matches(n, key, hash) {
        InElements(list);
        InBucket(list, n);
        if n in list[b] {
          var j :| 0 <= j < |list[b]| && list[b][j] == n;
        }
      }
    }
  }

  lemma LastBucket(list: seq<seq<Node>>, b: nat)
    requires b < |list|
    ensures Elements(list[..b + 1]) == Elements(list[..b]) + Listed(list[b])
  {
    assert list[..b + 1] == list[..b] + [list[b]];
    forall n | n in Elements(list[..b]) + Listed(list[b]) ensures n in Elements(list[..b + 1]) {
      if n in list[b] {
        assert n in list[..b + 1][b];
      } else {
        var c :| 0 <= c < b && n in list[..b][c];
        assert n in list[..b + 1][c];
      }
    }
  }

  /** No element moved so far has the key of the next one. */
  lemma Fresh(list: seq<seq<Node>>, b: nat, k: nat, r: seq<seq<Node>>, into: seq<seq<Node>>)
    requires TableOk(list) && b < |list| && k < |list[b]|
    requires Elements(into) == Elements(list[..b]) && Elements(r) == Elements(into) + Listed(list[b][..k])
    ensures forall n :: n in Elements(r) ==> !Matches(n, list[b][k].key, list[b][k].hash)
  {
    var h := list[b][k];
    assert h in list[b] && h.hash % |list| == b;
    forall n | n in Elements(r) ensures !Matches(n, h.key, h.hash) {
      if n in list[b][..k] {
        var j :| 0 <= j < k && list[b][..k][j] == n;
        assert list[b][j] == n;
      } else {
        assert n in Elements(list[..b]);
        var c :| 0 <= c < b && n in list[..b][c];
        assert n in list[c] && n.hash % |list| == c;
      }
    }
  }

  lemma AtLeastOne(list: seq<seq<Node>>, was: seq<seq<Node>>, elems: nat)
    requires elems == Total(was) && Total(list) == Total(was) - 1
    ensures elems > 0
  {
  }

  /** Replacing bucket `b` by a good chain of its own elements. */
  lemma ReplaceChain(list: seq<seq<Node>>, b: nat, chain: seq<Node>)
    requires TableOk(list) && b < |list| && ChainOk(chain) && forall n :: n in chain ==> n.hash % |list| == b
    ensures TableOk(list[b := chain])
    ensures Elements(list[b := chain]) == (Elements(list) - Listed(list[b])) + Listed(chain)
  {
    var t := list[b := chain];
    forall n ensures n in Elements(t) <==> n in (Elements(list) - Listed(list[b])) + Listed(chain) {
      InBucket(list, n);
      InBucket(t, n);
      InElements(list);
      InElements(t);
    }
  }

  lemma BucketWithin(list: seq<seq<Node>>, b: nat)
    requires b < |list|
    ensures Listed(list[b]) <= Elements(list)
  {
  }

  lemma PrependToTable(list: seq<seq<Node>>, b: nat, h: Node, next: seq<seq<Node>>)
    requires TableOk(list) && b == h.hash % |list| && forall n :: n in Elements(list) ==> !Matches(n, h.key, h.hash)
    requires next == list[b := [h] + list[b]]
    ensures TableOk(next) && Elements(next) == Elements(list) + {h}
  {
    var chain := [h] + list[b];
    BucketWithin(list, b);
    forall j | 0 <= j < |list[b]| ensures !Matches(h, list[b][j].key, list[b][j].hash) {
      assert list[b][j] in Listed(list[b]);
    }
    assert ChainOk(chain);
    ReplaceChain(list, b, chain);
    hide Elements;
    assert Listed(chain) == Listed(list[b]) + {h};
  }

  /** The chain with element `i` replaced, or one appended. */
  function Put(chain: seq<Node>, i: nat, h: Node): seq<Node>
    requires i <= |chain|
  {
    chain[..i] + [h] + if i < |chain| then chain[i + 1..] else []
  }

  /** The element at a place of a chain, if there is one. */
  ghost function At(chain: seq<Node>, i: nat): set<Node> {
    if i < |chain| then {chain[i]} else {}
  }

  lemma PutInTable(list: seq<seq<Node>>, b: nat, i: nat, h: Node, next: seq<seq<Node>>)
    requires TableOk(list) && b == h.hash % |list| && i <= |list[b]|
    requires i < |list[b]| ==> Matches(list[b][i], h.key, h.hash)
    requires i == |list[b]| ==> forall n :: n in Elements(list) ==> !Matches(n, h.key, h.hash)
    requires next == list[b := Put(list[b], i, h)]
    ensures TableOk(next) && Elements(next) == (Elements(list) - At(list[b], i)) + {h}
  {
    var chain := list[b];
    var longer := Put(chain, i, h);
    BucketWithin(list, b);
    assert ChainOk(chain);
    forall j | 0 <= j < |chain| && j != i ensures !Matches(chain[j], h.key, h.hash) {
      assert chain[j] in Listed(chain);
    }
    ChainPut(chain, i, h, longer);
    ReplaceChain(list, b, longer);
    hide Elements;
    assert Listed(longer) == (Listed(chain) - At(chain, i)) + {h};
  }

  lemma ChainPut(chain: seq<Node>, i: nat, h: Node, longer: seq<Node>)
    requires ChainOk(chain) && i <= |chain| && longer == chain[..i] + [h] + if i < |chain| then chain[i + 1..] else []
    requires forall j :: 0 <= j < |chain| && j != i ==> !Matches(chain[j], h.key, h.hash)
    ensures ChainOk(longer)
    ensures forall n :: n in longer <==> n == h || (n in chain && !(i < |chain| && n == chain[i]))
  {
    forall j, k | 0 <= j < k < |longer| ensures !Matches(longer[j], longer[k].key, longer[k].hash) {
      assert j != i ==> longer[j] == chain[j];
      assert k != i ==> longer[k] == chain[k];
    }
    forall n | n == h || (n in chain && !(i < |chain| && n == chain[i])) ensures n in longer {
      if n == h {
        assert longer[i] == h;
      } else {
        var j :| 0 <= j < |chain| && chain[j] == n;
        assert longer[j] == n;
      }
    }
    forall n | n in longer ensures n == h || (n in chain && !(i < |chain| && n == chain[i])) {
      var j :| 0 <= j < |longer| && longer[j] == n;
      if j != i {
        assert chain[j] == n;
      }
    }
  }

  lemma TakeFromTable(list: seq<seq<Node>>, b: nat, i: nat, next: seq<seq<Node>>)
    requires TableOk(list) && b < |list| && i < |list[b]| && next == list[b := list[b][..i] + list[b][i + 1..]]
    ensures TableOk(next) && Elements(next) == Elements(list) - {list[b][i]}
  {
    var chain := list[b];
    var shorter := chain[..i] + chain[i + 1..];
    assert ChainOk(chain);
    ChainTake(chain, i, shorter);
    ReplaceChain(list, b, shorter);
    BucketWithin(list, b);
    hide Elements;
    assert Listed(shorter) == Listed(chain) - {chain[i]};
    assert chain[i] in Listed(chain);
  }

  lemma ChainTake(chain: seq<Node>, i: nat, shorter: seq<Node>)
    requires ChainOk(chain) && i < |chain| && shorter == chain[..i] + chain[i + 1..]
    ensures ChainOk(shorter)
    ensures forall n :: n in shorter <==> n in chain && n != chain[i]
  {
    forall j, k | 0 <= j < k < |shorter| ensures !Matches(shorter[j], shorter[k].key, shorter[k].hash) {
      assert shorter[j] == chain[if j < i then j else j + 1] && shorter[k] == chain[if k < i then k else k + 1];
    }
    forall n | n in chain && n != chain[i] ensures n in shorter {
      var j :| 0 <= j < |chain| && chain[j] == n;
      assert shorter[if j < i then j else j - 1] == n;
    }
    forall n | n in shorter ensures n in chain && n != chain[i] {
      var j :| 0 <= j < |shorter| && shorter[j] == n;
      var k := if j < i then j else j + 1;
      assert chain[k] == n;
      assert Matches(n, n.key, n.hash);
    }
  }
}
