/** The filter block: one filter for each 2 KiB of data block offsets. */
module FilterBlocks {
  import opened Coding
  import opened BlockFormat
  import BlockIterator
  import opened BloomFilters

  const BASE_LG: byte := 11
  const BASE := 2048

  /** filters[i..] of the finished block: the i-th filter is result[offsets[i]..offsets[i+1]]. */
  ghost predicate FilterFor(hash: Hash, result: Bytes, start: nat, limit: nat, keys: seq<Bytes>) {
    && start <= limit <= |result|
    && forall key :: key in keys ==> MayMatch(hash, key, result[start..limit])
  }

  /** The filters made so far match the keys of their groups. */
  ghost predicate GroupsOk(hash: Hash, result: Bytes, offsets: seq<nat>, groups: seq<seq<Bytes>>) {
    && |offsets| == |groups|
    && forall i :: 0 <= i < |groups| ==> FilterFor(hash, result, offsets[i], LimitAt(result, offsets, i), groups[i])
  }

  /** The filter of a group is the one of its keys; a group without keys has none. */
  ghost predicate Made(hash: Hash, bitsPerKey: nat, probes: nat, result: Bytes, start: nat, limit: nat,
          keys: seq<Bytes>) {
    && start <= limit <= |result|
    && if keys == [] then start == limit else FilterOf(hash, keys, bitsPerKey, probes, result[start..limit])
  }

  ghost predicate AllMade(hash: Hash, bitsPerKey: nat, probes: nat, result: Bytes, offsets: seq<nat>,
          groups: seq<seq<Bytes>>) {
    && |offsets| == |groups|
    && forall i :: 0 <= i < |groups| ==>
         Made(hash, bitsPerKey, probes, result, offsets[i], LimitAt(result, offsets, i), groups[i])
  }

  lemma MadeAdded(hash: Hash, bitsPerKey: nat, probes: nat, result: Bytes, offsets: seq<nat>, groups: seq<seq<Bytes>>,
          filter: Bytes, keys: seq<Bytes>)
    requires AllMade(hash, bitsPerKey, probes, result, offsets, groups)
    requires if keys == [] then filter == [] else FilterOf(hash, keys, bitsPerKey, probes, filter)
    ensures AllMade(hash, bitsPerKey, probes, result + filter, offsets + [|result|], groups + [keys])
  {
    hide FilterOf;
    var r, o, g := result + filter, offsets + [|result|], groups + [keys];
    forall i | 0 <= i < |g| ensures Made(hash, bitsPerKey, probes, r, o[i], LimitAt(r, o, i), g[i]) {
      if i < |groups| {
        assert Made(hash, bitsPerKey, probes, result, offsets[i], LimitAt(result, offsets, i), groups[i]);
        assert r[o[i]..LimitAt(r, o, i)] == result[offsets[i]..LimitAt(result, offsets, i)];
      } else {
        assert r[|result|..|r|] == filter;
      }
    }
  }

  /** The filters due at the start of a block: the first one holds the keys there are, the others none. */
  ghost predicate FiltersDue(was: seq<seq<Bytes>>, keys: seq<Bytes>, now: seq<seq<Bytes>>, left: seq<Bytes>) {
    && was <= now
    && if |now| == |was| then left == keys
       else left == [] && now[|was|] == keys && forall i :: |was| < i < |now| ==> now[i] == []
  }

  function LimitAt(result: Bytes, offsets: seq<nat>, i: nat): nat {
    if i + 1 < |offsets| then offsets[i + 1] else |result|
  }

  class FilterBlockBuilder {
    const hash: Hash
    const bitsPerKey: nat
    const probes: nat
    var keys: seq<Bytes>
    var result: Bytes
    var filterOffsets: seq<nat>
    /** The keys of each filter made. */
    ghost var groups: seq<seq<Bytes>>

    ghost predicate Valid()
      reads this
    {
      && ProbesOk(probes) && GroupsOk(hash, result, filterOffsets, groups)
      && AllMade(hash, bitsPerKey, probes, result, filterOffsets, groups)
    }

    /** Keys added while the current block began at filter index `i` are in group `i`, or will be. */
    ghost predicate Assigned(i: nat, key: Bytes)
      reads this
    {
      (i < |groups| && key in groups[i]) || (i == |groups| && key in keys)
    }

    constructor (hash: Hash, bitsPerKey: nat, probes: nat)
      requires ProbesOk(probes)
      ensures Valid() && groups == [] && keys == []
      ensures this.hash == hash
    {
      this.hash, this.bitsPerKey, this.probes := hash, bitsPerKey, probes;
      keys, result, filterOffsets, groups := [], [], [], [];
    }

    method GenerateFilter()
      requires Valid()
      modifies this
      ensures Valid() && groups == old(groups) + [old(keys)] && keys == []
    {
      ghost var was := result;
      var filter: Bytes := [];
      if keys != [] {
        filter := CreateFilter(hash, keys, bitsPerKey, probes);
      }
      GroupAdded(hash, result, filterOffsets, groups, filter, keys);
      MadeAdded(hash, bitsPerKey, probes, result, filterOffsets, groups, filter, keys);
      hide FilterOf, GroupsOk, AllMade, ProbesOk;
      filterOffsets := filterOffsets + [|result|];
      result := result + filter;
      groups := groups + [keys];
      keys := [];
    }

    /** A data block begins at the offset: the filters of all earlier 2 KiB are due. */
    method StartBlock(blockOffset: nat)
      requires Valid() && blockOffset / BASE >= |groups|
      modifies this
      ensures Valid() && |groups| == blockOffset / BASE && FiltersDue(old(groups), old(keys), groups, keys)
      ensures forall i, key :: old(Assigned(i, key)) ==> Assigned(i, key)
    {
      var filterIndex := blockOffset / BASE;
      while filterIndex > |filterOffsets|
        invariant Valid() && |groups| <= filterIndex && FiltersDue(old(groups), old(keys), groups, keys)
        invariant forall i, key :: old(Assigned(i, key)) ==> Assigned(i, key)
      {
        GenerateFilter();
      }
    }

    method AddKey(key: Bytes)
      requires Valid()
      modifies this
      ensures Valid() && groups == old(groups) && keys == old(keys) + [key] && Assigned(|groups|, key)
      ensures forall i, k :: old(Assigned(i, k)) ==> Assigned(i, k)
    {
      keys := keys + [key];
    }

    method Finish() returns (contents: Bytes, ghost offsets: seq<nat>, ghost filters: Bytes)
      requires Valid()
      modifies this
      ensures Valid() && offsets == filterOffsets && filters == result
      ensures groups == if old(keys) == [] then old(groups) else old(groups) + [old(keys)]
      ensures forall i: nat, key :: old(Assigned(i, key)) ==> i < |groups| && key in groups[i]
      ensures |result| < TWO32 ==>
              (forall i :: 0 <= i < |offsets| ==> offsets[i] < TWO32) && contents == FilterContents(result, offsets)
    {
      hide GroupsOk, Fixed32s, AllMade;
      if keys != [] {
        GenerateFilter();
      }
      offsets, filters := filterOffsets, result;
      OffsetsWithin(hash, result, filterOffsets, groups);
      var offsetArray := Fixed32Array(filterOffsets);
      contents := result + offsetArray + EncodeFixed32(|result| % TWO32) + [BASE_LG];
    }
  }

  lemma OffsetsWithin(hash: Hash, result: Bytes, offsets: seq<nat>, groups: seq<seq<Bytes>>)
    requires GroupsOk(hash, result, offsets, groups)
    ensures forall i :: 0 <= i < |offsets| ==> offsets[i] <= |result|
  {
    forall i | 0 <= i < |offsets| ensures offsets[i] <= |result| {
      assert FilterFor(hash, result, offsets[i], LimitAt(result, offsets, i), groups[i]);
    }
  }

  ghost predicate Words(ns: seq<nat>) {
    forall i :: 0 <= i < |ns| ==> ns[i] < TWO32
  }

  lemma WordsSnoc(ns: seq<nat>, i: nat)
    requires i < |ns| && Words(ns)
    ensures Words(ns[..i]) && Words(ns[..i + 1])
            && Fixed32s(ns[..i + 1]) == Fixed32s(ns[..i]) + EncodeFixed32(ns[i] % TWO32)
  {
    hide EncodeFixed32;
    assert ns[..i + 1][..i] == ns[..i];
  }

  method Fixed32Array(ns: seq<nat>) returns (s: Bytes)
    ensures Words(ns) ==> s == Fixed32s(ns)
  {
    s := [];
    for i := 0 to |ns|
      invariant Words(ns) ==> Words(ns[..i]) && s == Fixed32s(ns[..i])
    {
      hide EncodeFixed32, Fixed32s, Words;
      if Words(ns) {
        WordsSnoc(ns, i);
      }
      s := s + EncodeFixed32(ns[i] % TWO32);
    }
    assert ns[..|ns|] == ns;
  }

  /** The filters, their offsets, where the offsets begin, and the encoding parameter. */
  function FilterContents(result: Bytes, offsets: seq<nat>): Bytes
    requires |result| < TWO32 && forall i :: 0 <= i < |offsets| ==> offsets[i] < TWO32
  {
    result + Fixed32s(offsets) + EncodeFixed32(|result|) + [BASE_LG]
  }

  lemma GroupAdded(hash: Hash, result: Bytes, offsets: seq<nat>, groups: seq<seq<Bytes>>, filter: Bytes,
          keys: seq<Bytes>)
    requires GroupsOk(hash, result, offsets, groups) && forall i :: 0 <= i < |keys| ==> MayMatch(hash, keys[i], filter)
    ensures GroupsOk(hash, result + filter, offsets + [|result|], groups + [keys])
  {
    var r, o, g := result + filter, offsets + [|result|], groups + [keys];
    forall i | 0 <= i < |g| ensures FilterFor(hash, r, o[i], LimitAt(r, o, i), g[i]) {
      if i < |groups| {
        assert FilterFor(hash, result, offsets[i], LimitAt(result, offsets, i), groups[i]);
        assert LimitAt(r, o, i) == LimitAt(result, offsets, i);
        assert r[o[i]..LimitAt(r, o, i)] == result[offsets[i]..LimitAt(result, offsets, i)];
      } else {
        assert LimitAt(r, o, i) == |r| && r[|result|..|r|] == filter;
        forall key | key in keys ensures MayMatch(hash, key, r[o[i]..LimitAt(r, o, i)]) {
          var m :| 0 <= m < |keys| && keys[m] == key;
        }
      }
    }
  }

  // ---------------------------------------------------------------------------------------------
  // The reader
  // ---------------------------------------------------------------------------------------------

  /** FilterBlockReader: whether the block at the offset may hold the key. */
  ghost predicate KeyMayBeIn(hash: Hash, contents: Bytes, blockOffset: nat, key: Bytes) {
    var n := |contents|;
    n < 5 ||
    var lastWord := DecodeFixed32(contents[n - 5..n - 1]);
    lastWord > n - 5 || contents[n - 1] >= 64 ||
    var num := (n - 5 - lastWord) / 4;
    var index := blockOffset / Pow2(contents[n - 1]);
    index >= num ||
    var start := DecodeFixed32(contents[lastWord + index * 4..lastWord + index * 4 + 4]);
    var limit := DecodeFixed32(contents[lastWord + index * 4 + 4..lastWord + index * 4 + 8]);
    if start <= limit && limit <= lastWord then MayMatch(hash, key, contents[start..limit])
    else start != limit
  }

  lemma BaseIs()
    ensures Pow2(BASE_LG) == BASE
  {
    assert Pow2(4) == 16 && Pow2(8) == 256;
  }

  /** The words of a finished filter block. */
  lemma ContentsWords(result: Bytes, offsets: seq<nat>, i: nat)
    requires |result| < TWO32 && (forall i :: 0 <= i < |offsets| ==> offsets[i] < TWO32) && i < |offsets|
    ensures var c := FilterContents(result, offsets);
            var n := |c|;
            && n == |result| + 4 * |offsets| + 5 && c[n - 1] == BASE_LG
            && DecodeFixed32(c[n - 5..n - 1]) == |result|
            && DecodeFixed32(c[|result| + i * 4..|result| + i * 4 + 4]) == offsets[i]
            && DecodeFixed32(c[|result| + i * 4 + 4..|result| + i * 4 + 8]) == LimitAt(result, offsets, i)
            && result <= c
  {
    hide EncodeFixed32, DecodeFixed32;
    var all := offsets + [|result|];
    assert all[..|offsets|] == offsets;
    var c := FilterContents(result, offsets);
    assert Fixed32s(all) == Fixed32s(offsets) + EncodeFixed32(|result|);
    assert c == result + Fixed32s(all) + [BASE_LG];
    hide Fixed32s;
    BlockIterator.RestartSlice(all, result, [BASE_LG], i);
    BlockIterator.RestartSlice(all, result, [BASE_LG], i + 1);
    BlockIterator.RestartSlice(all, result, [BASE_LG], |offsets|);
  }

  /** No false negatives: the filter of a block offset matches every key of its group. */
  lemma GroupKeyMatches(hash: Hash, result: Bytes, offsets: seq<nat>, groups: seq<seq<Bytes>>, blockOffset: nat,
          key: Bytes)
    requires GroupsOk(hash, result, offsets, groups) && |result| < TWO32 && forall i :: 0 <= i < |offsets| ==>
             offsets[i] < TWO32
    requires blockOffset / BASE < |groups| && key in groups[blockOffset / BASE]
    ensures KeyMayBeIn(hash, FilterContents(result, offsets), blockOffset, key)
  {
    hide DecodeFixed32, MayMatch;
    var i := blockOffset / BASE;
    BaseIs();
    ContentsWords(result, offsets, i);
    assert FilterFor(hash, result, offsets[i], LimitAt(result, offsets, i), groups[i]);
    var c := FilterContents(result, offsets);
    assert c[offsets[i]..LimitAt(result, offsets, i)] == result[offsets[i]..LimitAt(result, offsets, i)];
  }

  /** The reader answers for a block by the filter of exactly the keys of its group. */
  lemma GroupDecides(hash: Hash, bitsPerKey: nat, probes: nat, result: Bytes, offsets: seq<nat>,
          groups: seq<seq<Bytes>>, blockOffset: nat, key: Bytes) returns (filter: Bytes)
    requires AllMade(hash, bitsPerKey, probes, result, offsets, groups)
    requires |result| < TWO32 && forall i :: 0 <= i < |offsets| ==> offsets[i] < TWO32
    ensures var i := blockOffset / BASE;
            if i < |groups| && groups[i] != [] then FilterOf(hash, groups[i], bitsPerKey, probes, filter)
            else filter == []
    ensures KeyMayBeIn(hash, FilterContents(result, offsets), blockOffset, key) <==>
            blockOffset / BASE >= |groups| || MayMatch(hash, key, filter)
  {
    hide DecodeFixed32, EncodeFixed32, Fixed32s, FilterContents, MayMatch, FilterOf, Pow2;
    var i := blockOffset / BASE;
    BaseIs();
    filter := [];
    if i < |groups| {
      ContentsWords(result, offsets, i);
      var limit := LimitAt(result, offsets, i);
      assert Made(hash, bitsPerKey, probes, result, offsets[i], limit, groups[i]);
      var c := FilterContents(result, offsets);
      assert c[offsets[i]..limit] == result[offsets[i]..limit];
      filter := result[offsets[i]..limit];
    } else {
      ContentsLength(result, offsets);
    }
  }

  lemma ContentsLength(result: Bytes, offsets: seq<nat>)
    requires |result| < TWO32 && forall i :: 0 <= i < |offsets| ==> offsets[i] < TWO32
    ensures var c := FilterContents(result, offsets);
            var n := |c|;
            n == |result| + 4 * |offsets| + 5 && c[n - 1] == BASE_LG && DecodeFixed32(c[n - 5..n - 1]) == |result|
  {
    hide EncodeFixed32, DecodeFixed32;
    var all := offsets + [|result|];
    assert all[..|offsets|] == offsets;
    var c := FilterContents(result, offsets);
    assert Fixed32s(all) == Fixed32s(offsets) + EncodeFixed32(|result|);
    assert c == result + Fixed32s(all) + [BASE_LG];
    hide Fixed32s;
    BlockIterator.RestartSlice(all, result, [BASE_LG], |offsets|);
  }

  lemma IndexInside(n: nat, lastWord: nat, index: nat)
    requires lastWord + 5 <= n && index < (n - 5 - lastWord) / 4
    ensures lastWord + index * 4 + 8 < n
  {
  }

  /** FilterBlockReader::KeyMayMatch, with the checks of the constructor. */
  method FilterSays(hash: Hash, contents: Bytes, blockOffset: nat, key: Bytes) returns (may: bool)
    ensures may <==> KeyMayBeIn(hash, contents, blockOffset, key)
  {
    hide DecodeFixed32, MayMatch, Pow2;
    var n := |contents|;
    if n < 5 {
      return true;
    }
    var lastWord := DecodeFixed32(contents[n - 5..n - 1]);
    if lastWord > n - 5 || contents[n - 1] >= 64 {
      return true;
    }
    var num := (n - 5 - lastWord) / 4;
    var index := blockOffset / Pow2(contents[n - 1]);
    if index < num {
      IndexInside(n, lastWord, index);
      var start := DecodeFixed32(contents[lastWord + index * 4..lastWord + index * 4 + 4]);
      var limit := DecodeFixed32(contents[lastWord + index * 4 + 4..lastWord + index * 4 + 8]);
      if start <= limit && limit <= lastWord {
        may := KeyMayMatch(hash, key, contents[start..limit]);
        return;
      } else if start == limit {
        return false;
      }
    }
    return true;
  }
}
