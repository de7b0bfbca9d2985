/** Tables: blocks, an index of separators, a filter, and lookups that read at most one block. */
module Tables {
  import opened Options
  import opened Coding
  import opened Comparators
  import opened BloomFilters
  import opened FilterBlocks

  datatype KEntry = KEntry(key: IKey, value: Bytes)

  datatype Block = Block(offset: nat, entries: seq<KEntry>)

  datatype IndexEntry = IndexEntry(key: IKey, offset: nat)

  ghost predicate Ascending(es: seq<KEntry>) {
    forall i, j :: 0 <= i < j < |es| ==> ILess(es[i].key, es[j].key)
  }

  /** All entries of one list come before all of the other. */
  ghost predicate AllBefore(a: seq<KEntry>, b: seq<KEntry>) {
    forall i, j :: 0 <= i < |a| && 0 <= j < |b| ==> ILess(a[i].key, b[j].key)
  }

  ghost predicate BlocksAscend(blocks: seq<Block>) {
    && (forall b :: 0 <= b < |blocks| ==> blocks[b].entries != [] && Ascending(blocks[b].entries))
    && (forall a, b :: 0 <= a < b < |blocks| ==> AllBefore(blocks[a].entries, blocks[b].entries))
  }

  function LastKey(b: Block): IKey
    requires b.entries != []
  {
    b.entries[|b.entries| - 1].key
  }

  /** The separator is the block's last key itself, or its user key is strictly between the user keys
      around it. */
  ghost predicate SeparatorOk(sep: IKey, last: IKey, after: seq<KEntry>) {
    sep == last || (Less(last.user, sep.user) && (after != [] ==> Less(sep.user, after[0].key.user)))
  }

  ghost predicate IndexEntryOk(x: IndexEntry, b: Block, after: seq<KEntry>) {
    b.entries != [] && x.offset == b.offset && SeparatorOk(x.key, LastKey(b), after)
  }

  /** The entries of block `b`, or what comes after the last block. */
  function EntriesAt(blocks: seq<Block>, b: nat, rest: seq<KEntry>): seq<KEntry> {
    if b < |blocks| then blocks[b].entries else rest
  }

  ghost predicate IndexOk(index: seq<IndexEntry>, blocks: seq<Block>, rest: seq<KEntry>) {
    && |index| <= |blocks| && BlocksAscend(blocks)
    && forall b :: 0 <= b < |index| ==> IndexEntryOk(index[b], blocks[b], EntriesAt(blocks, b + 1, rest))
  }

  function AllEntries(blocks: seq<Block>): seq<KEntry> {
    if blocks == [] then [] else AllEntries(blocks[..|blocks| - 1]) + blocks[|blocks| - 1].entries
  }

  lemma {:induction false} EntryOf(blocks: seq<Block>, e: KEntry)
    ensures e in AllEntries(blocks) <==> exists b :: 0 <= b < |blocks| && e in blocks[b].entries
  {
    if blocks != [] {
      var init := blocks[..|blocks| - 1];
      EntryOf(init, e);
      if b :| 0 <= b < |init| && e in init[b].entries {
        assert e in blocks[b].entries;
      }
      if b :| 0 <= b < |blocks| && e in blocks[b].entries {
        if b < |init| {
          assert e in init[b].entries;
        }
      }
    }
  }

  // ---------------------------------------------------------------------------------------------
  // Lookups
  // ---------------------------------------------------------------------------------------------

  datatype Table = Table(index: seq<IndexEntry>, blocks: seq<Block>, filter: Option<Bytes>)

  /** The filter denies no entry at its block's offset. */
  ghost predicate FilterOk(hash: Hash, filter: Bytes, blocks: seq<Block>) {
    forall b, e :: 0 <= b < |blocks| && e in blocks[b].entries ==>
      KeyMayBeIn(hash, filter, blocks[b].offset, e.key.user)
  }

  ghost predicate TableOk(hash: Hash, t: Table) {
    && |t.index| == |t.blocks| && IndexOk(t.index, t.blocks, [])
    && (t.filter.Some? ==> FilterOk(hash, t.filter.value, t.blocks))
  }

  /** Index entry `i` is the first that is not before the key. */
  ghost predicate IndexStop(index: seq<IndexEntry>, k: IKey, i: nat)
    requires i <= |index|
  {
    (forall j :: 0 <= j < i ==> ILess(index[j].key, k)) && (i < |index| ==> !ILess(index[i].key, k))
  }

  method SeekInIndex(index: seq<IndexEntry>, k: IKey) returns (i: nat)
    ensures i <= |index| && IndexStop(index, k, i)
  {
    i := 0;
    while i < |index| && ILess(index[i].key, k)
      invariant i <= |index| && forall j :: 0 <= j < i ==> ILess(index[j].key, k)
    {
      i := i + 1;
    }
  }

  method SeekInBlock(es: seq<KEntry>, k: IKey) returns (i: nat)
    ensures i <= |es| && (forall j :: 0 <= j < i ==> ILess(es[j].key, k)) && (i < |es| ==> !ILess(es[i].key, k))
  {
    i := 0;
    while i < |es| && ILess(es[i].key, k)
      invariant i <= |es| && forall j :: 0 <= j < i ==> ILess(es[j].key, k)
    {
      i := i + 1;
    }
  }

  /** `e` has the sought user key and is visible at the sought sequence number. */
  predicate Sought(e: KEntry, k: IKey) {
    e.key.user == k.user && e.key.tag <= k.tag
  }

  /** The separator of a block with a sought entry is not before the key. */
  lemma SeparatorReaches(index: seq<IndexEntry>, blocks: seq<Block>, k: IKey, c: nat, p: nat)
    requires |index| == |blocks| && IndexOk(index, blocks, []) && c < |blocks|
    requires p < |blocks[c].entries| && Sought(blocks[c].entries[p], k)
    ensures !ILess(index[c].key, k)
  {
    IndexBlocks(index, blocks, []);
    BlockAscends(blocks, c);
    IndexAt(index, blocks, [], c);
    IsSought(blocks[c].entries[p], k);
    hide IndexOk, BlocksAscend, SeparatorOk, Sought, EntriesAt, Less, ILess;
    LastIsGreatest(blocks[c].entries, p);
    hide *;
    SeparatorReachesKeys(blocks[c].entries[p].key, blocks[c].entries[|blocks[c].entries| - 1].key, index[c].key, k);
  }

  lemma LastIsGreatest(es: seq<KEntry>, p: nat)
    requires Ascending(es) && p < |es|
    ensures es[p].key == es[|es| - 1].key || ILess(es[p].key, es[|es| - 1].key)
  {
  }

  lemma SeparatorReachesKeys(e: IKey, last: IKey, sep: IKey, k: IKey)
    requires (e == last || ILess(e, last)) && (sep == last || Less(last.user, sep.user)) && e.user == k.user
             && e.tag <= k.tag
    ensures !ILess(sep, k)
  {
    hide ILess, Less, LessEq;
    ILessUsers(e, last);
    ILessUsers(sep, k);
    ILessUsers(last, k);
    LessChain(e.user, last.user, sep.user);
    LessChain(k.user, sep.user, k.user);
    ILessOrder(e, last, k);
    ILessUsers(e, k);
  }

  /** When the index stops before the block of a sought entry, it stops at a block whose last entry
      is sought too, and newer. */
  lemma StopsAtNewer(index: seq<IndexEntry>, blocks: seq<Block>, k: IKey, i: nat, c: nat, p: nat)
    requires |index| == |blocks| && IndexOk(index, blocks, []) && i < c < |blocks| && !ILess(index[i].key, k)
    requires p < |blocks[c].entries| && Sought(blocks[c].entries[p], k)
    ensures blocks[i].entries != [] && var last := blocks[i].entries[|blocks[i].entries| - 1];
            Sought(last, k) && ILess(last.key, blocks[c].entries[p].key)
  {
    hide *;
    IndexBlocks(index, blocks, []);
    LastBefore(blocks, i, c, p);
    NextIsFirst(blocks, i + 1, c, p);
    SeparatorBefore(index, blocks, i);
    IsSought(blocks[c].entries[p], k);
    StopsAtNewerKeys(blocks[i].entries[|blocks[i].entries| - 1].key, index[i].key, blocks[i + 1].entries[0].key,
      blocks[c].entries[p].key, k);
    IsSought(blocks[i].entries[|blocks[i].entries| - 1], k);
  }

  lemma IndexBlocks(index: seq<IndexEntry>, blocks: seq<Block>, rest: seq<KEntry>)
    requires IndexOk(index, blocks, rest)
    ensures BlocksAscend(blocks)
  {
  }

  lemma SeparatorBefore(index: seq<IndexEntry>, blocks: seq<Block>, i: nat)
    requires |index| == |blocks| && IndexOk(index, blocks, []) && i + 1 < |blocks| && blocks[i].entries != []
             && blocks[i + 1].entries != []
    ensures var last, sep, next :=
            blocks[i].entries[|blocks[i].entries| - 1].key, index[i].key, blocks[i + 1].entries[0].key;
            sep == last || (Less(last.user, sep.user) && Less(sep.user, next.user))
  {
    IndexAt(index, blocks, [], i);
  }

  lemma IsSought(e: KEntry, k: IKey)
    ensures Sought(e, k) <==> e.key.user == k.user && e.key.tag <= k.tag
  {
  }

  lemma LastBefore(blocks: seq<Block>, i: nat, c: nat, p: nat)
    requires BlocksAscend(blocks) && i < c < |blocks| && p < |blocks[c].entries|
    ensures blocks[i].entries != [] && ILess(blocks[i].entries[|blocks[i].entries| - 1].key, blocks[c].entries[p].key)
  {
    BlocksApart(blocks, i, c);
    BlockAscends(blocks, i);
    hide BlocksAscend, Ascending;
    FirstBefore(blocks[i].entries, blocks[c].entries, |blocks[i].entries| - 1, p);
  }

  lemma NextIsFirst(blocks: seq<Block>, i: nat, c: nat, p: nat)
    requires BlocksAscend(blocks) && i <= c < |blocks| && p < |blocks[c].entries|
    ensures blocks[i].entries != []
    ensures blocks[i].entries[0].key == blocks[c].entries[p].key
            || ILess(blocks[i].entries[0].key, blocks[c].entries[p].key)
  {
    BlockAscends(blocks, i);
    if i < c {
      BlocksApart(blocks, i, c);
      hide *;
      FirstBefore(blocks[i].entries, blocks[c].entries, 0, p);
    } else {
      hide *;
      FirstIsFirst(blocks[c].entries, p);
    }
  }

  lemma BlocksApart(blocks: seq<Block>, a: nat, b: nat)
    requires BlocksAscend(blocks) && a < b < |blocks|
    ensures AllBefore(blocks[a].entries, blocks[b].entries)
  {
  }

  lemma IndexAt(index: seq<IndexEntry>, blocks: seq<Block>, rest: seq<KEntry>, b: nat)
    requires IndexOk(index, blocks, rest) && b < |index|
    ensures b < |blocks| && blocks[b].entries != []
    ensures index[b].offset == blocks[b].offset
    ensures var last, after := blocks[b].entries[|blocks[b].entries| - 1].key, EntriesAt(blocks, b + 1, rest);
            index[b].key == last || (Less(last.user, index[b].key.user)
              && (after != [] ==> Less(index[b].key.user, after[0].key.user)))
  {
  }

  lemma FirstIsFirst(es: seq<KEntry>, p: nat)
    requires Ascending(es) && p < |es|
    ensures es[0].key == es[p].key || ILess(es[0].key, es[p].key)
  {
  }

  lemma FirstBefore(a: seq<KEntry>, b: seq<KEntry>, i: nat, j: nat)
    requires AllBefore(a, b) && i < |a| && j < |b|
    ensures ILess(a[i].key, b[j].key)
  {
  }

  lemma StopsAtNewerKeys(last: IKey, sep: IKey, next: IKey, e: IKey, k: IKey)
    requires sep == last || (Less(last.user, sep.user) && Less(sep.user, next.user))
    requires !ILess(sep, k) && (next == e || ILess(next, e)) && ILess(last, e) && e.user == k.user && e.tag <= k.tag
    ensures last.user == k.user && last.tag <= k.tag
  {
    hide ILess, Less, LessEq;
    ILessUsers(next, e);
    ILessUsers(sep, k);
    ILessUsers(last, e);
    LessChain(sep.user, next.user, e.user);
    LessChain(sep.user, k.user, sep.user);
    LessChain(last.user, k.user, last.user);
  }

  lemma StopsAtOrBefore(index: seq<IndexEntry>, blocks: seq<Block>, k: IKey, i: nat, c: nat, p: nat)
    requires |index| == |blocks| && IndexOk(index, blocks, []) && i <= |index| && IndexStop(index, k, i)
    requires c < |blocks| && p < |blocks[c].entries| && Sought(blocks[c].entries[p], k)
    ensures i <= c && HasNewer(blocks[i].entries, k, blocks[c].entries[p].key.tag)
  {
    assert i <= c by {
      SeparatorReaches(index, blocks, k, c, p);
    }
    hide IndexOk, ILess, Sought;
    var m := |blocks[i].entries| - 1;
    if i < c {
      StopsAtNewer(index, blocks, k, i, c, p);
      SoughtTags(blocks[i].entries[m], blocks[c].entries[p], k);
      assert HasNewer(blocks[i].entries, k, blocks[c].entries[p].key.tag);
    } else {
      assert HasNewer(blocks[i].entries, k, blocks[c].entries[p].key.tag);
    }
  }

  lemma SoughtTags(a: KEntry, b: KEntry, k: IKey)
    requires Sought(a, k) && Sought(b, k) && ILess(a.key, b.key)
    ensures a.key.tag >= b.key.tag
  {
    ILessUsers(a.key, b.key);
  }

  /** Reading one block is enough: the index stops at the block of a sought entry, or at one that
      holds a newer sought entry. */
  lemma OneBlockIsEnough(index: seq<IndexEntry>, blocks: seq<Block>, k: IKey, i: nat, e: KEntry)
    requires |index| == |blocks| && IndexOk(index, blocks, []) && i <= |index| && IndexStop(index, k, i)
    requires e in AllEntries(blocks) && Sought(e, k)
    ensures i < |blocks| && HasNewer(blocks[i].entries, k, e.key.tag)
  {
    EntryOf(blocks, e);
    var c :| 0 <= c < |blocks| && e in blocks[c].entries;
    var p :| 0 <= p < |blocks[c].entries| && blocks[c].entries[p] == e;
    hide *;
    StopsAtOrBefore(index, blocks, k, i, c, p);
  }

  /** Order alone is not enough: with a separator after the last key and before the next one, but with
      the next one's user key, the index stops at a block without the sought entry. */
  lemma OrderIsNotEnough(k: IKey, first: Block, second: Block, index: seq<IndexEntry>)
    requires k == IKey([98], 20) && first == Block(0, [KEntry(IKey([97], 5), [])])
             && second == Block(1, [KEntry(IKey([98], 3), [])])
    requires index == [IndexEntry(IKey([98], 9), 0), IndexEntry(IKey([98], 3), 1)]
    ensures BlocksAscend([first, second]) && ILess(LastKey(first), index[0].key)
            && ILess(index[0].key, second.entries[0].key)
    ensures Sought(second.entries[0], k) && IndexStop(index, k, 0) && !HasNewer(first.entries, k, 0)
    ensures !SeparatorOk(index[0].key, LastKey(first), second.entries)
  {
    assert Less([97], [98]) && !Less([98], [98]) && !Less([98], [97]);
  }

  lemma SoughtNotBefore(e: KEntry, k: IKey)
    requires Sought(e, k)
    ensures !ILess(e.key, k)
  {
    ILessUsers(e.key, k);
  }

  /** The first entry of a block that is not before the key, when a sought entry is there. */
  lemma FirstIsNewest(es: seq<KEntry>, k: IKey, i: nat, j: nat)
    requires Ascending(es) && i <= |es| && j < |es| && Sought(es[j], k)
    requires (forall m :: 0 <= m < i ==> ILess(es[m].key, k)) && (i < |es| ==> !ILess(es[i].key, k))
    ensures i <= j && Sought(es[i], k) && es[i].key.tag >= es[j].key.tag
  {
    SoughtNotBefore(es[j], k);
    if i < j {
      assert ILess(es[i].key, es[j].key);
      hide ILess, Less;
      ILessUsers(es[i].key, es[j].key);
      ILessUsers(es[i].key, k);
      LessChain(es[i].key.user, k.user, es[i].key.user);
    }
  }

  /** Table::InternalGet: the index, the filter, and at most one data block. */
  method InternalGet(hash: Hash, t: Table, k: IKey) returns (r: Option<KEntry>)
    requires TableOk(hash, t)
    ensures r.Some? ==> r.value in AllEntries(t.blocks) && !ILess(r.value.key, k)
    ensures forall e :: e in AllEntries(t.blocks) && Sought(e, k) ==>
            r.Some? && Sought(r.value, k) && r.value.key.tag >= e.key.tag
  {
    hide BlocksAscend, SeparatorOk, AllEntries;
    var i := SeekInIndex(t.index, k);
    forall e | e in AllEntries(t.blocks) && Sought(e, k)
      ensures i < |t.blocks| && HasNewer(t.blocks[i].entries, k, e.key.tag)
    {
      OneBlockIsEnough(t.index, t.blocks, k, i, e);
    }
    if i == |t.index| {
      return None;
    }
    if t.filter.Some? {
      var may := FilterSays(hash, t.filter.value, t.blocks[i].offset, k.user);
      FilterAdmits(hash, t, k, i);
      if !may {
        return None;
      }
    }
    var es := t.blocks[i].entries;
    var p := SeekInBlock(es, k);
    BlockAscends(t.blocks, i);
    forall e | e in AllEntries(t.blocks) && Sought(e, k)
      ensures p < |es| && Sought(es[p], k) && es[p].key.tag >= e.key.tag
    {
      var j :| 0 <= j < |es| && Sought(es[j], k) && es[j].key.tag >= e.key.tag;
      FirstIsNewest(es, k, p, j);
    }
    if p == |es| {
      return None;
    }
    EntryOf(t.blocks, es[p]);
    assert es[p] in t.blocks[i].entries;
    return Some(es[p]);
  }

  /** The filter does not deny a block that holds a sought entry. */
  lemma FilterAdmits(hash: Hash, t: Table, k: IKey, i: nat)
    requires TableOk(hash, t) && t.filter.Some? && i < |t.blocks|
    ensures forall tag :: HasNewer(t.blocks[i].entries, k, tag) ==>
            KeyMayBeIn(hash, t.filter.value, t.blocks[i].offset, k.user)
  {
    forall tag | HasNewer(t.blocks[i].entries, k, tag)
      ensures KeyMayBeIn(hash, t.filter.value, t.blocks[i].offset, k.user) {
      var j :| 0 <= j < |t.blocks[i].entries| && Sought(t.blocks[i].entries[j], k);
      assert t.blocks[i].entries[j] in t.blocks[i].entries;
    }
  }

  ghost predicate HasNewer(es: seq<KEntry>, k: IKey, tag: nat) {
    exists j :: 0 <= j < |es| && Sought(es[j], k) && es[j].key.tag >= tag
  }

  lemma BlockAscends(blocks: seq<Block>, i: nat)
    requires BlocksAscend(blocks) && i < |blocks|
    ensures blocks[i].entries != [] && Ascending(blocks[i].entries)
  {
  }

  // ---------------------------------------------------------------------------------------------
  // Building a table
  // ---------------------------------------------------------------------------------------------

  /** What was written and what is held back: blocks with their index entries, except perhaps the last
      block's, and the entries of the block being filled. */
  ghost predicate Building(index: seq<IndexEntry>, blocks: seq<Block>, data: seq<KEntry>, pending: bool,
          lastKey: IKey) {
    && IndexOk(index, blocks, data)
    && |index| + (if pending then 1 else 0) == |blocks|
    && Ascending(data) && (forall b :: 0 <= b < |blocks| ==> AllBefore(blocks[b].entries, data))
    && (pending <==> data == [] && blocks != [])
    && LastIs(blocks, data, lastKey)
  }

  /** The key of the newest entry. */
  ghost predicate LastIs(blocks: seq<Block>, data: seq<KEntry>, lastKey: IKey) {
    if data != [] then lastKey == data[|data| - 1].key
    else blocks != [] ==> blocks[|blocks| - 1].entries != [] && lastKey == LastKey(blocks[|blocks| - 1])
  }

  lemma BuildingParts(index: seq<IndexEntry>, blocks: seq<Block>, data: seq<KEntry>, pending: bool, lastKey: IKey)
    requires Building(index, blocks, data, pending, lastKey)
    ensures IndexOk(index, blocks, data) && BlocksAscend(blocks) && Ascending(data) && LastIs(blocks, data, lastKey)
    ensures |index| + (if pending then 1 else 0) == |blocks| && (pending <==> data == [] && blocks != [])
  {
  }

  /** Everything there comes before a key after the last one. */
  lemma LastIsLast(blocks: seq<Block>, data: seq<KEntry>, lastKey: IKey, b: nat, e: KEntry)
    requires BlocksAscend(blocks) && LastIs(blocks, data, lastKey) && ILess(lastKey, e.key)
    requires b < |blocks| && AllBefore(blocks[b].entries, data)
    ensures AllBefore(blocks[b].entries, data + [e])
  {
    var es := blocks[b].entries;
    forall i, j | 0 <= i < |es| && 0 <= j < |data + [e]| ensures ILess(es[i].key, (data + [e])[j].key) {
      if j == |data| {
        assert es[i].key == lastKey || ILess(es[i].key, lastKey) by {
          hide ILess;
          if data == [] {
            var last := |blocks| - 1;
            if b < last {
              BlocksApart(blocks, b, last);
            } else {
              BlockAscends(blocks, b);
            }
          }
        }
        hide ILess;
        ILessOrder(es[i].key, lastKey, e.key);
      }
    }
  }

  lemma AscendingSnoc(data: seq<KEntry>, e: KEntry)
    requires Ascending(data) && (data != [] ==> ILess(data[|data| - 1].key, e.key))
    ensures Ascending(data + [e])
  {
    hide ILess;
    forall i, j | 0 <= i < j < |data + [e]| ensures ILess((data + [e])[i].key, (data + [e])[j].key) {
      if j == |data| && i < |data| - 1 {
        ILessOrder(data[i].key, data[|data| - 1].key, e.key);
      }
    }
  }

  /** The index as it is once the next key is known: the held-back entry is written. */
  function WithPending(index: seq<IndexEntry>, blocks: seq<Block>, sep: IKey): seq<IndexEntry>
    requires blocks != []
  {
    index + [IndexEntry(sep, blocks[|blocks| - 1].offset)]
  }

  /** The index once a key that comes after everything, or no key any more, is known. */
  function IndexThen(index: seq<IndexEntry>, blocks: seq<Block>, pending: bool, sep: IKey): seq<IndexEntry>
  {
    if pending && blocks != [] then WithPending(index, blocks, sep) else index
  }

  /** More entries after the last block change no separator's truth. */
  lemma IndexKept(index: seq<IndexEntry>, blocks: seq<Block>, data: seq<KEntry>, e: KEntry)
    requires IndexOk(index, blocks, data) && (data == [] ==> |index| < |blocks| || blocks == [])
    ensures IndexOk(index, blocks, data + [e])
  {
    hide BlocksAscend;
    forall b | 0 <= b < |index| ensures IndexEntryOk(index[b], blocks[b], EntriesAt(blocks, b + 1, data + [e])) {
      assert IndexEntryOk(index[b], blocks[b], EntriesAt(blocks, b + 1, data));
    }
  }

  lemma IndexAdded(index: seq<IndexEntry>, blocks: seq<Block>, rest: seq<KEntry>, after: seq<KEntry>, sep: IKey)
    requires IndexOk(index, blocks, rest) && |index| + 1 == |blocks|
    requires blocks[|blocks| - 1].entries != [] && SeparatorOk(sep, LastKey(blocks[|blocks| - 1]), after)
    ensures IndexOk(WithPending(index, blocks, sep), blocks, after)
  {
    hide BlocksAscend;
    var index' := WithPending(index, blocks, sep);
    forall b | 0 <= b < |index'| ensures IndexEntryOk(index'[b], blocks[b], EntriesAt(blocks, b + 1, after)) {
      if b < |index| {
        assert IndexEntryOk(index[b], blocks[b], EntriesAt(blocks, b + 1, rest));
      }
    }
  }

  lemma AddBuilding(index: seq<IndexEntry>, blocks: seq<Block>, data: seq<KEntry>, pending: bool, lastKey: IKey,
          e: KEntry)
    requires Building(index, blocks, data, pending, lastKey) && (blocks != [] || data != [] ==> ILess(lastKey, e.key))
    ensures Building(IndexThen(index, blocks, pending, ISeparator(lastKey, e.key)), blocks, data + [e], false, e.key)
  {
    BuildingParts(index, blocks, data, pending, lastKey);
    AscendingSnoc(data, e);
    forall b | 0 <= b < |blocks| ensures AllBefore(blocks[b].entries, data + [e]) {
      LastIsLast(blocks, data, lastKey, b, e);
    }
    hide BlocksAscend, AllBefore, Ascending, ILess;
    if pending {
      ISeparatorBetween(lastKey, e.key);
      IndexAdded(index, blocks, data, data + [e], ISeparator(lastKey, e.key));
    } else {
      hide ISeparator;
      IndexKept(index, blocks, data, e);
    }
  }

  lemma FlushBuilding(index: seq<IndexEntry>, blocks: seq<Block>, data: seq<KEntry>, lastKey: IKey, offset: nat)
    requires Building(index, blocks, data, false, lastKey) && data != []
    ensures Building(index, blocks + [Block(offset, data)], [], true, lastKey)
  {
    var blocks' := blocks + [Block(offset, data)];
    BlockAdded(blocks, data, offset);
    hide BlocksAscend, AllBefore, Ascending, SeparatorOk;
    forall b | 0 <= b < |blocks'| ensures AllBefore(blocks'[b].entries, []) {
      BeforeNothing(blocks'[b].entries);
    }
    NothingAscends();
    forall b | 0 <= b < |index| ensures IndexEntryOk(index[b], blocks'[b], EntriesAt(blocks', b + 1, [])) {
      assert EntriesAt(blocks', b + 1, []) == EntriesAt(blocks, b + 1, data);
    }
  }

  lemma BlockAdded(blocks: seq<Block>, data: seq<KEntry>, offset: nat)
    requires BlocksAscend(blocks) && Ascending(data) && data != []
    requires forall b :: 0 <= b < |blocks| ==> AllBefore(blocks[b].entries, data)
    ensures BlocksAscend(blocks + [Block(offset, data)])
  {
    hide AllBefore, Ascending;
  }

  lemma BeforeNothing(es: seq<KEntry>)
    ensures AllBefore(es, [])
  {
  }

  lemma NothingAscends()
    ensures Ascending([])
  {
  }

  /** The last separator has no key after it. */
  lemma FinishBuilding(index: seq<IndexEntry>, blocks: seq<Block>, pending: bool, lastKey: IKey)
    requires Building(index, blocks, [], pending, lastKey)
    ensures var index' := if pending then WithPending(index, blocks, ISuccessor(lastKey)) else index;
            |index'| == |blocks| && IndexOk(index', blocks, [])
  {
    if pending {
      ISuccessorAfter(lastKey);
      hide BlocksAscend, AllBefore, Ascending, ILess;
      IndexAdded(index, blocks, [], [], ISuccessor(lastKey));
    }
  }

  /** The entries of a block are in their offset's filter group, or will be. */
  ghost predicate FilterHolds(filter: FilterBlockBuilder, blocks: seq<Block>)
    reads filter
  {
    forall b, j :: 0 <= b < |blocks| && 0 <= j < |blocks[b].entries| ==>
      filter.Assigned(blocks[b].offset / BASE, blocks[b].entries[j].key.user)
  }

  /** The blocks once the entries being collected, if there are any, have become one. */
  function BlocksThen(blocks: seq<Block>, data: seq<KEntry>, offset: nat): seq<Block> {
    if data == [] then blocks else blocks + [Block(offset, data)]
  }

  class TableBuilder {
    const hash: Hash
    const blockSize: nat
    /** The encoded size of a block, which the builder compares with `blockSize`. */
    const size: seq<KEntry> -> nat
    const filter: FilterBlockBuilder?
    var index: seq<IndexEntry>
    var blocks: seq<Block>
    var data: seq<KEntry>
    var pending: bool
    var lastKey: IKey
    var offset: nat

    ghost predicate FilterValid()
      reads this, filter
    {
      filter != null ==>
        && filter.Valid() && filter.hash == hash && |filter.groups| == offset / BASE
        && FilterHolds(filter, blocks + [Block(offset, data)])
    }

    ghost predicate Valid()
      reads this, filter
    {
      Building(index, blocks, data, pending, lastKey) && FilterValid()
    }

    /** Everything added so far. */
    ghost function Entries(): seq<KEntry>
      reads this
    {
      AllEntries(blocks) + data
    }

    constructor (hash: Hash, blockSize: nat, size: seq<KEntry> -> nat, filter: FilterBlockBuilder?)
      requires filter != null ==> filter.Valid() && filter.hash == hash && filter.groups == []
      ensures Valid() && Entries() == [] && this.filter == filter && this.hash == hash
    {
      this.hash, this.blockSize, this.size, this.filter := hash, blockSize, size, filter;
      index, blocks, data, pending, lastKey, offset := [], [], [], false, IKey([], 0), 0;
    }

    method Add(e: KEntry)
      requires Valid() && (Entries() != [] ==> ILess(Entries()[|Entries()| - 1].key, e.key))
      modifies this, filter
      ensures Valid() && Entries() == old(Entries()) + [e]
      ensures index == IndexThen(old(index), old(blocks), old(pending), ISeparator(old(lastKey), e.key))
      ensures var es := old(data) + [e];
              if size(es) < blockSize then blocks == old(blocks) && data == es && offset == old(offset)
              else blocks == old(blocks) + [Block(old(offset), es)] && data == []
                   && offset == old(offset) + size(es) + 5
    {
      LastEntry(blocks, data, lastKey);
      AddEntry(e);
      hide *;
      if size(data) >= blockSize {
        Flush();
      }
    }

    /** The index entry held back is written now that the next key is known. */
    method AddEntry(e: KEntry)
      requires Valid() && (blocks != [] || data != [] ==> ILess(lastKey, e.key))
      modifies this, filter
      ensures Valid() && Entries() == old(Entries()) + [e]
      ensures blocks == old(blocks) && data == old(data) + [e] && offset == old(offset)
      ensures index == IndexThen(old(index), old(blocks), old(pending), ISeparator(old(lastKey), e.key))
    {
      BuildingParts(index, blocks, data, pending, lastKey);
      AddBuilding(index, blocks, data, pending, lastKey, e);
      hide Building, ISeparator, ILess, IndexThen, AllEntries, FilterHolds, LastIs, IndexOk, BlocksAscend, Ascending,
        FilterBlockBuilder.Valid, FilterBlockBuilder.Assigned;
      WritePending(e.key);
      AddToFilter(e);
      lastKey := e.key;
      data := data + [e];
    }

    method WritePending(key: IKey)
      requires pending ==> blocks != []
      modifies this`index, this`pending
      ensures !pending && index == IndexThen(old(index), blocks, old(pending), ISeparator(lastKey, key))
    {
      hide ISeparator;
      if pending {
        index := WithPending(index, blocks, ISeparator(lastKey, key));
        pending := false;
      }
    }

    method AddToFilter(e: KEntry)
      requires FilterValid()
      modifies filter
      ensures filter != null ==>
        && filter.Valid() && |filter.groups| == offset / BASE
        && FilterHolds(filter, blocks + [Block(offset, data + [e])])
    {
      if filter != null {
        ghost var was := blocks + [Block(offset, data)];
        filter.AddKey(e.key.user);
        ghost var now := blocks + [Block(offset, data + [e])];
        forall b, j | 0 <= b < |now| && 0 <= j < |now[b].entries|
          ensures filter.Assigned(now[b].offset / BASE, now[b].entries[j].key.user)
        {
          assert b < |blocks| || j < |data| ==> now[b].entries[j] == was[b].entries[j];
        }
      }
    }

    method Flush()
      requires Valid()
      modifies this, filter
      ensures Valid() && Entries() == old(Entries()) && data == [] && index == old(index) && lastKey == old(lastKey)
      ensures old(data) == [] ==> blocks == old(blocks) && offset == old(offset) && pending == old(pending)
      ensures old(data) != [] ==> blocks == old(blocks) + [Block(old(offset), old(data))]
                                  && offset == old(offset) + size(old(data)) + 5
    {
      if data == [] {
        return;
      }
      BuildingParts(index, blocks, data, pending, lastKey);
      FlushBuilding(index, blocks, data, lastKey, offset);
      hide Building, AllEntries;
      blocks := blocks + [Block(offset, data)];
      offset := offset + size(data) + 5;
      data := [];
      pending := true;
      if filter != null {
        filter.StartBlock(offset);
      }
    }

    method FinishFilter() returns (contents: Option<Bytes>, ghost filters: nat)
      requires FilterValid() && data == []
      modifies filter
      ensures contents.Some? <==> filter != null
      ensures filters < TWO32 && contents.Some? ==> FilterOk(hash, contents.value, blocks)
    {
      hide FilterOk, FilterContents;
      filters := 0;
      contents := None;
      if filter != null {
        ghost var offsets, result;
        var bytes;
        bytes, offsets, result := filter.Finish();
        contents := Some(bytes);
        filters := |result|;
        if filters < TWO32 {
          assert blocks <= blocks + [Block(offset, data)];
          FinishedFilterOk(filter, blocks, bytes);
        }
      }
    }

    /** The table's index, blocks and filter; `filters` is how far the filter offsets must reach. */
    method Finish() returns (t: Table, ghost filters: nat)
      requires Valid()
      modifies this, filter
      ensures AllEntries(t.blocks) == old(Entries()) && (t.filter.Some? <==> filter != null)
      ensures t.blocks == BlocksThen(old(blocks), old(data), old(offset))
      ensures t.index == IndexThen(old(index), t.blocks, t.blocks != [], ISuccessor(old(lastKey)))
      ensures filters < TWO32 ==> TableOk(hash, t)
    {
      Flush();
      BuildingParts(index, blocks, data, pending, lastKey);
      FinishBuilding(index, blocks, pending, lastKey);
      hide Building, AllEntries, IndexOk, ISuccessor, WithPending, FilterOk;
      var contents;
      contents, filters := FinishFilter();
      if pending {
        index := WithPending(index, blocks, ISuccessor(lastKey));
        pending := false;
      }
      t := Table(index, blocks, contents);
    }
  }

  /** A finished filter denies none of the table's keys. */
  lemma FinishedFilterOk(filter: FilterBlockBuilder, blocks: seq<Block>, contents: Bytes)
    requires filter.Valid() && |filter.result| < TWO32
    requires forall i :: 0 <= i < |filter.filterOffsets| ==> filter.filterOffsets[i] < TWO32
    requires contents == FilterContents(filter.result, filter.filterOffsets)
    requires forall b, j :: 0 <= b < |blocks| && 0 <= j < |blocks[b].entries| ==>
               InGroup(filter.groups, blocks[b].offset / BASE, blocks[b].entries[j].key.user)
    ensures FilterOk(filter.hash, contents, blocks)
  {
    hide FilterContents, GroupsOk, KeyMayBeIn;
    forall b, e | 0 <= b < |blocks| && e in blocks[b].entries
      ensures KeyMayBeIn(filter.hash, contents, blocks[b].offset, e.key.user) {
      var j :| 0 <= j < |blocks[b].entries| && blocks[b].entries[j] == e;
      assert InGroup(filter.groups, blocks[b].offset / BASE, blocks[b].entries[j].key.user);
      GroupKeyMatches(filter.hash, filter.result, filter.filterOffsets, filter.groups, blocks[b].offset, e.key.user);
    }
  }

  ghost predicate InGroup(groups: seq<seq<Bytes>>, i: nat, key: Bytes) {
    i < |groups| && key in groups[i]
  }

  lemma LastEntry(blocks: seq<Block>, data: seq<KEntry>, lastKey: IKey)
    requires LastIs(blocks, data, lastKey)
    ensures var all := AllEntries(blocks) + data;
            blocks != [] || data != [] ==> all != [] && all[|all| - 1].key == lastKey
  {
  }
}
