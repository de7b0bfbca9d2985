/** TwoLevelIterator: an index of blocks walked as the concatenation of the blocks. */
module TwoLevel {
  import opened Options
  import opened Keys
  import opened Cursor

  type Handle = nat

  datatype Data = Data(es: seq<Entry>, pos: nat)

  // ---------------------------------------------------------------------------------------------
  // Concatenation
  // ---------------------------------------------------------------------------------------------

  ghost function Flat(blocks: seq<seq<Entry>>): seq<Entry> {
    if blocks == [] then [] else Flat(blocks[..|blocks| - 1]) + blocks[|blocks| - 1]
  }

  /** How many entries the first `b` blocks hold. */
  ghost function Offset(blocks: seq<seq<Entry>>, b: nat): nat
    requires b <= |blocks|
  {
    |Flat(blocks[..b])|
  }

  lemma {:induction false} FlatPrefix(blocks: seq<seq<Entry>>, b: nat)
    requires b <= |blocks|
    ensures Flat(blocks[..b]) <= Flat(blocks)
    decreases |blocks|
  {
    if b < |blocks| {
      FlatPrefix(blocks[..|blocks| - 1], b);
      assert blocks[..|blocks| - 1][..b] == blocks[..b];
    } else {
      assert blocks[..b] == blocks;
    }
  }

  lemma FlatBlock(blocks: seq<seq<Entry>>, b: nat)
    requires b < |blocks|
    ensures Offset(blocks, b + 1) == Offset(blocks, b) + |blocks[b]| <= |Flat(blocks)|
    ensures forall j :: 0 <= j < |blocks[b]| ==> Flat(blocks)[Offset(blocks, b) + j] == blocks[b][j]
  {
    assert blocks[..b + 1][..b] == blocks[..b];
    FlatPrefix(blocks, b + 1);
  }

  lemma FlatPlace(blocks: seq<seq<Entry>>, b: nat, j: nat)
    requires b < |blocks| && j < |blocks[b]|
    ensures Offset(blocks, b) + j < |Flat(blocks)| && Flat(blocks)[Offset(blocks, b) + j] == blocks[b][j]
  {
    FlatBlock(blocks, b);
  }

  lemma OffsetEnds(blocks: seq<seq<Entry>>)
    ensures Offset(blocks, 0) == 0 && Offset(blocks, |blocks|) == |Flat(blocks)|
  {
    assert blocks[..|blocks|] == blocks;
  }

  lemma {:induction false} FlatMember(blocks: seq<seq<Entry>>, i: nat) returns (b: nat, j: nat)
    requires i < |Flat(blocks)|
    ensures b < |blocks| && j < |blocks[b]| && i == Offset(blocks, b) + j && Flat(blocks)[i] == blocks[b][j]
    decreases |blocks|
  {
    var init := blocks[..|blocks| - 1];
    if i < |Flat(init)| {
      b, j := FlatMember(init, i);
      assert init[..b] == blocks[..b];
    } else {
      b, j := |blocks| - 1, i - |Flat(init)|;
    }
  }

  lemma {:induction false} OffsetMonotone(blocks: seq<seq<Entry>>, a: nat, b: nat)
    requires a <= b <= |blocks|
    ensures Offset(blocks, a) <= Offset(blocks, b)
    decreases b
  {
    if a < b {
      OffsetMonotone(blocks, a, b - 1);
      FlatBlock(blocks, b - 1);
    }
  }

  /** Each index key is at or after the entries of its block and before those of later blocks. */
  ghost predicate Separated(index: seq<Entry>, blocks: seq<seq<Entry>>) {
    && |index| == |blocks| && Ascending(index) && Ascending(Flat(blocks))
    && (forall b, j :: 0 <= b < |blocks| && 0 <= j < |blocks[b]| ==> !Before(index[b], blocks[b][j]))
    && (forall a, b, j :: 0 <= a < b < |blocks| && 0 <= j < |blocks[b]| ==> Before(index[a], blocks[b][j]))
  }

  /** Seeking the index, then the block it names, finds the place in the concatenation. */
  lemma SeekSplits(index: seq<Entry>, blocks: seq<seq<Entry>>, k: UserKey, tag: nat)
    requires Separated(index, blocks)
    ensures var b := SeekIndex(index, k, tag);
            SeekIndex(Flat(blocks), k, tag) ==
            if b == |blocks| then |Flat(blocks)| else Offset(blocks, b) + SeekIndex(blocks[b], k, tag)
  {
    var b := SeekIndex(index, k, tag);
    var flat := Flat(blocks);
    var r := if b == |blocks| then |flat| else Offset(blocks, b) + SeekIndex(blocks[b], k, tag);
    if b < |blocks| {
      FlatBlock(blocks, b);
    }
    assert r <= |flat|;
    forall i | 0 <= i < r ensures KeyBefore(flat[i], k, tag) {
      SeekBefore(index, blocks, k, tag, i);
    }
    if r < |flat| {
      SeekAfter(index, blocks, k, tag);
    }
    SeekIndexUnique(flat, k, tag, r);
  }

  lemma SeekBefore(index: seq<Entry>, blocks: seq<seq<Entry>>, k: UserKey, tag: nat, i: nat)
    requires Separated(index, blocks) && i < |Flat(blocks)|
    requires var b := SeekIndex(index, k, tag); b < |blocks| ==> i < Offset(blocks, b) + SeekIndex(blocks[b], k, tag)
    ensures KeyBefore(Flat(blocks)[i], k, tag)
  {
    var b := SeekIndex(index, k, tag);
    var c, j := FlatMember(blocks, i);
    if c < b {
      assert KeyBefore(index[c], k, tag) && !Before(index[c], blocks[c][j]);
    } else if c > b {
      OffsetMonotone(blocks, b + 1, c);
      FlatBlock(blocks, b);
    }
  }

  lemma SeekAfter(index: seq<Entry>, blocks: seq<seq<Entry>>, k: UserKey, tag: nat)
    requires Separated(index, blocks)
    requires var b := SeekIndex(index, k, tag);
             b < |blocks| && Offset(blocks, b) + SeekIndex(blocks[b], k, tag) < |Flat(blocks)|
    ensures var b := SeekIndex(index, k, tag);
            !KeyBefore(Flat(blocks)[Offset(blocks, b) + SeekIndex(blocks[b], k, tag)], k, tag)
  {
    hide Flat, Offset, SeekIndex, Ascending;
    var b := SeekIndex(index, k, tag);
    FlatBlock(blocks, b);
    var i := Offset(blocks, b) + SeekIndex(blocks[b], k, tag);
    var c, j := FlatMember(blocks, i);
    if c < b {
      OffsetMonotone(blocks, c + 1, b);
      FlatBlock(blocks, c);
    } else if b < c {
      assert Before(index[b], blocks[c][j]);
    }
  }

  // ---------------------------------------------------------------------------------------------
  // The iterator
  // ---------------------------------------------------------------------------------------------

  class TwoLevelIterator {
    const index: seq<Entry>
    const handles: seq<Handle>
    const read: Handle -> seq<Entry>
    var indexPos: nat
    var data: Option<Data>
    var dataHandle: Handle

    function Blocks(): (r: seq<seq<Entry>>)
      ensures |r| == |handles|
      ensures forall b :: 0 <= b < |handles| ==> r[b] == read(handles[b])
    {
      seq(|handles|, b requires 0 <= b < |handles| => read(handles[b]))
    }

    ghost function List(): seq<Entry> {
      Flat(Blocks())
    }

    /** The data iterator was made for the handle it is filed under. */
    ghost predicate Cached()
      reads this
    {
      && Separated(index, Blocks()) && |index| == |handles| && indexPos <= |handles|
      && (data.Some? ==> data.value.es == read(dataHandle))
    }

    /** The data iterator reads the block that the index stands on. */
    ghost predicate InStep()
      reads this
    {
      && Cached() && (data.Some? <==> indexPos < |handles|)
      && (data.Some? ==> data.value.es == Blocks()[indexPos] && data.value.pos <= |data.value.es|)
    }

    predicate Valid()
      reads this
    {
      data.Some? && data.value.pos < |data.value.es|
    }

    ghost predicate Ok()
      reads this
    {
      Cached() && (Valid() ==> InStep())
    }

    /** The place in the concatenation; its length is the invalid place. */
    ghost function At(): (i: nat)
      requires Ok()
      reads this
      ensures i <= |List()| && (Valid() <==> i < |List()|)
      ensures Valid() ==> List()[i] == data.value.es[data.value.pos]
    {
      if Valid() then
        FlatPlace(Blocks(), indexPos, data.value.pos);
        Offset(Blocks(), indexPos) + data.value.pos
      else |List()|
    }

    function Current(): (e: Entry)
      requires Ok() && Valid()
      reads this
      ensures e == List()[At()]
    {
      data.value.es[data.value.pos]
    }

    constructor (index: seq<Entry>, handles: seq<Handle>, read: Handle -> seq<Entry>)
      requires Separated(index, seq(|handles|, b requires 0 <= b < |handles| => read(handles[b])))
      ensures Ok() && !Valid() && this.index == index && this.handles == handles && this.read == read
    {
      this.index, this.handles, this.read := index, handles, read;
      indexPos, data, dataHandle := |handles|, None, 0;
      new;
      assert Blocks() == seq(|handles|, b requires 0 <= b < |handles| => read(handles[b]));
    }

    /** Makes the data iterator that fits the index, unless it is there already. */
    method InitDataBlock()
      requires Cached()
      modifies this`data, this`dataHandle
      ensures Cached() && (data.Some? <==> indexPos < |handles|)
      ensures data.Some? ==> data.value.es == Blocks()[indexPos]
    {
      if indexPos >= |handles| {
        data := None;
      } else {
        var handle := handles[indexPos];
        if data.Some? && handle == dataHandle {
          // already constructed for this block
        } else {
          data := Some(Data(read(handle), 0));
          dataHandle := handle;
        }
      }
    }

    method MoveData(m: Move)
      requires data.Some? && Allowed(data.value.es, data.value.pos, m)
      modifies this`data
      ensures data == Some(Data(old(data).value.es, After(old(data).value.es, old(data).value.pos, m)))
    {
      data := Some(data.value.(pos := After(data.value.es, data.value.pos, m)));
    }

    method SkipEmptyDataBlocksForward()
      requires InStep()
      modifies this
      ensures Ok()
      ensures At() == if old(data).Some? then Offset(Blocks(), old(indexPos)) + old(data).value.pos else |List()|
    {
      hide Separated, Flat, Offset;
      ghost var target := if data.Some? then Offset(Blocks(), indexPos) + data.value.pos else |List()|;
      OffsetEnds(Blocks());
      while data.None? || data.value.pos >= |data.value.es|
        invariant InStep()
        invariant target == if data.Some? then Offset(Blocks(), indexPos) + data.value.pos else |List()|
        decreases |handles| - indexPos, data.Some?
      {
        if indexPos >= |handles| {
          data := None;
          return;
        }
        FlatBlock(Blocks(), indexPos);
        indexPos := indexPos + 1;
        InitDataBlock();
        if data.Some? {
          MoveData(ToFirst);
        }
      }
    }

    method SkipEmptyDataBlocksBackward()
      requires InStep()
      modifies this
      ensures Ok()
      ensures old(Valid()) ==> At() == Offset(Blocks(), old(indexPos)) + old(data).value.pos
      ensures !old(Valid()) ==>
              At() == if old(indexPos) < |handles| then Back(List(), Offset(Blocks(), old(indexPos))) else |List()|
    {
      hide Separated, Flat, Offset;
      OffsetEnds(Blocks());
      ghost var end := if indexPos < |handles| then Back(List(), Offset(Blocks(), indexPos)) else |List()|;
      ghost var target := if Valid() then Offset(Blocks(), indexPos) + data.value.pos else end;
      while data.None? || data.value.pos >= |data.value.es|
        invariant InStep()
        invariant Valid() ==> target == Offset(Blocks(), indexPos) + data.value.pos
        invariant !Valid() && indexPos < |handles| ==> target == Back(List(), Offset(Blocks(), indexPos))
        invariant indexPos == |handles| ==> target == |List()|
        decreases if indexPos < |handles| then indexPos + 1 else 0
      {
        if indexPos >= |handles| {
          data := None;
          return;
        }
        if indexPos > 0 {
          FlatBlock(Blocks(), indexPos - 1);
        }
        indexPos := After(index, indexPos, Move.Prev);
        InitDataBlock();
        if data.Some? {
          MoveData(ToLast);
        }
      }
    }

    method Seek(k: UserKey, tag: nat)
      requires Ok()
      modifies this
      ensures Ok() && At() == After(List(), old(At()), Move.Seek(k, tag))
    {
      SeekSplits(index, Blocks(), k, tag);
      indexPos := After(index, 0, Move.Seek(k, tag));
      InitDataBlock();
      if data.Some? {
        MoveData(Move.Seek(k, tag));
      }
      SkipEmptyDataBlocksForward();
    }

    method SeekToFirst()
      requires Ok()
      modifies this
      ensures Ok() && At() == After(List(), old(At()), ToFirst)
    {
      OffsetEnds(Blocks());
      indexPos := 0;
      InitDataBlock();
      if data.Some? {
        MoveData(ToFirst);
      }
      SkipEmptyDataBlocksForward();
    }

    method SeekToLast()
      requires Ok()
      modifies this
      ensures Ok() && At() == After(List(), old(At()), ToLast)
    {
      OffsetEnds(Blocks());
      indexPos := After(index, 0, ToLast);
      if indexPos < |handles| {
        FlatBlock(Blocks(), indexPos);
      }
      InitDataBlock();
      if data.Some? {
        MoveData(ToLast);
      }
      SkipEmptyDataBlocksBackward();
    }

    method Next()
      requires Ok() && Valid()
      modifies this
      ensures Ok() && At() == After(List(), old(At()), Move.Next)
    {
      MoveData(Move.Next);
      SkipEmptyDataBlocksForward();
    }

    method Prev()
      requires Ok() && Valid()
      modifies this
      ensures Ok() && At() == After(List(), old(At()), Move.Prev)
    {
      FlatBlock(Blocks(), indexPos);
      MoveData(Move.Prev);
      SkipEmptyDataBlocksBackward();
    }
  }
}
