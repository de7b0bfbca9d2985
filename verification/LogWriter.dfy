/** log::Writer, over a file whose flush may fail. */
module LogWriter {
  import opened Options
  import opened Coding
  import opened LogFormat
  import opened LogAttempts

  class Writer {
    const crc: Checksum
    /** The file: what has been flushed, and what is still buffered. */
    var dest: Bytes
    var flushed: nat
    var blockOffset: nat

    ghost predicate Valid()
      reads this
    {
      blockOffset <= BLOCK_SIZE && flushed == |dest|
    }

    /** The destination holds exactly the log of `records`. */
    ghost predicate Holds(records: seq<Bytes>)
      reads this
    {
      Valid() && dest == LogBytes(crc, records) && blockOffset == LogEnd(records)
    }

    constructor (crc: Checksum)
      ensures Holds([]) && this.crc == crc
    {
      this.crc := crc;
      dest, flushed, blockOffset := [], 0, 0;
    }

    /** Fills the trailer when the block has no room for a header. */
    method SwitchBlock()
      requires Valid()
      modifies this`dest, this`blockOffset
      ensures dest == old(dest) + Zeros(Trailer(old(blockOffset))) && blockOffset == HeaderOffset(old(blockOffset))
    {
      var leftover := BLOCK_SIZE - blockOffset;
      if leftover < HEADER_SIZE {
        if leftover > 0 {
          dest := dest + Zeros(leftover);
        }
        blockOffset := 0;
      }
    }

    /** Buffers a fragment and flushes.  A flush that fails leaves the file some of the bytes it was to
        write, and the buffer empty. */
    method EmitPhysicalRecord(f: Fragment, failure: Option<nat>) returns (ok: bool)
      requires flushed <= |dest| && blockOffset + HEADER_SIZE + |f.payload| <= BLOCK_SIZE
      modifies this
      ensures ok == failure.None? && flushed == |dest|
      ensures var all := old(dest) + Header(crc, f) + f.payload;
              dest == all[..old(flushed)] + if ok then all[old(flushed)..]
                else Front(all[old(flushed)..], failure.value)
      ensures blockOffset == old(blockOffset) + HEADER_SIZE + |f.payload|
    {
      dest := dest + Header(crc, f);
      dest := dest + f.payload;
      ok := failure.None?;
      if !ok {
        dest := dest[..flushed] + Front(dest[flushed..], failure.value);
      }
      flushed := |dest|;
      blockOffset := blockOffset + HEADER_SIZE + |f.payload|;
    }

    /** Appends one record, fragment by fragment, until a flush fails. */
    method TryAddRecord(data: Bytes, failure: Option<Failure>) returns (ok: bool)
      requires Valid()
      modifies this
      ensures Valid() && ok == !Fails(old(blockOffset), Attempt(data, failure))
      ensures dest == old(dest) + AttemptBytes(crc, old(blockOffset), Attempt(data, failure))
      ensures blockOffset == NextOffset(old(blockOffset), Attempt(data, failure))
    {
      hide Written, Fit, Stream, EndOffset, Header, Fragments, Fails, AttemptBytes, NextOffset, Emit, Trailer, Front,
        Zeros;
      ghost var offset, before, a := blockOffset, dest, Attempt(data, failure);
      NothingWritten(crc, before, offset);
      ghost var done: seq<Fragment> := [];
      var left := data;
      var begin := true;
      var i := 0;
      var more := true;
      while more
        invariant Valid() && i == |done| && (failure.Some? ==> i <= failure.value.at)
        invariant Written(crc, before, offset, done, blockOffset, dest)
        invariant more ==> Fragments(offset, data, true) == done + Fragments(blockOffset, left, begin)
        invariant !more ==> Fragments(offset, data, true) == done
        decreases more, |left|, if more && Room(blockOffset) == 0 then 1 else 0
      {
        ghost var o, was := blockOffset, dest;
        SwitchBlock();
        var avail := BLOCK_SIZE - blockOffset - HEADER_SIZE;
        var n := if |left| < avail then |left| else avail;
        var end := |left| == n;
        var f := Fragment(TypeOf(begin, end), left[..n]);
        ok := EmitPhysicalRecord(f, if failure.Some? && failure.value.at == i then Some(failure.value.kept) else None);
        Flushed(crc, was, o, f, ok, if failure.Some? then failure.value.kept else 0);
        FragmentsStep(o, left, begin);
        if !ok {
          FailedAt(crc, before, offset, a, done, o, was, f);
          return;
        }
        FragmentWritten(crc, before, offset, done, o, was, f);
        done := done + [f];
        left := left[n..];
        begin := false;
        i := i + 1;
        more := left != [];
      }
      ok := true;
      AllWritten(crc, before, offset, a, done, blockOffset, dest);
    }

    /** Appends one record when no flush fails. */
    method AddRecord(data: Bytes, ghost records: seq<Bytes>)
      requires Holds(records)
      modifies this
      ensures Holds(records + [data])
    {
      hide Fit, Stream, EndOffset, Header, Fragments;
      ghost var offset := blockOffset;
      var _ := TryAddRecord(data, None);
      LogAppend(crc, records, data);
    }
  }

  /** `d` is `before` followed by the fragments done so far, which end at block offset `o`. */
  ghost predicate Written(crc: Checksum, before: Bytes, offset: nat, done: seq<Fragment>, o: nat, d: Bytes) {
    && o <= BLOCK_SIZE && Fit(offset, done) && EndOffset(offset, done) == o
    && d == before + Stream(crc, offset, done)
  }

  /** All fragments have been written. */
  lemma AllWritten(crc: Checksum, before: Bytes, offset: nat, a: Attempt, done: seq<Fragment>, o: nat, d: Bytes)
    requires Written(crc, before, offset, done, o, d) && offset <= BLOCK_SIZE && done == Fragments(offset, a.data, true)
    requires a.failure.Some? ==> |done| <= a.failure.value.at
    ensures !Fails(offset, a) && d == before + AttemptBytes(crc, offset, a) && o == NextOffset(offset, a)
  {
  }

  /** Fragment `f` was the one whose flush fails. */
  lemma FailedAt(crc: Checksum, before: Bytes, offset: nat, a: Attempt, done: seq<Fragment>, o: nat, d: Bytes,
          f: Fragment)
    requires Written(crc, before, offset, done, o, d) && offset <= BLOCK_SIZE
    requires |f.payload| <= Room(o) && 1 <= f.kind <= 4 && done + [f] <= Fragments(offset, a.data, true)
    requires a.failure.Some? && a.failure.value.at == |done|
    ensures Fails(offset, a)
    ensures d + Front(Emit(crc, o, f), a.failure.value.kept) == before + AttemptBytes(crc, offset, a)
    ensures After(o, f) == NextOffset(offset, a)
  {
    hide Fragments, Fit, Emit, After, Stream;
    var fs, k := Fragments(offset, a.data, true), |done|;
    assert fs[..k] == (done + [f])[..k] == done && fs[..k + 1] == done + [f] && fs[k] == (done + [f])[k];
    AppendFragment(crc, offset, done, f);
    hide EndOffset;
    FailedBytes(crc, offset, a, Stream(crc, offset, done), Emit(crc, o, f));
    var torn := Front(Emit(crc, o, f), a.failure.value.kept);
    assert before + Stream(crc, offset, done) + torn == before + (Stream(crc, offset, done) + torn);
  }

  lemma FailedBytes(crc: Checksum, offset: nat, a: Attempt, whole: Bytes, torn: Bytes)
    requires offset <= BLOCK_SIZE && Fails(offset, a) && Fit(offset, Done(offset, a))
             && whole == Stream(crc, offset, Done(offset, a))
    requires Torn(crc, offset, a) == Front(torn, a.failure.value.kept)
    ensures AttemptBytes(crc, offset, a) == whole + Front(torn, a.failure.value.kept)
  {
  }

  /** What a flush of the fragment leaves. */
  lemma Flushed(crc: Checksum, was: Bytes, o: nat, f: Fragment, ok: bool, kept: nat)
    requires o <= BLOCK_SIZE && |f.payload| <= Room(o)
    ensures var all := was + Zeros(Trailer(o)) + Header(crc, f) + f.payload;
            && |was| <= |all|
            && all[..|was|] + (if ok then all[|was|..] else Front(all[|was|..], kept)) ==
               was + if ok then Emit(crc, o, f) else Front(Emit(crc, o, f), kept)
  {
    hide Header, Front, Trailer;
    var all := was + Zeros(Trailer(o)) + Header(crc, f) + f.payload;
    assert all[..|was|] == was && all[|was|..] == Emit(crc, o, f);
  }

  lemma NothingWritten(crc: Checksum, before: Bytes, offset: nat)
    requires offset <= BLOCK_SIZE
    ensures Written(crc, before, offset, [], offset, before)
  {
  }

  lemma FragmentWritten(crc: Checksum, before: Bytes, offset: nat, done: seq<Fragment>, o: nat, d: Bytes, f: Fragment)
    requires Written(crc, before, offset, done, o, d)
    requires |f.payload| <= Room(o) && 1 <= f.kind <= 4
    ensures Written(crc, before, offset, done + [f], After(o, f), d + Emit(crc, o, f))
  {
    AppendFragment(crc, offset, done, f);
    assert before + (Stream(crc, offset, done) + Emit(crc, o, f)) ==
      before + Stream(crc, offset, done) + Emit(crc, o, f);
  }

  lemma FragmentsStep(offset: nat, left: Bytes, begin: bool)
    requires offset <= BLOCK_SIZE
    ensures var n := if |left| < Room(offset) then |left| else Room(offset);
            var f := Fragment(TypeOf(begin, |left| == n), left[..n]);
            Fragments(offset, left, begin) == [f] + if |left| == n then []
              else Fragments(After(offset, f), left[n..], false)
  {
  }

  lemma AppendFragment(crc: Checksum, offset: nat, done: seq<Fragment>, f: Fragment)
    requires Fit(offset, done) && EndOffset(offset, done) <= BLOCK_SIZE
    requires |f.payload| <= Room(EndOffset(offset, done)) && 1 <= f.kind <= 4
    ensures Fit(offset, done + [f]) && EndOffset(offset, done + [f]) == After(EndOffset(offset, done), f)
    ensures Stream(crc, offset, done + [f]) == Stream(crc, offset, done) + Emit(crc, EndOffset(offset, done), f)
  {
    var o := EndOffset(offset, done);
    assert [f][1..] == [];
    assert Fit(After(o, f), []);
    assert Fit(o, [f]);
    FitConcat(offset, done, [f]);
    StreamConcat(crc, offset, done, [f]);
    assert Stream(crc, o, [f]) == Emit(crc, o, f) + Stream(crc, After(o, f), []);
    assert EndOffset(o, [f]) == After(o, f);
  }

  /** Writing a list of records to an empty file. */
  method WriteLog(crc: Checksum, records: seq<Bytes>) returns (file: Bytes)
    ensures file == LogBytes(crc, records)
  {
    var w := new Writer(crc);
    for i := 0 to |records|
      invariant w.Holds(records[..i]) && w.crc == crc && fresh(w)
    {
      assert records[..i + 1] == records[..i] + [records[i]];
      w.AddRecord(records[i], records[..i]);
    }
    assert records[..|records|] == records;
    file := w.dest;
  }

  /** Appending records one after the other to an empty file, whatever fails. */
  method WriteAttempts(crc: Checksum, attempts: seq<Attempt>) returns (file: Bytes)
    ensures file == FileBytes(crc, attempts)
  {
    hide AttemptBytes, NextOffset, Fails;
    var w := new Writer(crc);
    for i := 0 to |attempts|
      invariant w.Valid() && w.crc == crc && fresh(w)
      invariant w.dest == FileBytes(crc, attempts[..i]) && w.blockOffset == OffsetAfter(attempts[..i])
    {
      assert attempts[..i + 1][..i] == attempts[..i];
      var _ := w.TryAddRecord(attempts[i].data, attempts[i].failure);
      assert attempts[i] == Attempt(attempts[i].data, attempts[i].failure);
    }
    assert attempts[..|attempts|] == attempts;
    file := w.dest;
  }
}
