/** Reading back any byte prefix of a written log. */
module LogRoundTrip {
  import opened Options
  import opened Coding
  import opened LogFormat
  import opened LogAttempts
  import opened LogReader

  // ---------------------------------------------------------------------------------------------
  // One fragment
  // ---------------------------------------------------------------------------------------------

  /** The buffer holds the rest, from `pos`, of the block that ends at `blockEnd`. */
  ghost predicate Loaded(file: Bytes, st: State, blockEnd: nat) {
    && st.Ok(file) && st.pos <= blockEnd
    && st.end == (if blockEnd <= |file| then blockEnd else |file|)
    && (st.eof <==> st.end < blockEnd)
  }

  /** Nothing of the block that starts at `pos` has been read yet. */
  ghost predicate AtBlockStart(file: Bytes, st: State) {
    st.Ok(file) && st.end == st.pos && !st.eof
  }

  /** The reader stands at block offset `o`. */
  ghost predicate Standing(file: Bytes, st: State, o: nat) {
    o <= BLOCK_SIZE && st.pos >= o &&
    (Loaded(file, st, st.pos - o + BLOCK_SIZE) || (o == 0 && AtBlockStart(file, st)))
  }

  lemma HeaderBytes(crc: Checksum, f: Fragment, h: Bytes)
    requires |f.payload| < 0x1_0000 && h == Header(crc, f)
    ensures Length(h) == |f.payload| && h[6] == f.kind
    ensures Unmask(DecodeFixed32(h[..4])) == crc([f.kind] + f.payload)
  {
    var c := Mask(crc([f.kind] + f.payload));
    Fixed32RoundTrip(c);
    UnmaskMask(crc([f.kind] + f.payload));
    assert h[..4] == EncodeFixed32(c);
  }

  lemma PrefixSlice(file: Bytes, pos: nat, full: Bytes, i: nat, j: nat)
    requires pos <= |file| && file[pos..] <= full && i <= j && pos + j <= |file|
    ensures j <= |full| && file[pos + i..pos + j] == full[i..j]
  {
    assert file[pos + i..pos + j] == file[pos..][i..j];
  }

  lemma FragmentSlices(file: Bytes, pos: nat, h: Bytes, payload: Bytes, rest: Bytes)
    requires pos <= |file| && |h| == HEADER_SIZE && file[pos..] <= h + payload + rest
    ensures pos + HEADER_SIZE <= |file| ==> file[pos..pos + HEADER_SIZE] == h
    ensures pos + HEADER_SIZE + |payload| <= |file| ==>
              && file[pos + 6..pos + HEADER_SIZE + |payload|] == [h[6]] + payload
              && file[pos + HEADER_SIZE..pos + HEADER_SIZE + |payload|] == payload
  {
    var full := h + payload + rest;
    if pos + HEADER_SIZE <= |file| {
      PrefixSlice(file, pos, full, 0, HEADER_SIZE);
    }
    if pos + HEADER_SIZE + |payload| <= |file| {
      PrefixSlice(file, pos, full, 6, HEADER_SIZE + |payload|);
      PrefixSlice(file, pos, full, HEADER_SIZE, HEADER_SIZE + |payload|);
    }
  }

  lemma ParseWhole(crc: Checksum, file: Bytes, st: State, f: Fragment, rest: Bytes)
    requires st.Ok(file) && 1 <= f.kind && |f.payload| < 0x1_0000
    requires st.pos + HEADER_SIZE <= st.end
    requires file[st.pos..] <= Header(crc, f) + f.payload + rest
    requires st.pos + HEADER_SIZE + |f.payload| <= st.end || st.eof
    ensures ParsePhysical(crc, file, st) ==
            if st.pos + HEADER_SIZE + |f.payload| <= st.end
              then (Frag(f.kind, f.payload), st.(pos := st.pos + HEADER_SIZE + |f.payload|))
            else (Eof, st.Clear())
  {
    hide Header, Unmask, DecodeFixed32, Length;
    var h := Header(crc, f);
    HeaderBytes(crc, f, h);
    FragmentSlices(file, st.pos, h, f.payload, rest);
  }

  /** With the block loaded, a fragment that is wholly in the file is returned, and a torn one ends
      the log, without a report either way. */
  lemma ReadLoadedFragment(crc: Checksum, file: Bytes, st: State, blockEnd: nat, f: Fragment, rest: Bytes)
    requires Loaded(file, st, blockEnd) && 1 <= f.kind
    requires st.pos + HEADER_SIZE + |f.payload| <= blockEnd && |f.payload| < 0x1_0000
    requires file[st.pos..] <= Header(crc, f) + f.payload + rest
    ensures var len := HEADER_SIZE + |f.payload|;
            var (p, s) := ReadPhysical(crc, file, st);
            if st.pos + len <= |file| then p == Frag(f.kind, f.payload) && s == st.(pos := st.pos + len)
            else p == Eof && s.reports == st.reports
  {
    hide Header, ParsePhysical;
    if st.pos + HEADER_SIZE <= st.end {
      ParseWhole(crc, file, st, f, rest);
    }
  }

  lemma DropTrailer(file: Bytes, pos: nat, t: nat, h: Bytes, payload: Bytes, rest: Bytes)
    requires pos + t <= |file| && file[pos..] <= Zeros(t) + h + payload + rest
    ensures file[pos + t..] <= h + payload + rest
  {
    assert file[pos + t..] == file[pos..][t..];
    assert (Zeros(t) + h + payload + rest)[t..] == h + payload + rest;
  }

  /** The same at any block offset, with the trailer and the block switch. */
  lemma ReadFragment(crc: Checksum, file: Bytes, st: State, o: nat, f: Fragment, rest: Bytes)
    requires Standing(file, st, o) && 1 <= f.kind && |f.payload| <= Room(o)
    requires file[st.pos..] <= Emit(crc, o, f) + rest
    ensures var len := Trailer(o) + HEADER_SIZE + |f.payload|;
            var (p, s) := ReadPhysical(crc, file, st);
            if st.pos + len <= |file| then
              p == Frag(f.kind, f.payload) && s.pos == st.pos + len && s.reports == st.reports
                && Standing(file, s, After(o, f))
            else p == Eof && s.reports == st.reports
  {
    hide Header, Unmask, DecodeFixed32, Length;
    var blockEnd := st.pos - o + BLOCK_SIZE;
    var t := Trailer(o);
    if st.pos + t <= |file| {
      DropTrailer(file, st.pos, t, Header(crc, f), f.payload, rest);
    }
    if o + HEADER_SIZE <= BLOCK_SIZE && Loaded(file, st, blockEnd) {
      ReadLoadedFragment(crc, file, st, blockEnd, f, rest);
    } else if !st.eof {
      var s := Refill(file, st);
      ReadLoadedFragment(crc, file, s, s.pos + BLOCK_SIZE, f, rest);
    }
  }

  // ---------------------------------------------------------------------------------------------
  // The fragments of a file
  // ---------------------------------------------------------------------------------------------

  /** How many of the fragments, from block offset `o` on, end within the next `n` bytes. */
  ghost function Whole(o: nat, fs: seq<Fragment>, n: nat): (k: nat)
    ensures k <= |fs|
    decreases fs
  {
    if fs == [] || n < Trailer(o) + HEADER_SIZE + |fs[0].payload| then 0
    else 1 + Whole(After(o, fs[0]), fs[1..], n - Trailer(o) - HEADER_SIZE - |fs[0].payload|)
  }

  /** The reader stands at block offset `o`, before the fragments `fs` or as much of them as the file has. */
  ghost predicate Ahead(crc: Checksum, file: Bytes, st: State, o: nat, fs: seq<Fragment>) {
    && Fit(o, fs) && Standing(file, st, o)
    && file[st.pos..] <= Stream(crc, o, fs)
  }

  /** Those of them that the file has whole. */
  ghost function Due(file: Bytes, st: State, o: nat, fs: seq<Fragment>): seq<Fragment>
    requires st.pos <= |file|
  {
    fs[..Whole(o, fs, |file| - st.pos)]
  }

  lemma StreamHead(crc: Checksum, file: Bytes, pos: nat, o: nat, fs: seq<Fragment>)
    requires Fit(o, fs) && fs != [] && pos <= |file| && file[pos..] <= Stream(crc, o, fs)
    ensures var f := fs[0];
            && |f.payload| <= Room(o) && 1 <= f.kind <= 4 && Fit(After(o, f), fs[1..])
            && file[pos..] <= Emit(crc, o, f) + Stream(crc, After(o, f), fs[1..])
            && (pos + |Emit(crc, o, f)| <= |file| ==>
              file[pos + |Emit(crc, o, f)|..] <= Stream(crc, After(o, f), fs[1..]))
  {
    var len := |Emit(crc, o, fs[0])|;
    if pos + len <= |file| {
      assert file[pos + len..] == file[pos..][len..];
    }
  }

  lemma NothingLeft(crc: Checksum, file: Bytes, st: State, o: nat)
    requires Standing(file, st, o) && st.pos == |file|
    ensures var (p, s) := ReadPhysical(crc, file, st); p == Eof && s.reports == st.reports
  {
    assert st.end == |file|;
    if !st.eof {
      assert Refill(file, st).eof;
      assert ReadPhysical(crc, file, st) == ReadPhysical(crc, file, Refill(file, st));
    }
  }

  /** The next fragment is read if it is all there; otherwise the file has ended. */
  lemma ReadNextFragment(crc: Checksum, file: Bytes, st: State, o: nat, fs: seq<Fragment>)
    requires Ahead(crc, file, st, o, fs)
    ensures var (p, s) := ReadPhysical(crc, file, st);
            && s.reports == st.reports
            && if Due(file, st, o, fs) == [] then p == Eof
               else
                 && p == Frag(fs[0].kind, fs[0].payload) && Ahead(crc, file, s, After(o, fs[0]), fs[1..])
                 && Due(file, st, o, fs) == [fs[0]] + Due(file, s, After(o, fs[0]), fs[1..])
  {
    hide ReadPhysical, Emit, Header, Stream, Standing, Fit;
    StandingOk(file, st, o);
    if fs == [] {
      NoStream(crc, o);
      NothingLeft(crc, file, st, o);
    } else {
      var f := fs[0];
      StreamHead(crc, file, st.pos, o, fs);
      ReadFragment(crc, file, st, o, f, Stream(crc, After(o, f), fs[1..]));
    }
  }

  lemma NoStream(crc: Checksum, o: nat)
    requires o <= BLOCK_SIZE
    ensures Fit(o, []) && Stream(crc, o, []) == []
  {
  }

  lemma StandingOk(file: Bytes, st: State, o: nat)
    requires Standing(file, st, o)
    ensures st.pos <= |file| && o <= BLOCK_SIZE && st.Ok(file)
  {
  }

  // ---------------------------------------------------------------------------------------------
  // Joining fragments
  // ---------------------------------------------------------------------------------------------

  /** What has been joined so far: whole records, the beginning of another one, and reports of fragments
      that were dropped. */
  datatype Joined = Joined(records: seq<Bytes>, scratch: Bytes, inFragmented: bool, reports: nat)

  const START := Joined([], [], false, 0)

  /** One fragment more. */
  ghost function Feed(j: Joined, f: Fragment): Joined {
    var lost := if j.inFragmented && j.scratch != [] then 1 else 0;
    if f.kind == FULL then Joined(j.records + [f.payload], [], false, j.reports + lost)
    else if f.kind == FIRST then Joined(j.records, f.payload, true, j.reports + lost)
    else if j.inFragmented && f.kind == MIDDLE then j.(scratch := j.scratch + f.payload)
    else if j.inFragmented && f.kind == LAST then Joined(j.records + [j.scratch + f.payload], [], false, j.reports)
    else Joined(j.records, if f.kind == MIDDLE || f.kind == LAST then j.scratch else [], false, j.reports + 1)
  }

  ghost function Join(j: Joined, fs: seq<Fragment>): Joined
    decreases fs
  {
    if fs == [] then j else Join(Feed(j, fs[0]), fs[1..])
  }

  /** One step of ReadRecord. */
  lemma ReadRecordStep(crc: Checksum, file: Bytes, st: State, j: Joined)
    requires st.Ok(file)
    ensures var (p, s) := ReadPhysical(crc, file, st);
            var (r, t) := ReadRecord(crc, file, st, j.scratch, j.inFragmented);
            && (p == Eof ==> r == None && t == s)
            && (p.Frag? ==>
                  var next := Feed(j, Fragment(p.kind, p.payload));
                  var u := s.(reports := s.reports + next.reports - j.reports);
                  if next.records == j.records then (r, t) == ReadRecord(crc, file, u, next.scratch, next.inFragmented)
                  else r.Some? && t == u && next == Joined(j.records + [r.value], [], false, next.reports))
  {
    hide ReadPhysical;
  }

  lemma AheadReported(crc: Checksum, file: Bytes, st: State, o: nat, fs: seq<Fragment>, reports: nat)
    requires Ahead(crc, file, st, o, fs)
    ensures var u := st.(reports := reports); Ahead(crc, file, u, o, fs) && Due(file, u, o, fs) == Due(file, st, o, fs)
  {
  }

  /** Reading a record joins fragments up to the first that completes one, or all that the file has. */
  lemma {:induction false} ReadRecordJoins(crc: Checksum, file: Bytes, st: State, o: nat, fs: seq<Fragment>, j: Joined)
    returns (o': nat, rest: seq<Fragment>)
    requires Ahead(crc, file, st, o, fs)
    ensures var (r, s) := ReadRecord(crc, file, st, j.scratch, j.inFragmented);
            var all := Join(j, Due(file, st, o, fs));
            && s.reports >= st.reports
            && (r.None? ==> all.records == j.records && all.reports == j.reports + s.reports - st.reports)
            && (r.Some? ==>
                  && |rest| < |fs| && Ahead(crc, file, s, o', rest)
                  && all == Join(Joined(j.records + [r.value], [], false, j.reports + s.reports - st.reports),
                    Due(file, s, o', rest)))
    decreases |fs|
  {
    hide ReadPhysical, Ahead, ReadRecord;
    AheadOk(crc, file, st, o, fs);
    ReadNextFragment(crc, file, st, o, fs);
    ReadRecordStep(crc, file, st, j);
    o', rest := o, fs;
    if Due(file, st, o, fs) != [] {
      var f := fs[0];
      var (p, s) := ReadPhysical(crc, file, st);
      o', rest := After(o, f), fs[1..];
      var next := Feed(j, f);
      var u := s.(reports := s.reports + next.reports - j.reports);
      AheadReported(crc, file, s, o', rest, u.reports);
      AheadOk(crc, file, u, o', rest);
      JoinHead(j, f, Due(file, u, o', rest));
      hide Due, Feed, Join;
      if next.records == j.records {
        o', rest := ReadRecordJoins(crc, file, u, o', rest, next);
      }
    }
  }

  lemma AheadOk(crc: Checksum, file: Bytes, st: State, o: nat, fs: seq<Fragment>)
    requires Ahead(crc, file, st, o, fs)
    ensures st.Ok(file)
  {
  }

  lemma JoinHead(j: Joined, f: Fragment, fs: seq<Fragment>)
    ensures Join(j, [f] + fs) == Join(Feed(j, f), fs) && Feed(j, f).reports >= j.reports
  {
    assert ([f] + fs)[1..] == fs;
  }

  /** `out` has been read, and what is ahead joins to `all` of it. */
  ghost predicate Toward(crc: Checksum, file: Bytes, st: State, o: nat, fs: seq<Fragment>, out: seq<Bytes>,
          all: Joined) {
    Ahead(crc, file, st, o, fs) && all == Join(Joined(out, [], false, st.reports), Due(file, st, o, fs))
  }

  lemma TowardStart(crc: Checksum, file: Bytes, st: State, fs: seq<Fragment>)
    requires Fit(0, fs) && file <= Stream(crc, 0, fs) && st == State(0, 0, false, 0)
    ensures Toward(crc, file, st, 0, fs, [], Join(START, fs[..Whole(0, fs, |file|)]))
  {
    hide Join, Whole, Fit, Stream;
    assert file[0..] == file;
  }

  method ReadOne(reader: Reader, ghost o: nat, ghost fs: seq<Fragment>, ghost out: seq<Bytes>, ghost all: Joined)
    returns (r: Option<Bytes>, ghost o': nat, ghost rest: seq<Fragment>)
    requires reader.Valid() && Toward(reader.crc, reader.file, reader.At(), o, fs, out, all)
    modifies reader
    ensures reader.Valid()
    ensures r.Some? ==> |rest| < |fs| && Toward(reader.crc, reader.file, reader.At(), o', rest, out + [r.value], all)
    ensures r.None? ==> all.records == out && all.reports == reader.reports
  {
    hide Ahead, Join, Due, ReadRecord;
    o', rest := ReadRecordJoins(reader.crc, reader.file, reader.At(), o, fs, Joined(out, [], false, reader.reports));
    r := reader.ReadNext();
  }

  method ReadLoop(reader: Reader, ghost fs: seq<Fragment>, ghost all: Joined) returns (out: seq<Bytes>)
    requires reader.Valid() && Toward(reader.crc, reader.file, reader.At(), 0, fs, [], all)
    modifies reader
    ensures all.records == out && all.reports == reader.reports
  {
    hide Toward, Reader.At;
    out := [];
    ghost var o, rest := 0, fs;
    var r;
    r, o, rest := ReadOne(reader, o, rest, out, all);
    while r.Some?
      invariant reader.Valid()
      invariant r.Some? ==> Toward(reader.crc, reader.file, reader.At(), o, rest, out + [r.value], all)
      invariant r.None? ==> all.records == out && all.reports == reader.reports
      decreases r.Some?, |rest|
    {
      out := out + [r.value];
      r, o, rest := ReadOne(reader, o, rest, out, all);
    }
  }

  /** Reading any byte prefix of fragments in their blocks joins exactly those that the prefix has whole. */
  method ReadAll(crc: Checksum, file: Bytes, ghost fs: seq<Fragment>) returns (out: seq<Bytes>, reports: nat)
    requires Fit(0, fs) && file <= Stream(crc, 0, fs)
    ensures var j := Join(START, fs[..Whole(0, fs, |file|)]); out == j.records && reports == j.reports
  {
    var reader := new Reader(crc, file);
    ghost var all := Join(START, fs[..Whole(0, fs, |file|)]);
    TowardStart(crc, file, reader.At(), fs);
    out := ReadLoop(reader, fs, all);
    reports := reader.reports;
  }

  lemma {:induction false} JoinConcat(j: Joined, a: seq<Fragment>, b: seq<Fragment>)
    ensures Join(j, a + b) == Join(Join(j, a), b)
    decreases a
  {
    hide Feed;
    if a == [] {
      assert a + b == b;
    } else {
      JoinConcat(Feed(j, a[0]), a[1..], b);
      assert (a + b)[1..] == a[1..] + b;
    }
  }

  /** The fragments of a record, or of the rest of one with its beginning in `scratch`, give the record. What
      `scratch` holds of an earlier record without an end is dropped, with a report. */
  lemma {:induction false} JoinCut(j: Joined, fs: seq<Fragment>, data: Bytes, begin: bool)
    requires IsCut(fs, data, begin) && (begin || j.inFragmented)
    ensures Join(j, fs) ==
            Joined(j.records + [if begin then data else j.scratch + data], [], false,
                   j.reports + if begin && j.inFragmented && j.scratch != [] then 1 else 0)
    decreases fs
  {
    var f := fs[0];
    if |fs| == 1 {
      assert fs[1..] == [];
    } else {
      var rest := data[|f.payload|..];
      JoinCut(Feed(j, f), fs[1..], rest, false);
      assert f.payload + rest == data && j.scratch + f.payload + rest == j.scratch + data;
    }
  }

  /** Without its last fragment it gives none. */
  lemma {:induction false} JoinPart(j: Joined, fs: seq<Fragment>, data: Bytes, begin: bool, k: nat)
    requires IsCut(fs, data, begin) && (begin || j.inFragmented) && k < |fs|
    ensures Join(j, fs[..k]).records == j.records
    ensures !(begin && j.inFragmented && j.scratch != []) ==> Join(j, fs[..k]).reports == j.reports
    decreases k
  {
    if k > 0 {
      JoinPart(Feed(j, fs[0]), fs[1..], data[|fs[0].payload|..], false, k - 1);
      assert fs[..k][1..] == fs[1..][..k - 1];
    }
  }

  // ---------------------------------------------------------------------------------------------
  // The whole log
  // ---------------------------------------------------------------------------------------------

  /** The first `m` attempts, and no more, end within the first `n` bytes of the file. */
  ghost predicate WholeAttempts(crc: Checksum, attempts: seq<Attempt>, n: nat, m: nat) {
    && m <= |attempts|
    && |FileBytes(crc, attempts[..m])| <= n
    && (m < |attempts| ==> n < |FileBytes(crc, attempts[..m + 1])|)
  }

  lemma {:induction false} SomeWhole(crc: Checksum, attempts: seq<Attempt>, n: nat, k: nat) returns (m: nat)
    requires k <= |attempts| && (k < |attempts| ==> n < |FileBytes(crc, attempts[..k + 1])|)
    ensures WholeAttempts(crc, attempts, n, m)
    decreases k
  {
    if |FileBytes(crc, attempts[..k])| <= n {
      m := k;
    } else {
      assert attempts[..0] == [];
      m := SomeWhole(crc, attempts, n, k - 1);
    }
  }

  lemma JoinDone(j: Joined, o: nat, a: Attempt)
    requires o <= BLOCK_SIZE
    ensures Join(j, Done(o, a)).records == j.records + if Fails(o, a) then [] else [a.data]
    ensures !Fails(o, a) && !j.inFragmented ==>
            Join(j, Done(o, a)) == Joined(j.records + [a.data], [], false, j.reports)
  {
    var fs := Fragments(o, a.data, true);
    FragmentsCut(o, a.data, true);
    if Fails(o, a) {
      JoinPart(j, fs, a.data, true, a.failure.value.at);
    } else {
      JoinCut(j, fs, a.data, true);
    }
  }

  /** All fragments in the file of some attempts give the records whose append returned OK. */
  lemma {:induction false} JoinAttempts(attempts: seq<Attempt>)
    ensures Join(START, FragmentsIn(Pieces(attempts))).records == Appended(attempts)
    ensures NoneFailed(attempts) ==>
            Join(START, FragmentsIn(Pieces(attempts))) == Joined(Appended(attempts), [], false, 0)
    decreases attempts
  {
    hide Join, Done, Fails, Fragments;
    if attempts == [] {
      JoinNone(START);
    } else {
      var front := attempts[..|attempts| - 1];
      var o, a := OffsetAfter(front), attempts[|attempts| - 1];
      JoinAttempts(front);
      DoneFit(o, a);
      PiecesConcat(_ => 0, Pieces(front), Placed(o, Done(o, a)));
      JoinConcat(START, FragmentsIn(Pieces(front)), Done(o, a));
      JoinDone(Join(START, FragmentsIn(Pieces(front))), o, a);
      NotFailing(o, a);
    }
  }

  lemma JoinNone(j: Joined)
    ensures Join(j, []) == j
  {
  }

  lemma NotFailing(o: nat, a: Attempt)
    requires o <= BLOCK_SIZE
    ensures a.failure.None? ==> !Fails(o, a)
  {
  }

  lemma {:induction false} WholeIff(crc: Checksum, o: nat, fs: seq<Fragment>, k: nat, n: nat)
    requires Fit(o, fs) && k <= |fs|
    ensures Fit(o, fs[..k]) && (k <= Whole(o, fs, n) <==> |Stream(crc, o, fs[..k])| <= n)
    decreases fs
  {
    hide Header;
    FitSplit(o, fs, k);
    if k > 0 {
      assert fs[..k][1..] == fs[1..][..k - 1];
      var len := Trailer(o) + HEADER_SIZE + |fs[0].payload|;
      WholeIff(crc, After(o, fs[0]), fs[1..], k - 1, if n < len then 0 else n - len);
    }
  }

  lemma {:induction false} PiecesPrefix(attempts: seq<Attempt>, m: nat)
    requires m <= |attempts|
    ensures Pieces(attempts[..m]) <= Pieces(attempts)
    decreases |attempts|
  {
    if m < |attempts| {
      PiecesPrefix(attempts[..|attempts| - 1], m);
      assert attempts[..|attempts| - 1][..m] == attempts[..m];
    } else {
      assert attempts[..m] == attempts;
    }
  }

  lemma {:induction false} AlignedPrefix(o: nat, a: seq<Piece>, b: seq<Piece>)
    requires o <= BLOCK_SIZE && a <= b && Aligned(o, b)
    ensures Aligned(o, a)
    decreases a
  {
    if a != [] {
      AlignedPrefix(After(o, a[0].fragment), a[1..], b[1..]);
    }
  }

  lemma PiecesWhole(crc: Checksum, all: seq<Piece>, part: seq<Piece>, n: nat)
    requires PiecesOk(all) && part <= all && Aligned(0, all)
    ensures PiecesOk(part) && FragmentsIn(part) <= FragmentsIn(all)
    ensures |PiecesBytes(crc, part)| <= n <==> |part| <= Whole(0, FragmentsIn(all), n)
  {
    assert PiecesOk(part);
    var fs := FragmentsIn(all);
    assert fs[..|part|] == FragmentsIn(part);
    hide *;
    AlignedPrefix(0, part, all);
    AlignedBytes(crc, 0, all);
    AlignedBytes(crc, 0, part);
    WholeIff(crc, 0, fs, |part|, n);
  }

  /** The fragments of the first `m` attempts end within the first `n` bytes if and only if their bytes do. */
  lemma AttemptsWhole(crc: Checksum, attempts: seq<Attempt>, m: nat, n: nat)
    requires m <= |attempts| && Undisturbed(attempts)
    ensures FragmentsIn(Pieces(attempts[..m])) <= FragmentsIn(Pieces(attempts))
    ensures |FileBytes(crc, attempts[..m])| <= n <==>
            |Pieces(attempts[..m])| <= Whole(0, FragmentsIn(Pieces(attempts)), n)
  {
    assert Clean(attempts[..m]);
    hide *;
    PiecesPrefix(attempts, m);
    FileIsPieces(crc, attempts[..m]);
    PiecesWhole(crc, Pieces(attempts), Pieces(attempts[..m]), n);
  }

  /** What the first `n` bytes of the file join to. */
  lemma JoinPrefix(crc: Checksum, attempts: seq<Attempt>, n: nat, m: nat)
    requires Undisturbed(attempts) && WholeAttempts(crc, attempts, n, m)
    ensures var fs := FragmentsIn(Pieces(attempts));
            var j := Join(START, fs[..Whole(0, fs, n)]);
            && j.records == Appended(attempts[..m])
            && (NoneFailed(attempts) ==> j.reports == 0)
  {
    hide Aligned, Pieces, Clean, Join, Fragments, Whole, FileBytes, Fit;
    var fs := FragmentsIn(Pieces(attempts));
    var k := Whole(0, fs, n);
    var part := FragmentsIn(Pieces(attempts[..m]));
    AttemptsWhole(crc, attempts, m, n);
    JoinAttempts(attempts[..m]);
    if m < |attempts| {
      AttemptsWhole(crc, attempts, m + 1, n);
      var o, a := OffsetAfter(attempts[..m]), attempts[m];
      NextPieces(attempts, m);
      DoneFit(o, a);
      var next := FragmentsIn(Pieces(attempts[..m + 1]));
      assert next == part + Done(o, a);
      var extra := fs[|part|..k];
      assert fs[..k] == part + extra && extra == Done(o, a)[..k - |part|] by {
        assert fs[..k] == next[..k];
      }
      JoinConcat(START, part, extra);
      JoinDonePart(Join(START, part), o, a, k - |part|);
    } else {
      assert attempts[..m] == attempts;
      assert fs[..k] == part;
    }
  }

  lemma NextPieces(attempts: seq<Attempt>, m: nat)
    requires m < |attempts|
    ensures var o, a := OffsetAfter(attempts[..m]), attempts[m];
            FragmentsIn(Pieces(attempts[..m + 1])) == FragmentsIn(Pieces(attempts[..m])) + Done(o, a)
  {
    var o, a := OffsetAfter(attempts[..m]), attempts[m];
    assert attempts[..m + 1][..m] == attempts[..m];
    DoneFit(o, a);
    PiecesConcat(_ => 0, Pieces(attempts[..m]), Placed(o, Done(o, a)));
  }

  lemma JoinDonePart(j: Joined, o: nat, a: Attempt, k: nat)
    requires o <= BLOCK_SIZE && k < |Done(o, a)|
    ensures Join(j, Done(o, a)[..k]).records == j.records
    ensures !j.inFragmented ==> Join(j, Done(o, a)[..k]).reports == j.reports
  {
    var fs := Fragments(o, a.data, true);
    FragmentsCut(o, a.data, true);
    assert Done(o, a)[..k] == fs[..k];
    JoinPart(j, fs, a.data, true, k);
  }

  /** Recovering from any byte prefix of the file that appends have left, when the reader looks where they
      have written: exactly the records whose append returned OK and whose bytes lie wholly in the prefix. */
  method RecoverAttempts(crc: Checksum, file: Bytes, ghost attempts: seq<Attempt>)
    returns (out: seq<Bytes>, reports: nat, ghost m: nat)
    requires Undisturbed(attempts) && file <= FileBytes(crc, attempts)
    ensures WholeAttempts(crc, attempts, |file|, m) && out == Appended(attempts[..m])
    ensures NoneFailed(attempts) ==> reports == 0
  {
    ghost var fs := FragmentsIn(Pieces(attempts));
    FileIsPieces(crc, attempts);
    AlignedBytes(crc, 0, Pieces(attempts));
    hide *;
    out, reports := ReadAll(crc, file, fs);
    m := SomeWhole(crc, attempts, |file|, |attempts|);
    JoinPrefix(crc, attempts, |file|, m);
  }

  /** How many of the records end within the first `n` bytes of their log. */
  ghost predicate WholeRecords(crc: Checksum, records: seq<Bytes>, n: nat, m: nat) {
    && m <= |records|
    && |LogBytes(crc, records[..m])| <= n
    && (m < |records| ==> n < |LogBytes(crc, records[..m + 1])|)
  }

  lemma SucceedingWhole(crc: Checksum, records: seq<Bytes>, n: nat, m: nat)
    requires WholeAttempts(crc, Succeeding(records), n, m)
    ensures WholeRecords(crc, records, n, m) && Appended(Succeeding(records)[..m]) == records[..m]
  {
    hide LogBytes, FileBytes, Succeeding, Appended;
    SucceedingFront(records, m);
    SucceedingBytes(crc, records[..m]);
    if m < |records| {
      SucceedingFront(records, m + 1);
      SucceedingBytes(crc, records[..m + 1]);
    }
  }

  /** Records that end within the first `n` bytes are among them. */
  lemma AmongWhole(crc: Checksum, records: seq<Bytes>, n: nat, m: nat, j: nat)
    requires WholeRecords(crc, records, n, m) && j <= |records| && |LogBytes(crc, records[..j])| <= n
    ensures j <= m
  {
    hide LogBytes, FileBytes, Succeeding;
    if m < j {
      SucceedingFront(records, m + 1);
      SucceedingFront(records, j);
      SucceedingBytes(crc, records[..m + 1]);
      SucceedingBytes(crc, records[..j]);
      FileGrows(crc, Succeeding(records), m + 1, j);
    }
  }

  /** Recovering a log from any byte prefix of it returns exactly the records whose last fragment
      lies wholly in the prefix, in order, and reports no corruption. */
  method Recover(crc: Checksum, file: Bytes, ghost records: seq<Bytes>) returns (out: seq<Bytes>, reports: nat)
    requires file <= LogBytes(crc, records)
    ensures out <= records && WholeRecords(crc, records, |file|, |out|)
    ensures reports == 0
  {
    hide LogBytes, FileBytes, Undisturbed, Appended, WholeAttempts;
    SucceedingBytes(crc, records);
    NoneFailedAligned(Succeeding(records));
    ghost var m;
    out, reports, m := RecoverAttempts(crc, file, Succeeding(records));
    SucceedingWhole(crc, records, |file|, m);
  }
}
