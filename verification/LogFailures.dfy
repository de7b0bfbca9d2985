/** After a failed append: when the reader still finds what was written, and a synced write that is lost. */
module LogFailures {
  import opened Options
  import opened Coding
  import opened LogFormat
  import opened LogAttempts
  import opened LogReader
  import opened LogRoundTrip

  /** All fragments that are found from here on, and the reports by then. */
  ghost function Found(crc: Checksum, file: Bytes, st: State): (seq<Fragment>, nat)
    requires st.Ok(file)
    decreases |file| - st.pos
  {
    var (p, s) := ReadPhysical(crc, file, st);
    match p
    case Eof => ([], s.reports)
    case Bad => Found(crc, file, s)
    case Frag(kind, payload) =>
      var (fs, reports) := Found(crc, file, s);
      ([Fragment(kind, payload)] + fs, reports)
  }

  /** A file of these pieces gives back its fragments and no report. */
  ghost predicate FindsAll(crc: Checksum, ps: seq<Piece>)
    requires PiecesOk(ps)
  {
    Found(crc, PiecesBytes(crc, ps), State(0, 0, false, 0)) == (FragmentsIn(ps), 0)
  }

  // ---------------------------------------------------------------------------------------------
  // Pieces where the reader looks for them are found
  // ---------------------------------------------------------------------------------------------

  lemma FoundHead(crc: Checksum, file: Bytes, st: State)
    requires st.Ok(file)
    ensures var (p, s) := ReadPhysical(crc, file, st);
            p.Frag? ==>
              Found(crc, file, st) == ([Fragment(p.kind, p.payload)] + Found(crc, file, s).0, Found(crc, file, s).1)
  {
    hide ReadPhysical;
  }

  /** Reading fragments in their blocks, with anything after them. */
  lemma {:induction false} FoundPast(crc: Checksum, file: Bytes, st: State, o: nat, fs: seq<Fragment>, tail: Bytes)
    returns (s: State)
    requires Standing(file, st, o) && Fit(o, fs) && file[st.pos..] == Stream(crc, o, fs) + tail
    ensures Standing(file, s, EndOffset(o, fs)) && file[s.pos..] == tail && s.reports == st.reports
    ensures Found(crc, file, st) == (fs + Found(crc, file, s).0, Found(crc, file, s).1)
    decreases fs
  {
    hide ReadPhysical, Emit, Standing, Found;
    StandingOk(file, st, o);
    FoundHead(crc, file, st);
    if fs == [] {
      s := st;
      assert [] + Found(crc, file, s).0 == Found(crc, file, s).0;
    } else {
      var f := fs[0];
      var rest := Stream(crc, After(o, f), fs[1..]) + tail;
      assert file[st.pos..] == Emit(crc, o, f) + rest;
      ReadFragment(crc, file, st, o, f, rest);
      var len := Trailer(o) + HEADER_SIZE + |f.payload|;
      var (p, next) := ReadPhysical(crc, file, st);
      assert file[st.pos + len..] == file[st.pos..][len..];
      s := FoundPast(crc, file, next, After(o, f), fs[1..], tail);
      StandingOk(file, s, EndOffset(o, fs));
      assert [f] + (fs[1..] + Found(crc, file, s).0) == fs + Found(crc, file, s).0;
    }
  }

  lemma FoundNone(crc: Checksum, file: Bytes, st: State, o: nat)
    requires Standing(file, st, o) && st.pos == |file|
    ensures Found(crc, file, st) == ([], st.reports)
  {
    NothingLeft(crc, file, st, o);
  }

  lemma AlignedFound(crc: Checksum, ps: seq<Piece>)
    requires PiecesOk(ps) && Aligned(0, ps)
    ensures FindsAll(crc, ps)
  {
    var fs, file, st := FragmentsIn(ps), PiecesBytes(crc, ps), State(0, 0, false, 0);
    AlignedBytes(crc, 0, ps);
    hide Aligned, PiecesBytes, Found;
    assert file[0..] == Stream(crc, 0, fs) + [];
    var s := FoundPast(crc, file, st, 0, fs, []);
    FoundNone(crc, file, s, EndOffset(0, fs));
    assert fs + [] == fs;
  }

  // ---------------------------------------------------------------------------------------------
  // A piece elsewhere is not
  // ---------------------------------------------------------------------------------------------

  lemma PhysicalTakes(crc: Checksum, file: Bytes, st: State)
    requires st.Ok(file)
    ensures var (p, s) := ReadPhysical(crc, file, st);
            && s.reports >= st.reports
            && (p.Frag? ==> s.pos >= st.pos + HEADER_SIZE + |p.payload|)
    decreases if st.end - st.pos < HEADER_SIZE && !st.eof then 1 else 0
  {
    if st.end - st.pos < HEADER_SIZE && !st.eof {
      PhysicalTakes(crc, file, Refill(file, st));
    }
  }

  ghost function Size(fs: seq<Fragment>): nat {
    if fs == [] then 0 else HEADER_SIZE + |fs[0].payload| + Size(fs[1..])
  }

  /** What is found takes its bytes, and reports are never taken back. */
  lemma {:induction false} FoundTakes(crc: Checksum, file: Bytes, st: State)
    requires st.Ok(file)
    ensures Size(Found(crc, file, st).0) <= |file| - st.pos && Found(crc, file, st).1 >= st.reports
    decreases |file| - st.pos
  {
    hide ReadPhysical;
    PhysicalTakes(crc, file, st);
    var (p, s) := ReadPhysical(crc, file, st);
    if p != Eof {
      FoundTakes(crc, file, s);
      if p.Frag? {
        assert Found(crc, file, st).0[1..] == Found(crc, file, s).0;
      }
    }
  }

  /** Where the reader looks for the next header. */
  lemma Looks(crc: Checksum, file: Bytes, st: State, o: nat) returns (at: State)
    requires Standing(file, st, o) && st.pos + Trailer(o) + HEADER_SIZE <= |file|
    ensures at.Ok(file) && at.pos == st.pos + Trailer(o) && at.reports == st.reports && at.pos + HEADER_SIZE <= at.end
    ensures var blockEnd := at.pos + HEADER_SIZE + Room(o); at.end == if blockEnd <= |file| then blockEnd else |file|
    ensures at.eof <==> at.end < at.pos + HEADER_SIZE + Room(o)
    ensures ReadPhysical(crc, file, st) == ReadPhysical(crc, file, at) == ParsePhysical(crc, file, at)
    ensures Found(crc, file, st) == Found(crc, file, at)
  {
    hide ParsePhysical;
    if o + HEADER_SIZE <= BLOCK_SIZE && Loaded(file, st, st.pos - o + BLOCK_SIZE) {
      at := st;
    } else {
      at := Refill(file, st);
    }
  }

  lemma LooksInVain(crc: Checksum, file: Bytes, st: State, o: nat)
    requires Standing(file, st, o) && |file| < st.pos + Trailer(o) + HEADER_SIZE
    ensures Found(crc, file, st).0 == []
  {
    hide ParsePhysical;
    if !st.eof {
      var s := Refill(file, st);
      assert ReadPhysical(crc, file, s).0 == Eof;
    }
  }

  /** Byte `i` of bytes that equal themselves shifted by `d` behind zeros. */
  ghost predicate Shifted(h: Bytes, d: nat, i: nat)
    requires i < |h|
  {
    h[i] == if i < d then 0 else h[i - d]
  }

  /** A header is no header shifted behind zeros. */
  lemma ShiftedHeader(h: Bytes, d: nat)
    requires |h| == HEADER_SIZE && 1 <= d < HEADER_SIZE
    requires forall i :: 0 <= i < HEADER_SIZE ==> Shifted(h, d, i)
    ensures h[6] == 0
  {
    ShiftedZero(h, d, 6);
  }

  lemma {:induction false} ShiftedZero(h: Bytes, d: nat, i: nat)
    requires 1 <= d && i < |h| && forall k :: 0 <= k < |h| ==> Shifted(h, d, k)
    ensures h[i] == 0
    decreases i
  {
    assert Shifted(h, d, i);
    if i >= d {
      ShiftedZero(h, d, i - d);
    }
  }

  lemma UnmaskOnce(a: uint32, b: uint32)
    requires Unmask(a) == Unmask(b)
    ensures a == b
  {
    MaskUnmask(a);
    MaskUnmask(b);
  }

  lemma MaskUnmask(masked: uint32)
    ensures Mask(Unmask(masked)) == masked
  {
    var rot := (masked + TWO32 - MASK_DELTA) % TWO32;
    var crc := Unmask(masked);
    assert crc / 0x8000 == rot % 0x2_0000 && crc % 0x8000 == rot / 0x2_0000;
  }

  lemma DecodeOnce(a: Bytes, b: Bytes)
    requires |a| == |b| == 4 && DecodeFixed32(a) == DecodeFixed32(b)
    ensures a == b
  {
    EncodeDecoded(a);
    EncodeDecoded(b);
  }

  lemma EncodeDecoded(a: Bytes)
    requires |a| == 4
    ensures EncodeFixed32(DecodeFixed32(a)) == a
  {
    var v := DecodeFixed32(a);
    assert v % 0x100 == a[0];
    assert v / 0x100 == a[1] as int + a[2] as int * 0x100 + a[3] as int * 0x1_0000;
    assert v / 0x1_0000 == a[2] as int + a[3] as int * 0x100;
    assert v / 0x100_0000 == a[3];
  }

  /** Only the header of a fragment parses as that fragment. */
  lemma OnlyHeader(crc: Checksum, f: Fragment, h: Bytes)
    requires |f.payload| < 0x1_0000 && |h| == HEADER_SIZE && Length(h) == |f.payload| && h[6] == f.kind
    requires crc([f.kind] + f.payload) == Unmask(DecodeFixed32(h[..4]))
    ensures h == Header(crc, f)
  {
    var g := Header(crc, f);
    HeaderBytes(crc, f, g);
    UnmaskOnce(DecodeFixed32(h[..4]), DecodeFixed32(g[..4]));
    DecodeOnce(h[..4], g[..4]);
    hide Header, Unmask, DecodeFixed32;
    assert h[4] == g[4] && h[5] == g[5];
    forall i | 0 <= i < HEADER_SIZE ensures h[i] == g[i] {
      if i < 4 {
        assert h[i] == h[..4][i] && g[i] == g[..4][i];
      }
    }
  }

  /** The reader skips more than the writer filled. */
  lemma SkippedTooFar(crc: Checksum, file: Bytes, st: State, o: nat, p: Piece)
    requires Standing(file, st, o) && PieceOk(p) && file[st.pos..] == PieceBytes(crc, p) && Trailer(o) > p.filler
    ensures Found(crc, file, st).0 != [p.fragment]
  {
    hide Found, Standing, ReadPhysical, ParsePhysical, Header;
    StandingOk(file, st, o);
    assert |file| - st.pos == p.filler + HEADER_SIZE + |p.fragment.payload|;
    if st.pos + Trailer(o) + HEADER_SIZE <= |file| {
      var at := Looks(crc, file, st, o);
      FoundTakes(crc, file, at);
      OneSize(p.fragment);
    } else {
      LooksInVain(crc, file, st, o);
    }
  }

  lemma OneSize(f: Fragment)
    ensures Size([f]) == HEADER_SIZE + |f.payload|
  {
    assert [f][1..] == [];
  }

  /** The reader skips less than the writer filled. */
  lemma SkippedTooLittle(crc: Checksum, file: Bytes, st: State, o: nat, p: Piece)
    requires Standing(file, st, o) && PieceOk(p) && file[st.pos..] == PieceBytes(crc, p) && Trailer(o) < p.filler
    ensures Found(crc, file, st).0 != [p.fragment]
  {
    hide Standing, Header, ReadPhysical, ParsePhysical, PieceBytes;
    StandingOk(file, st, o);
    var f := p.fragment;
    PieceSize(crc, p);
    var at := Looks(crc, file, st, o);
    var (q, s) := ReadPhysical(crc, file, at);
    OneSize(f);
    if q == Bad {
      BadTakes(crc, file, at);
      FoundTakes(crc, file, s);
    } else if q == Frag(f.kind, f.payload) {
      NotShifted(crc, file, st.pos, p, Trailer(o));
      ParsedHeader(crc, file, at, f);
    }
  }

  lemma PieceSize(crc: Checksum, p: Piece)
    requires PieceOk(p)
    ensures |PieceBytes(crc, p)| == p.filler + HEADER_SIZE + |p.fragment.payload|
  {
  }

  lemma BadTakes(crc: Checksum, file: Bytes, st: State)
    requires st.Ok(file) && st.end - st.pos >= HEADER_SIZE && ParsePhysical(crc, file, st).0 == Bad
    ensures ParsePhysical(crc, file, st).1.pos >= st.pos + HEADER_SIZE
  {
  }

  lemma ParsedHeader(crc: Checksum, file: Bytes, st: State, f: Fragment)
    requires st.Ok(file) && st.end - st.pos >= HEADER_SIZE && |f.payload| < 0x1_0000
    requires ParsePhysical(crc, file, st).0 == Frag(f.kind, f.payload)
    ensures file[st.pos..st.pos + HEADER_SIZE] == Header(crc, f)
  {
    hide Header, Unmask, DecodeFixed32;
    var h := file[st.pos..st.pos + HEADER_SIZE];
    var n := |f.payload|;
    assert Length(h) == n;
    assert file[st.pos + 6..st.pos + HEADER_SIZE + n] == [h[6]] + file[st.pos + HEADER_SIZE..st.pos + HEADER_SIZE + n];
    OnlyHeader(crc, f, h);
  }

  lemma NotShifted(crc: Checksum, file: Bytes, pos: nat, p: Piece, t: nat)
    requires pos <= |file| && PieceOk(p) && file[pos..] == PieceBytes(crc, p) && t < p.filler
    ensures pos + t + HEADER_SIZE <= |file| && file[pos + t..pos + t + HEADER_SIZE] != Header(crc, p.fragment)
  {
    var h, d := Header(crc, p.fragment), p.filler - t;
    var g := file[pos + t..pos + t + HEADER_SIZE];
    assert h[6] == p.fragment.kind;
    hide Header;
    if g == h {
      forall i | 0 <= i < HEADER_SIZE ensures Shifted(h, d, i) {
        assert g[i] == file[pos..][t + i] == (Zeros(p.filler) + h + p.fragment.payload)[t + i];
      }
      ShiftedHeader(h, d);
    }
  }

  /** The fragment goes on past the end of the file's block. */
  lemma Straddles(crc: Checksum, file: Bytes, st: State, o: nat, p: Piece, rest: Bytes)
    requires Standing(file, st, o) && PieceOk(p) && file[st.pos..] == PieceBytes(crc, p) + rest
    requires Trailer(o) == p.filler && |p.fragment.payload| > Room(o)
    ensures var (q, s) := ReadPhysical(crc, file, st);
            q == Bad && s.pos == s.end == st.pos + Trailer(o) + HEADER_SIZE + Room(o) && !s.eof && s.Ok(file)
              && s.reports == st.reports + 1
  {
    hide Standing, Header;
    StandingOk(file, st, o);
    var f, h := p.fragment, Header(crc, p.fragment);
    assert |file| - st.pos == p.filler + HEADER_SIZE + |f.payload| + |rest|;
    var at := Looks(crc, file, st, o);
    var t := p.filler;
    assert file[at.pos..at.pos + HEADER_SIZE] == h by {
      assert file[at.pos..at.pos + HEADER_SIZE] == file[st.pos..][t..t + HEADER_SIZE];
      assert (Zeros(t) + h + f.payload + rest)[t..t + HEADER_SIZE] == h;
    }
    HeaderBytes(crc, f, h);
  }

  lemma MisplacedNotFound(crc: Checksum, file: Bytes, st: State, o: nat, p: Piece)
    requires Standing(file, st, o) && PieceOk(p) && file[st.pos..] == PieceBytes(crc, p)
    requires !(p.filler == Trailer(o) && |p.fragment.payload| <= Room(o))
    ensures Found(crc, file, st) != ([p.fragment], st.reports)
  {
    hide ReadPhysical, PieceBytes, Standing;
    StandingOk(file, st, o);
    if p.filler < Trailer(o) {
      SkippedTooFar(crc, file, st, o, p);
    } else if p.filler > Trailer(o) {
      SkippedTooLittle(crc, file, st, o, p);
    } else {
      assert file[st.pos..] == PieceBytes(crc, p) + [];
      Straddles(crc, file, st, o, p, []);
      var (q, s) := ReadPhysical(crc, file, st);
      FoundTakes(crc, file, s);
    }
  }

  lemma {:induction false} FirstMisplaced(o: nat, ps: seq<Piece>) returns (j: nat)
    requires o <= BLOCK_SIZE && PiecesOk(ps) && !Aligned(o, ps)
    ensures j < |ps| && Aligned(o, ps[..j]) && !Aligned(o, ps[..j + 1])
    decreases ps
  {
    var p := ps[0];
    if p.filler == Trailer(o) && |p.fragment.payload| <= Room(o) {
      j := FirstMisplaced(After(o, p.fragment), ps[1..]);
      assert ps[..j + 1][1..] == ps[1..][..j] && ps[..j + 2][1..] == ps[1..][..j + 1];
      j := j + 1;
    } else {
      j := 0;
    }
  }

  /** A file of pieces in their places and one more that is not. */
  lemma LastMisplaced(crc: Checksum, ps: seq<Piece>, p: Piece)
    requires PiecesOk(ps) && PieceOk(p) && Aligned(0, ps) && !Aligned(0, ps + [p])
    ensures PiecesOk(ps + [p])
    ensures var fs := FragmentsIn(ps);
            var o := EndOffset(0, fs);
            && Fit(0, fs) && o <= BLOCK_SIZE && PiecesBytes(crc, ps + [p]) == Stream(crc, 0, fs) + PieceBytes(crc, p)
            && !(p.filler == Trailer(o) && |p.fragment.payload| <= Room(o))
  {
    hide PieceBytes, PieceOk, Stream;
    AlignedConcat(0, ps, [p]);
    AlignedBytes(crc, 0, ps);
    assert [p][..0] == [] && [p][1..] == [];
    assert PiecesOk([p]) && PiecesBytes(crc, [p]) == PieceBytes(crc, p);
    PiecesConcat(crc, ps, [p]);
  }

  lemma NotAll(crc: Checksum, ps: seq<Piece>, p: Piece)
    requires PiecesOk(ps) && PieceOk(p) && Aligned(0, ps) && !Aligned(0, ps + [p])
    ensures PiecesOk(ps + [p]) && !FindsAll(crc, ps + [p])
  {
    LastMisplaced(crc, ps, p);
    var fs, st := FragmentsIn(ps), State(0, 0, false, 0);
    var file := PiecesBytes(crc, ps + [p]);
    assert FragmentsIn(ps + [p]) == fs + [p.fragment];
    hide Aligned, PiecesBytes, PieceBytes, Found, Fit, Stream, FragmentsIn, EndOffset;
    assert file[0..] == file;
    assert Standing(file, st, 0);
    var s := FoundPast(crc, file, st, 0, fs, PieceBytes(crc, p));
    StandingOk(file, s, EndOffset(0, fs));
    MisplacedNotFound(crc, file, s, EndOffset(0, fs), p);
    var found := Found(crc, file, s).0;
    assert (fs + found)[|fs|..] == found && (fs + [p.fragment])[|fs|..] == [p.fragment];
  }

  /** Whatever fragments writers left in a file, with whatever filler: however many of them the file has, the
      reader finds them all without a report, if and only if each is where it looks for it. */
  lemma FoundIff(crc: Checksum, ps: seq<Piece>)
    requires PiecesOk(ps)
    ensures (forall j :: 0 <= j <= |ps| ==> FindsAll(crc, ps[..j])) <==> Aligned(0, ps)
  {
    hide FindsAll;
    if Aligned(0, ps) {
      forall j | 0 <= j <= |ps| ensures FindsAll(crc, ps[..j]) {
        AlignedPrefix(0, ps[..j], ps);
        AlignedFound(crc, ps[..j]);
      }
    } else {
      var j := FirstMisplaced(0, ps);
      assert ps[..j + 1] == ps[..j] + [ps[j]];
      NotAll(crc, ps[..j], ps[j]);
    }
  }

  /** The same for what appends left: the reader finds every fragment, wherever between two of them the file
      ends, if and only if the log is undisturbed. */
  lemma UndisturbedIff(crc: Checksum, attempts: seq<Attempt>)
    requires Clean(attempts)
    ensures (forall j :: 0 <= j <= |Pieces(attempts)| ==> FindsAll(crc, Pieces(attempts)[..j])) <==>
            Undisturbed(attempts)
    ensures PiecesBytes(crc, Pieces(attempts)) == FileBytes(crc, attempts)
  {
    FoundIff(crc, Pieces(attempts));
    FileIsPieces(crc, attempts);
  }

  // ---------------------------------------------------------------------------------------------
  // A write that is lost
  // ---------------------------------------------------------------------------------------------

  lemma ReadRecordSkips(crc: Checksum, file: Bytes, st: State)
    requires st.Ok(file)
    ensures var (p, s) := ReadPhysical(crc, file, st);
            && (p == Bad ==> ReadRecord(crc, file, st, [], false) == ReadRecord(crc, file, s, [], false))
            && (p == Eof ==> ReadRecord(crc, file, st, [], false) == (None, s))
  {
    hide ReadPhysical;
  }

  /** A block that begins with zeros is skipped without a report. */
  lemma ReadZeros(crc: Checksum, file: Bytes, st: State)
    requires st.Ok(file) && st.pos == st.end && !st.eof && st.end + HEADER_SIZE <= |file| < st.end + BLOCK_SIZE
    requires forall i :: st.end <= i < |file| ==> file[i] == 0
    ensures var (r, s) := ReadRecord(crc, file, st, [], false); r == None && s.reports == st.reports
  {
    var at := Refill(file, st);
    var h := file[at.pos..at.pos + HEADER_SIZE];
    assert h[4] == 0 && h[5] == 0 && h[6] == 0;
    assert ReadPhysical(crc, file, st) == ReadPhysical(crc, file, at) == (Bad, at.Clear());
    ReadRecordSkips(crc, file, st);
    ReadRecordSkips(crc, file, at.Clear());
    hide ReadRecord;
    assert ReadPhysical(crc, file, at.Clear()) == (Eof, at.Clear());
  }

  lemma OneFragment(o: nat, data: Bytes)
    requires o <= BLOCK_SIZE && |data| <= Room(o)
    ensures Fragments(o, data, true) == [Fragment(FULL, data)]
  {
    assert data[..|data|] == data;
  }

  lemma OnlyOne(o: nat, f: Fragment)
    requires o <= BLOCK_SIZE && |f.payload| <= Room(o) && 1 <= f.kind <= 4
    ensures Fit(o, [f]) && Placed(o, [f]) == [Piece(Trailer(o), f)] && EndOffset(o, [f]) == After(o, f)
  {
    assert [f][1..] == [];
  }

  /** An append of one fragment. */
  lemma OneMore(attempts: seq<Attempt>, data: Bytes)
    requires |data| <= Room(OffsetAfter(attempts))
    ensures var o, more := OffsetAfter(attempts), attempts + [Attempt(data, None)];
            && Pieces(more) == Pieces(attempts) + [Piece(Trailer(o), Fragment(FULL, data))]
            && OffsetAfter(more) == After(o, Fragment(FULL, data)) && Appended(more) == Appended(attempts) + [data]
  {
    var o, more := OffsetAfter(attempts), attempts + [Attempt(data, None)];
    assert more[..|attempts|] == attempts;
    OneFragment(o, data);
    OnlyOne(o, Fragment(FULL, data));
  }

  /** One that fails before any of its bytes are in the file. */
  lemma OneLost(attempts: seq<Attempt>, data: Bytes)
    requires |data| <= Room(OffsetAfter(attempts))
    ensures var o, more := OffsetAfter(attempts), attempts + [Attempt(data, Some(Failure(0, 0)))];
            && Pieces(more) == Pieces(attempts) && OffsetAfter(more) == After(o, Fragment(FULL, data))
            && Appended(more) == Appended(attempts)
  {
    var f := Fragment(FULL, data);
    var o, a := OffsetAfter(attempts), Attempt(data, Some(Failure(0, 0)));
    assert (attempts + [a])[..|attempts|] == attempts;
    OneFragment(o, data);
    OnlyOne(o, f);
    hide Fragments, Appended, Pieces;
    assert [f][..1] == [f] && [f][..0] == [];
    assert Done(o, a) == [] && Placed(o, []) == [];
    LostPieces(attempts, a);
  }

  lemma LostPieces(attempts: seq<Attempt>, a: Attempt)
    requires var o := OffsetAfter(attempts); Fails(o, a) && Done(o, a) == []
    ensures Pieces(attempts + [a]) == Pieces(attempts) && Appended(attempts + [a]) == Appended(attempts)
  {
    assert (attempts + [a])[..|attempts|] == attempts;
    hide Fragments;
  }

  /** The appends of the example, and what they leave in the file. */
  lemma LostAppends(a: Bytes, b: Bytes, c: Bytes)
    requires |a| == 100 && |b| == 32654 && |c| == 200
    ensures var attempts := [Attempt(a, Some(Failure(0, 0))), Attempt(b, None), Attempt(c, None)];
            && Clean(attempts) && Appended(attempts) == [b, c]
            && Pieces(attempts) == [Piece(0, Fragment(FULL, b)), Piece(0, Fragment(FULL, c))]
  {
    var x, y, z := Attempt(a, Some(Failure(0, 0))), Attempt(b, None), Attempt(c, None);
    assert OffsetAfter([]) == 0 && Pieces([]) == [] && Appended([]) == [] && Clean([x, y, z]);
    var f, g := Fragment(FULL, a), Fragment(FULL, b);
    assert After(0, f) == 107 && After(107, g) == BLOCK_SIZE && Trailer(107) == Trailer(BLOCK_SIZE) == 0;
    assert Room(0) == Room(BLOCK_SIZE) == 32761 && Room(107) == 32654;
    hide *;
    OneLost([], a);
    assert [] + [x] == [x] && [x] + [y] == [x, y] && [x, y] + [z] == [x, y, z];
    OneMore([x], b);
    OneMore([x, y], c);
  }

  /** A write that is lost with all its bytes in the file: an append failed and the file kept none of it, the
      next record then ended at what the writer took for the end of a block, and the third one, whose append
      returned OK and may have been synced, goes on past the end of the file's block.  The reader reports it
      as too long and drops it. */
  lemma WriteLost(crc: Checksum, a: Bytes, b: Bytes, c: Bytes)
    requires |a| == 100 && |b| == 32654 && |c| == 200 && c[100..] == Zeros(100)
    ensures var attempts := [Attempt(a, Some(Failure(0, 0))), Attempt(b, None), Attempt(c, None)];
            var file := FileBytes(crc, attempts);
            var (first, s) := ReadRecord(crc, file, State(0, 0, false, 0), [], false);
            var (second, t) := ReadRecord(crc, file, s, [], false);
            && Clean(attempts) && Appended(attempts) == [b, c]
            && first == Some(b) && second == None && t.reports == 1
  {
    var attempts := [Attempt(a, Some(Failure(0, 0))), Attempt(b, None), Attempt(c, None)];
    LostAppends(a, b, c);
    FileIsPieces(crc, attempts);
    hide Appended, Fragments;
    var f, g := Fragment(FULL, b), Fragment(FULL, c);
    var file := FileBytes(crc, attempts);
    TwoPieces(crc, Piece(0, f), Piece(0, g));
    hide FileBytes;
    assert file == Emit(crc, 0, f) + PieceBytes(crc, Piece(0, g));
    LostReading(crc, file, f, g);
  }

  lemma TwoPieces(crc: Checksum, p: Piece, q: Piece)
    requires PieceOk(p) && PieceOk(q)
    ensures PiecesOk([p, q]) && PiecesBytes(crc, [p, q]) == PieceBytes(crc, p) + PieceBytes(crc, q)
  {
    assert [p, q][..1] == [p] && [p][..0] == [];
    assert PiecesBytes(crc, [p]) == PieceBytes(crc, p);
  }

  lemma LostReading(crc: Checksum, file: Bytes, f: Fragment, g: Fragment)
    requires f.kind == g.kind == FULL && |f.payload| == 32654 && |g.payload| == 200 && g.payload[100..] == Zeros(100)
    requires file == Emit(crc, 0, f) + PieceBytes(crc, Piece(0, g))
    ensures var (first, s) := ReadRecord(crc, file, State(0, 0, false, 0), [], false);
            var (second, t) := ReadRecord(crc, file, s, [], false);
            first == Some(f.payload) && second == None && t.reports == 1
  {
    var st := State(0, 0, false, 0);
    assert file[0..] == file;
    ReadFragment(crc, file, st, 0, f, PieceBytes(crc, Piece(0, g)));
    ReadRecordStep(crc, file, st, START);
    var (_, s) := ReadPhysical(crc, file, st);
    var (first, after) := ReadRecord(crc, file, st, [], false);
    assert ([] + [f.payload])[0] == f.payload && ([] + [first.value])[0] == first.value && after == s;
    assert s.pos == 32661 && |file| == 32868;
    assert file[s.pos..] == PieceBytes(crc, Piece(0, g)) + [];
    Straddles(crc, file, s, 32661, Piece(0, g), []);
    var (_, u) := ReadPhysical(crc, file, s);
    forall i | u.end <= i < |file| ensures file[i] == 0 {
      assert file[i] == g.payload[i - 32668] == g.payload[100..][i - 32768];
    }
    hide ReadPhysical, ReadRecord, Emit, PieceBytes;
    ReadRecordSkips(crc, file, s);
    ReadZeros(crc, file, u);
    assert first == Some(f.payload);
    assert s.reports == 0 && u.reports == 1;
    assert ReadRecord(crc, file, after, [], false).0 == None;
  }
}
