/** Appends to a log that may fail, and the file they leave: a failed append moves the writer's block
    offset on, whatever of its bytes the file keeps. */
module LogAttempts {
  import opened Options
  import opened Coding
  import opened LogFormat

  /** The flush of fragment number `at` fails, and the file keeps `kept` bytes of it. */
  datatype Failure = Failure(at: nat, kept: nat)

  datatype Attempt = Attempt(data: Bytes, failure: Option<Failure>)

  predicate Fails(o: nat, a: Attempt)
    requires o <= BLOCK_SIZE
  {
    a.failure.Some? && a.failure.value.at < |Fragments(o, a.data, true)|
  }

  /** The fragments that reach the file whole. */
  function Done(o: nat, a: Attempt): seq<Fragment>
    requires o <= BLOCK_SIZE
  {
    var fs := Fragments(o, a.data, true);
    if Fails(o, a) then fs[..a.failure.value.at] else fs
  }

  /** The writer's block offset afterwards. */
  function NextOffset(o: nat, a: Attempt): (next: nat)
    requires o <= BLOCK_SIZE
    ensures next <= BLOCK_SIZE
  {
    var fs := Fragments(o, a.data, true);
    FragmentsFit(o, a.data, true);
    EndInBlock(o, fs);
    if Fails(o, a) then FitSplit(o, fs, a.failure.value.at + 1); EndOffset(o, fs[..a.failure.value.at + 1])
    else EndOffset(o, fs)
  }

  lemma {:induction false} FitSplit(o: nat, fs: seq<Fragment>, k: nat)
    requires Fit(o, fs) && k <= |fs|
    ensures Fit(o, fs[..k]) && EndOffset(o, fs[..k]) <= BLOCK_SIZE && Fit(EndOffset(o, fs[..k]), fs[k..])
    decreases k
  {
    if k > 0 {
      FitSplit(After(o, fs[0]), fs[1..], k - 1);
      assert fs[..k][1..] == fs[1..][..k - 1] && fs[k..] == fs[1..][k - 1..];
    }
  }

  /** What the file keeps of the fragment whose flush failed. */
  ghost function Torn(crc: Checksum, o: nat, a: Attempt): Bytes
    requires o <= BLOCK_SIZE
  {
    if !Fails(o, a) then []
    else
      var fs, k := Fragments(o, a.data, true), a.failure.value.at;
      FragmentsFit(o, a.data, true);
      FitSplit(o, fs, k);
      Front(Emit(crc, EndOffset(o, fs[..k]), fs[k]), a.failure.value.kept)
  }

  function Front(s: Bytes, n: nat): Bytes {
    if n <= |s| then s[..n] else s
  }

  ghost function AttemptBytes(crc: Checksum, o: nat, a: Attempt): Bytes
    requires o <= BLOCK_SIZE
  {
    DoneFit(o, a);
    Stream(crc, o, Done(o, a)) + Torn(crc, o, a)
  }

  lemma DoneFit(o: nat, a: Attempt)
    requires o <= BLOCK_SIZE
    ensures Fit(o, Done(o, a))
  {
    FragmentsFit(o, a.data, true);
    if Fails(o, a) {
      FitSplit(o, Fragments(o, a.data, true), a.failure.value.at);
    }
  }

  // ---------------------------------------------------------------------------------------------
  // A log
  // ---------------------------------------------------------------------------------------------

  /** The writer's block offset after the attempts. */
  function OffsetAfter(attempts: seq<Attempt>): (o: nat)
    ensures o <= BLOCK_SIZE
  {
    if attempts == [] then 0 else NextOffset(OffsetAfter(attempts[..|attempts| - 1]), attempts[|attempts| - 1])
  }

  /** The file they leave. */
  ghost function FileBytes(crc: Checksum, attempts: seq<Attempt>): Bytes {
    if attempts == [] then []
    else
      var front := attempts[..|attempts| - 1];
      FileBytes(crc, front) + AttemptBytes(crc, OffsetAfter(front), attempts[|attempts| - 1])
  }

  lemma {:induction false} FileGrows(crc: Checksum, attempts: seq<Attempt>, i: nat, j: nat)
    requires i <= j <= |attempts|
    ensures |FileBytes(crc, attempts[..i])| <= |FileBytes(crc, attempts[..j])|
    decreases j
  {
    hide AttemptBytes, OffsetAfter, Fails, Fragments;
    if i < j {
      FileGrows(crc, attempts, i, j - 1);
      assert attempts[..j][..j - 1] == attempts[..j - 1];
    }
  }

  /** The records whose append returned OK. */
  ghost function Appended(attempts: seq<Attempt>): seq<Bytes> {
    if attempts == [] then []
    else
      var front, a := attempts[..|attempts| - 1], attempts[|attempts| - 1];
      Appended(front) + if Fails(OffsetAfter(front), a) then [] else [a.data]
  }

  /** Appends that do not fail. */
  function Succeeding(records: seq<Bytes>): (r: seq<Attempt>)
    ensures |r| == |records|
  {
    seq(|records|, i requires 0 <= i < |records| => Attempt(records[i], None))
  }

  lemma SucceedingFront(records: seq<Bytes>, m: nat)
    requires m <= |records|
    ensures Succeeding(records)[..m] == Succeeding(records[..m])
  {
  }

  lemma NoRecords(crc: Checksum)
    ensures LogBytes(crc, []) == [] && LogEnd([]) == 0
  {
  }

  lemma {:induction false} SucceedingBytes(crc: Checksum, records: seq<Bytes>)
    ensures OffsetAfter(Succeeding(records)) == LogEnd(records)
    ensures FileBytes(crc, Succeeding(records)) == LogBytes(crc, records)
    ensures Appended(Succeeding(records)) == records
    decreases records
  {
    hide Fragments, Fit, Stream, EndOffset, LogBytes, LogEnd;
    if records == [] {
      NoRecords(crc);
    } else {
      var n := |records| - 1;
      var front, r := records[..n], records[n];
      SucceedingBytes(crc, front);
      SucceedingFront(records, n);
      assert records == front + [r];
      LogAppend(crc, front, r);
    }
  }

  /** A failure leaves whole fragments only. */
  ghost predicate Clean(attempts: seq<Attempt>) {
    forall i :: 0 <= i < |attempts| && attempts[i].failure.Some? ==> attempts[i].failure.value.kept == 0
  }

  // ---------------------------------------------------------------------------------------------
  // The fragments in the file
  // ---------------------------------------------------------------------------------------------

  /** A fragment in a file, after the filler the writer put before it. */
  datatype Piece = Piece(filler: nat, fragment: Fragment)

  ghost predicate PieceOk(p: Piece) {
    p.filler < HEADER_SIZE && 1 <= p.fragment.kind <= 4 && |p.fragment.payload| < 0x1_0000
  }

  ghost predicate PiecesOk(ps: seq<Piece>) {
    forall i :: 0 <= i < |ps| ==> PieceOk(ps[i])
  }

  ghost function PieceBytes(crc: Checksum, p: Piece): Bytes
    requires PieceOk(p)
  {
    Zeros(p.filler) + Header(crc, p.fragment) + p.fragment.payload
  }

  ghost function PiecesBytes(crc: Checksum, ps: seq<Piece>): Bytes
    requires PiecesOk(ps)
  {
    if ps == [] then [] else PiecesBytes(crc, ps[..|ps| - 1]) + PieceBytes(crc, ps[|ps| - 1])
  }

  ghost function FragmentsIn(ps: seq<Piece>): (r: seq<Fragment>)
    ensures |r| == |ps|
  {
    seq(|ps|, i requires 0 <= i < |ps| => ps[i].fragment)
  }

  /** The fragments as a writer places them from its block offset. */
  ghost function Placed(o: nat, fs: seq<Fragment>): (ps: seq<Piece>)
    requires Fit(o, fs)
    ensures PiecesOk(ps) && FragmentsIn(ps) == fs
    decreases fs
  {
    if fs == [] then []
    else
      var ps := [Piece(Trailer(o), fs[0])] + Placed(After(o, fs[0]), fs[1..]);
      assert FragmentsIn(ps) == fs;
      ps
  }

  ghost function Pieces(attempts: seq<Attempt>): (ps: seq<Piece>)
    ensures PiecesOk(ps)
  {
    if attempts == [] then []
    else
      var front := attempts[..|attempts| - 1];
      var o, a := OffsetAfter(front), attempts[|attempts| - 1];
      DoneFit(o, a);
      Pieces(front) + Placed(o, Done(o, a))
  }

  lemma {:induction false} PiecesConcat(crc: Checksum, a: seq<Piece>, b: seq<Piece>)
    requires PiecesOk(a) && PiecesOk(b)
    ensures PiecesOk(a + b) && PiecesBytes(crc, a + b) == PiecesBytes(crc, a) + PiecesBytes(crc, b)
    ensures FragmentsIn(a + b) == FragmentsIn(a) + FragmentsIn(b)
    decreases b
  {
    hide PieceBytes, PieceOk;
    if b == [] {
      assert a + b == a;
    } else {
      PiecesConcat(crc, a, b[..|b| - 1]);
      assert (a + b)[..|a + b| - 1] == a + b[..|b| - 1];
    }
  }

  lemma {:induction false} PlacedBytes(crc: Checksum, o: nat, fs: seq<Fragment>)
    requires Fit(o, fs)
    ensures PiecesBytes(crc, Placed(o, fs)) == Stream(crc, o, fs)
    decreases fs
  {
    if fs != [] {
      var p := Piece(Trailer(o), fs[0]);
      PlacedBytes(crc, After(o, fs[0]), fs[1..]);
      PiecesConcat(crc, [p], Placed(After(o, fs[0]), fs[1..]));
      assert [p][..0] == [];
      assert PiecesBytes(crc, [p]) == PieceBytes(crc, p);
    }
  }

  /** With clean failures the file is the pieces, one after the other. */
  lemma {:induction false} FileIsPieces(crc: Checksum, attempts: seq<Attempt>)
    requires Clean(attempts)
    ensures FileBytes(crc, attempts) == PiecesBytes(crc, Pieces(attempts))
    decreases attempts
  {
    if attempts != [] {
      var front := attempts[..|attempts| - 1];
      var o, a := OffsetAfter(front), attempts[|attempts| - 1];
      FileIsPieces(crc, front);
      DoneFit(o, a);
      PlacedBytes(crc, o, Done(o, a));
      PiecesConcat(crc, Pieces(front), Placed(o, Done(o, a)));
      assert Torn(crc, o, a) == [];
    }
  }

  // ---------------------------------------------------------------------------------------------
  // Where the reader looks for them
  // ---------------------------------------------------------------------------------------------

  /** Every piece is where a reader that has come to block offset `o` of the file looks for it: its filler
      is the trailer of the file's block, and the fragment ends within the block. */
  ghost predicate Aligned(o: nat, ps: seq<Piece>)
    requires o <= BLOCK_SIZE
    decreases ps
  {
    ps != [] ==>
      var p := ps[0];
      && p.filler == Trailer(o) && |p.fragment.payload| <= Room(o)
      && Aligned(After(o, p.fragment), ps[1..])
  }

  lemma {:induction false} AlignedBytes(crc: Checksum, o: nat, ps: seq<Piece>)
    requires o <= BLOCK_SIZE && PiecesOk(ps) && Aligned(o, ps)
    ensures Fit(o, FragmentsIn(ps)) && PiecesBytes(crc, ps) == Stream(crc, o, FragmentsIn(ps))
    decreases ps
  {
    if ps != [] {
      var p := ps[0];
      var o' := After(o, p.fragment);
      AlignedBytes(crc, o', ps[1..]);
      assert FragmentsIn(ps)[1..] == FragmentsIn(ps[1..]) && FragmentsIn(ps)[0] == p.fragment;
      PiecesConcat(crc, [p], ps[1..]);
      assert [p] + ps[1..] == ps && [p][..0] == [];
      assert PiecesBytes(crc, [p]) == PieceBytes(crc, p);
    }
  }

  lemma {:induction false} AlignedConcat(o: nat, a: seq<Piece>, b: seq<Piece>)
    requires o <= BLOCK_SIZE && PiecesOk(a) && Aligned(o, a)
    ensures Fit(o, FragmentsIn(a)) && EndOffset(o, FragmentsIn(a)) <= BLOCK_SIZE
    ensures Aligned(o, a + b) <==> Aligned(EndOffset(o, FragmentsIn(a)), b)
    decreases a
  {
    if a == [] {
      assert a + b == b;
    } else {
      AlignedConcat(After(o, a[0].fragment), a[1..], b);
      assert (a + b)[1..] == a[1..] + b;
      assert FragmentsIn(a)[1..] == FragmentsIn(a[1..]) && FragmentsIn(a)[0] == a[0].fragment;
    }
  }

  lemma {:induction false} PlacedAligned(o: nat, fs: seq<Fragment>)
    requires Fit(o, fs)
    ensures Aligned(o, Placed(o, fs))
    decreases fs
  {
    if fs != [] {
      PlacedAligned(After(o, fs[0]), fs[1..]);
      assert Placed(o, fs)[1..] == Placed(After(o, fs[0]), fs[1..]);
    }
  }

  /** The reader looks for every fragment of the log where the writer has put it. */
  ghost predicate Undisturbed(attempts: seq<Attempt>) {
    Clean(attempts) && Aligned(0, Pieces(attempts))
  }

  ghost predicate NoneFailed(attempts: seq<Attempt>) {
    forall i :: 0 <= i < |attempts| ==> attempts[i].failure.None?
  }

  /** While no append fails, the reader looks where the writer has written. */
  lemma {:induction false} NoneFailedAligned(attempts: seq<Attempt>)
    requires NoneFailed(attempts)
    ensures Undisturbed(attempts)
    ensures EndOffset(0, FragmentsIn(Pieces(attempts))) == OffsetAfter(attempts)
    decreases attempts
  {
    if attempts != [] {
      var front := attempts[..|attempts| - 1];
      var o, a := OffsetAfter(front), attempts[|attempts| - 1];
      NoneFailedAligned(front);
      DoneFit(o, a);
      var ps := Placed(o, Done(o, a));
      AlignedConcat(0, Pieces(front), ps);
      PlacedAligned(o, Done(o, a));
      PiecesConcat(_ => 0, Pieces(front), ps);
      FitConcat(0, FragmentsIn(Pieces(front)), Done(o, a));
    }
  }
}
