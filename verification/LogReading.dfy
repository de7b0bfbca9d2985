/** What log::Reader returns from any bytes, in terms of the physical records it reads. */
module LogReading {
  import opened Options
  import opened Coding
  import opened LogFormat
  import opened LogReader
  import LogFailures

  // ---------------------------------------------------------------------------------------------
  // Physical records
  // ---------------------------------------------------------------------------------------------

  lemma Reported(crc: Checksum, file: Bytes, st: State, n: nat)
    requires st.Ok(file)
    ensures var (p, s) := ReadPhysical(crc, file, st);
            ReadPhysical(crc, file, st.(reports := st.reports + n)) == (p, s.(reports := s.reports + n))
    decreases if st.end - st.pos < HEADER_SIZE && !st.eof then 1 else 0
  {
    if st.end - st.pos < HEADER_SIZE && !st.eof {
      Reported(crc, file, Refill(file, st), n);
    }
  }

  /** A fragment that is returned stands in the file as the writer encodes it, checksum and all, and the reader
      is right behind it.  After a bad one nothing of the block is left. */
  lemma PhysicalIsEncoded(crc: Checksum, file: Bytes, st: State)
    requires st.Ok(file)
    ensures var (p, s) := ReadPhysical(crc, file, st);
            match p
            case Frag(kind, payload) =>
              && |payload| < 0x1_0000 && st.pos + HEADER_SIZE + |payload| <= s.pos
              && file[s.pos - |payload| - HEADER_SIZE..s.pos] == Header(crc, Fragment(kind, payload)) + payload
              && s.reports == st.reports
            case _ => s.pos == s.end
    decreases if st.end - st.pos < HEADER_SIZE && !st.eof then 1 else 0
  {
    hide ParsePhysical, Header;
    if st.end - st.pos >= HEADER_SIZE {
      ParsedIsEncoded(crc, file, st);
    } else if !st.eof {
      PhysicalIsEncoded(crc, file, Refill(file, st));
    }
  }

  lemma ParsedIsEncoded(crc: Checksum, file: Bytes, st: State)
    requires st.Ok(file) && st.end - st.pos >= HEADER_SIZE
    ensures var (p, s) := ParsePhysical(crc, file, st);
            match p
            case Frag(kind, payload) =>
              && |payload| < 0x1_0000 && st.pos + HEADER_SIZE + |payload| == s.pos
              && file[st.pos..s.pos] == Header(crc, Fragment(kind, payload)) + payload
              && s.reports == st.reports
            case _ => s.pos == s.end
  {
    var (p, s) := ParsePhysical(crc, file, st);
    hide Header, Unmask, DecodeFixed32;
    if p.Frag? {
      var f, n := Fragment(p.kind, p.payload), |p.payload|;
      assert Length(file[st.pos..st.pos + HEADER_SIZE]) == n;
      LogFailures.ParsedHeader(crc, file, st, f);
      assert file[st.pos..s.pos] == file[st.pos..st.pos + HEADER_SIZE] + file[st.pos + HEADER_SIZE..s.pos];
    }
  }

  /** Each way for a header to be bad: the record goes past what is loaded (at the end of the file that is no
      error), it is of type zero and empty (no error either), or its checksum does not match. */
  lemma BadHeaders(crc: Checksum, file: Bytes, st: State)
    requires st.Ok(file) && st.end - st.pos >= HEADER_SIZE
    ensures var h := file[st.pos..st.pos + HEADER_SIZE];
            var n := h[4] as int + h[5] as int * 0x100;
            var (p, s) := ReadPhysical(crc, file, st);
            if st.pos + HEADER_SIZE + n > st.end then
              if st.eof then p == Eof && s.reports == st.reports else p == Bad && s.reports == st.reports + 1
            else if h[6] == 0 && n == 0 then p == Bad && s.reports == st.reports
            else
              if crc([h[6]] + file[st.pos + HEADER_SIZE..st.pos + HEADER_SIZE + n]) == Unmask(DecodeFixed32(h[..4]))
              then p == Frag(h[6], file[st.pos + HEADER_SIZE..st.pos + HEADER_SIZE + n]) && s.reports == st.reports
              else p == Bad && s.reports == st.reports + 1
  {
    hide Unmask, DecodeFixed32;
    var h := file[st.pos..st.pos + HEADER_SIZE];
    var n := h[4] as int + h[5] as int * 0x100;
    if st.pos + HEADER_SIZE + n <= st.end {
      assert file[st.pos + 6..st.pos + HEADER_SIZE + n] ==
             [h[6]] + file[st.pos + HEADER_SIZE..st.pos + HEADER_SIZE + n];
    }
  }

  // ---------------------------------------------------------------------------------------------
  // Joining
  // ---------------------------------------------------------------------------------------------

  /** The next `n` calls of ReadPhysicalRecord, and where they leave the reader. */
  ghost function Reads(crc: Checksum, file: Bytes, st: State, n: nat): (r: (seq<Physical>, State))
    requires st.Ok(file)
    ensures |r.0| == n && r.1.Ok(file)
    decreases n
  {
    if n == 0 then ([], st)
    else
      var (p, s) := ReadPhysical(crc, file, st);
      var (ps, t) := Reads(crc, file, s, n - 1);
      ([p] + ps, t)
  }

  ghost predicate IsKind(p: Physical, kind: byte) {
    p.Frag? && p.kind == kind
  }

  /** A record: one full fragment, or a first one, any number of middle ones and a last one, with nothing else
      between them. */
  ghost predicate IsRecord(ps: seq<Physical>) {
    || (|ps| == 1 && IsKind(ps[0], FULL))
    || (|ps| >= 2 && IsKind(ps[0], FIRST) && IsKind(ps[|ps| - 1], LAST)
        && forall i :: 1 <= i < |ps| - 1 ==> IsKind(ps[i], MIDDLE))
  }

  /** The payloads of fragments, one after the other. */
  ghost function Payloads(ps: seq<Physical>): Bytes {
    if ps == [] then []
    else Payloads(ps[..|ps| - 1]) + if ps[|ps| - 1].Frag? then ps[|ps| - 1].payload else []
  }

  /** A first fragment and middle ones: a record under way. */
  ghost predicate IsOpen(ps: seq<Physical>) {
    ps != [] && IsKind(ps[0], FIRST) && forall i :: 1 <= i < |ps| ==> IsKind(ps[i], MIDDLE)
  }

  /** The only record under way at the end of the reads is the one from `k` on, and `scratch` has it. */
  ghost predicate Under(ps: seq<Physical>, k: nat, scratch: Bytes, inFragmented: bool) {
    && (forall a :: 0 <= a < |ps| ==> (IsOpen(ps[a..]) <==> inFragmented && a == k))
    && (if inFragmented then k < |ps| && scratch == Payloads(ps[k..]) else scratch == [])
  }

  /** No record is complete. */
  ghost predicate NoRecord(ps: seq<Physical>) {
    forall a, b :: 0 <= a < b <= |ps| ==> !IsRecord(ps[a..b])
  }

  lemma SuffixOfSnoc(ps: seq<Physical>, p: Physical, a: nat)
    requires a <= |ps|
    ensures (ps + [p])[a..] == ps[a..] + [p]
  {
  }

  lemma PayloadsSnoc(ps: seq<Physical>, p: Physical)
    ensures Payloads(ps + [p]) == Payloads(ps) + if p.Frag? then p.payload else []
  {
    var more := ps + [p];
    assert more[..|ps|] == ps && more[|ps|] == p;
  }

  lemma OpenSnoc(ps: seq<Physical>, p: Physical)
    ensures IsOpen(ps + [p]) <==> if ps == [] then IsKind(p, FIRST) else IsOpen(ps) && IsKind(p, MIDDLE)
  {
    hide IsKind;
    var more := ps + [p];
    assert more[|ps|] == p && forall i :: 0 <= i < |ps| ==> more[i] == ps[i];
  }

  lemma RecordSnoc(ps: seq<Physical>, p: Physical)
    ensures IsRecord(ps + [p]) <==> if ps == [] then IsKind(p, FULL) else IsOpen(ps) && IsKind(p, LAST)
  {
    var more := ps + [p];
    assert more[|ps|] == p && forall i :: 0 <= i < |ps| ==> more[i] == ps[i];
  }

  /** What one more read completes or leaves under way. */
  lemma OneMore(ps: seq<Physical>, k: nat, scratch: Bytes, inFragmented: bool, p: Physical)
    requires Under(ps, k, scratch, inFragmented) && NoRecord(ps)
    ensures IsKind(p, FULL) ==> IsRecord((ps + [p])[|ps|..]) && Payloads((ps + [p])[|ps|..]) == p.payload
    ensures IsKind(p, LAST) && inFragmented ==>
              IsRecord((ps + [p])[k..]) && Payloads((ps + [p])[k..]) == scratch + p.payload
    ensures IsKind(p, FIRST) ==> Under(ps + [p], |ps|, p.payload, true)
    ensures IsKind(p, MIDDLE) && inFragmented ==> Under(ps + [p], k, scratch + p.payload, true)
    ensures !IsKind(p, FIRST) && !(IsKind(p, MIDDLE) && inFragmented) ==> Under(ps + [p], k, [], false)
    ensures !IsKind(p, FULL) && !(IsKind(p, LAST) && inFragmented) ==> NoRecord(ps + [p])
  {
    var more := ps + [p];
    assert more[|ps|..] == [] + [p];
    assert Payloads([]) == [];
    PayloadsSnoc([], p);
    OpenSnoc([], p);
    RecordSnoc([], p);
    forall a | 0 <= a < |ps|
      ensures IsOpen(more[a..]) <==> inFragmented && a == k && IsKind(p, MIDDLE)
      ensures IsRecord(more[a..]) <==> inFragmented && a == k && IsKind(p, LAST)
      ensures Payloads(more[a..]) == Payloads(ps[a..]) + if p.Frag? then p.payload else []
    {
      SuffixOfSnoc(ps, p, a);
      PayloadsSnoc(ps[a..], p);
      OpenSnoc(ps[a..], p);
      RecordSnoc(ps[a..], p);
    }
    hide IsOpen, IsRecord, Payloads;
    if !IsKind(p, FULL) && !(IsKind(p, LAST) && inFragmented) {
      forall a, b | 0 <= a < b <= |more| ensures !IsRecord(more[a..b]) {
        if b == |more| {
          assert more[a..b] == more[a..];
        } else {
          assert more[a..b] == ps[a..b];
        }
      }
    }
  }

  lemma {:induction false} ReadsReported(crc: Checksum, file: Bytes, st: State, n: nat, more: nat)
    requires st.Ok(file)
    ensures var (ps, t) := Reads(crc, file, st, n);
            Reads(crc, file, st.(reports := st.reports + more), n) == (ps, t.(reports := t.reports + more))
    decreases n
  {
    hide ReadPhysical;
    if n > 0 {
      Reported(crc, file, st, more);
      ReadsReported(crc, file, ReadPhysical(crc, file, st).1, n - 1, more);
    }
  }

  /** A record is under way after these reads, with something in it if so asked. */
  ghost predicate HasOpen(ps: seq<Physical>, filled: bool) {
    exists k :: 0 <= k < |ps| && IsOpen(ps[k..]) && (filled ==> Payloads(ps[k..]) != [])
  }

  /** Whether something is dropped, and reported for that, when `p` is read after `ps`: what was under way and
      is not empty, when another record begins; any of that, when a bad record is read; and a fragment that
      belongs to nothing. */
  ghost predicate Drops(ps: seq<Physical>, p: Physical) {
    match p
    case Eof => false
    case Bad => HasOpen(ps, false)
    case Frag(kind, _) =>
      if kind == FULL || kind == FIRST then HasOpen(ps, true)
      else if kind == MIDDLE || kind == LAST then !HasOpen(ps, false)
      else true
  }

  ghost function Dropped(ps: seq<Physical>): nat {
    if ps == [] then 0
    else Dropped(ps[..|ps| - 1]) + if Drops(ps[..|ps| - 1], ps[|ps| - 1]) then 1 else 0
  }

  lemma DroppedSnoc(ps: seq<Physical>, p: Physical)
    ensures Dropped(ps + [p]) == Dropped(ps) + if Drops(ps, p) then 1 else 0
  {
    assert (ps + [p])[..|ps|] == ps;
    hide Drops;
  }

  lemma OpenIs(ps: seq<Physical>, k: nat, scratch: Bytes, inFragmented: bool)
    requires Under(ps, k, scratch, inFragmented)
    ensures HasOpen(ps, false) <==> inFragmented
    ensures HasOpen(ps, true) <==> inFragmented && scratch != []
  {
    hide IsOpen, Payloads;
  }

  /** Where the reader is, reports aside. */
  ghost predicate SamePlace(a: State, b: State) {
    a.pos == b.pos && a.end == b.end && a.eof == b.eof
  }

  /** The reads complete this record, from `a` on, and none before; or they come to the end without one. */
  ghost predicate Finished(all: seq<Physical>, a: nat, r: Option<Bytes>) {
    && all != [] && NoRecord(all[..|all| - 1])
    && match r
       case Some(record) => a < |all| && IsRecord(all[a..]) && record == Payloads(all[a..])
       case None => all[|all| - 1] == Eof && NoRecord(all)
  }

  /** With `past` read before, the next `n` reads finish the record. */
  ghost predicate Completes(crc: Checksum, file: Bytes, st: State, past: seq<Physical>, n: nat, a: nat,
                            r: Option<Bytes>, u: State)
    requires st.Ok(file)
  {
    var (ps, t) := Reads(crc, file, st, n);
    && n > 0 && SamePlace(u, t) && Finished(past + ps, a, r)
    && u.reports == t.reports + Dropped(past + ps) - Dropped(past)
  }

  lemma ReadsHead(crc: Checksum, file: Bytes, st: State, n: nat)
    requires st.Ok(file) && n > 0
    ensures var (p, s) := ReadPhysical(crc, file, st);
            var (ps, t) := Reads(crc, file, s, n - 1);
            Reads(crc, file, st, n) == ([p] + ps, t)
  {
  }

  lemma CompletesHead(crc: Checksum, file: Bytes, st: State, p: Physical, s: State, past: seq<Physical>, n: nat, a: nat,
                      more: nat, r: Option<Bytes>, u: State)
    requires st.Ok(file) && s.Ok(file) && ReadPhysical(crc, file, st) == (p, s)
    requires Completes(crc, file, s.(reports := s.reports + more), past + [p], n, a, r, u)
    requires more == if Drops(past, p) then 1 else 0
    ensures Completes(crc, file, st, past, n + 1, a, r, u)
  {
    DroppedSnoc(past, p);
    hide ReadPhysical, Finished, NoRecord, Dropped, Drops;
    ReadsHead(crc, file, st, n + 1);
    ReadsReported(crc, file, s, n, more);
    hide Reads;
    var ps := Reads(crc, file, s, n).0;
    assert past + ([p] + ps) == past + [p] + ps;
  }

  lemma CompletesNow(crc: Checksum, file: Bytes, st: State, past: seq<Physical>, a: nat, r: Option<Bytes>, u: State)
    requires st.Ok(file)
    requires var (p, s) := ReadPhysical(crc, file, st);
             && SamePlace(u, s) && Finished(past + [p], a, r)
             && u.reports == s.reports + if Drops(past, p) then 1 else 0
    ensures Completes(crc, file, st, past, 1, a, r, u)
  {
    var (p, s) := ReadPhysical(crc, file, st);
    DroppedSnoc(past, p);
    hide ReadPhysical, Finished, Dropped, Drops;
    ReadsHead(crc, file, st, 1);
    assert Reads(crc, file, s, 0) == ([], s);
    hide Reads;
    assert [p] + [] == [p];
  }

  lemma FinishedNow(past: seq<Physical>, p: Physical, a: nat, r: Option<Bytes>)
    requires NoRecord(past)
    requires match r
             case Some(record) => a <= |past| && IsRecord((past + [p])[a..]) && record == Payloads((past + [p])[a..])
             case None => p == Eof && NoRecord(past + [p])
    ensures Finished(past + [p], a, r)
  {
    hide NoRecord, IsRecord, Payloads;
    assert (past + [p])[..|past|] == past;
  }

  /** The cases of ReadRecord. */
  lemma ReadRecordCases(crc: Checksum, file: Bytes, st: State, scratch: Bytes, inFragmented: bool)
    requires st.Ok(file)
    ensures var (p, s) := ReadPhysical(crc, file, st);
            var (r, u) := ReadRecord(crc, file, st, scratch, inFragmented);
            var lost := if inFragmented && scratch != [] then 1 else 0;
            && (p == Eof ==> r == None && u == s)
            && (IsKind(p, FULL) ==> r == Some(p.payload) && SamePlace(u, s) && u.reports == s.reports + lost)
            && (IsKind(p, LAST) && inFragmented ==> r == Some(scratch + p.payload) && u == s)
            && (IsKind(p, FIRST) ==>
                  (r, u) == ReadRecord(crc, file, s.(reports := s.reports + lost), p.payload, true))
            && (IsKind(p, MIDDLE) && inFragmented ==>
                  (r, u) == ReadRecord(crc, file, s.(reports := s.reports + 0), scratch + p.payload, true))
            && ((&& p != Eof && !IsKind(p, FULL) && !IsKind(p, FIRST)
                 && !(inFragmented && (IsKind(p, MIDDLE) || IsKind(p, LAST)))
                 && (inFragmented || scratch == [])) ==>
                  (r, u) == ReadRecord(crc, file, s.(reports := s.reports + Loss(p, inFragmented)), [], false))
  {
    hide ReadPhysical;
    var s := ReadPhysical(crc, file, st).1;
    assert s.(reports := s.reports + 0) == s;
  }

  function Loss(p: Physical, inFragmented: bool): nat {
    if p == Bad && !inFragmented then 0 else 1
  }

  /** The read ends the call, and from where the record is. */
  predicate Ends(p: Physical, inFragmented: bool) {
    p == Eof || (p.Frag? && (p.kind == FULL || (inFragmented && p.kind == LAST)))
  }

  /** What is under way after a read that does not end the call, and the reports made. */
  datatype Way = Way(k: nat, scratch: Bytes, open: bool, reports: nat)

  function Onward(n: nat, k: nat, scratch: Bytes, inFragmented: bool, p: Physical): Way {
    if p.Frag? && p.kind == FIRST then Way(n, p.payload, true, if inFragmented && scratch != [] then 1 else 0)
    else if p.Frag? && p.kind == MIDDLE && inFragmented then Way(k, scratch + p.payload, true, 0)
    else Way(k, [], false, Loss(p, inFragmented))
  }

  lemma OnwardUnder(past: seq<Physical>, k: nat, scratch: Bytes, inFragmented: bool, p: Physical)
    requires Under(past, k, scratch, inFragmented) && NoRecord(past) && !Ends(p, inFragmented)
    ensures var w := Onward(|past|, k, scratch, inFragmented, p);
            Under(past + [p], w.k, w.scratch, w.open) && NoRecord(past + [p])
            && w.reports == if Drops(past, p) then 1 else 0
  {
    OneMore(past, k, scratch, inFragmented, p);
    OpenIs(past, k, scratch, inFragmented);
    hide HasOpen, Under, NoRecord;
  }

  lemma OnwardRead(crc: Checksum, file: Bytes, st: State, n: nat, k: nat, scratch: Bytes, inFragmented: bool)
    requires st.Ok(file) && (inFragmented || scratch == []) && !Ends(ReadPhysical(crc, file, st).0, inFragmented)
    ensures var (p, s) := ReadPhysical(crc, file, st);
            var w := Onward(n, k, scratch, inFragmented, p);
            ReadRecord(crc, file, st, scratch, inFragmented) ==
            ReadRecord(crc, file, s.(reports := s.reports + w.reports), w.scratch, w.open)
  {
    ReadRecordCases(crc, file, st, scratch, inFragmented);
    hide ReadPhysical, ReadRecord;
  }

  lemma EndsHere(crc: Checksum, file: Bytes, st: State, past: seq<Physical>, k: nat, scratch: Bytes,
                 inFragmented: bool) returns (a: nat)
    requires st.Ok(file) && Under(past, k, scratch, inFragmented) && NoRecord(past)
    requires Ends(ReadPhysical(crc, file, st).0, inFragmented)
    ensures var (r, u) := ReadRecord(crc, file, st, scratch, inFragmented);
            Completes(crc, file, st, past, 1, a, r, u)
  {
    var (p, s) := ReadPhysical(crc, file, st);
    var (r, u) := ReadRecord(crc, file, st, scratch, inFragmented);
    ReadRecordCases(crc, file, st, scratch, inFragmented);
    OneMore(past, k, scratch, inFragmented, p);
    UnderFacts(past, k, scratch, inFragmented);
    OpenIs(past, k, scratch, inFragmented);
    hide ReadPhysical, ReadRecord, Under, NoRecord, IsRecord, Payloads, Completes, Finished, HasOpen;
    a := if p.Frag? && p.kind == LAST then k else |past|;
    FinishedNow(past, p, a, r);
    CompletesNow(crc, file, st, past, a, r, u);
  }

  lemma {:induction false} ReadRecordCompletes(crc: Checksum, file: Bytes, st: State, past: seq<Physical>, k: nat,
                                               scratch: Bytes, inFragmented: bool) returns (n: nat, a: nat)
    requires st.Ok(file) && Under(past, k, scratch, inFragmented) && NoRecord(past)
    ensures var (r, u) := ReadRecord(crc, file, st, scratch, inFragmented);
            Completes(crc, file, st, past, n, a, r, u)
    decreases |file| - st.pos
  {
    UnderFacts(past, k, scratch, inFragmented);
    var (p, s) := ReadPhysical(crc, file, st);
    if Ends(p, inFragmented) {
      n := 1;
      a := EndsHere(crc, file, st, past, k, scratch, inFragmented);
    } else {
      assert p != Eof;
      OnwardUnder(past, k, scratch, inFragmented, p);
      OnwardRead(crc, file, st, |past|, k, scratch, inFragmented);
      var w := Onward(|past|, k, scratch, inFragmented, p);
      hide ReadPhysical, ReadRecord, Under, NoRecord, Completes, Onward, Ends, Drops;
      var (r, u) := ReadRecord(crc, file, st, scratch, inFragmented);
      n, a := ReadRecordCompletes(crc, file, s.(reports := s.reports + w.reports), past + [p], w.k, w.scratch, w.open);
      CompletesHead(crc, file, st, p, s, past, n, a, w.reports, r, u);
      n := n + 1;
    }
  }

  lemma UnderFacts(ps: seq<Physical>, k: nat, scratch: Bytes, inFragmented: bool)
    requires Under(ps, k, scratch, inFragmented)
    ensures if inFragmented then k < |ps| else scratch == []
  {
  }

  /** ReadRecord returns the first record among the physical records it reads: the payload of one full
      fragment, or those of a first, any middle ones and a last one that were read one right after the other.  It
      returns none exactly if there is none before the file ends.  Nothing read before a bad record, or before a
      fragment that is out of place, is part of what is returned.  What is dropped is reported. */
  lemma RecordIsFirst(crc: Checksum, file: Bytes, st: State) returns (n: nat, a: nat)
    requires st.Ok(file)
    ensures var (r, u) := ReadRecord(crc, file, st, [], false);
            var (ps, t) := Reads(crc, file, st, n);
            && n > 0 && u == t.(reports := t.reports + Dropped(ps))
            && (forall b, c :: 0 <= b < c < n ==> !IsRecord(ps[b..c]))
            && match r
               case Some(record) =>
                 a < n && IsRecord(ps[a..]) && record == Payloads(ps[a..]) && forall i :: 0 <= i < n && ps[i] == Bad ==>
                   i < a
               case None => ps[n - 1] == Eof && forall b, c :: 0 <= b < c <= n ==> !IsRecord(ps[b..c])
  {
    n, a := ReadRecordCompletes(crc, file, st, [], 0, [], false);
    var (ps, t) := Reads(crc, file, st, n);
    assert [] + ps == ps;
    var front := ps[..n - 1];
    forall b, c | 0 <= b < c < n ensures !IsRecord(ps[b..c]) {
      assert front[b..c] == ps[b..c];
    }
    if ReadRecord(crc, file, st, [], false).0.Some? {
      RecordHasNoBad(ps, a);
    }
  }

  lemma RecordHasNoBad(ps: seq<Physical>, a: nat)
    requires a < |ps| && IsRecord(ps[a..])
    ensures forall i :: 0 <= i < |ps| && !ps[i].Frag? ==> i < a
  {
    forall i | a <= i < |ps| ensures ps[i].Frag? {
      assert ps[a..][i - a] == ps[i];
    }
  }
}
