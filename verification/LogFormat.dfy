/** The log file format: records cut into fragments that never cross a block boundary. */
module LogFormat {
  import opened Coding

  const BLOCK_SIZE := 32768
  const HEADER_SIZE := 7

  /** Record types. */
  const FULL: byte := 1
  const FIRST: byte := 2
  const MIDDLE: byte := 3
  const LAST: byte := 4

  /** The checksum is any function of type byte and payload. */
  type Checksum = Bytes -> uint32

  const MASK_DELTA: nat := 0xa282ead8

  /** Rotate right by 15 bits and add a constant. */
  function Mask(crc: uint32): uint32 {
    (crc / 0x8000 + crc % 0x8000 * 0x2_0000 + MASK_DELTA) % TWO32
  }

  function Unmask(masked: uint32): uint32 {
    var rot := (masked + TWO32 - MASK_DELTA) % TWO32;
    rot / 0x2_0000 + rot % 0x2_0000 * 0x8000
  }

  lemma UnmaskMask(crc: uint32)
    ensures Unmask(Mask(crc)) == crc
  {
    var rot := crc / 0x8000 + crc % 0x8000 * 0x2_0000;
    assert (Mask(crc) + TWO32 - MASK_DELTA) % TWO32 == rot;
    assert rot / 0x2_0000 == crc % 0x8000 && rot % 0x2_0000 == crc / 0x8000;
  }

  // ---------------------------------------------------------------------------------------------
  // Fragments
  // ---------------------------------------------------------------------------------------------

  datatype Fragment = Fragment(kind: byte, payload: Bytes)

  function TypeOf(begin: bool, end: bool): byte {
    if begin && end then FULL else if begin then FIRST else if end then LAST else MIDDLE
  }

  function Zeros(n: nat): (s: Bytes)
    ensures |s| == n
  {
    seq(n, i => 0)
  }

  /** Where the next header goes: a block's last six bytes hold no header. */
  function Trailer(offset: nat): nat {
    if offset <= BLOCK_SIZE && BLOCK_SIZE - offset < HEADER_SIZE then BLOCK_SIZE - offset else 0
  }

  function HeaderOffset(offset: nat): nat {
    if BLOCK_SIZE < offset + HEADER_SIZE then 0 else offset
  }

  /** How much payload fits after a header written at `offset`. */
  function Room(offset: nat): (n: nat)
    requires offset <= BLOCK_SIZE
    ensures n == BLOCK_SIZE - HeaderOffset(offset) - HEADER_SIZE
  {
    BLOCK_SIZE - HeaderOffset(offset) - HEADER_SIZE
  }

  function After(offset: nat, f: Fragment): nat {
    HeaderOffset(offset) + HEADER_SIZE + |f.payload|
  }

  /** The fragments of one record, starting at a block offset. */
  function Fragments(offset: nat, data: Bytes, begin: bool): (r: seq<Fragment>)
    requires offset <= BLOCK_SIZE
    ensures r != []
    decreases |data|, if Room(offset) == 0 then 1 else 0
  {
    var n := if |data| <= Room(offset) then |data| else Room(offset);
    var f := Fragment(TypeOf(begin, n == |data|), data[..n]);
    [f] + if n == |data| then [] else Fragments(After(offset, f), data[n..], false)
  }

  /** The fragments put a record, or the rest of one, together again. */
  ghost predicate IsCut(fs: seq<Fragment>, data: Bytes, begin: bool)
    decreases fs
  {
    fs != [] &&
    var f := fs[0];
    && f.kind == TypeOf(begin, |fs| == 1) && f.payload <= data
    && if |fs| == 1 then f.payload == data else IsCut(fs[1..], data[|f.payload|..], false)
  }

  lemma {:induction false} FragmentsCut(offset: nat, data: Bytes, begin: bool)
    requires offset <= BLOCK_SIZE
    ensures IsCut(Fragments(offset, data, begin), data, begin)
    decreases |data|, if Room(offset) == 0 then 1 else 0
  {
    var n := if |data| <= Room(offset) then |data| else Room(offset);
    var f := Fragment(TypeOf(begin, n == |data|), data[..n]);
    var fs := Fragments(offset, data, begin);
    if n < |data| {
      FragmentsCut(After(offset, f), data[n..], false);
      assert fs[1..] == Fragments(After(offset, f), data[n..], false);
    } else {
      assert fs == [f];
    }
  }

  /** Each fragment but the last fills its block. */
  ghost predicate Fills(offset: nat, fs: seq<Fragment>)
    decreases fs
  {
    |fs| > 1 ==> After(offset, fs[0]) == BLOCK_SIZE && Fills(After(offset, fs[0]), fs[1..])
  }

  lemma {:induction false} FragmentsFill(offset: nat, data: Bytes, begin: bool)
    requires offset <= BLOCK_SIZE
    ensures Fills(offset, Fragments(offset, data, begin))
    decreases |data|, if Room(offset) == 0 then 1 else 0
  {
    var n := if |data| <= Room(offset) then |data| else Room(offset);
    var f := Fragment(TypeOf(begin, n == |data|), data[..n]);
    var fs := Fragments(offset, data, begin);
    if n < |data| {
      FragmentsFill(After(offset, f), data[n..], false);
      assert fs[1..] == Fragments(After(offset, f), data[n..], false);
    }
  }

  function EndOffset(offset: nat, fs: seq<Fragment>): nat
    decreases fs
  {
    if fs == [] then offset else EndOffset(After(offset, fs[0]), fs[1..])
  }

  /** Every fragment fits in the block it is written to. */
  ghost predicate Fit(offset: nat, fs: seq<Fragment>)
    decreases fs
  {
    offset <= BLOCK_SIZE &&
    (fs != [] ==> |fs[0].payload| <= Room(offset) && 1 <= fs[0].kind <= 4 && Fit(After(offset, fs[0]), fs[1..]))
  }

  function Header(crc: Checksum, f: Fragment): (h: Bytes)
    requires |f.payload| < 0x1_0000
    ensures |h| == HEADER_SIZE
  {
    EncodeFixed32(Mask(crc([f.kind] + f.payload))) + [|f.payload| % 0x100, |f.payload| / 0x100, f.kind]
  }

  /** A fragment's bytes: the block trailer if one is due, the header, the payload. */
  function Emit(crc: Checksum, offset: nat, f: Fragment): (s: Bytes)
    requires offset <= BLOCK_SIZE && |f.payload| <= Room(offset)
    ensures |s| == Trailer(offset) + HEADER_SIZE + |f.payload|
  {
    Zeros(Trailer(offset)) + Header(crc, f) + f.payload
  }

  ghost function Stream(crc: Checksum, offset: nat, fs: seq<Fragment>): Bytes
    requires Fit(offset, fs)
    decreases fs
  {
    if fs == [] then [] else Emit(crc, offset, fs[0]) + Stream(crc, After(offset, fs[0]), fs[1..])
  }

  lemma {:induction false} FragmentsFit(offset: nat, data: Bytes, begin: bool)
    requires offset <= BLOCK_SIZE
    ensures Fit(offset, Fragments(offset, data, begin))
    decreases |data|, if Room(offset) == 0 then 1 else 0
  {
    var n := if |data| <= Room(offset) then |data| else Room(offset);
    var f := Fragment(TypeOf(begin, n == |data|), data[..n]);
    if n < |data| {
      FragmentsFit(After(offset, f), data[n..], false);
    }
    assert Fragments(offset, data, begin)[1..] == if n == |data| then []
      else Fragments(After(offset, f), data[n..], false);
  }

  // ---------------------------------------------------------------------------------------------
  // Records
  // ---------------------------------------------------------------------------------------------

  /** The fragments of a list of records, one after the other. */
  ghost function RecordFragments(offset: nat, records: seq<Bytes>): seq<Fragment>
    requires offset <= BLOCK_SIZE
    decreases records
  {
    if records == [] then []
    else
      var fs := Fragments(offset, records[0], true);
      FragmentsFit(offset, records[0], true);
      EndInBlock(offset, fs);
      fs + RecordFragments(EndOffset(offset, fs), records[1..])
  }

  lemma {:induction false} EndInBlock(offset: nat, fs: seq<Fragment>)
    requires Fit(offset, fs)
    ensures EndOffset(offset, fs) <= BLOCK_SIZE
    decreases fs
  {
    if fs != [] {
      EndInBlock(After(offset, fs[0]), fs[1..]);
    }
  }

  lemma {:induction false} FitConcat(offset: nat, fs: seq<Fragment>, gs: seq<Fragment>)
    requires Fit(offset, fs) && Fit(EndOffset(offset, fs), gs)
    ensures Fit(offset, fs + gs) && EndOffset(offset, fs + gs) == EndOffset(EndOffset(offset, fs), gs)
    decreases fs
  {
    if fs == [] {
      assert fs + gs == gs;
    } else {
      FitConcat(After(offset, fs[0]), fs[1..], gs);
      assert (fs + gs)[1..] == fs[1..] + gs;
    }
  }

  lemma {:induction false} StreamConcat(crc: Checksum, offset: nat, fs: seq<Fragment>, gs: seq<Fragment>)
    requires Fit(offset, fs) && Fit(EndOffset(offset, fs), gs) && Fit(offset, fs + gs)
    ensures Stream(crc, offset, fs + gs) == Stream(crc, offset, fs) + Stream(crc, EndOffset(offset, fs), gs)
    decreases fs
  {
    if fs == [] {
      assert fs + gs == gs;
    } else {
      assert (fs + gs)[1..] == fs[1..] + gs;
      FitConcat(After(offset, fs[0]), fs[1..], gs);
      StreamConcat(crc, After(offset, fs[0]), fs[1..], gs);
    }
  }

  lemma {:induction false} RecordsFit(offset: nat, records: seq<Bytes>)
    requires offset <= BLOCK_SIZE
    ensures Fit(offset, RecordFragments(offset, records))
    decreases records
  {
    if records != [] {
      var fs := Fragments(offset, records[0], true);
      FragmentsFit(offset, records[0], true);
      EndInBlock(offset, fs);
      RecordsFit(EndOffset(offset, fs), records[1..]);
      FitConcat(offset, fs, RecordFragments(EndOffset(offset, fs), records[1..]));
    }
  }

  /** The bytes of a log written from an empty file. */
  ghost function LogBytes(crc: Checksum, records: seq<Bytes>): Bytes {
    RecordsFit(0, records);
    Stream(crc, 0, RecordFragments(0, records))
  }

  ghost function LogEnd(records: seq<Bytes>): nat {
    EndOffset(0, RecordFragments(0, records))
  }

  lemma {:induction false} RecordsConcat(offset: nat, a: seq<Bytes>, b: seq<Bytes>)
    requires offset <= BLOCK_SIZE
    ensures EndOffset(offset, RecordFragments(offset, a)) <= BLOCK_SIZE
    ensures RecordFragments(offset, a + b) ==
            RecordFragments(offset, a) + RecordFragments(EndOffset(offset, RecordFragments(offset, a)), b)
    decreases a
  {
    hide Fragments, Fit;
    RecordsFit(offset, a);
    EndInBlock(offset, RecordFragments(offset, a));
    if a == [] {
      assert a + b == b;
    } else {
      hide EndOffset;
      var fs := Fragments(offset, a[0], true);
      FragmentsFit(offset, a[0], true);
      EndInBlock(offset, fs);
      var o := EndOffset(offset, fs);
      assert (a + b)[1..] == a[1..] + b;
      RecordsConcat(o, a[1..], b);
      RecordsFit(o, a[1..]);
      FitConcat(offset, fs, RecordFragments(o, a[1..]));
    }
  }

  /** Appending one record. */
  lemma LogAppend(crc: Checksum, records: seq<Bytes>, r: Bytes)
    ensures LogEnd(records) <= BLOCK_SIZE
    ensures var fs := Fragments(LogEnd(records), r, true);
            && Fit(LogEnd(records), fs)
            && LogBytes(crc, records + [r]) == LogBytes(crc, records) + Stream(crc, LogEnd(records), fs)
            && LogEnd(records + [r]) == EndOffset(LogEnd(records), fs)
  {
    var a := RecordFragments(0, records);
    RecordsFit(0, records);
    RecordsFit(0, records + [r]);
    EndInBlock(0, a);
    RecordsConcat(0, records, [r]);
    var o := EndOffset(0, a);
    var fs := Fragments(o, r, true);
    FragmentsFit(o, r, true);
    EndInBlock(o, fs);
    assert [r][1..] == [];
    assert RecordFragments(o, [r]) == fs;
    FitConcat(0, a, fs);
    StreamConcat(crc, 0, a, fs);
  }
}
