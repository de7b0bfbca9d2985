/** log::Reader: what it returns for any bytes, and that it gives back what the writer wrote. */
module LogReader {
  import opened Options
  import opened Coding
  import opened LogFormat

  /** The buffer holds file[pos..end]; `eof` says the last read came up short. */
  datatype State = State(pos: nat, end: nat, eof: bool, reports: nat) {

    predicate Ok(file: Bytes) {
      pos <= end <= |file|
    }

    function Report(): State {
      this.(reports := reports + 1)
    }

    function Clear(): State {
      this.(pos := end)
    }
  }

  datatype Physical = Frag(kind: byte, payload: Bytes) | Eof | Bad

  function Refill(file: Bytes, st: State): (r: State)
    requires st.Ok(file)
    ensures r.Ok(file)
  {
    var e := if st.end + BLOCK_SIZE <= |file| then st.end + BLOCK_SIZE else |file|;
    st.(pos := st.end, end := e, eof := e - st.end < BLOCK_SIZE)
  }

  function Length(h: Bytes): nat
    requires |h| == HEADER_SIZE
  {
    h[4] as int + h[5] as int * 0x100
  }

  /** The fragment at the front of a buffer that holds at least a header. */
  function ParsePhysical(crc: Checksum, file: Bytes, st: State): (r: (Physical, State))
    requires st.Ok(file) && st.end - st.pos >= HEADER_SIZE
    ensures r.1.Ok(file) && st.pos < r.1.pos
  {
    var h := file[st.pos..st.pos + HEADER_SIZE];
    var n := Length(h);
    if HEADER_SIZE + n > st.end - st.pos then
      if st.eof then (Eof, st.Clear()) else (Bad, st.Clear().Report())
    else if h[6] == 0 && n == 0 then
      (Bad, st.Clear())
    else if crc(file[st.pos + 6..st.pos + HEADER_SIZE + n]) != Unmask(DecodeFixed32(h[..4])) then
      (Bad, st.Clear().Report())
    else
      (Frag(h[6], file[st.pos + HEADER_SIZE..st.pos + HEADER_SIZE + n]), st.(pos := st.pos + HEADER_SIZE + n))
  }

  /** ReadPhysicalRecord. */
  function ReadPhysical(crc: Checksum, file: Bytes, st: State): (r: (Physical, State))
    requires st.Ok(file)
    ensures r.1.Ok(file)
    ensures r.0 != Eof ==> st.pos < r.1.pos
    decreases if st.end - st.pos < HEADER_SIZE && !st.eof then 1 else 0
  {
    if st.end - st.pos >= HEADER_SIZE then ParsePhysical(crc, file, st)
    else if st.eof then (Eof, st.Clear())
    else ReadPhysical(crc, file, Refill(file, st))
  }

  /** ReadRecord from the point where `scratch` has been collected. */
  function ReadRecord(crc: Checksum, file: Bytes, st: State, scratch: Bytes,
          inFragmented: bool): (r: (Option<Bytes>, State))
    requires st.Ok(file)
    ensures r.1.Ok(file)
    decreases |file| - st.pos
  {
    var (p, s) := ReadPhysical(crc, file, st);
    match p
    case Eof => (None, s)
    case Bad => ReadRecord(crc, file, if inFragmented then s.Report() else s, if inFragmented then []
      else scratch, false)
    case Frag(kind, payload) =>
      if kind == FULL then
        (Some(payload), if inFragmented && scratch != [] then s.Report() else s)
      else if kind == FIRST then
        ReadRecord(crc, file, if inFragmented && scratch != [] then s.Report() else s, payload, true)
      else if kind == MIDDLE then
        if inFragmented then ReadRecord(crc, file, s, scratch + payload, true)
        else ReadRecord(crc, file, s.Report(), scratch, false)
      else if kind == LAST then
        if inFragmented then (Some(scratch + payload), s)
        else ReadRecord(crc, file, s.Report(), scratch, false)
      else
        ReadRecord(crc, file, s.Report(), [], false)
  }

  /** The reader object: a file, a buffer cut from it, and the reports made. */
  class Reader {
    const crc: Checksum
    const file: Bytes
    var buffer: Bytes
    var endOfBuffer: nat
    var eof: bool
    var reports: nat

    ghost predicate Valid()
      reads this
    {
      |buffer| <= endOfBuffer <= |file| && buffer == file[endOfBuffer - |buffer|..endOfBuffer]
    }

    function At(): (st: State)
      requires |buffer| <= endOfBuffer
      reads this
    {
      State(endOfBuffer - |buffer|, endOfBuffer, eof, reports)
    }

    constructor (crc: Checksum, file: Bytes)
      ensures Valid() && this.crc == crc && this.file == file && At() == State(0, 0, false, 0)
    {
      this.crc, this.file := crc, file;
      buffer, endOfBuffer, eof, reports := [], 0, false, 0;
    }

    /** Reads the next block over whatever is left in the buffer. */
    method Fill()
      requires Valid()
      modifies this
      ensures Valid() && At() == Refill(file, old(At()))
    {
      var e := if endOfBuffer + BLOCK_SIZE <= |file| then endOfBuffer + BLOCK_SIZE else |file|;
      buffer := file[endOfBuffer..e];
      endOfBuffer := e;
      eof := |buffer| < BLOCK_SIZE;
    }

    /** Parses the fragment at the front of a buffer that holds a header. */
    method Parse() returns (p: Physical)
      requires Valid() && |buffer| >= HEADER_SIZE
      modifies this
      ensures Valid() && (p, At()) == ParsePhysical(crc, file, old(At()))
    {
      ghost var pos := At().pos;
      var header := buffer[..HEADER_SIZE];
      assert header == file[pos..pos + HEADER_SIZE];
      var length := Length(header);
      var kind := header[6];
      if HEADER_SIZE + length > |buffer| {
        buffer := [];
        if !eof {
          reports := reports + 1;
          return Bad;
        }
        return Eof;
      }
      if kind == 0 && length == 0 {
        buffer := [];
        return Bad;
      }
      assert buffer[6..HEADER_SIZE + length] == file[pos + 6..pos + HEADER_SIZE + length];
      if crc(buffer[6..HEADER_SIZE + length]) != Unmask(DecodeFixed32(header[..4])) {
        buffer := [];
        reports := reports + 1;
        return Bad;
      }
      var result := buffer[HEADER_SIZE..HEADER_SIZE + length];
      assert result == file[pos + HEADER_SIZE..pos + HEADER_SIZE + length];
      buffer := buffer[HEADER_SIZE + length..];
      return Frag(kind, result);
    }

    method ReadPhysicalRecord() returns (p: Physical)
      requires Valid()
      modifies this
      ensures Valid() && (p, At()) == ReadPhysical(crc, file, old(At()))
    {
      while |buffer| < HEADER_SIZE
        invariant Valid() && ReadPhysical(crc, file, At()) == ReadPhysical(crc, file, old(At()))
        decreases if |buffer| < HEADER_SIZE && !eof then 1 else 0
      {
        if !eof {
          Fill();
        } else {
          buffer := [];
          return Eof;
        }
      }
      p := Parse();
    }

    method ReadNext() returns (record: Option<Bytes>)
      requires Valid()
      modifies this
      ensures Valid() && (record, At()) == ReadRecord(crc, file, old(At()), [], false)
    {
      hide ReadPhysical;
      var scratch: Bytes := [];
      var inFragmented := false;
      while true
        invariant Valid() && ReadRecord(crc, file, At(), scratch, inFragmented) ==
                  ReadRecord(crc, file, old(At()), [], false)
        decreases |file| - At().pos
      {
        var p := ReadPhysicalRecord();
        match p
        case Eof =>
          return None;
        case Bad =>
          if inFragmented {
            reports := reports + 1;
            inFragmented := false;
            scratch := [];
          }
        case Frag(kind, fragment) =>
          if kind == FULL {
            if inFragmented && scratch != [] {
              reports := reports + 1;
            }
            return Some(fragment);
          } else if kind == FIRST {
            if inFragmented && scratch != [] {
              reports := reports + 1;
            }
            scratch, inFragmented := fragment, true;
          } else if kind == MIDDLE {
            if !inFragmented {
              reports := reports + 1;
            } else {
              scratch := scratch + fragment;
            }
          } else if kind == LAST {
            if !inFragmented {
              reports := reports + 1;
            } else {
              return Some(scratch + fragment);
            }
          } else {
            reports := reports + 1;
            scratch, inFragmented := [], false;
          }
      }
    }
  }
}
