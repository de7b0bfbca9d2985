/** Version edits and their bytes in the MANIFEST. */
module VersionEdits {
  import opened Options
  import opened Config
  import opened Coding

  /** Field tags. */
  const COMPARATOR: byte := 1
  const LOG_NUMBER: byte := 2
  const NEXT_FILE_NUMBER: byte := 3
  const LAST_SEQUENCE: byte := 4
  const COMPACT_POINTER: byte := 5
  const DELETED_FILE: byte := 6
  const NEW_FILE: byte := 7
  const PREV_LOG_NUMBER: byte := 9

  /** A file as an edit describes it; the keys are encoded internal keys. */
  datatype FileMeta = FileMeta(number: uint64, fileSize: uint64, smallest: Bytes, largest: Bytes)

  /** `deletedFiles` lists a std::set of pairs, in its order. */
  datatype VersionEdit = VersionEdit(
    comparator: Option<Bytes>,
    logNumber: Option<uint64>,
    prevLogNumber: Option<uint64>,
    nextFileNumber: Option<uint64>,
    lastSequence: Option<uint64>,
    compactPointers: seq<(nat, Bytes)>,
    deletedFiles: seq<(nat, uint64)>,
    newFiles: seq<(nat, FileMeta)>)

  const NO_EDIT := VersionEdit(None, None, None, None, None, [], [], [])

  datatype Item =
    | Comparator(name: Bytes)
    | LogNumber(n: uint64)
    | PrevLogNumber(n: uint64)
    | NextFileNumber(n: uint64)
    | LastSequence(n: uint64)
    | CompactPointer(level: nat, key: Bytes)
    | DeletedFile(level: nat, number: uint64)
    | NewFile(level: nat, file: FileMeta)

  datatype Result<+T> = Ok(value: T) | Corruption(message: string)

  // ---------------------------------------------------------------------------------------------
  // Encoding
  // ---------------------------------------------------------------------------------------------

  function Tag(i: Item): byte {
    match i
    case Comparator(_) => COMPARATOR
    case LogNumber(_) => LOG_NUMBER
    case PrevLogNumber(_) => PREV_LOG_NUMBER
    case NextFileNumber(_) => NEXT_FILE_NUMBER
    case LastSequence(_) => LAST_SEQUENCE
    case CompactPointer(_, _) => COMPACT_POINTER
    case DeletedFile(_, _) => DELETED_FILE
    case NewFile(_, _) => NEW_FILE
  }

  /** What follows the tag. */
  function Body(i: Item): Bytes {
    match i
    case Comparator(name) => LengthPrefixed(name)
    case CompactPointer(level, key) => Varint(level) + LengthPrefixed(key)
    case DeletedFile(level, number) => Varint(level) + Varint(number)
    case NewFile(level, f) => Varint(level) + Varint(f.number) + Varint(f.fileSize) + LengthPrefixed(f.smallest) +
      LengthPrefixed(f.largest)
    case _ => Varint(i.n)
  }

  function EncodeItem(i: Item): (s: Bytes)
    ensures s != []
  {
    [Tag(i)] + Body(i)
  }

  function EncodeItems(items: seq<Item>): Bytes {
    if items == [] then [] else EncodeItems(items[..|items| - 1]) + EncodeItem(items[|items| - 1])
  }

  function NumberItems(e: VersionEdit): seq<Item> {
    (if e.comparator.Some? then [Comparator(e.comparator.value)] else []) +
    (if e.logNumber.Some? then [LogNumber(e.logNumber.value)] else []) +
    (if e.prevLogNumber.Some? then [PrevLogNumber(e.prevLogNumber.value)] else []) +
    (if e.nextFileNumber.Some? then [NextFileNumber(e.nextFileNumber.value)] else []) +
    (if e.lastSequence.Some? then [LastSequence(e.lastSequence.value)] else [])
  }

  /** The items of an edit in the order they are written. */
  function Items(e: VersionEdit): seq<Item> {
    NumberItems(e) + PointerItems(e.compactPointers) + DeletedItems(e.deletedFiles) + NewItems(e.newFiles)
  }

  function Encode(e: VersionEdit): Bytes {
    EncodeItems(Items(e))
  }

  lemma {:induction false} EncodeConcat(a: seq<Item>, b: seq<Item>)
    ensures EncodeItems(a + b) == EncodeItems(a) + EncodeItems(b)
  {
    hide EncodeItem;
    if b == [] {
      assert a + b == a;
    } else {
      EncodeConcat(a, b[..|b| - 1]);
      assert (a + b)[..|a + b| - 1] == a + b[..|b| - 1];
    }
  }

  // ---------------------------------------------------------------------------------------------
  // Decoding
  // ---------------------------------------------------------------------------------------------

  function GetLevel(s: Bytes): (r: Option<(nat, Bytes)>)
    ensures r.Some? ==> |r.value.1| < |s| && r.value.0 < NUM_LEVELS
  {
    match GetVarint32(s)
    case None => None
    case Some((v, rest)) => if v < NUM_LEVELS then Some((v, rest)) else None
  }

  function DecodeNumber(s: Bytes, make: uint64 -> Item, message: string): (r: Result<(Item, Bytes)>)
    ensures r.Ok? ==> |r.value.1| < |s|
  {
    match GetVarint64(s)
    case None => Corruption(message)
    case Some((n, rest)) => Ok((make(n), rest))
  }

  function DecodeCompactPointer(s: Bytes): (r: Result<(Item, Bytes)>)
    ensures r.Ok? ==> |r.value.1| < |s|
  {
    match GetLevel(s)
    case None => Corruption("compaction pointer")
    case Some((level, s1)) =>
      match GetLengthPrefixed(s1)
      case None => Corruption("compaction pointer")
      case Some((key, rest)) => Ok((CompactPointer(level, key), rest))
  }

  function DecodeDeletedFile(s: Bytes): (r: Result<(Item, Bytes)>)
    ensures r.Ok? ==> |r.value.1| < |s|
  {
    match GetLevel(s)
    case None => Corruption("deleted file")
    case Some((level, s1)) =>
      match GetVarint64(s1)
      case None => Corruption("deleted file")
      case Some((n, rest)) => Ok((DeletedFile(level, n), rest))
  }

  function DecodeNewFile(s: Bytes): (r: Result<(Item, Bytes)>)
    ensures r.Ok? ==> |r.value.1| < |s|
  {
    match GetLevel(s)
    case None => Corruption("new-file entry")
    case Some((level, s1)) =>
      match GetVarint64(s1)
      case None => Corruption("new-file entry")
      case Some((number, s2)) =>
        match GetVarint64(s2)
        case None => Corruption("new-file entry")
        case Some((size, s3)) =>
          match GetLengthPrefixed(s3)
          case None => Corruption("new-file entry")
          case Some((smallest, s4)) =>
            match GetLengthPrefixed(s4)
            case None => Corruption("new-file entry")
            case Some((largest, rest)) => Ok((NewFile(level, FileMeta(number, size, smallest, largest)), rest))
  }

  /** One field, after its tag. */
  function DecodeBody(tag: uint32, s: Bytes): (r: Result<(Item, Bytes)>)
    ensures r.Ok? ==> |r.value.1| < |s|
  {
    if tag == COMPARATOR then
      match GetLengthPrefixed(s)
      case None => Corruption("comparator name")
      case Some((name, rest)) => Ok((Comparator(name), rest))
    else if tag == LOG_NUMBER then DecodeNumber(s, (n: uint64) => LogNumber(n), "log number")
    else if tag == PREV_LOG_NUMBER then DecodeNumber(s, (n: uint64) => PrevLogNumber(n), "previous log number")
    else if tag == NEXT_FILE_NUMBER then DecodeNumber(s, (n: uint64) => NextFileNumber(n), "next file number")
    else if tag == LAST_SEQUENCE then DecodeNumber(s, (n: uint64) => LastSequence(n), "last sequence number")
    else if tag == COMPACT_POINTER then DecodeCompactPointer(s)
    else if tag == DELETED_FILE then DecodeDeletedFile(s)
    else if tag == NEW_FILE then DecodeNewFile(s)
    else Corruption("unknown tag")
  }

  predicate PairBefore(a: (nat, uint64), b: (nat, uint64)) {
    a.0 < b.0 || (a.0 == b.0 && a.1 < b.1)
  }

  function InsertPair(ds: seq<(nat, uint64)>, d: (nat, uint64)): seq<(nat, uint64)> {
    if ds == [] then [d]
    else if PairBefore(ds[0], d) then [ds[0]] + InsertPair(ds[1..], d)
    else if ds[0] == d then ds
    else [d] + ds
  }

  function AddItem(e: VersionEdit, i: Item): VersionEdit {
    match i
    case Comparator(name) => e.(comparator := Some(name))
    case LogNumber(n) => e.(logNumber := Some(n))
    case PrevLogNumber(n) => e.(prevLogNumber := Some(n))
    case NextFileNumber(n) => e.(nextFileNumber := Some(n))
    case LastSequence(n) => e.(lastSequence := Some(n))
    case CompactPointer(level, key) => e.(compactPointers := e.compactPointers + [(level, key)])
    case DeletedFile(level, number) => e.(deletedFiles := InsertPair(e.deletedFiles, (level, number)))
    case NewFile(level, f) => e.(newFiles := e.newFiles + [(level, f)])
  }

  /** What is left of the input, read into an edit. */
  function DecodeAll(s: Bytes, e: VersionEdit): Result<VersionEdit>
    decreases |s|
  {
    match GetVarint32(s)
    case None => if s == [] then Ok(e) else Corruption("invalid tag")
    case Some((tag, s1)) =>
      match DecodeBody(tag, s1)
      case Corruption(message) => Corruption(message)
      case Ok((item, rest)) => DecodeAll(rest, AddItem(e, item))
  }

  method DecodeFrom(src: Bytes) returns (r: Result<VersionEdit>)
    ensures r == DecodeAll(src, NO_EDIT)
  {
    var input, e := src, NO_EDIT;
    while true
      invariant DecodeAll(src, NO_EDIT) == DecodeAll(input, e)
      decreases |input|
    {
      hide DecodeBody, AddItem;
      var tag := DecodeVarint(input, false);
      if tag.None? {
        return if input == [] then Ok(e) else Corruption("invalid tag");
      }
      assert tag.value == (GetVarint32(input).value.0, GetVarint32(input).value.1);
      var field := DecodeBody(tag.value.0, tag.value.1);
      if field.Corruption? {
        return Corruption(field.message);
      }
      input, e := field.value.1, AddItem(e, field.value.0);
    }
  }

  // ---------------------------------------------------------------------------------------------
  // Round trip
  // ---------------------------------------------------------------------------------------------

  predicate ItemOk(i: Item) {
    match i
    case Comparator(name) => |name| < TWO32
    case CompactPointer(level, key) => level < NUM_LEVELS && |key| < TWO32
    case DeletedFile(level, _) => level < NUM_LEVELS
    case NewFile(level, f) => level < NUM_LEVELS && |f.smallest| < TWO32 && |f.largest| < TWO32
    case _ => true
  }

  /** What an edit's owner keeps: levels that exist, strings with 32-bit lengths, an ordered set. */
  ghost predicate EditOk(e: VersionEdit) {
    && (forall i :: i in Items(e) ==> ItemOk(i))
    && (forall i, j :: 0 <= i < j < |e.deletedFiles| ==> PairBefore(e.deletedFiles[i], e.deletedFiles[j]))
  }

  lemma TagRoundTrip(tag: byte, body: Bytes)
    requires tag < 128
    ensures GetVarint32([tag] + body) == Some((tag as nat, body))
  {
    assert Varint(tag) == [tag];
    Varint32RoundTrip(tag, body);
  }

  lemma LevelRoundTrip(level: nat, rest: Bytes)
    requires level < NUM_LEVELS
    ensures GetLevel(Varint(level) + rest) == Some((level, rest))
  {
    Varint32RoundTrip(level, rest);
  }

  lemma NewFileRoundTrip(level: nat, f: FileMeta, rest: Bytes)
    requires level < NUM_LEVELS && |f.smallest| < TWO32 && |f.largest| < TWO32
    ensures DecodeNewFile(Varint(level) + Varint(f.number) + Varint(f.fileSize) + LengthPrefixed(f.smallest) +
            LengthPrefixed(f.largest) + rest) ==
            Ok((NewFile(level, f), rest))
  {
    hide GetVarint64, GetLevel, GetLengthPrefixed, LengthPrefixed, Varint;
    var s4 := LengthPrefixed(f.largest) + rest;
    var s3 := LengthPrefixed(f.smallest) + s4;
    var s2 := Varint(f.fileSize) + s3;
    var s1 := Varint(f.number) + s2;
    LevelRoundTrip(level, s1);
    Varint64RoundTrip(f.number, s2);
    Varint64RoundTrip(f.fileSize, s3);
    LengthPrefixedRoundTrip(f.smallest, s4);
    LengthPrefixedRoundTrip(f.largest, rest);
    assert Varint(level) + Varint(f.number) + Varint(f.fileSize) + LengthPrefixed(f.smallest) +
      LengthPrefixed(f.largest) + rest ==
           Varint(level) + s1;
  }

  lemma PointerRoundTrip(level: nat, key: Bytes, rest: Bytes)
    requires level < NUM_LEVELS && |key| < TWO32
    ensures DecodeCompactPointer(Varint(level) + LengthPrefixed(key) + rest) == Ok((CompactPointer(level, key), rest))
  {
    hide GetLevel, GetLengthPrefixed, LengthPrefixed, Varint;
    assert Varint(level) + LengthPrefixed(key) + rest == Varint(level) + (LengthPrefixed(key) + rest);
    LevelRoundTrip(level, LengthPrefixed(key) + rest);
    LengthPrefixedRoundTrip(key, rest);
  }

  lemma DeletedRoundTrip(level: nat, number: uint64, rest: Bytes)
    requires level < NUM_LEVELS
    ensures DecodeDeletedFile(Varint(level) + Varint(number) + rest) == Ok((DeletedFile(level, number), rest))
  {
    hide GetLevel, GetVarint64, Varint;
    assert Varint(level) + Varint(number) + rest == Varint(level) + (Varint(number) + rest);
    LevelRoundTrip(level, Varint(number) + rest);
    Varint64RoundTrip(number, rest);
  }

  lemma BodyRoundTrip(i: Item, rest: Bytes)
    requires ItemOk(i)
    ensures DecodeBody(Tag(i), Body(i) + rest) == Ok((i, rest))
  {
    hide Varint, LengthPrefixed, GetVarint64, GetLevel, GetLengthPrefixed, DecodeNewFile, DecodeDeletedFile,
      DecodeCompactPointer;
    match i {
      case Comparator(name) => LengthPrefixedRoundTrip(name, rest);
      case CompactPointer(level, key) => PointerRoundTrip(level, key, rest);
      case DeletedFile(level, number) => DeletedRoundTrip(level, number, rest);
      case NewFile(level, f) => NewFileRoundTrip(level, f, rest);
      case _ => Varint64RoundTrip(i.n, rest);
    }
  }

  lemma ItemRoundTrip(i: Item, rest: Bytes, e: VersionEdit)
    requires ItemOk(i)
    ensures DecodeAll(EncodeItem(i) + rest, e) == DecodeAll(rest, AddItem(e, i))
  {
    hide AddItem, Body, GetVarint32, DecodeBody;
    assert EncodeItem(i) + rest == [Tag(i)] + (Body(i) + rest);
    TagRoundTrip(Tag(i), Body(i) + rest);
    BodyRoundTrip(i, rest);
  }

  function AddItems(e: VersionEdit, items: seq<Item>): VersionEdit {
    if items == [] then e else AddItem(AddItems(e, items[..|items| - 1]), items[|items| - 1])
  }

  lemma {:induction false} ItemsRoundTrip(items: seq<Item>, rest: Bytes, e: VersionEdit)
    requires forall i :: i in items ==> ItemOk(i)
    ensures DecodeAll(EncodeItems(items) + rest, e) == DecodeAll(rest, AddItems(e, items))
  {
    if items == [] {
      assert EncodeItems(items) + rest == rest;
    } else {
      var init, last := items[..|items| - 1], items[|items| - 1];
      assert EncodeItems(items) + rest == EncodeItems(init) + (EncodeItem(last) + rest);
      ItemsRoundTrip(init, EncodeItem(last) + rest, e);
      ItemRoundTrip(last, rest, AddItems(e, init));
    }
  }

  lemma {:induction false} AddItemsConcat(e: VersionEdit, a: seq<Item>, b: seq<Item>)
    ensures AddItems(e, a + b) == AddItems(AddItems(e, a), b)
  {
    hide AddItem;
    if b == [] {
      assert a + b == a;
    } else {
      AddItemsConcat(e, a, b[..|b| - 1]);
      assert (a + b)[..|a + b| - 1] == a + b[..|b| - 1];
    }
  }

  lemma {:induction false} InsertLast(ds: seq<(nat, uint64)>, d: (nat, uint64))
    requires forall i :: 0 <= i < |ds| ==> PairBefore(ds[i], d)
    ensures InsertPair(ds, d) == ds + [d]
  {
    if ds != [] {
      InsertLast(ds[1..], d);
    }
  }

  /** Files may be deleted in any order: what is listed is the set of them, in order. */
  lemma {:induction false} InsertIs(ds: seq<(nat, uint64)>, d: (nat, uint64))
    requires forall i, j :: 0 <= i < j < |ds| ==> PairBefore(ds[i], ds[j])
    ensures forall x :: x in InsertPair(ds, d) <==> x == d || x in ds
    ensures var r := InsertPair(ds, d); forall i, j :: 0 <= i < j < |r| ==> PairBefore(r[i], r[j])
  {
    if ds != [] {
      var rest := ds[1..];
      InsertIs(rest, d);
      assert forall x :: x in ds <==> x == ds[0] || x in rest;
      var r := InsertPair(ds, d);
      forall i, j | 0 <= i < j < |r| ensures PairBefore(r[i], r[j]) {
        if PairBefore(ds[0], d) {
          assert r[1..] == InsertPair(rest, d);
          assert r[j] in InsertPair(rest, d);
        }
      }
    }
  }

  // The items of an edit, kind by kind.

  function PointerItems(ps: seq<(nat, Bytes)>): seq<Item> {
    if ps == [] then [] else PointerItems(ps[..|ps| - 1]) + [CompactPointer(ps[|ps| - 1].0, ps[|ps| - 1].1)]
  }

  function DeletedItems(ds: seq<(nat, uint64)>): seq<Item> {
    if ds == [] then [] else DeletedItems(ds[..|ds| - 1]) + [DeletedFile(ds[|ds| - 1].0, ds[|ds| - 1].1)]
  }

  function NewItems(fs: seq<(nat, FileMeta)>): seq<Item> {
    if fs == [] then [] else NewItems(fs[..|fs| - 1]) + [NewFile(fs[|fs| - 1].0, fs[|fs| - 1].1)]
  }

  lemma {:induction false} AddPointers(e: VersionEdit, ps: seq<(nat, Bytes)>)
    ensures AddItems(e, PointerItems(ps)) == e.(compactPointers := e.compactPointers + ps)
  {
    if ps == [] {
      assert e.compactPointers + ps == e.compactPointers;
    } else {
      var init, last := ps[..|ps| - 1], ps[|ps| - 1];
      AddPointers(e, init);
      assert PointerItems(ps)[..|PointerItems(ps)| - 1] == PointerItems(init);
      assert e.compactPointers + init + [last] == e.compactPointers + ps;
    }
  }

  lemma {:induction false} AddDeleted(e: VersionEdit, ds: seq<(nat, uint64)>)
    requires e.deletedFiles == [] && forall i, j :: 0 <= i < j < |ds| ==> PairBefore(ds[i], ds[j])
    ensures AddItems(e, DeletedItems(ds)) == e.(deletedFiles := ds)
  {
    if ds != [] {
      var init, last := ds[..|ds| - 1], ds[|ds| - 1];
      AddDeleted(e, init);
      assert DeletedItems(ds)[..|DeletedItems(ds)| - 1] == DeletedItems(init);
      InsertLast(init, last);
      assert init + [last] == ds;
    }
  }

  lemma {:induction false} AddNew(e: VersionEdit, fs: seq<(nat, FileMeta)>)
    ensures AddItems(e, NewItems(fs)) == e.(newFiles := e.newFiles + fs)
  {
    if fs == [] {
      assert e.newFiles + fs == e.newFiles;
    } else {
      var init, last := fs[..|fs| - 1], fs[|fs| - 1];
      AddNew(e, init);
      assert NewItems(fs)[..|NewItems(fs)| - 1] == NewItems(init);
      assert e.newFiles + init + [last] == e.newFiles + fs;
    }
  }

  lemma AddNumbers(e: VersionEdit)
    ensures AddItems(NO_EDIT, NumberItems(e)) == e.(compactPointers := [], deletedFiles := [], newFiles := [])
  {
    hide AddItems;
    var a := if e.comparator.Some? then [Comparator(e.comparator.value)] else [];
    var b := if e.logNumber.Some? then [LogNumber(e.logNumber.value)] else [];
    var c := if e.prevLogNumber.Some? then [PrevLogNumber(e.prevLogNumber.value)] else [];
    var d := if e.nextFileNumber.Some? then [NextFileNumber(e.nextFileNumber.value)] else [];
    var f := if e.lastSequence.Some? then [LastSequence(e.lastSequence.value)] else [];
    AddOption(NO_EDIT, a);
    AddItemsConcat(NO_EDIT, a, b);
    AddOption(AddItems(NO_EDIT, a), b);
    AddItemsConcat(NO_EDIT, a + b, c);
    AddOption(AddItems(NO_EDIT, a + b), c);
    AddItemsConcat(NO_EDIT, a + b + c, d);
    AddOption(AddItems(NO_EDIT, a + b + c), d);
    AddItemsConcat(NO_EDIT, a + b + c + d, f);
    AddOption(AddItems(NO_EDIT, a + b + c + d), f);
  }

  lemma AddOption(e: VersionEdit, items: seq<Item>)
    requires |items| <= 1
    ensures AddItems(e, items) == if items == [] then e else AddItem(e, items[0])
  {
    if items != [] {
      assert items[..0] == [];
    }
  }

  lemma FieldsRoundTrip(e: VersionEdit)
    requires EditOk(e)
    ensures AddItems(NO_EDIT, Items(e)) == e
  {
    hide AddItems;
    AddNumbers(e);
    AddItemsConcat(NO_EDIT, NumberItems(e), PointerItems(e.compactPointers));
    var e1 := AddItems(NO_EDIT, NumberItems(e));
    AddPointers(e1, e.compactPointers);
    assert [] + e.compactPointers == e.compactPointers && [] + e.newFiles == e.newFiles;
    AddItemsConcat(NO_EDIT, NumberItems(e) + PointerItems(e.compactPointers), DeletedItems(e.deletedFiles));
    AddDeleted(e1.(compactPointers := e.compactPointers), e.deletedFiles);
    AddItemsConcat(NO_EDIT, NumberItems(e) + PointerItems(e.compactPointers) + DeletedItems(e.deletedFiles),
      NewItems(e.newFiles));
    AddNew(e1.(compactPointers := e.compactPointers, deletedFiles := e.deletedFiles), e.newFiles);
  }

  /** Decoding what EncodeTo writes gives the edit back. */
  lemma EditRoundTrip(e: VersionEdit)
    requires EditOk(e)
    ensures DecodeAll(Encode(e), NO_EDIT) == Ok(e)
  {
    ItemsRoundTrip(Items(e), [], NO_EDIT);
    assert Encode(e) + [] == Encode(e);
    FieldsRoundTrip(e);
  }

  lemma EncodeSnoc(items: seq<Item>, i: Item)
    ensures EncodeItems(items + [i]) == EncodeItems(items) + EncodeItem(i)
  {
    assert (items + [i])[..|items|] == items;
  }

  method EncodeNumbers(e: VersionEdit) returns (dst: Bytes)
    ensures dst == EncodeItems(NumberItems(e))
  {
    hide EncodeItems, EncodeItem;
    dst := [];
    ghost var items: seq<Item> := [];
    assert dst == EncodeItems(items) by { EmptyEncoding(); }
    if e.comparator.Some? {
      EncodeSnoc(items, Comparator(e.comparator.value));
      dst, items := dst + EncodeItem(Comparator(e.comparator.value)), items + [Comparator(e.comparator.value)];
    }
    if e.logNumber.Some? {
      EncodeSnoc(items, LogNumber(e.logNumber.value));
      dst, items := dst + EncodeItem(LogNumber(e.logNumber.value)), items + [LogNumber(e.logNumber.value)];
    }
    if e.prevLogNumber.Some? {
      EncodeSnoc(items, PrevLogNumber(e.prevLogNumber.value));
      dst, items := dst + EncodeItem(PrevLogNumber(e.prevLogNumber.value)), items +
        [PrevLogNumber(e.prevLogNumber.value)];
    }
    if e.nextFileNumber.Some? {
      EncodeSnoc(items, NextFileNumber(e.nextFileNumber.value));
      dst, items := dst + EncodeItem(NextFileNumber(e.nextFileNumber.value)), items +
        [NextFileNumber(e.nextFileNumber.value)];
    }
    if e.lastSequence.Some? {
      EncodeSnoc(items, LastSequence(e.lastSequence.value));
      dst, items := dst + EncodeItem(LastSequence(e.lastSequence.value)), items + [LastSequence(e.lastSequence.value)];
    }
    assert items == NumberItems(e);
  }

  lemma EmptyEncoding()
    ensures EncodeItems([]) == []
  {
  }

  method EncodeTo(e: VersionEdit) returns (dst: Bytes)
    ensures dst == Encode(e)
  {
    hide EncodeItems, EncodeItem, NumberItems;
    dst := EncodeNumbers(e);
    ghost var items := NumberItems(e);
    assert PointerItems(e.compactPointers[..0]) == [] && items + [] == items;
    for i := 0 to |e.compactPointers|
      invariant dst == EncodeItems(items + PointerItems(e.compactPointers[..i]))
    {
      var item := CompactPointer(e.compactPointers[i].0, e.compactPointers[i].1);
      assert e.compactPointers[..i + 1][..i] == e.compactPointers[..i];
      EncodeSnoc(items + PointerItems(e.compactPointers[..i]), item);
      assert items + PointerItems(e.compactPointers[..i]) + [item] == items + PointerItems(e.compactPointers[..i + 1]);
      dst := dst + EncodeItem(item);
    }
    assert e.compactPointers[..|e.compactPointers|] == e.compactPointers;
    items := items + PointerItems(e.compactPointers);
    assert DeletedItems(e.deletedFiles[..0]) == [] && items + [] == items;
    for i := 0 to |e.deletedFiles|
      invariant dst == EncodeItems(items + DeletedItems(e.deletedFiles[..i]))
    {
      var item := DeletedFile(e.deletedFiles[i].0, e.deletedFiles[i].1);
      assert e.deletedFiles[..i + 1][..i] == e.deletedFiles[..i];
      EncodeSnoc(items + DeletedItems(e.deletedFiles[..i]), item);
      assert items + DeletedItems(e.deletedFiles[..i]) + [item] == items + DeletedItems(e.deletedFiles[..i + 1]);
      dst := dst + EncodeItem(item);
    }
    assert e.deletedFiles[..|e.deletedFiles|] == e.deletedFiles;
    items := items + DeletedItems(e.deletedFiles);
    assert NewItems(e.newFiles[..0]) == [] && items + [] == items;
    for i := 0 to |e.newFiles|
      invariant dst == EncodeItems(items + NewItems(e.newFiles[..i]))
    {
      var item := NewFile(e.newFiles[i].0, e.newFiles[i].1);
      assert e.newFiles[..i + 1][..i] == e.newFiles[..i];
      EncodeSnoc(items + NewItems(e.newFiles[..i]), item);
      assert items + NewItems(e.newFiles[..i]) + [item] == items + NewItems(e.newFiles[..i + 1]);
      dst := dst + EncodeItem(item);
    }
    assert e.newFiles[..|e.newFiles|] == e.newFiles;
  }

  // ---------------------------------------------------------------------------------------------
  // Records that are refused
  // ---------------------------------------------------------------------------------------------

  /** A field with a tag that is none of the known ones refuses the edit, wherever it comes. */
  lemma UnknownTagRefused(items: seq<Item>, tag: uint32, rest: Bytes, e: VersionEdit)
    requires (forall i :: i in items ==> ItemOk(i)) && tag !in {1, 2, 3, 4, 5, 6, 7, 9}
    ensures DecodeAll(EncodeItems(items) + (Varint(tag) + rest), e) == Corruption("unknown tag")
  {
    ItemsRoundTrip(items, Varint(tag) + rest, e);
    Varint32RoundTrip(tag, rest);
    hide AddItems, EncodeItems, Varint, GetVarint32;
  }

  /** So does a level that does not exist. */
  lemma LevelRefused(items: seq<Item>, tag: byte, level: uint32, rest: Bytes, e: VersionEdit)
    requires (forall i :: i in items ==> ItemOk(i)) && tag in {5, 6, 7} && level >= NUM_LEVELS
    ensures DecodeAll(EncodeItems(items) + ([tag] + (Varint(level) + rest)), e).Corruption?
  {
    ItemsRoundTrip(items, [tag] + (Varint(level) + rest), e);
    TagRoundTrip(tag, Varint(level) + rest);
    BodyLevelRefused(tag, level, rest);
    hide AddItems, EncodeItems, Varint, GetVarint32, DecodeBody;
  }

  lemma BodyLevelRefused(tag: byte, level: uint32, rest: Bytes)
    requires tag in {5, 6, 7} && level >= NUM_LEVELS
    ensures DecodeBody(tag, Varint(level) + rest).Corruption?
  {
    Varint32RoundTrip(level, rest);
    hide Varint, GetVarint32, GetVarint64, GetLengthPrefixed;
  }

  lemma LevelCut(level: nat, n: nat)
    requires n < |Varint(level)|
    ensures GetLevel(Varint(level)[..n]) == None
  {
    GetVarintCut(level, n);
    hide Varint, GetVarint32;
  }

  lemma NewFileCut(level: nat, f: FileMeta, n: nat)
    requires level < NUM_LEVELS && |f.smallest| < TWO32 && |f.largest| < TWO32 && n < |Body(NewFile(level, f))|
    ensures DecodeNewFile(Body(NewFile(level, f))[..n]).Corruption?
  {
    hide GetVarint64, GetLevel, GetLengthPrefixed, LengthPrefixed, Varint;
    var p0, p1, p2, p3, p4 := Varint(level), Varint(f.number), Varint(f.fileSize), LengthPrefixed(f.smallest),
      LengthPrefixed(f.largest);
    var s3 := p3 + p4;
    var s2 := p2 + s3;
    var s1 := p1 + s2;
    assert Body(NewFile(level, f)) == p0 + s1;
    CutOf(p0, s1, n);
    if n < |p0| {
      LevelCut(level, n);
      return;
    }
    var n1 := n - |p0|;
    LevelRoundTrip(level, s1[..n1]);
    CutOf(p1, s2, n1);
    if n1 < |p1| {
      GetVarintCut(f.number, n1);
      return;
    }
    var n2 := n1 - |p1|;
    Varint64RoundTrip(f.number, s2[..n2]);
    CutOf(p2, s3, n2);
    if n2 < |p2| {
      GetVarintCut(f.fileSize, n2);
      return;
    }
    var n3 := n2 - |p2|;
    Varint64RoundTrip(f.fileSize, s3[..n3]);
    CutOf(p3, p4, n3);
    if n3 < |p3| {
      LengthPrefixedCut(f.smallest, n3);
      return;
    }
    LengthPrefixedRoundTrip(f.smallest, p4[..n3 - |p3|]);
    LengthPrefixedCut(f.largest, n3 - |p3|);
  }

  lemma BodyCut(i: Item, n: nat)
    requires ItemOk(i) && n < |Body(i)|
    ensures DecodeBody(Tag(i), Body(i)[..n]).Corruption?
  {
    hide GetVarint64, GetLevel, GetLengthPrefixed, LengthPrefixed, Varint, DecodeNewFile;
    match i {
      case Comparator(name) => LengthPrefixedCut(name, n);
      case NewFile(level, f) => NewFileCut(level, f, n);
      case CompactPointer(level, key) =>
        CutOf(Varint(level), LengthPrefixed(key), n);
        if n < |Varint(level)| {
          LevelCut(level, n);
        } else {
          LevelRoundTrip(level, LengthPrefixed(key)[..n - |Varint(level)|]);
          LengthPrefixedCut(key, n - |Varint(level)|);
        }
      case DeletedFile(level, number) =>
        CutOf(Varint(level), Varint(number), n);
        if n < |Varint(level)| {
          LevelCut(level, n);
        } else {
          LevelRoundTrip(level, Varint(number)[..n - |Varint(level)|]);
          GetVarintCut(number, n - |Varint(level)|);
        }
      case _ => GetVarintCut(i.n, n);
    }
  }

  lemma ItemCut(i: Item, n: nat, e: VersionEdit)
    requires ItemOk(i) && 0 < n < |EncodeItem(i)|
    ensures DecodeAll(EncodeItem(i)[..n], e).Corruption?
  {
    assert EncodeItem(i)[..n] == [Tag(i)] + Body(i)[..n - 1];
    TagRoundTrip(Tag(i), Body(i)[..n - 1]);
    BodyCut(i, n - 1);
    hide AddItem, EncodeItem, Tag, Body, DecodeBody, GetVarint32, ItemOk;
  }

  /** A record that ends inside a field is refused. */
  lemma CutRefused(items: seq<Item>, i: Item, n: nat, e: VersionEdit)
    requires (forall i :: i in items ==> ItemOk(i)) && ItemOk(i) && 0 < n < |EncodeItem(i)|
    ensures DecodeAll(EncodeItems(items) + EncodeItem(i)[..n], e).Corruption?
  {
    hide *;
    ItemsRoundTrip(items, EncodeItem(i)[..n], e);
    ItemCut(i, n, AddItems(e, items));
  }
}
