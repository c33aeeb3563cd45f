/** Loading a group into a tree of entries: `load` reads a directory header and its entry
    table, and `loadEntryCore` decodes each record and recurses into sub-directories. */
module GroupTree {
  import opened Errors
  import opened Bytes
  import opened Streams
  import opened Obfuscation
  import opened GroupHeader
  import opened EntryRecord

  /** A loaded entry. A directory keeps the offset its own header was read from and its children
      in table order; its `contentPos` equals `headerOffset` except for the root, which has none. */
  datatype Entry =
    | Leaf(record: Record, contentPos: Option<nat>)
    | Dir(record: Record, contentPos: Option<nat>, headerOffset: nat, header: Header,
          children: seq<Entry>)

  /** Where record `i` of the directory whose header starts at `off` is read. */
  function RecordPos(off: nat, i: nat): nat {
    off + 204 + 316 * i
  }

  /** Where the content area of that directory starts: just past its entry table. Every child's
      content position is this plus the child's own `offsetToFile`. */
  function ContentBase(off: nat, count: nat): nat {
    off + 204 + 316 * count
  }

  /** The root directory's metadata: only its name, the remaining fields at their defaults. */
  function RootRecord(name: seq<bv8>): Record {
    Record(name, true, 0, 0, 0, 0, 0)
  }

  /** The directory header and children found at `off`, as `load` builds them. */
  function LoadDir(data: seq<bv8>, off: nat): (r: Result<(Header, seq<Entry>)>)
    ensures off + HeaderSize > |data| ==> r == Err(InvalidGroupHeader)
    ensures r.Ok? ==> |r.value.1| == r.value.0.count
    decreases |data| - off, 2, 0
  {
    var raw := ReadAt(data, off, HeaderSize);
    if |raw| != HeaderSize then Err(InvalidGroupHeader)
    else
      var hdr := ParseHeader(Unscramble(raw));
      var kids :- LoadEntries(data, off, hdr.count, []);
      Ok((hdr, kids))
  }

  /** Appends the entries of records `|loaded|` up to `count` to the children already loaded,
      one record at a time, as `load` appends to its child list. */
  function LoadEntries(data: seq<bv8>, off: nat, count: nat, loaded: seq<Entry>)
    : (r: Result<seq<Entry>>)
    requires off + HeaderSize <= |data|
    requires |loaded| <= count
    ensures r.Ok? ==> |r.value| == count && r.value[..|loaded|] == loaded
    decreases |data| - off, 1, count - |loaded|
  {
    if |loaded| == count then Ok(loaded)
    else
      match LoadRecord(data, off, count, |loaded|)
      case Err(err) => Err(err)
      case Ok(e) =>
        var r := LoadEntries(data, off, count, loaded + [e]);
        assert r.Ok? ==> r.value[..|loaded|] == r.value[..|loaded| + 1][..|loaded|];
        r
  }

  lemma AppendPlaced(data: seq<bv8>, off: nat, count: nat, loaded: seq<Entry>, e: Entry)
    ensures TablePlaced(data, off, count, loaded) && ChildPlaced(data, off, count, |loaded|, e)
      ==> TablePlaced(data, off, count, loaded + [e])
  {
    var next := loaded + [e];
    assert forall j :: 0 <= j < |loaded| ==> next[j] == loaded[j];
    assert next[|loaded|] == e;
  }

  /** Every entry of `kids` is what the record at its own index describes. */
  ghost predicate TablePlaced(data: seq<bv8>, off: nat, count: nat, kids: seq<Entry>)
    decreases kids, 1
  {
    forall j :: 0 <= j < |kids| ==> ChildPlaced(data, off, count, j, kids[j])
  }

  /** The entry for record `i`: a directory entry is loaded in full at its content position. */
  function LoadRecord(data: seq<bv8>, off: nat, count: nat, i: nat): (r: Result<Entry>)
    requires off + HeaderSize <= |data|
    ensures r.Ok? ==> r.value.contentPos == Some(ContentBase(off, count) + r.value.record.offsetToFile)
    ensures r.Ok? ==> (r.value.Dir? <==> r.value.record.isDir)
    ensures r.Ok? && r.value.Dir? ==> r.value.headerOffset == r.value.contentPos.value > off
    decreases |data| - off, 0, 1
  {
    match DecodeRecord(ReadAt(data, RecordPos(off, i), RecordSize))
    case Err(err) => Err(err)
    case Ok(rec) =>
      if !rec.isDir then Ok(Leaf(rec, Some(ContentBase(off, count) + rec.offsetToFile)))
      else LoadSubdir(data, off, count, rec)
  }

  /** A directory entry: its content position is where its own header starts, and `load` reads
      the sub-directory from there. */
  function LoadSubdir(data: seq<bv8>, off: nat, count: nat, rec: Record): (r: Result<Entry>)
    requires off + HeaderSize <= |data|
    ensures r.Ok? ==> r.value.Dir? && r.value.record == rec
    ensures r.Ok? ==> r.value.headerOffset == ContentBase(off, count) + rec.offsetToFile > off
    ensures r.Ok? ==> r.value.contentPos == Some(r.value.headerOffset)
    decreases |data| - off, 0, 0
  {
    var pos := ContentBase(off, count) + rec.offsetToFile;
    match LoadDir(data, pos)
    case Err(err) => Err(err)
    case Ok(body) => Ok(Dir(rec, Some(pos), pos, body.0, body.1))
  }

  /** Loads the whole group from the decompressed stream; `name` is the archive's file name. */
  function Load(data: seq<bv8>, name: seq<bv8>): (r: Result<Entry>)
    ensures |data| < HeaderSize ==> r == Err(InvalidGroupHeader)
    ensures r.Ok? ==> r.value.Dir? && r.value.headerOffset == 0 && r.value.contentPos.None?
    ensures r.Ok? ==> r.value.record.filename == name
    ensures r.Ok? ==> DirPlaced(data, 0, r.value.header, r.value.children)
  {
    var body :- LoadDir(data, 0);
    LoadedDirPlaced(data, 0);
    Ok(Dir(RootRecord(name), None, 0, body.0, body.1))
  }

  /** Entry `e` is what record `j` of the table after the header at `off` describes: its metadata
      decodes from the record's bytes, its content position is the content base plus its
      `offsetToFile`, and a directory's own header and children are placed there in turn. */
  ghost predicate ChildPlaced(data: seq<bv8>, off: nat, count: nat, j: nat, e: Entry)
    decreases e, 1
  {
    var pos := ContentBase(off, count) + e.record.offsetToFile;
    && DecodeRecord(ReadAt(data, RecordPos(off, j), RecordSize)) == Ok(e.record)
    && e.contentPos == Some(pos)
    && (e.Dir? <==> e.record.isDir)
    && (e.Dir? ==> e.headerOffset == pos && DirPlaced(data, pos, e.header, e.children))
  }

  /** A directory whose header is the 204 bytes at `off`, unscrambled and parsed, and whose
      children are exactly the `count` records of its table, in table order. */
  ghost predicate DirPlaced(data: seq<bv8>, off: nat, hdr: Header, kids: seq<Entry>)
    decreases kids, 2
  {
    && off + HeaderSize <= |data|
    && hdr == ParseHeader(Unscramble(data[off..off + HeaderSize]))
    && |kids| == hdr.count
    && TablePlaced(data, off, hdr.count, kids)
  }

  /** Whatever `LoadDir` returns is placed: header, child count and every child, at every
      nesting depth, sit where the offset arithmetic says. */
  lemma {:induction false} LoadedDirPlaced(data: seq<bv8>, off: nat)
    requires LoadDir(data, off).Ok?
    ensures DirPlaced(data, off, LoadDir(data, off).value.0, LoadDir(data, off).value.1)
    decreases |data| - off, 2, 0
  {
    var raw := ReadAt(data, off, HeaderSize);
    assert raw == data[off..off + HeaderSize];
    var hdr := ParseHeader(Unscramble(raw));
    assert TablePlaced(data, off, hdr.count, []);
    LoadedEntriesPlaced(data, off, hdr.count, []);
  }

  lemma {:induction false} LoadedEntriesPlaced(data: seq<bv8>, off: nat, count: nat,
                                               loaded: seq<Entry>)
    requires off + HeaderSize <= |data| && |loaded| <= count
    requires TablePlaced(data, off, count, loaded)
    requires LoadEntries(data, off, count, loaded).Ok?
    ensures TablePlaced(data, off, count, LoadEntries(data, off, count, loaded).value)
    decreases |data| - off, 1, count - |loaded|
  {
    if |loaded| < count {
      var e := LoadRecord(data, off, count, |loaded|).value;
      LoadedRecordPlaced(data, off, count, |loaded|);
      AppendPlaced(data, off, count, loaded, e);
      LoadEntriesStep(data, off, count, loaded, e);
      LoadedEntriesPlaced(data, off, count, loaded + [e]);
    }
  }

  lemma {:induction false} LoadedRecordPlaced(data: seq<bv8>, off: nat, count: nat, i: nat)
    requires off + HeaderSize <= |data|
    requires LoadRecord(data, off, count, i).Ok?
    ensures ChildPlaced(data, off, count, i, LoadRecord(data, off, count, i).value)
    decreases |data| - off, 0, 1
  {
    var rec := DecodeRecord(ReadAt(data, RecordPos(off, i), RecordSize)).value;
    if rec.isDir {
      LoadedSubdirPlaced(data, off, count, rec);
    }
  }

  lemma {:induction false} LoadedSubdirPlaced(data: seq<bv8>, off: nat, count: nat, rec: Record)
    requires off + HeaderSize <= |data|
    requires LoadSubdir(data, off, count, rec).Ok?
    ensures var e := LoadSubdir(data, off, count, rec).value;
      DirPlaced(data, e.headerOffset, e.header, e.children)
    decreases |data| - off, 0, 0
  {
    LoadedDirPlaced(data, ContentBase(off, count) + rec.offsetToFile);
  }

  /** The converse of `LoadDir`'s contract: a placed directory is exactly what loading finds,
      so the placement predicate characterises the loader's result completely. */
  lemma {:induction false} PlacedDirLoads(data: seq<bv8>, off: nat, hdr: Header, kids: seq<Entry>)
    requires DirPlaced(data, off, hdr, kids)
    ensures LoadDir(data, off) == Ok((hdr, kids))
    decreases kids, 1
  {
    PlacedEntriesLoad(data, off, hdr.count, 0, kids);
    assert kids[..0] == [];
    assert TablePlaced(data, off, hdr.count, []);
  }

  lemma {:induction false} PlacedEntriesLoad(data: seq<bv8>, off: nat, count: nat, i: nat,
                                             kids: seq<Entry>)
    requires off + HeaderSize <= |data|
    requires |kids| == count && i <= count
    requires TablePlaced(data, off, count, kids)
    ensures LoadEntries(data, off, count, kids[..i]) == Ok(kids)
    decreases kids, 0, count - i
  {
    if i == count {
      assert kids[..i] == kids;
    } else {
      var e := kids[i];
      var prefix := kids[..i];
      assert ChildPlaced(data, off, count, i, e);
      PlacedRecordLoads(data, off, count, i, e);
      PlacedEntriesLoad(data, off, count, i + 1, kids);
      TakeOneMore(kids, i);
      LoadEntriesStep(data, off, count, prefix, e);
    }
  }

  lemma TakeOneMore<T>(s: seq<T>, i: nat)
    requires i < |s|
    ensures s[..i] + [s[i]] == s[..i + 1]
  {
  }

  /** One step of `LoadEntries` once the next record is known to load as `e`. */
  lemma LoadEntriesStep(data: seq<bv8>, off: nat, count: nat, loaded: seq<Entry>, e: Entry)
    requires off + HeaderSize <= |data|
    requires |loaded| < count
    requires LoadRecord(data, off, count, |loaded|) == Ok(e)
    ensures LoadEntries(data, off, count, loaded) == LoadEntries(data, off, count, loaded + [e])
  {
  }

  lemma {:induction false} PlacedRecordLoads(data: seq<bv8>, off: nat, count: nat, j: nat, e: Entry)
    requires off + HeaderSize <= |data|
    requires ChildPlaced(data, off, count, j, e)
    ensures LoadRecord(data, off, count, j) == Ok(e)
    decreases e, 2
  {
    if e.Dir? {
      PlacedSubdirLoads(data, off, count, j, e);
    } else {
      LoadRecordLeaf(data, off, count, j, e.record);
    }
  }

  lemma {:induction false} PlacedSubdirLoads(data: seq<bv8>, off: nat, count: nat, j: nat, e: Entry)
    requires off + HeaderSize <= |data|
    requires e.Dir? && e.record.isDir
    requires DecodeRecord(ReadAt(data, RecordPos(off, j), RecordSize)) == Ok(e.record)
    requires e.headerOffset == ContentBase(off, count) + e.record.offsetToFile
    requires e.contentPos == Some(e.headerOffset)
    requires DirPlaced(data, e.headerOffset, e.header, e.children)
    ensures LoadRecord(data, off, count, j) == Ok(e)
    decreases e, 1
  {
    PlacedDirLoads(data, e.headerOffset, e.header, e.children);
    LoadSubdirFound(data, off, count, e);
    LoadRecordDir(data, off, count, j, e);
  }

  lemma LoadRecordLeaf(data: seq<bv8>, off: nat, count: nat, i: nat, rec: Record)
    requires off + HeaderSize <= |data|
    requires DecodeRecord(ReadAt(data, RecordPos(off, i), RecordSize)) == Ok(rec)
    requires !rec.isDir
    ensures LoadRecord(data, off, count, i) == Ok(Leaf(rec, Some(ContentBase(off, count) + rec.offsetToFile)))
  {
  }

  lemma LoadRecordDir(data: seq<bv8>, off: nat, count: nat, i: nat, e: Entry)
    requires off + HeaderSize <= |data|
    requires e.record.isDir
    requires DecodeRecord(ReadAt(data, RecordPos(off, i), RecordSize)) == Ok(e.record)
    requires LoadSubdir(data, off, count, e.record) == Ok(e)
    ensures LoadRecord(data, off, count, i) == Ok(e)
  {
  }

  lemma LoadSubdirFound(data: seq<bv8>, off: nat, count: nat, e: Entry)
    requires off + HeaderSize <= |data|
    requires e.Dir?
    requires e.headerOffset == ContentBase(off, count) + e.record.offsetToFile
    requires e.contentPos == Some(e.headerOffset)
    requires LoadDir(data, e.headerOffset) == Ok((e.header, e.children))
    ensures LoadSubdir(data, off, count, e.record) == Ok(e)
  {
  }

  /** Loading and placement agree in both directions. */
  lemma LoadDirCharacterised(data: seq<bv8>, off: nat, hdr: Header, kids: seq<Entry>)
    ensures LoadDir(data, off) == Ok((hdr, kids)) <==> DirPlaced(data, off, hdr, kids)
  {
    if DirPlaced(data, off, hdr, kids) {
      PlacedDirLoads(data, off, hdr, kids);
    }
    if LoadDir(data, off) == Ok((hdr, kids)) {
      LoadedDirPlaced(data, off);
    }
  }

  /** A sub-directory's header lies past its parent's whole entry table, so every level of the
      recursion starts strictly later in the stream than the one above it. */
  lemma ChildHeaderAdvances(data: seq<bv8>, off: nat, hdr: Header, kids: seq<Entry>, j: nat)
    requires DirPlaced(data, off, hdr, kids)
    requires j < |kids| && kids[j].Dir?
    ensures kids[j].headerOffset >= ContentBase(off, hdr.count) > off
    ensures kids[j].headerOffset + HeaderSize <= |data|
    ensures DirPlaced(data, kids[j].headerOffset, kids[j].header, kids[j].children)
  {
    var e := kids[j];
    assert ChildPlaced(data, off, hdr.count, j, e);
    var base := ContentBase(off, hdr.count);
    assert e.headerOffset == base + e.record.offsetToFile;
    assert DirPlaced(data, e.headerOffset, e.header, e.children);
    BaseAfterHeader(off, hdr.count);
  }

  lemma BaseAfterHeader(off: nat, count: nat)
    ensures ContentBase(off, count) >= off + HeaderSize
  {
  }

  /** How many directory levels lie below and including `e`. */
  function Depth(e: Entry): nat
    decreases e, 1
  {
    if e.Leaf? then 0 else 1 + KidsDepth(e.children)
  }

  function KidsDepth(kids: seq<Entry>): (d: nat)
    ensures forall j :: 0 <= j < |kids| ==> Depth(kids[j]) <= d
    ensures d == 0 || exists j :: 0 <= j < |kids| && Depth(kids[j]) == d
    decreases kids, 0
  {
    if |kids| == 0 then 0
    else
      var first := Depth(kids[0]);
      var rest := KidsDepth(kids[1..]);
      assert forall j :: 1 <= j < |kids| ==> kids[j] == kids[1..][j - 1];
      if first >= rest then first else rest
  }

  /** Nesting is bounded by the stream: every directory level needs its own 204-byte header
      further along the data, so a group of depth d needs at least 204 * d bytes after `off`. */
  lemma {:induction false} NestingBounded(data: seq<bv8>, off: nat, hdr: Header, kids: seq<Entry>)
    requires DirPlaced(data, off, hdr, kids)
    ensures off + HeaderSize * (1 + KidsDepth(kids)) <= |data|
    decreases kids
  {
    var d := KidsDepth(kids);
    if d > 0 {
      var j :| 0 <= j < |kids| && Depth(kids[j]) == d;
      var e := kids[j];
      ChildHeaderAdvances(data, off, hdr, kids, j);
      NestingBounded(data, e.headerOffset, e.header, e.children);
      var below := KidsDepth(e.children);
      assert d == 1 + below;
      assert HeaderSize * (1 + d) == HeaderSize + HeaderSize * (1 + below);
    }
  }

  /** A stream that starts with a scrambled packed header of an empty directory loads back as
      that header and no children, whatever follows the header. */
  lemma EmptyGroupLoads(h: Header, stamp: int, rest: seq<bv8>)
    requires Packable(h, stamp) && h.count == 0
    requires NulFree(h.author) && |h.author| <= AuthorSize
    ensures PackHeader(h, stamp).Ok?
    ensures LoadDir(Unscramble(PackHeader(h, stamp).value) + rest, 0) == Ok((h, []))
  {
    ScrambledHeaderRoundTrip(h, stamp);
    var scrambled := Unscramble(PackHeader(h, stamp).value);
    var data := scrambled + rest;
    assert ReadAt(data, 0, HeaderSize) == data[0..HeaderSize] == scrambled;
  }
}
