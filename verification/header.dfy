/** The fields of a directory header: where `load` reads them from an unscrambled header and
    where the first half of `save` writes them. */
module GroupHeader {
  import opened Errors
  import opened Bytes
  import opened Obfuscation

  /** The value of the reserved field at 108 that marks an original group. */
  const Sentinel: nat := 1234567
  const AuthorSize: nat := 32

  /** "RedWolf Design GrpFolder", the 24-byte tag at the start of every plain header. */
  const Tag: seq<bv8> := [
    0x52, 0x65, 0x64, 0x57, 0x6F, 0x6C, 0x66, 0x20, 0x44, 0x65, 0x73, 0x69,
    0x67, 0x6E, 0x20, 0x47, 0x72, 0x70, 0x46, 0x6F, 0x6C, 0x64, 0x65, 0x72]

  /** A directory's header fields; `count` is the number of entry records after the header. */
  datatype Header = Header(version: (int, int), count: nat, author: seq<bv8>, original: bool)

  /** The fields of an unscrambled 204-byte header. */
  function ParseHeader(h: seq<bv8>): (r: Header)
    requires |h| == HeaderSize
    ensures r.count < TwoTo32
    ensures InI32(r.version.0) && InI32(r.version.1)
    ensures NulFree(r.author) && |r.author| <= AuthorSize
  {
    Header(
      version := (ToSigned32(U32(h[28..32])), ToSigned32(U32(h[32..36]))),
      count := U32(h[36..40]),
      author := StripNul(h[40..72]),
      original := U32(h[108..112]) == Sentinel)
  }

  /** What the "<32s" format makes of the author: cut to 32 bytes or padded with NULs. */
  function AuthorField(a: seq<bv8>): (r: seq<bv8>)
    ensures |r| == AuthorSize
    ensures |a| <= AuthorSize ==> r[..|a|] == a
    ensures |a| <= AuthorSize ==> r[|a|..] == Zeros(AuthorSize - |a|)
    ensures |a| >= AuthorSize ==> r == a[..AuthorSize]
  {
    if |a| >= AuthorSize then a[..AuthorSize] else a + Zeros(AuthorSize - |a|)
  }

  /** The values the "<i" fields of a header accept; any other raises struct.error. */
  predicate Packable(h: Header, stamp: int) {
    InI32(h.version.0) && InI32(h.version.1) && h.count < TwoTo31 && InI32(stamp)
  }

  /** The plain 204-byte header `save` lays out before it writes any entry. `stamp` stands for
      the modification time stored at byte 104 as a raw signed 32-bit value. */
  function PackHeader(h: Header, stamp: int): (r: Result<seq<bv8>>)
    ensures r.Ok? <==> Packable(h, stamp)
    ensures r.Err? ==> r.error == PackOutOfRange
    ensures r.Ok? ==> |r.value| == HeaderSize
  {
    if !Packable(h, stamp) then Err(PackOutOfRange)
    else Ok(Front() + Numbers(h) + AuthorArea(h) + Trailer(h, stamp))
  }

  /** A number as Python hands it to `struct`: an integer, or a float such as `time.mktime`
      returns. */
  datatype PyNumber = PyInt(i: int) | PyFloat(x: real)

  /** `struct.pack("<i", v)`: an integer of the signed 32-bit range becomes its four bytes, any
      other integer and every float are refused. */
  function PackI32(v: PyNumber): (r: Result<seq<bv8>>)
    ensures r.Ok? <==> v.PyInt? && InI32(v.i)
    ensures r.Ok? ==> |r.value| == 4 && ToSigned32(LittleEndian(r.value)) == v.i
    ensures v.PyFloat? ==> r == Err(NotAnInteger)
    ensures v.PyInt? && !InI32(v.i) ==> r == Err(PackOutOfRange)
  {
    match v
    case PyFloat(_) => Err(NotAnInteger)
    case PyInt(i) => if InI32(i) then Ok(I32Bytes(i)) else Err(PackOutOfRange)
  }

  /** The header packing of `save` with `t` as the number handed to the timestamp slot: the
      version and count are packed first, then "<i" takes `t`. As written, `save` hands it the
      float that `time.mktime` returns. */
  function PackHeaderWith(h: Header, t: PyNumber): (r: Result<seq<bv8>>)
    ensures r.Ok? <==> t.PyInt? && Packable(h, t.i)
    ensures r.Ok? ==> r == PackHeader(h, t.i)
    ensures t.PyFloat? && InI32(h.version.0) && InI32(h.version.1) && h.count < TwoTo31 ==>
      r == Err(NotAnInteger)
  {
    if !(InI32(h.version.0) && InI32(h.version.1) && h.count < TwoTo31) then Err(PackOutOfRange)
    else
      var stamp :- PackI32(t);
      PackHeader(h, ToSigned32(LittleEndian(stamp)))
  }

  /** Packing as written refuses every header whose other fields fit, whatever the modification
      time, while the same header packs once the timestamp is an integer. */
  lemma SaveStampRefused(h: Header, stamp: int, mtime: real)
    requires Packable(h, stamp)
    ensures PackHeaderWith(h, PyFloat(mtime)) == Err(NotAnInteger)
    ensures PackHeaderWith(h, PyInt(stamp)) == PackHeader(h, stamp)
    ensures PackHeader(h, stamp).Ok?
  {
  }

  /** Bytes 0..28: the tag, its NUL terminator from "<25s" and the three "<3x" pad bytes. */
  function Front(): (r: seq<bv8>)
    ensures |r| == 28
    ensures r[0..24] == Tag && r[24..28] == Zeros(4)
  {
    Parts2(Tag, Zeros(4));
    Tag + Zeros(4)
  }

  /** Bytes 28..40: version pair and entry count as signed 32-bit words. */
  function Numbers(h: Header): (r: seq<bv8>)
    requires InI32(h.version.0) && InI32(h.version.1) && h.count < TwoTo31
    ensures |r| == 12
    ensures r[0..4] == I32Bytes(h.version.0)
    ensures r[4..8] == I32Bytes(h.version.1)
    ensures r[8..12] == I32Bytes(h.count)
  {
    Parts3(I32Bytes(h.version.0), I32Bytes(h.version.1), I32Bytes(h.count));
    I32Bytes(h.version.0) + I32Bytes(h.version.1) + I32Bytes(h.count)
  }

  /** Bytes 40..104: the author field and 32 pad bytes. */
  function AuthorArea(h: Header): (r: seq<bv8>)
    ensures |r| == 64
    ensures r[0..32] == AuthorField(h.author) && r[32..64] == Zeros(32)
  {
    Parts2(AuthorField(h.author), Zeros(32));
    AuthorField(h.author) + Zeros(32)
  }

  /** Bytes 104..204: timestamp, original flag and 92 pad bytes. */
  function Trailer(h: Header, stamp: int): (r: seq<bv8>)
    requires InI32(stamp)
    ensures |r| == 100
    ensures r[0..4] == I32Bytes(stamp)
    ensures r[4..8] == I32Bytes(if h.original then Sentinel else 0)
    ensures r[8..100] == Zeros(92)
  {
    var o := I32Bytes(if h.original then Sentinel else 0);
    Parts3(I32Bytes(stamp), o, Zeros(92));
    I32Bytes(stamp) + o + Zeros(92)
  }

  lemma Parts2(a: seq<bv8>, b: seq<bv8>)
    ensures (a + b)[0..|a|] == a && (a + b)[|a|..|a| + |b|] == b
  {
  }

  lemma Parts3(a: seq<bv8>, b: seq<bv8>, c: seq<bv8>)
    ensures (a + b + c)[0..|a|] == a
    ensures (a + b + c)[|a|..|a| + |b|] == b
    ensures (a + b + c)[|a| + |b|..|a| + |b| + |c|] == c
  {
  }

  lemma Parts4(p: seq<bv8>, a: seq<bv8>, b: seq<bv8>, c: seq<bv8>, d: seq<bv8>)
    requires p == a + b + c + d
    ensures p[0..|a|] == a
    ensures p[|a|..|a| + |b|] == b
    ensures p[|a| + |b|..|a| + |b| + |c|] == c
    ensures p[|a| + |b| + |c|..|p|] == d
  {
  }

  lemma SubSlice(p: seq<bv8>, lo: nat, hi: nat, i: nat, j: nat)
    requires lo <= hi <= |p| && i <= j <= hi - lo
    ensures p[lo..hi][i..j] == p[lo + i..lo + j]
  {
    forall k | 0 <= k < j - i
      ensures p[lo..hi][i..j][k] == p[lo + i..lo + j][k]
    {
    }
  }

  /** The packed header is the four parts in order. */
  lemma PackedParts(h: Header, stamp: int)
    requires Packable(h, stamp)
    ensures PackHeader(h, stamp).Ok?
    ensures var p := PackHeader(h, stamp).value;
      && p[0..28] == Front() && p[28..40] == Numbers(h)
      && p[40..104] == AuthorArea(h) && p[104..204] == Trailer(h, stamp)
  {
    Parts4(PackHeader(h, stamp).value, Front(), Numbers(h), AuthorArea(h), Trailer(h, stamp));
  }

  /** Where packing puts each part: the tag leads, the pad areas are zero, and the timestamp
      occupies bytes 104..108. */
  lemma PackedLayout(h: Header, stamp: int)
    requires Packable(h, stamp)
    ensures PackHeader(h, stamp).Ok?
    ensures var p := PackHeader(h, stamp).value;
      && p[0..24] == Tag && p[24..28] == Zeros(4)
      && p[72..104] == Zeros(32) && p[112..204] == Zeros(92)
      && ToSigned32(LittleEndian(p[104..108])) == stamp
  {
    var p := PackHeader(h, stamp).value;
    PackedParts(h, stamp);
    SubSlice(p, 0, 28, 0, 24);
    SubSlice(p, 0, 28, 24, 28);
    SubSlice(p, 40, 104, 32, 64);
    SubSlice(p, 104, 204, 0, 4);
    SubSlice(p, 104, 204, 8, 100);
  }

  /** Where packing puts the fields `load` reads back. */
  lemma PackedFields(h: Header, stamp: int)
    requires Packable(h, stamp)
    ensures PackHeader(h, stamp).Ok?
    ensures var p := PackHeader(h, stamp).value;
      && p[28..32] == I32Bytes(h.version.0)
      && p[32..36] == I32Bytes(h.version.1)
      && p[36..40] == I32Bytes(h.count)
      && p[40..72] == AuthorField(h.author)
      && p[108..112] == I32Bytes(if h.original then Sentinel else 0)
  {
    PackedVersion(h, stamp);
    PackedCount(h, stamp);
    PackedAuthor(h, stamp);
    PackedOriginal(h, stamp);
  }

  lemma PackedVersion(h: Header, stamp: int)
    requires Packable(h, stamp)
    ensures PackHeader(h, stamp).Ok?
    ensures PackHeader(h, stamp).value[28..32] == I32Bytes(h.version.0)
    ensures PackHeader(h, stamp).value[32..36] == I32Bytes(h.version.1)
  {
    var p := PackHeader(h, stamp).value;
    PackedParts(h, stamp);
    SubSlice(p, 28, 40, 0, 4);
    SubSlice(p, 28, 40, 4, 8);
  }

  lemma PackedCount(h: Header, stamp: int)
    requires Packable(h, stamp)
    ensures PackHeader(h, stamp).Ok?
    ensures PackHeader(h, stamp).value[36..40] == I32Bytes(h.count)
  {
    var p := PackHeader(h, stamp).value;
    PackedParts(h, stamp);
    SubSlice(p, 28, 40, 8, 12);
  }

  lemma PackedAuthor(h: Header, stamp: int)
    requires Packable(h, stamp)
    ensures PackHeader(h, stamp).Ok?
    ensures PackHeader(h, stamp).value[40..72] == AuthorField(h.author)
  {
    var p := PackHeader(h, stamp).value;
    PackedParts(h, stamp);
    SubSlice(p, 40, 104, 0, 32);
  }

  lemma PackedOriginal(h: Header, stamp: int)
    requires Packable(h, stamp)
    ensures PackHeader(h, stamp).Ok?
    ensures PackHeader(h, stamp).value[108..112] == I32Bytes(if h.original then Sentinel else 0)
  {
    var p := PackHeader(h, stamp).value;
    PackedParts(h, stamp);
    SubSlice(p, 104, 204, 4, 8);
  }

  /** Parsing a packed header gives back every field, with the author as "<32s" stored it. */
  lemma PackThenParse(h: Header, stamp: int)
    requires Packable(h, stamp)
    ensures PackHeader(h, stamp).Ok?
    ensures ParseHeader(PackHeader(h, stamp).value)
      == h.(author := StripNul(AuthorField(h.author)))
  {
    PackedFields(h, stamp);
    var p := PackHeader(h, stamp).value;
    var parsed := ParseHeader(p);
    assert parsed.version.0 == h.version.0;
    assert parsed.version.1 == h.version.1;
    assert parsed.count == h.count;
    assert parsed.author == StripNul(AuthorField(h.author));
    assert parsed.original == h.original;
  }

  /** The header round trip: a header whose author is NUL-free and fits the field comes back
      unchanged. */
  lemma HeaderRoundTrip(h: Header, stamp: int)
    requires Packable(h, stamp)
    requires NulFree(h.author) && |h.author| <= AuthorSize
    ensures PackHeader(h, stamp).Ok?
    ensures ParseHeader(PackHeader(h, stamp).value) == h
  {
    PackThenParse(h, stamp);
    assert AuthorField(h.author) == h.author + Zeros(AuthorSize - |h.author|);
    StripNulPadding(h.author, AuthorSize - |h.author|);
    StripNulKeepsNulFree(h.author);
  }

  /** A packed header written through the scrambler is read back by the loader's unscramble
      and parse steps with every field intact. */
  lemma ScrambledHeaderRoundTrip(h: Header, stamp: int)
    requires Packable(h, stamp)
    requires NulFree(h.author) && |h.author| <= AuthorSize
    ensures PackHeader(h, stamp).Ok?
    ensures ParseHeader(Unscramble(Unscramble(PackHeader(h, stamp).value))) == h
  {
    HeaderRoundTrip(h, stamp);
    Involution(PackHeader(h, stamp).value);
  }
}
