/** One 316-byte entry record of a directory's entry table, as `loadEntryCore` decodes it. */
module EntryRecord {
  import opened Errors
  import opened Bytes

  const RecordSize: nat := 316
  const NameSize: nat := 257

  /** The metadata of one entry. `crcFlag` and `isExecutable` are raw byte values, `crc` is 0
      unless the flag is set. */
  datatype Record = Record(
    filename: seq<bv8>,
    isDir: bool,
    size: nat,
    offsetToFile: nat,
    crcFlag: nat,
    crc: nat,
    isExecutable: nat)

  /** Decodes the bytes read for one record. The read may come back short at the end of the
      stream: fewer than 257 bytes fail the name field, and any other field that is cut off
      reads as the value of the bytes that are there (0 when none are). */
  function DecodeRecord(rec: seq<bv8>): (r: Result<Record>)
    ensures r.Ok? <==> |rec| >= NameSize
    ensures r.Err? ==> r.error == TruncatedRecord
  {
    if |rec| < NameSize then Err(TruncatedRecord)
    else
      var flag := Field(rec, 284, 1);
      Ok(Record(
        filename := StripNul(rec[..NameSize]),
        isDir := Field(rec, 264, 4) != 0,
        size := Field(rec, 268, 4),
        offsetToFile := Field(rec, 276, 4),
        crcFlag := flag,
        crc := if flag != 0 then Field(rec, 285, 4) else 0,
        isExecutable := Field(rec, 289, 1)))
  }

  /** Whenever the name field is complete, the name is its 257 bytes with every NUL removed, and
      a clear CRC flag leaves the CRC at 0. */
  lemma DecodedName(rec: seq<bv8>)
    requires |rec| >= NameSize
    ensures DecodeRecord(rec).Ok?
    ensures DecodeRecord(rec).value.filename == StripNul(rec[..NameSize])
    ensures DecodeRecord(rec).value.crcFlag == 0 ==> DecodeRecord(rec).value.crc == 0
  {
  }

  /** On a full 316-byte record every field comes from its fixed little-endian slot: the
      directory flag (u32 at 264), size (u32 at 268), offset to the content (u32 at 276), CRC
      flag (byte 284), CRC (u32 at 285, only when the flag is set) and executable flag (byte
      289). */
  lemma FullRecordFields(rec: seq<bv8>)
    requires |rec| == RecordSize
    ensures DecodeRecord(rec).Ok?
    ensures var r := DecodeRecord(rec).value;
      && (r.isDir <==> U32(rec[264..268]) != 0)
      && r.size == U32(rec[268..272])
      && r.offsetToFile == U32(rec[276..280])
      && r.crcFlag == rec[284] as nat
      && (rec[284] != 0 ==> r.crc == U32(rec[285..289]))
      && (rec[284] == 0 ==> r.crc == 0)
      && r.isExecutable == rec[289] as nat
  {
  }

  /** A record cut short by the end of the stream after its name decodes as an empty,
      non-executable leaf without CRC: every field past the name reads no bytes and so is 0. */
  lemma ShortRecordFields(rec: seq<bv8>)
    requires NameSize <= |rec| <= 264
    ensures DecodeRecord(rec).Ok?
    ensures var r := DecodeRecord(rec).value;
      && !r.isDir && r.size == 0 && r.offsetToFile == 0
      && r.crcFlag == 0 && r.crc == 0 && r.isExecutable == 0
  {
  }

  /** Every numeric field fits its slot: bytes below 256, words below 2^32. */
  lemma RecordFieldBounds(rec: seq<bv8>)
    requires |rec| >= NameSize
    ensures DecodeRecord(rec).Ok?
    ensures var r := DecodeRecord(rec).value;
      && r.crcFlag < 256 && r.isExecutable < 256
      && r.size < TwoTo32 && r.offsetToFile < TwoTo32 && r.crc < TwoTo32
  {
  }

  /** `int.from_bytes(rec[at:at+width], "little")`. */
  function Field(rec: seq<bv8>, at: nat, width: nat): (r: nat)
    ensures r < Pow256(width)
  {
    var bytes := PySlice(rec, at, at + width);
    Pow256Monotone(|bytes|, width);
    LittleEndian(bytes)
  }

  /** The bytes of a full record that decoding looks at; the CRC bytes only count when the
      CRC flag at 284 is set. */
  predicate IsReadByte(rec: seq<bv8>, k: nat)
    requires |rec| == RecordSize
  {
    || k < NameSize
    || 264 <= k < 272
    || 276 <= k < 280
    || k == 284
    || (285 <= k < 289 && rec[284] != 0)
    || k == 289
  }

  /** Decoding ignores every byte it does not read: the padding and constant after the name,
      the bytes 272..276, the timestamp at 280, the tail from 290, and the CRC when the flag is
      clear. */
  lemma UnreadBytesIgnored(a: seq<bv8>, b: seq<bv8>)
    requires |a| == RecordSize && |b| == RecordSize
    requires forall k :: 0 <= k < RecordSize && IsReadByte(a, k) ==> a[k] == b[k]
    ensures DecodeRecord(a) == DecodeRecord(b)
  {
    assert IsReadByte(a, 284);
    assert a[..NameSize] == b[..NameSize];
    assert a[264..268] == b[264..268];
    assert a[268..272] == b[268..272];
    assert a[276..280] == b[276..280];
    assert a[284..285] == b[284..285];
    assert a[289..290] == b[289..290];
    if a[284] != 0 {
      assert a[285..289] == b[285..289];
    }
  }
}
