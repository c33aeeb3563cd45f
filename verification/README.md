# c4group format engine in Dafny

This project models the format engine of `c4group.py`, a reader for the nested archives
("groups") of the Clonk games. A group is a gzip stream whose first two magic bytes were
changed on disk. Once decompressed, the stream holds a 204-byte scrambled directory header
followed by one 316-byte entry record per child. File contents and nested sub-directories
come after the records. The model covers these parts:

- `Obfuscation`: the header scrambler (`decryptHeader`). It swaps the outer bytes of every
  triple and XORs every byte with 0xED. A loop method models the routine and a position-wise
  reference definition states the transform.
- `GroupHeader`: the header fields `load` reads, and the header layout the first half of `save`
  writes. This module also holds the packing as written, for the finding below.
- `EntryRecord`: the decoding of one entry record (`loadEntryCore`), including records cut short
  by the end of the stream.
- `Streams`: the decompressed stream as a byte string with a cursor. It follows the read mode of
  `gzip.GzipFile`: a seek past the end stops at the end, and a read near the end returns what is
  left.
- `GroupTree`: the recursive load of a directory and its entry table. This includes the offset
  arithmetic for records, content positions and nested headers. Ghost predicates state where
  every entry sits in the stream, and the loader is proved to produce exactly the placed tree.
- `ContentAccess`: the lazy `content` property of a file entry.
- `Envelope`: the two-byte gzip magic patch applied when a group file is opened.
- `Bytes`, `Errors`: helpers. `Bytes` holds Python's `int.from_bytes`, clamping slices,
  NUL stripping and the `"<i"` struct format. `Errors` holds a `Result`/`Option` pair whose error
  kinds stand for the exceptions of the modelled paths.

I/O is replaced by values. The gzip decompressor is outside the model: the loader takes the
decompressed bytes as a parameter. Time values are raw integers.

## Model

| member | source | states |
|---|---|---|
| Obfuscation.DecryptHeader | c4group.py:101-115 | Fails with the invalid-header error exactly when the input is not 204 bytes long. Otherwise it returns the reference transform `Unscramble`, which swaps within triples and XORs with 0xED. |
| Obfuscation.SwapTriples | c4group.py:107-110 | After the swap loop, position k holds the input byte of its triple partner (k+2, k or k-2). |
| Obfuscation.XorAll | c4group.py:111-114 | The XOR loop leaves every byte XORed with 0xED and keeps the length. |
| Obfuscation.Involution | c4group.py:101-115 | Applying the transform twice gives back any 204-byte header. The same routine scrambles and unscrambles. |
| Obfuscation.UnscrambleInjective | c4group.py:101-115 | Distinct headers stay distinct under the transform. |
| Obfuscation.UnscrambleTriples | c4group.py:107-114 | For every triple 3t..3t+2: out[3t] = in[3t+2]^0xED, out[3t+1] = in[3t+1]^0xED, out[3t+2] = in[3t]^0xED. Since 204 = 3*68, no byte is left unswapped. |
| GroupHeader.ParseHeader | c4group.py:121-127 | The count is an unsigned 32-bit value and the versions are signed 32-bit values. The author is NUL-free and at most 32 bytes long. |
| GroupHeader.AuthorField | c4group.py:139 | "<32s" always writes 32 bytes. It keeps the first 32 bytes of a longer author. A shorter author is kept in front and followed by NUL bytes up to 32. |
| GroupHeader.PackHeader | c4group.py:134-143 | Packing fails exactly when a version, the count or the timestamp does not fit a signed 32-bit field. Otherwise it yields 204 bytes. |
| GroupHeader.PackedLayout | c4group.py:135-143 | A packed header holds the tag "RedWolf Design GrpFolder" at 0..24. Bytes 24..28, 72..104 and 112..204 are zero, and the timestamp sits at 104..108. |
| GroupHeader.PackedFields | c4group.py:137-142 | Packing writes the versions at 28 and 32, the count at 36, the author field at 40 and 1234567 or 0 at 108. These are the offsets the parser reads. |
| GroupHeader.PackThenParse | c4group.py:134-143 | Parsing a packed header returns every field. The author comes back as "<32s" stored it, with its NULs removed. |
| GroupHeader.HeaderRoundTrip | c4group.py:134-143 | Parsing a packed header returns the header unchanged when the author is NUL-free and at most 32 bytes long. |
| GroupHeader.ScrambledHeaderRoundTrip | c4group.py:117-127 | A packed header passed through the scrambler is read back intact by the loader's unscramble and parse steps. |
| GroupHeader.PackI32 | c4group.py:138 | "<i" accepts exactly the integers of the signed 32-bit range, and their bytes read back as the same value. A float is refused. |
| GroupHeader.PackHeaderWith | c4group.py:134-143 | Packing succeeds exactly when the timestamp value is an integer and every field fits. In that case the result is `PackHeader`. A float timestamp is refused once the other fields fit. |
| GroupHeader.SaveStampRefused | c4group.py:141 | Packing as written fails for every packable header and every float modification time. The same header packs with an integer timestamp. |
| EntryRecord.DecodeRecord | c4group.py:151-170 | Decoding succeeds exactly when the read returned at least the 257 name bytes. Otherwise it fails with the truncated-record error. |
| EntryRecord.DecodedName | c4group.py:162-170 | The name is bytes 0..257 with every NUL removed. A clear CRC flag leaves the CRC at 0. |
| EntryRecord.FullRecordFields | c4group.py:155-170 | For a full 316-byte record: the dir flag is the u32 at 264, the size the u32 at 268, and the offset to the file the u32 at 276. The CRC flag is byte 284. The CRC is the u32 at 285 only when that flag is set. The executable flag is byte 289. |
| EntryRecord.ShortRecordFields | c4group.py:155-170 | A record cut off after its name, 257 to 264 bytes long, decodes as a leaf. Its size, offset, CRC and executable flag are all 0. |
| EntryRecord.RecordFieldBounds | c4group.py:163-170 | The byte fields are below 256 and the word fields below 2^32. |
| EntryRecord.UnreadBytesIgnored | c4group.py:155-170 | Two full records that agree on every byte decoding reads decode alike. A clear CRC flag hides the CRC bytes. |
| Streams.ReadAt | c4group.py:152-153 | A seek followed by a read returns the `n` bytes at the position when they all lie in the stream. A full-length result means they did. Near the end it returns the tail from the position on, and at or past the end it returns nothing. |
| GroupTree.LoadDir | c4group.py:117-131 | A header read that comes back short fails with the invalid-header error. On success the child list has exactly `count` entries. |
| GroupTree.LoadEntries | c4group.py:130-131 | Loading the table yields exactly `count` children and keeps the ones already loaded as a prefix. Which record each child comes from is stated by `LoadedEntriesPlaced`. |
| GroupTree.LoadedEntriesPlaced | c4group.py:130-131 | The table loop appends in table order: when the children loaded so far sit at records 0..k-1, every child of the finished list j sits at record j, at `off + 204 + 316*j`, with its content position and its directory flag. |
| GroupTree.LoadRecord | c4group.py:151-177 | An entry's content position is the table end `off + 204 + 316*count` plus its `offsetToFile`. The entry is a directory exactly when its dir flag is set, and a directory's header offset is that content position, beyond its parent's. |
| GroupTree.LoadSubdir | c4group.py:172-175 | A sub-directory keeps its record and is loaded at its content position. That position is strictly past the parent's header. |
| GroupTree.Load | c4group.py:117-131 | A stream shorter than a header fails. The root is a directory with header offset 0, no content position and the given name, and its whole tree is placed in the stream. |
| GroupTree.LoadedDirPlaced | c4group.py:117-177 | Whatever the loader returns is placed at every depth. The header is the 204 bytes at the offset, and child j decodes from the record at `off + 204 + 316*j`. |
| GroupTree.PlacedDirLoads | c4group.py:117-177 | Conversely, a placed header and child list is exactly what the loader returns. |
| GroupTree.LoadDirCharacterised | c4group.py:117-177 | Loading yields a header and children exactly when they are placed in the stream. |
| GroupTree.ChildHeaderAdvances | c4group.py:172-175 | A sub-directory's header starts at or after its parent's table end, strictly after the parent's header offset, and fits in the stream. The sub-directory is placed in turn. |
| GroupTree.NestingBounded | c4group.py:172-175 | A placed tree with d directory levels below the root needs at least 204*(d+1) bytes after the root header offset. Nesting depth is therefore bounded by the stream length. |
| GroupTree.EmptyGroupLoads | c4group.py:117-131 | A stream that starts with a scrambled packed header of an empty directory loads as that header with no children, whatever follows. |
| ContentAccess.ReadContent | c4group.py:70-79 | No content position gives the invalid-position error. Otherwise the read succeeds exactly when the size is 0 or the bytes lie in the stream. It returns the `size` bytes at the content position and leaves the cursor where it was. |
| ContentAccess.ReadContentRepeatable | c4group.py:70-79 | Reading the content twice gives the same bytes. |
| ContentAccess.LoadedLeafContent | c4group.py:70-79 | For a loaded file entry, the content is the `size` bytes that start `offsetToFile` bytes past its directory's entry table. |
| Envelope.RestoreMagic | c4group.py:26-29 | Files of fewer than two bytes fail. Otherwise the result has the same length, starts with 0x1F 0x8B and keeps every later byte. |
| Envelope.RestoreMagicIdempotent | c4group.py:27-29 | Patching twice is patching once. |
| Envelope.RestoreMagicOnlyTouchesMagic | c4group.py:27-29 | Two files give the same patched stream exactly when they agree after their first two bytes. |
| Envelope.GroupFileOpens | c4group.py:27-29 | A file starting with 0x1E 0x8C opens as the gzip stream with the same body. |
| Bytes.I32Bytes | c4group.py:137-138 | The four bytes "<i" writes read back through "<i" as the same value. A non-negative value also reads back unchanged as unsigned. |
| Bytes.StripNulPadding | c4group.py:122 | NUL padding after a string disappears when NULs are removed. |

## Left out

- The gzip decompressor behind `C4Group`, a subclass of `gzip.GzipFile`, is foreign code. The
  loader takes the decompressed bytes as a parameter. Only the two-byte patch is modelled, and
  only for the path where no `fileobj` is given.
- Group files on disk carry 0x1E 0x8C in place of the gzip magic. This code never writes those
  bytes back, because `save` neither compresses nor writes a file. `Envelope.GroupFileOpens`
  therefore covers only the opening direction.
- Time is not modelled. `time.localtime` in `load` and `loadEntryCore` is wrapped in
  `try/except` and changes no modelled field. The record's timestamp bytes 280..284 are
  therefore ignored.
- `GroupHeader.PackHeader` takes the timestamp as a raw signed 32-bit value in place of
  `time.mktime(self.time)`. As written, that call hands a float to "<i", which is the finding
  below.
- `decode`, `encode` and `toUtf8` depend on the platform's "ansi" codec. Names are kept as raw
  bytes, and the root's name is passed in as bytes.
- `saveEntryCore` is left out, because as written it does not produce a readable entry table.
  It packs every record at offset 0 of the grown buffer, over the header. It writes the CRC at
  265, over the dir flag. It never writes `offset_to_file`.
- `saveContent` (a stub), the loops at the end of `save`, `explode` (file-system I/O) and the
  interactive `__main__` block are left out.
- GroupHeader.ParseHeader: its own contract states only the ranges and the NUL-free author.
  Which bytes each field comes from is stated through the packer, by `PackedFields`,
  `PackThenParse` and `HeaderRoundTrip`, not as a field-by-field restatement of the parser.
- `ContentAccess.ReadContent`: when the read comes back short, the source raises before it
  seeks back, so the cursor stays after the partial read. The error result carries no stream,
  so the model does not say where the cursor is left.
- Python's recursion limit is not modelled. `load` calls `loadEntryCore`, which calls `load`
  again for a sub-directory (c4group.py:130-131, 173-175), so each nesting level costs two
  interpreter frames. Under CPython's default limit of 1000 frames, a group nested about 500
  levels deep raises `RecursionError`. `GroupTree.LoadDir` and `GroupTree.LoadSubdir` succeed at
  any depth, and `GroupTree.NestingBounded` bounds the depth only by the stream length.
- The root entry's record fields other than its name are the class defaults: not executable,
  size 0, offset 0, no CRC.
- `GroupTree.LoadRecord` returns a parent-free tree. The `parent` back-references are not
  modelled, since no modelled operation reads them.

## Findings

| source | as written | input that shows it | evidently intended | confidence | as-written member | corrected member |
|---|---|---|---|---|---|---|
| c4group.py:141 | `struct.pack_into("<i", temp, 104, time.mktime(self.time))` hands the float from `mktime` to "<i", which accepts only integers, so `save` raises before any entry is written | any directory whose versions and count fit, e.g. version (1, 0), count 0, author `b""`, with any `time.struct_time` modification time; with the default `time = 0` (c4group.py:43) `time.mktime` itself raises `TypeError` first | the timestamp converted to an integer, e.g. `int(time.mktime(...))`, so the header packs | high; not executed | GroupHeader.SaveStampRefused | GroupHeader.HeaderRoundTrip |
