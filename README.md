# dumpleveldb, modelled in Dafny

`dumpleveldb.py` reads a LevelDB directory offline and prints a snapshot of its
live keys. It has four parts, and each one is modelled here over byte
sequences held in memory:

- **Log segments** (`ParseLogFile`) — `log_reader.dfy`, module `LogReader`.
  - A segment is a run of physical records. Each record is a 4-byte CRC, a
    2-byte little-endian length, a type byte and the payload.
  - A type 1 or 2 record starts a write batch: an 8-byte sequence base, a
    4-byte operation count, then Put/Delete operations.
  - A record of any other type continues with the sequence number and the
    count left over from the record before it.
  - Operations go into a dictionary `key -> [status, seq, value]`. The i-th
    operation is numbered `base + i`.
- **Table blocks** (`ParseBlock`) — `block.dfy`, module `BlockDecoder`.
  - The restart count is the single last byte of the block. The loop reads
    front-coded entries before the restart array.
  - The last 8 bytes of an entry's inline (unshared) key are a status byte
    and a 7-byte sequence number. The key itself is rebuilt from the
    previous key's prefix.
  - The loop stops:
    - after the entry numbered `0xffffffffffffff`;
    - at an entry with an empty key and an empty value;
    - at any exception, keeping what it has stored.
- **Table files** (`ParseLdbFile`, `DumpBlock`) — `table.dfy`, module `TableReader`.
  - The last 8 bytes must be the magic number. Four varints at the start of
    the last 48 bytes give the meta-index and index block handles.
  - Every block's compression type is the byte just after it.
  - Each index value is a block handle. The data blocks' entries are copied
    into one table in index order.
- **Directory merge** (`ParseLdbDir`) — `merge.dfy`, module `DirectoryMerger`.
  - Log segments come first, then table files. Only Puts are merged.
  - A Put replaces the collected entry unless that entry's sequence number
    is strictly greater.
  - Each value is then shown as text when its first byte is 1, and otherwise
    as raw bytes.

Supporting modules:

- `bytes.dfy`: Python slicing, `BytesIO.read` and `int.from_bytes`.
- `varint.dfy`: the unsigned LEB128 varint that the `varint` package
  decodes. See DWARF 4, section 7.6.
- `records.dfy`: a Python `dict` as keys in insertion order plus a map.
- `wrappers.dfy`: `Option` and `Result`.

Each Python loop is a Dafny method. Its `ensures` ties its outcome to a
function that describes the same loop (the copy loop of `DumpBlock` is
`Records.CopyInto`, described by `Records.Update`), and the properties are
lemmas about those functions. An exception that escapes a function becomes an `Err`
result, which ends the run. Exceptions that `ParseBlock` catches become a
stop reason.

The `*Format` modules (`LogFormat`, `BlockFormat`, `TableFormat`) define
encoders for the same wire formats. They state what the decoders promise as
round trips: encoded records, operations, entries, handles and footers are
read back exactly.

What the reader does in the cases that matter most for its output:

- Only Puts (status 1) enter the merge. A Delete leaves the collected entry
  for its key as it was, so a Put at sequence 5 survives a Delete of the same
  key at sequence 9. In LevelDB the later Delete hides the older Put.
- A Put replaces the collected entry unless that entry's sequence number is
  strictly greater. With equal numbers, the file merged later wins.
- Inside one table, a key held by several data blocks ends with the entry of
  the last of them in index order. Sequence numbers are not compared there.
- A table file without the magic number ends `ParseLdbDir` with an error.
  `ParseLdbFile` returns `None`, and the merge loop then iterates over it.
- These failures also end the run:
  - a Snappy failure;
  - a block with no type byte after it;
  - a truncated block handle;
  - a log segment ending inside a 7-byte record header;
  - a key or value length varint cut short in a log operation;
  - a log key or value length of `2^63` or more, which `read` refuses;
  - a log segment whose first record is a continuation record.
- Inside a block, an entry whose inline key has fewer than 8 bytes stores
  nothing, and the loop goes on to the next entry. An entry whose key or
  value length is `2^63` or more ends the block with the entries stored
  before it.
- Key or value bytes cut short are not always an error. The log stores a
  Delete's short key and a Put's short value. A Put whose key is cut short
  ends the run, because its value-length varint is missing. A block stores a
  short value, and a short key only when at least 8 of its bytes arrived; the
  status and sequence number then come from the last 8 bytes that did. The
  block then stops at the end of its entries.

## Model

| member | source | states |
|---|---|---|
| Bytes.Slice | dumpleveldb.py:48-53 | a slice has `min(hi, len) - lo` bytes (none when the bounds cross), each taken from `lo + i` |
| Bytes.Read | dumpleveldb.py:65-68 | `read(n)` returns `min(n, remaining)` bytes, for any `n` below `2^63`; callers turn a larger `n` into the `OverflowError` that `read` raises |
| Bytes.LittleEndian | dumpleveldb.py:49-50 | the little-endian value of `k` bytes is below `256^k` |
| Bytes.LittleEndianRoundTrip | dumpleveldb.py:49-50 | decoding the `k`-byte little-endian encoding of a number below `256^k` gives the number back |
| Bytes.LittleEndianBytesRoundTrip | dumpleveldb.py:49-50 | re-encoding a decoded byte string gives the bytes back, so the two are inverse |
| Varint.Decode | dumpleveldb.py:64 | a decoded varint consumes at least one byte and ends inside the buffer |
| Varint.DecodeEncode | dumpleveldb.py:64 | an encoded number is read back wherever it sits, consuming exactly its encoding |
| Varint.DecodeEnds | dumpleveldb.py:102-104 | decoding fails iff every byte left has its high bit set; otherwise it ends at the first byte with the high bit clear |
| Varint.DecodeStopsBy | dumpleveldb.py:186-189 | a varint always decodes when a byte with the high bit clear lies ahead, and it ends by that byte |
| Records.Dict.Put | dumpleveldb.py:72 | `d[k] = v` maps `k` to `v` and leaves every other key as it was |
| Records.Update | dumpleveldb.py:151-152 | copying keys of `e` into `d` never drops or reorders the keys `d` already holds |
| Records.PutValid | dumpleveldb.py:72 | an assignment keeps the dictionary well formed: keys distinct and exactly the mapped ones |
| Records.Empty | dumpleveldb.py:42 | `dict()` is well formed and has no keys |
| Records.CopyInto | dumpleveldb.py:151-152 | the copy loop ends with `Update` of all of `e`'s keys, and a well-formed target stays well formed |
| Records.UpdateValid | dumpleveldb.py:151-152 | copying one dictionary into another keeps it well formed |
| Records.UpdateIsUnion | dumpleveldb.py:151-152 | copying all of `e` into `d` gives the map union where `e` overrides `d` |
| Records.UpdateAt | dumpleveldb.py:151-152 | after copying the first `n` keys of `e`, a key holds `e`'s value if among them, else `d`'s value or nothing |
| LogReader.ReadFrame | dumpleveldb.py:44-46 | a record header reads iff 7 bytes remain; the next record starts at least 7 bytes on |
| LogReader.BatchHeader | dumpleveldb.py:49-50 | the sequence base fits in 8 bytes and the count in 4 |
| LogReader.ReadField | dumpleveldb.py:64-68 | a length-prefixed key or value that reads consumes at least one byte and ends inside the buffer |
| LogReader.DecodeOp | dumpleveldb.py:59-71 | an operation consumes at least its status byte, keeps that byte as its status, and has an empty value unless the status is 1 |
| LogReader.DecodeOps | dumpleveldb.py:58-62 | at most `count` operations are read, and fewer only when the stream is exhausted |
| LogReader.Apply | dumpleveldb.py:72-73 | storing a run of operations keeps the keys already held, in their order, at the front |
| LogReader.CountAfter | dumpleveldb.py:58-62 | the count handed on never grows, and it shrinks only when the operations ran out before `count` |
| LogReader.RunOps | dumpleveldb.py:58-73 | one record's loop keeps the keys already held, and hands on a sequence number between `seq` and `seq + count` and a count no larger than `count` |
| LogReader.LogFrom | dumpleveldb.py:43-86 | the segment loop never drops or reorders a key it has stored |
| LogReader.ParseLog | dumpleveldb.py:41-89 | a segment that decodes gives a well-formed dictionary |
| LogReader.ApplyValid | dumpleveldb.py:72-73 | storing a run of operations keeps the dictionary well formed |
| LogReader.LogFromValid | dumpleveldb.py:41-89 | every dictionary the segment loop returns is well formed |
| LogReader.ReadOps | dumpleveldb.py:58-73 | the operation loop of one record returns the dictionary, next sequence number and remaining count that `RunOps` defines |
| LogReader.ParseLogFile | dumpleveldb.py:41-89 | the segment loop returns what `ParseLog` defines, and a well-formed dictionary |
| LogFormat.FrameRoundTrip | dumpleveldb.py:44-86 | for any record type, the length is `byte[idx+4] + 256 * byte[idx+5]`, the payload is read back and the cursor moves `7 + size` |
| LogFormat.BatchHeaderRoundTrip | dumpleveldb.py:47-51 | a batch payload gives back its sequence base (bytes 0..7) and count (bytes 8..11), and its operations start at byte 12 |
| LogFormat.FieldRoundTrip | dumpleveldb.py:64-68 | a length-prefixed key or value is read back by a varint and a `read` of that length |
| LogFormat.OversizedField | dumpleveldb.py:64-68 | a field whose length is `2^63` or more fails with `OverflowError`, whatever follows |
| LogFormat.PutRoundTrip | dumpleveldb.py:63-68 | an encoded Put is read back with its key and value |
| LogFormat.KeyOnlyRoundTrip | dumpleveldb.py:69-71 | any other status reads the key only, no value length, and stores an empty value |
| LogFormat.OversizedKeyFails | dumpleveldb.py:63-65 | an operation whose key length is `2^63` or more fails with `OverflowError`, whatever its status byte |
| LogFormat.OversizedValueFails | dumpleveldb.py:63-68 | a Put whose value length is `2^63` or more fails with `OverflowError` after its key is read |
| LogFormat.OpRoundTrip | dumpleveldb.py:59-72 | every encodable operation is read back exactly and the cursor lands after it |
| LogFormat.DecodeOpsRun | dumpleveldb.py:58-62 | with a large enough count, the loop reads exactly the operations laid out in the stream |
| LogFormat.EncodedDecodes | dumpleveldb.py:58-72 | back-to-back encoded operations are read back one after another to the end of the stream |
| LogFormat.OpsRoundTrip | dumpleveldb.py:58-62 | encoded operations are read back in order, and a count larger than their number stops at the end without error |
| LogFormat.RunOpsRoundTrip | dumpleveldb.py:58-73 | a record's operations are stored in order, the sequence number moves on by their number, and the count left is `count - i` when they run out early |
| LogFormat.ApplyLast | dumpleveldb.py:72-73 | the key of the i-th operation holds that operation's entry, numbered `base + i`, unless a later operation has the same key |
| LogFormat.ApplyUntouched | dumpleveldb.py:72 | a key no operation names keeps its entry or its absence |
| LogFormat.StartRecordStep | dumpleveldb.py:47-86 | a type 1 or 2 record numbers its operations from the header's base and hands on the next number and the count left |
| LogFormat.ContinuationStep | dumpleveldb.py:52-86 | a record of any other type continues with the sequence number and count left by the record before it |
| LogFormat.SingleBatchSegment | dumpleveldb.py:41-89 | a segment with one batch decodes to that batch's operations numbered from its base |
| BlockDecoder.EntriesRegion | dumpleveldb.py:97-98 | the entries region is a proper prefix of the block: at least the count byte is dropped |
| BlockDecoder.DecodeEntry | dumpleveldb.py:102-106 | an entry consumes at least its three varints, and the key and value read are no longer than declared; it fails only at the end of the data or on a length `read` refuses |
| BlockDecoder.SplitKey | dumpleveldb.py:107-110 | the key name is the inline key without its last 8 bytes, and the sequence number fits in 7 bytes |
| BlockDecoder.SplitJoin | dumpleveldb.py:107-110 | a name, status byte and 7-byte sequence number are split back into the same parts |
| BlockDecoder.JoinSplit | dumpleveldb.py:107-110 | splitting an inline key of 8 or more bytes loses nothing |
| BlockDecoder.NextKey | dumpleveldb.py:112-115 | the key is rebuilt iff nothing is shared or a previous key exists, and it always ends with the unshared name |
| BlockDecoder.BlockFrom | dumpleveldb.py:99-124 | defines the `while bContinue` loop from one entry on: the entries stored and why the loop stopped; its properties are the `BlockFrom*` and `BlockFormat` lemmas |
| BlockDecoder.BlockEntries | dumpleveldb.py:95-128 | the entries of a block form a well-formed dictionary |
| BlockDecoder.DecodeBlock | dumpleveldb.py:91-93 | a block that decodes, compressed or not, gives a well-formed dictionary |
| BlockDecoder.BlockFromValid | dumpleveldb.py:117 | the entry loop keeps the dictionary well formed |
| BlockDecoder.BlockFromKeeps | dumpleveldb.py:96-128 | whatever stops the loop, the keys already stored stay, at the front and in order; a later entry with the same key may replace the value |
| BlockDecoder.ParseBlock | dumpleveldb.py:91-128 | the `while bContinue` loop returns the entries and stop reason `DecodeBlock` defines, as a well-formed dictionary |
| BlockFormat.RegionOfBlock | dumpleveldb.py:97-98 | the restart array and the count byte are dropped whatever the offsets hold, leaving exactly the entries |
| BlockFormat.EntryRoundTrip | dumpleveldb.py:102-106 | an encoded entry is read back with its shared length, key and value, and the next entry starts right after it |
| BlockFormat.NextKeyRebuilds | dumpleveldb.py:112-115 | the previous key's shared prefix plus the unshared bytes give the full key again |
| BlockFormat.RecordStep | dumpleveldb.py:101-117 | an encoded record is stored under its full key and the loop continues after it |
| BlockFormat.SentinelRecordStep | dumpleveldb.py:117-120 | an encoded record numbered `0xffffffffffffff` is stored and ends the loop |
| BlockFormat.RecordsRun | dumpleveldb.py:99-117 | a run of encoded records is stored in order and the loop stands right after it |
| BlockFormat.BlockRoundTrip | dumpleveldb.py:95-128 | a block of encoded records decodes to exactly those records and stops at the end of the data |
| BlockFormat.ShortEntrySkipped | dumpleveldb.py:107-123 | an entry with fewer than 8 inline key bytes stores nothing and leaves the current key alone |
| BlockFormat.SentinelEndsBlock | dumpleveldb.py:117-120 | after the sentinel entry nothing more is read, whatever follows |
| BlockFormat.EmptyEntryEndsBlock | dumpleveldb.py:122-123 | an entry with an empty key and an empty value ends the block without storing anything |
| BlockFormat.OversizedEntryStops | dumpleveldb.py:102-106 | an entry declaring a key or value length of `2^63` or more stops the loop with the entries stored before it |
| BlockFormat.CutShortStep | dumpleveldb.py:102-126 | where no varint can be read, the loop stops with what it has |
| BlockFormat.TruncatedEntryKeepsRecords | dumpleveldb.py:96-128 | after a run of records, an entry that does not decode (cut off inside any of its three varints, or declaring a length `read` refuses) is dropped; the records before it are the result and its failure is the stop reason |
| BlockFormat.CutInKeyLength | dumpleveldb.py:102-103 | an entry whose bytes end inside its key-length varint fails with end of data |
| BlockFormat.CutInValueLength | dumpleveldb.py:102-104 | an entry whose bytes end inside its value-length varint fails with end of data |
| BlockFormat.ShortValueRoundTrip | dumpleveldb.py:102-106 | an encoded entry missing its last `d` value bytes at the end of the data decodes with the declared lengths, its key and the shortened value |
| BlockFormat.CutValueKeepsRecords | dumpleveldb.py:101-124 | when the final record's value loses its last `d` bytes, every record is stored, the last one with the short value, and the loop stops with end of data |
| BlockFormat.SharedFirstEntryStops | dumpleveldb.py:100-126 | a first keyed entry that claims a shared prefix stops the loop with nothing stored |
| TableReader.Last | dumpleveldb.py:178 | for `n > 0`, `s[-n:]` holds the last `min(n, len(s))` bytes, and what comes before it plus it is `s` |
| TableReader.HasFooter | dumpleveldb.py:178 | a file has the footer iff it has at least 8 bytes and ends in the magic number |
| TableReader.ReadFooter | dumpleveldb.py:185-189 | defines the footer read: four varints from the start of the last 48 bytes; `FooterAlwaysDecodes` and `FooterRoundTrip` state its properties |
| TableReader.FooterFields | dumpleveldb.py:186-189 | defines the four footer varints as two handles, in the order meta-index offset, size, index offset, size |
| TableReader.DecodeHandle | dumpleveldb.py:146-148 | defines a handle as two varints from the front of an index value, offset then size; `HandleRoundTrip` reads one back |
| TableReader.FooterAlwaysDecodes | dumpleveldb.py:185-189 | once the magic number is present, the four footer varints always decode |
| TableReader.ReadBlock | dumpleveldb.py:191-192 | a block is parsed with the byte after it as its compression type, as `LoadBlock` defines |
| TableReader.LoadBlock | dumpleveldb.py:150 | loading fails with a missing type byte iff the block reaches the end of the file, and a loaded block is a well-formed dictionary |
| TableReader.HandlesFrom | dumpleveldb.py:133-136 | the handles are those decoded from the index values, one per key in index order; decoding fails iff some index value does not hold two varints |
| TableReader.DumpFrom | dumpleveldb.py:145-152 | copying the blocks keeps the table well formed |
| TableReader.Dump | dumpleveldb.py:133-168 | `DumpBlock`'s result is a well-formed dictionary |
| TableReader.ParseTable | dumpleveldb.py:178-200 | a file gives nothing iff its last 8 bytes are not the magic number; otherwise a well-formed table |
| TableReader.DumpBlock | dumpleveldb.py:133-168 | the handle loop and the copy loop return what `Dump` defines, as a well-formed dictionary |
| TableReader.ParseLdbFile | dumpleveldb.py:178-200 | the table reader returns what `ParseTable` defines |
| TableFormat.HandleRoundTrip | dumpleveldb.py:146-148 | a handle is read back from the front of an index value, whatever follows |
| TableFormat.FooterFieldsRoundTrip | dumpleveldb.py:185-189 | the footer gives back meta-index offset, size, index offset and size, in that order |
| TableFormat.FooterRoundTrip | dumpleveldb.py:178-189 | a file ending in a 48-byte footer has the magic number and its two handles are read back |
| TableFormat.LoadPlainBlock | dumpleveldb.py:191-192 | a block whose following byte is not 1 is parsed as stored |
| TableFormat.Blocks | dumpleveldb.py:145-150 | one loaded block per handle |
| TableFormat.DumpOfIndex | dumpleveldb.py:133-168 | `DumpBlock` succeeds iff every index value decodes and every block it names loads; its table is then the union of those blocks, later blocks overriding |
| TableFormat.DumpIsUnion | dumpleveldb.py:145-152 | the copy loop fails iff some block fails to load, with that failure; otherwise it yields the union of the blocks' entries, later blocks overriding |
| TableFormat.UnionUntouched | dumpleveldb.py:151-152 | a key no block holds keeps its entry |
| TableFormat.UnionLast | dumpleveldb.py:151-152 | a key takes its entry from the last block that holds it, with no sequence comparison |
| DirectoryMerger.Admits | dumpleveldb.py:212-214 | defines the merge test: status 1, and no collected entry for the key with a strictly greater sequence number |
| DirectoryMerger.MergeEntry | dumpleveldb.py:212-215 | a merge step keeps the collection well formed and made only of Puts |
| DirectoryMerger.MergeEntryAt | dumpleveldb.py:212-215 | a step stores the entry under its key iff admitted, and leaves every other key as it was |
| DirectoryMerger.MergeFile | dumpleveldb.py:211-215 | merging part of a file keeps the collection well formed and made only of Puts |
| DirectoryMerger.Merge | dumpleveldb.py:211-215 | merging a file keeps the collection well formed, and a collection of Puts stays one |
| DirectoryMerger.MergeFileUntouched | dumpleveldb.py:211-215 | a key the file does not name keeps its entry or its absence |
| DirectoryMerger.MergeFileKey | dumpleveldb.py:211-215 | each key of a file is judged once, against the collection before the file: admitted, it takes the file's entry; otherwise it keeps its entry or its absence |
| DirectoryMerger.MergeAt | dumpleveldb.py:211-215 | merging a file gives a key the file's entry iff it is a Put whose sequence number is at least the collected one, and otherwise keeps its entry or its absence |
| DirectoryMerger.MergeElsewhere | dumpleveldb.py:211-215 | keys the file does not hold are untouched |
| DirectoryMerger.MergeNeverOlder | dumpleveldb.py:213-214 | a collected key is never lost, and its sequence number never goes down |
| DirectoryMerger.DeleteDoesNotMask | dumpleveldb.py:212 | a Delete (any status but 1) neither removes nor changes a collected key |
| DirectoryMerger.PutReplaces | dumpleveldb.py:213-215 | a Put replaces the collected entry when its sequence number is at least as large, so equal numbers let the later file win |
| DirectoryMerger.MergeLogs | dumpleveldb.py:209-215 | merging the log segments keeps the collection well formed and made only of Puts |
| DirectoryMerger.MergeTables | dumpleveldb.py:220-226 | merging the table files keeps the collection well formed and made only of Puts |
| DirectoryMerger.Render | dumpleveldb.py:229-232 | defines how a value is shown: the text after a leading 1 byte, otherwise the raw bytes |
| DirectoryMerger.RenderRoundTrip | dumpleveldb.py:229-232 | the stored bytes can be recovered from the shown value, so rendering loses nothing |
| DirectoryMerger.UnrenderRoundTrip | dumpleveldb.py:229-232 | every text, and every raw value not starting with 1, is what some stored bytes render to |
| DirectoryMerger.RenderFrom | dumpleveldb.py:228-232 | defines the rendering loop over the first `n` collected keys; `RenderFromShape` and `RenderFromValues` state what it gives |
| DirectoryMerger.RenderFromShape | dumpleveldb.py:228-232 | the snapshot has exactly the collection's keys, in the same order |
| DirectoryMerger.RenderFromValues | dumpleveldb.py:228-232 | each shown key holds the rendering of its collected value |
| DirectoryMerger.ParseDir | dumpleveldb.py:203-234 | defines `ParseLdbDir`: logs merged, then tables, then the rendering; `SnapshotOfPuts` states what it gives |
| DirectoryMerger.SnapshotOfPuts | dumpleveldb.py:203-234 | the snapshot shows one entry per collected key, in order, rendered from a Put |
| DirectoryMerger.MergeInto | dumpleveldb.py:211-215 | the merge loop over one file's keys gives the collection `Merge` defines |
| DirectoryMerger.RenderSnapshot | dumpleveldb.py:228-232 | the rendering loop gives the snapshot `RenderFrom` defines |
| DirectoryMerger.ParseLdbDir | dumpleveldb.py:203-234 | the directory loops give what `ParseDir` defines: logs merged, then tables, then the rendering |

## Left out

- File reading and discovery: `open`/`read`, `glob`, the `leveldb/`
  subdirectory fallback and the command-line entry. The parsers take the
  file bytes, and `ParseLdbDir` takes the segments and table files in the
  order the listing gives them. An unreadable file, which makes
  `ParseLogFile` or `ParseLdbFile` return `None`, is not modelled.
- Snappy: the `snappy` package is not part of this model. Decompression is
  a function parameter, and `None` stands for it raising.
- Printing: the `print` override, the `gShowMsg` flag and all console
  formatting. `DumpBlock`'s first loop is kept only for its handle decodes,
  which can raise.
- UTF-8: keys and values stay bytes. The source decodes them as UTF-8 in
  `print` arguments, which are evaluated even when printing is off, and in
  the rendered snapshot. Invalid UTF-8 would raise there; the model never
  fails on it.
- CRC bytes: the source reads them and never checks them, and the model
  ignores them.
- Integer widths: Python integers are unbounded, and so are the model's.
  Varints of any length are accepted, as the `varint` package accepts them.
  The one width that matters is the `2^63` limit on `BytesIO.read` on a
  64-bit CPython, which is modelled.
