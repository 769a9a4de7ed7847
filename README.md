# A verified model of a streaming tar writer

This project models the core of a TypeScript library that writes tar archives
as a stream of 512-byte blocks. Each entry gets a USTAR header block. Values the
header cannot hold are written as PAX extended-header records ("pax Extended
Header" in the pax utility description of IEEE Std 1003.1). The modelled core is:

- **Path splitter** (`generate_prefix_and_name`, `concat`). A path is cut at
  its leftmost `/` boundary that gives a `prefix` of at most 154 bytes and a
  `name` of at most 99 bytes. When no boundary works, it reports that none
  exists (`PathSplit`).
- **Numeric fields.** The 53-bit-safe `and` (`WideAnd`) and the zero-padded
  octal and decimal renderings (`Numerals`, `Header`).
- **PAX records.** `PaxExtendedHeader.length()` and `toUint8Array()` (`Pax`).
- **`TarHeaderBlock`.** Its constructor fills the fixed-width fields and
  collects the PAX records. `header()` lays the fields out in a 512-byte block
  and writes the checksum. `header_with_pax()` and `whole_block()` prepend one
  PAX sub-entry and append the content (`Header`, `Block`).
- **Streams.** `padding_to_512`, the chunking buffer stream and the
  concatenating stream (`Streams`).
- **`Tarball`.** It chains every entry's stream in order and ends with 1024
  zero bytes (`Tarball`).

A stream is modelled as the finite sequence of chunks it delivers. The two
stream constructors are classes with a cursor or a flag, and a `Pull` method
that delivers at most one chunk. `TarHeaderBlock` is a class whose byte fields
are set once by its constructor. `header()` fills a 512-byte `array` field by
field and then writes the checksum. The loops of `concat`,
`generate_prefix_and_name`, `header_with_pax` and `Tarball` are methods with
loop invariants. Each is proved equal to a specification function, and the
source's promises are proved about that function.

Strings are taken as UTF-8 byte sequences. `0x2F` never occurs inside a
multi-byte UTF-8 sequence, so splitting the bytes at `/` is the same as
splitting the string.

An absent optional number is 0 and an absent optional string is empty. The
writer reads every optional field through `||` or a truthiness test, so the
two behave alike. `mtime` is a whole number of seconds.

## Model

| member | source | states |
|---|---|---|
| Bytes.Zeros | src/tar.ts:239-240 | `new Uint8Array(n)` is n NUL bytes |
| Bytes.Place | src/tar.ts:294-296 | a string set at the front of a zeroed field of width w keeps its bytes in front and NULs after |
| Bytes.Take | src/tar.ts:296 | `slice(0, n)` keeps the first min(n, length) bytes |
| Numerals.Digits | src/tar.ts:259 | `v.toString(radix)` is a non-empty run of digits with no leading zero unless v is 0 |
| Numerals.ValueOfDigits | src/tar.ts:259 | the digits of `v.toString(radix)` read back as v |
| Numerals.DigitsBounds | src/pax.ts:6 | a number with k digits lies in [radix^(k-1), radix^k) |
| Numerals.DigitCount | src/pax.ts:6 | a value in [radix^(k-1), radix^k) has exactly k digits |
| Numerals.OctalFieldRoundTrip | src/tar.ts:259 | `toString(8).padStart(w, '0')` of v < 8^w is w octal digits that read back as v |
| Numerals.ValueIgnoresLeadingZeros | src/tar.ts:259 | the zeros `padStart` adds do not change the value read |
| WideAnd.And | src/tar.ts:92-102 | `and(v1, v2)`: the high parts (above 2^31) and the low parts ANDed separately with JavaScript `&`, then recombined; what it computes is stated by `WideAnd.AndLowPart` and `WideAnd.AndTruncates` |
| WideAnd.BitAndLowMask | src/tar.ts:97-100 | ANDing with 2^k - 1 keeps the k low bits: the result is a mod 2^k |
| WideAnd.AndLowPart | src/tar.ts:97-100 | the low parts `v & 0x7fffffff` ANDed with a mask whose 31 low bits are set give v mod 2^31, after the 32-bit reduction of `&` |
| WideAnd.AndTruncates | src/tar.ts:92-102 | `and(v, 0o77777777777)` is v mod 2^33 for v < 2^53, and is v itself when v <= 0o77777777777 |
| Pax.PaxKeyword.Text | src/pax.ts:19-22 | both keywords, "size" and "path", are 4 bytes long |
| Pax.PaxExtendedHeader.LengthAsWritten | src/pax.ts:4-11 | `length()` as written, through `Pax.LengthAsWrittenOf`; its band of wrong results is stated by `Pax.AsWrittenSelfConsistentIff` |
| Pax.LengthAsWrittenOf | src/pax.ts:5-10 | the digit count of base, bumped when base plus the digit count of that digit count changes base's digit count; characterised by `Pax.AsWrittenIncrement` |
| Pax.PaxExtendedHeader.Length | src/pax.ts:4-11 | `length()` as evidently intended, through `Pax.RecordLength`; self-consistent by `Pax.RecordLengthSelfConsistent` |
| Pax.RecordLength | src/pax.ts:5-10 | the corrected computation: bump when base plus its own digit count carries; proved self-consistent by `Pax.RecordLengthSelfConsistent` |
| Pax.PaxExtendedHeader.ToBytes | src/pax.ts:13-16 | the record headed by the corrected length; its layout and self-description are `Pax.ToBytesSelfDescribing` |
| Pax.PaxExtendedHeader.ToBytesAsWritten | src/pax.ts:13-16 | the record headed by `length()` as written; its length against `length()` is `Pax.AsWrittenRecord` |
| Pax.TextLength | src/pax.ts:15 | the record text for a length len is digits(len) + base bytes long |
| Pax.AsWrittenIncrement | src/pax.ts:4-11 | `length()` is base + d with d = digits(base) or digits(base) + 1; the increment happens exactly when base + digits(digits(base)) reaches the next power of ten |
| Pax.AsWrittenIncrementSmall | src/pax.ts:6-8 | for base < 10^9 the increment happens exactly when digits(base + 1) != digits(base), i.e. when base + 1 is a power of ten |
| Pax.AsWrittenSelfConsistentIff | src/pax.ts:4-16 | `length()` equals the byte length of its own record exactly outside the band 10^k - k <= base <= 10^k - digits(k) - 1; inside it, it is one short |
| Pax.AsWrittenSelfConsistentSmall | src/pax.ts:4-16 | for base < 10^9 that band is k >= 2 and 10^k - k <= base <= 10^k - 2 (98, 997-998, 9996-9998, ...) |
| Pax.RecordLengthSelfConsistent | src/pax.ts:4-16 | the corrected length is always self-consistent and is base + digits(base) or one more |
| Pax.AsWrittenAgreesOutsideBand | src/pax.ts:7 | the length as written equals the corrected length exactly outside the band |
| Pax.AsWrittenRecord | src/pax.ts:4-16 | the record as written is `length()` bytes outside the band and one byte longer inside it; outside the band length and record equal the corrected ones |
| Pax.ToBytesSelfDescribing | src/pax.ts:13-16 | the record headed by the corrected length (`Pax.PaxExtendedHeader.ToBytes`) is exactly that many bytes long. It consists of the decimal length (no leading zero), one space, the keyword, `=`, the value and a final LF, and its leading number is its own length. With the length as written this holds only outside the band (`Pax.AsWrittenRecord`) |
| Pax.SizeRecordUnaffected | src/pax.ts:5 | a size record for 2^33 <= size < 2^53 has base 17-23, where the length as written is right |
| Pax.PathOf990BytesMisreported | src/pax.ts:7 | a 990-byte path gives `length()` = 1000, but its record is 1001 bytes |
| PathSplit.Split | src/tar.ts:125 | `path.split('/')` has at least one segment |
| PathSplit.JoinOfSplit | src/tar.ts:125 | joining the segments of `path.split('/')` with '/' gives the path back, and no segment holds a '/' |
| PathSplit.SplitOfJoin | src/tar.ts:125 | splitting the '/'-join of slash-free segments gives those segments |
| PathSplit.JoinLength | src/tar.ts:139 | the join of n segments is their summed length plus n - 1 |
| PathSplit.JoinAt | src/tar.ts:144-152 | cutting the segments at i and joining each side gives the two halves of the path around one '/' |
| PathSplit.SplitPointLengths | src/tar.ts:144-150 | the prefix and name lengths computed from the running sums are the lengths of the joined halves |
| PathSplit.FirstFit | src/tar.ts:143-155 | the search returns the first split point from `from` on that fits, and none only when no later point fits |
| PathSplit.PrefixAndName | src/tar.ts:123-156 | the specification of `generate_prefix_and_name`: the whole path when it fits 99 bytes, else the first fitting split, else none; its promise is `PathSplit.PrefixAndNameCorrect` |
| PathSplit.PrefixAndNameCorrect | src/tar.ts:123-156 | a path of <= 99 bytes gives (empty, path). Otherwise the result is null exactly when no split point fits; else it is the leftmost fitting split, with prefix + '/' + name = path. A path over 254 bytes is never split |
| PathSplit.PrefixAndNameBounds | src/tar.ts:139-155 | a result has prefix <= 154 and name <= 99 bytes; null only for paths over 99 bytes |
| PathSplit.SingleLongSegmentUnsplittable | src/tar.ts:135-155 | a slash-free path over 99 bytes gives null (through the empty loop, not the guard at line 135, which can never hold) |
| PathSplit.ThreeSegmentOracle | tests/tar.test.ts:31-41 | for three non-empty segments the result is the test's expected value: whole path, split after the first, split after the second, or null |
| PathSplit.WrittenIsPrefix | src/tar.ts:110-118 | what the loop has written after any number of arrays is a prefix of the join |
| PathSplit.WrittenStep | src/tar.ts:111-117 | one loop step appends the array and, unless it is the last, a '/' |
| PathSplit.Concat | src/tar.ts:105-121 | given the joined length, `concat` fills the result with exactly the '/'-join of the arrays |
| PathSplit.GeneratePrefixAndName | src/tar.ts:123-156 | the running-sum array and the loop over split points compute the specification `PrefixAndName` |
| Streams.PaddingTo512 | src/tar.ts:158-166 | `padding_to_512`: an aligned buffer unchanged, else the buffer followed by zeros up to the next multiple of 512; its promise is `Streams.PaddingTo512Correct` |
| Streams.PaddingTo512Correct | src/tar.ts:158-166 | the padded buffer is the smallest multiple of 512 that holds buf, with buf in front and zeros after; an aligned buffer, the empty one included, is unchanged |
| Streams.PaddingAfterBlock | src/tar.ts:158-166 | padding a block followed by more bytes pads only the bytes after the block |
| Streams.Subarray | src/tar.ts:177 | `subarray(begin, end)` has the clamped length |
| Streams.ChunksFrom | src/tar.ts:168-184 | the chunks `ReadableBufferStream` delivers from a cursor on: `subarray(i, i + 512)` padded to 512, until the end; stated by `Streams.ChunksFromPadding` |
| Streams.BufferChunks | src/tar.ts:168-184 | everything `ReadableBufferStream` delivers, from cursor 0; stated by `Streams.BufferChunksPadding` |
| Streams.ChunksFromPadding | src/tar.ts:168-184 | from any cursor, the remaining 512-byte chunks are ceil(rest / 512) whole blocks and lay out `padding_to_512` of the rest |
| Streams.BufferChunksPadding | src/tar.ts:168-184 | an empty buffer yields no chunk; otherwise ceil(n / 512) chunks of 512 bytes whose concatenation is `padding_to_512(bytes)` |
| Streams.BufferChunksOfBlock | src/tar.ts:370-372 | a 512-byte header buffer is delivered as one chunk, unchanged |
| Streams.BufferChunksOfTrailer | src/tar.ts:386 | the 1024 zero bytes are delivered as two zero blocks |
| Streams.Chain | src/tar.ts:381-385 | the left-to-right fold of `ReadableConcatStream` over a list of streams; stated by `Streams.ChainOne`, `Streams.ChainSnoc` and `Streams.ChainAppend` |
| Streams.ChainOne | src/tar.ts:381-382 | a chain of one stream is that stream |
| Streams.ChainSnoc | src/tar.ts:383-385 | chaining one more stream appends its chunks |
| Streams.ChainAppend | src/tar.ts:383-385 | chaining is associative |
| Streams.FlattenWholeBlocks | src/tar.ts:158-166 | a stream of whole blocks is 512 bytes per chunk |
| Streams.ChainWholeBlocks | src/tar.ts:383-385 | chained streams of whole blocks are a stream of whole blocks |
| Streams.BufferStream.constructor | src/tar.ts:168-175 | the new stream will deliver the buffer's chunks; it starts closed when the buffer is empty |
| Streams.BufferStream.Pull | src/tar.ts:176-182 | a pull delivers the next pending chunk and removes it, or nothing once closed |
| Streams.ConcatStream.constructor | src/tar.ts:186-190 | the new stream will deliver first's chunks, then second's |
| Streams.ConcatStream.Pull | src/tar.ts:191-209 | a pull delivers exactly the next chunk of first, or once first is done of second, and closes when both are exhausted |
| Streams.DrainBuffer | src/tar.ts:168-184 | pulling a buffer stream to its end yields its pending chunks in order |
| Streams.DrainConcat | src/tar.ts:186-211 | pulling a concatenation to its end yields first's chunks, then second's, verbatim |
| Header.EntryType.Flag | src/tar.ts:62-73 | each entry type is a single non-NUL byte |
| Header.LowBits21 | src/tar.ts:259-269 | `v & 0o7777777` after the 32-bit conversion of `&`; the value is stated by `Header.ShortOctalReadsBack` |
| Header.ShortOctal | src/tar.ts:259-269 | the 8-byte mode/uid/gid field; read back by `Header.ShortOctalReadsBack` |
| Header.LongOctal | src/tar.ts:271-287 | the 12-byte size/mtime field; read back by `Header.LongOctalReadsBack` |
| Header.ShortOctalReadsBack | src/tar.ts:259-269 | the 8-byte mode/uid/gid field is 7 octal digits of v & 0o7777777 (v mod 2^21) and a NUL |
| Header.LongOctalReadsBack | src/tar.ts:271-287 | the 12-byte size/mtime field is 11 octal digits of v mod 2^33 and a NUL, and reads back as v when v <= 0o77777777777 |
| Header.CStringOfPlace | src/tar.ts:1-46 | a NUL-free string set at the front of a zeroed field reads back to its first NUL |
| Header.NameAndPrefix | src/tar.ts:238-254 | the 100-byte name and 155-byte prefix fields; what they read back as is `Header.NameAndPrefixRoundTrip`, `Header.AbsoluteHundredLosesSlash` and `Header.UnsplittableName` |
| Header.NameAndPrefixRoundTrip | src/tar.ts:238-254 | for a splittable NUL-free path, reading the name and prefix fields as the header comment describes (prefix/name when prefix is non-empty) gives the path back, unless it is a 100-byte path starting with '/' |
| Header.AbsoluteHundredLosesSlash | src/tar.ts:238-254 | that exception: "/" followed by 99 bytes is split after its empty first segment, so the prefix field is empty and the path reads back without its leading '/' |
| Header.UnsplittableName | src/tar.ts:241-250 | for an unsplittable path the name field is "@PathCut/_pc_root/" and the path's first 81 bytes, then a NUL, and the prefix is all NUL |
| Header.FieldsOf | src/tar.ts:232-321 | every field has its USTAR width |
| Header.ModeField | src/tar.ts:256-259 | the mode field, the precomputed default for mode 0; its value is stated by `Header.NumericFields` and `Header.DefaultModeField` |
| Header.NumericFields | src/tar.ts:256-287 | the numeric fields read back as mode (0 becomes 0o777), uid and gid mod 2^21, and size and mtime mod 2^33, exact when they fit |
| Header.DefaultModeField | src/tar.ts:257-259 | mode 0 is encoded as "0000777" |
| Header.TextFields | src/tar.ts:289-312 | linkname is 100 NULs; uname/gname keep their first 31 bytes and devmajor/devminor their first 7, NUL-terminated; typeflag defaults to '0'; magic is "ustar\0" and version "00" |
| Header.PaxRecordsOf | src/tar.ts:241-242 | the records the constructor pushes: a path record when no split fits, then a size record when the size needs more than 11 octal digits; stated by `Header.PaxRecordsCorrect` |
| Header.PaxRecordsCorrect | src/tar.ts:241-242 | at most two records: a size record (carrying the decimal size) exactly when size > 0o77777777777, and a path record (carrying the path, first) exactly when the path cannot be split; never one for mtime |
| Header.PathRecordBase | src/tar.ts:241-242 | the path record's base length is at least 107 |
| Header.ChecksumFits | src/tar.ts:340-341 | the checksum sum fits in 6 octal digits |
| Header.Layout | src/tar.ts:323-339 | the fields laid out in one 512-byte block with the checksum field zero; offsets stated by `Header.LayoutOffsets` |
| Header.Checksum | src/tar.ts:340 | the byte sum of the laid-out block plus eight spaces; bounded by `Header.ChecksumFits` |
| Header.Encode | src/tar.ts:323-343 | the finished header block; stated by `Header.EncodeOffsets` and `Header.ChecksumRoundTrip` |
| Header.LayoutOffsets | src/tar.ts:324-339 | each field sits at its offset from the header comment's table, with zeros at 148..156 and 500..512 |
| Header.EncodeOffsets | src/tar.ts:323-344 | the finished block is 512 bytes with every field at its offset |
| Header.ChecksumRoundTrip | src/tar.ts:340-342 | bytes 148..153 are the octal sum of the block with 148..155 read as spaces, followed by NUL and space |
| Block.TotalLength | src/tar.ts:355 | `total_pax_size` with the corrected lengths; equal to the records' byte length by `Block.RecordsBytesLength` |
| Block.RecordsBytes | src/tar.ts:357-362 | the records' bytes one after another, as the copy loop lays them out; stated by `Block.RecordsBytesLength` and `Block.CopyRecords` |
| Block.TotalLengthAsWritten | src/tar.ts:355 | `total_pax_size` with `length()` as written; compared with the records in `Block.AsWrittenBuffer` |
| Block.RecordsBytesAsWritten | src/tar.ts:357-362 | the bytes the copy loop writes when each record is headed by `length()` as written; compared with the buffer in `Block.AsWrittenBuffer` |
| Block.AsWrittenOverrun | src/tar.ts:355-361 | with `length()` as written the records exceed the buffer by one byte per record whose base is in the band |
| Block.AsWrittenAgrees | src/tar.ts:355-361 | when no record is in the band, the source's buffer size and copied bytes are the corrected model's |
| Block.AsWrittenBuffer | src/tar.ts:355-361 | the records as written fit the buffer exactly when no record is in the band, and otherwise overrun it, so `pax_buffer.set` throws; outside the band the source and the model agree |
| Block.RecordsBytesLength | src/tar.ts:355-362 | the records' bytes take exactly the summed record lengths |
| Block.RecordLengthBound | src/pax.ts:4-11 | a record is at most twice its base length plus one |
| Block.PaxRecordsSmall | src/tar.ts:355 | the records of any entry total at most 0o77777777777 bytes, so the PAX sub-entry's size field is exact |
| Block.PaxEntryParams | src/tar.ts:363-368 | the PAX sub-entry: name "PaxHeader/@PaxHeader", type 'x', the records as content and their total as size; stated by `Block.PaxEntryValid` and `Block.PaxEntryFields` |
| Block.PaxEntryValid | src/tar.ts:363-368 | the PAX sub-entry is a valid entry with no records of its own (the nesting stops at depth one) |
| Block.HeaderStream | src/tar.ts:350-373 | what `header_with_pax()` delivers; its shape is `Block.EntryStreamShape` |
| Block.EntryStream | src/tar.ts:346-348 | what `whole_block()` delivers: the header stream, then the content; its shape is `Block.EntryStreamShape` |
| Block.PlainEntryStream | src/tar.ts:346-348 | an entry without records is its header block followed by its content |
| Block.PaxEntryStream | src/tar.ts:363-368 | the PAX sub-entry is its header block followed by the records padded to whole blocks |
| Block.EntryStreamShape | src/tar.ts:346-373 | `whole_block()` is [PAX header, padded records] when there are records, then the header, then the content |
| Block.PaxEntryFields | src/tar.ts:363-368 | the PAX sub-entry's header has typeflag 'x', name "PaxHeader/@PaxHeader", an empty prefix and a size that reads back as the records' byte length |
| Block.PaxHeaderNameReadsBack | src/tar.ts:364 | the sub-entry's name and prefix fields read back as "PaxHeader/@PaxHeader" |
| Block.ContentChunks | src/tar.ts:314-320 | the content stream of an entry; stated by `Block.ContentChunksCorrect` |
| Block.ContentChunksCorrect | src/tar.ts:314-320 | no content yields nothing, a buffer yields its padded bytes, and a stream passes through unchanged |
| Block.Set | src/tar.ts:325 | `buf.set(src, offset)` replaces exactly the bytes at offset..offset + len and keeps the rest |
| Block.SetAfter | src/tar.ts:325-339 | setting the next field after the fields already laid out extends the laid-out prefix |
| Block.SkipZeros | src/tar.ts:325-339 | leaving a gap of zeros (the checksum field) does not change the block |
| Block.SetChecksum | src/tar.ts:340-342 | summing the laid-out block and writing the 6-digit octal sum with NUL and space gives the encoded block |
| Block.TarHeaderBlock.constructor | src/tar.ts:232-321 | the fields are exactly those of the entry description and the records are exactly the path and size records it needs |
| Block.TarHeaderBlock.Header | src/tar.ts:323-344 | `header()` returns the encoded block: the fields at their offsets and the checksum |
| Block.TarHeaderBlock.HeaderWithPax | src/tar.ts:350-373 | the stream is the PAX sub-entry's blocks, when there are records, followed by the header block |
| Block.TarHeaderBlock.WholeBlock | src/tar.ts:346-348 | the stream is `header_with_pax()` followed by the content |
| Block.EntryBlocks | src/tar.ts:381 | `new TarHeaderBlock(p).whole_block()` delivers the entry's stream |
| Block.CopyRecords | src/tar.ts:355-362 | the copy loop fills the buffer with the records' bytes in order |
| Block.RecordsSplit | src/tar.ts:358-361 | one more record appends its bytes, within the buffer |
| Block.RecordsBytesPrefix | src/tar.ts:357-362 | the bytes copied so far are a prefix of all the records' bytes |
| Tarball.EntryStreams | src/tar.ts:381 | one stream per entry, in input order, the i-th delivering the i-th entry's blocks |
| Tarball.EntryStreamsAppend | src/tar.ts:381 | the streams of two concatenated lists of entries are the first list's streams, then the second's |
| Tarball.ArchiveStream | src/tar.ts:376-388 | what the `Tarball` stream delivers: every entry's stream in order, then 1024 zero bytes in 512-byte chunks; stated by `Tarball.ArchiveAppend`, `Tarball.ArchiveTrailer`, `Tarball.ArchiveWholeBlocks` and `Tarball.Tarball.constructor` |
| Tarball.ArchiveAppend | src/tar.ts:376-388 | the archive of two lists of entries is the first list's entries, then the second's, then the two zero blocks |
| Tarball.ArchiveOne | src/tar.ts:376-388 | an archive of one entry is that entry's stream and the two zero blocks |
| Tarball.ArchiveTrailer | src/tar.ts:386 | every archive ends with two zero blocks after all the entries |
| Tarball.EntryWholeBlocks | src/tar.ts:346-373 | an entry whose content is a buffer, and its PAX sub-entry, deliver only 512-byte blocks |
| Tarball.ContentWholeBlocks | src/tar.ts:314-317 | buffered content is delivered in 512-byte blocks |
| Tarball.ArchiveWholeBlocks | src/tar.ts:376-388 | when every content is a buffer, the archive is a sequence of 512-byte blocks |
| Tarball.OneBufferedEntry | src/tar.ts:376-388 | one entry without records and with an n-byte buffer gives 3 + ceil(n/512) blocks; a 5-byte file gives 2048 bytes |
| Tarball.OneBufferedEntryBlocks | src/tar.ts:376-388 | one entry without records and with an n-byte buffer gives 3 + ceil(n/512) chunks: header, padded content, two zero blocks |
| Tarball.EntryBlockAt | src/tar.ts:381 | the stream built for the i-th entry is fresh and delivers that entry's blocks |
| Tarball.EntryBlocksOf | src/tar.ts:381 | `param.map(...)` builds one stream per entry delivering that entry's stream |
| Tarball.Tarball.constructor | src/tar.ts:376-388 | the archive stream delivers every entry's stream in input order, then two zero blocks |

## Left out

- The `ReadableStream` machinery (controllers, `getReader`, promises, back-pressure) is left out. A stream is the finite sequence of chunks it delivers, and pulls are sequential.
- The ponyfill at src/tar.ts:50-57 and src/streams.ts only probe the environment and are left out.
- `TextEncoder` is left out: strings are given as UTF-8 bytes.
- `Date.getTime()` and `Math.round` (floating point) are left out: `mtime` is an integer number of seconds.
- JavaScript number limits are stated as preconditions, not modelled. Numbers must be below 2^53, and negative or fractional numbers are excluded (`nat`).
- `console.assert` only logs. Its conditions (a non-empty name, no trailing '/', at least one entry) are preconditions.
- `param.linkname` is never read by the writer, so the model ignores it too.
- Block.TarHeaderBlock.constructor: the source writes the defaults (`mode || 0o777`, `size || 0`, ...) back into the caller's parameter object. That write-back is not modelled.
- Block.TarHeaderBlock.constructor: it also requires a name shorter than 2^31 bytes. This keeps the PAX sub-entry's size within the 11-digit field, so the sub-entry needs no records of its own. The source has no such limit.
- Pax.PaxExtendedHeader.ToBytes: heads each record with the corrected length (`Pax.PaxExtendedHeader.Length`), not with `length()` as written. The two differ exactly when the record's base length is in the band 10^k - k <= base <= 10^k - digits(k) - 1 (`Pax.AsWrittenSelfConsistentIff`). For a path record (base = 7 + path length) that is a path of 990-991, 9989-9991, 99988-99991, ... bytes. In the band the source's `pax_buffer.set` throws a RangeError, so `header_with_pax()`, `whole_block()` and the `Tarball` constructor throw. The model instead builds a valid archive. The deviation reaches `Block.TotalLength`, `Block.RecordsBytes`, `Block.PaxEntryParams`, `Block.HeaderStream`, `Block.EntryStream`, `Block.CopyRecords`, `Block.TarHeaderBlock.HeaderWithPax`, `Block.TarHeaderBlock.WholeBlock`, `Tarball.ArchiveStream` and `Tarball.Tarball.constructor`. Outside the band, `Block.AsWrittenBuffer` proves that the source's buffer size and bytes are the model's.
- Block.CopyRecords: sizes the buffer with the corrected record length, so the copy always fits. The RangeError the source throws in the band is not modelled; `Block.AsWrittenBuffer` states when it happens (see Findings).
- Tarball.Tarball.constructor: each `ReadableConcatStream` is built from the chunks its inputs still have to deliver, not from reader handles. Locking a stream by taking its reader, and sharing a stream between two consumers, are not modelled.
- Header.ModeField: the default mode field is the precomputed constant "0000777" plus NUL. `Header.DefaultModeField` proves it equal to encoding 0o777.
- Header.NameAndPrefixRoundTrip: requires that the path is not a 100-byte path starting with '/'. Such a path is cut right after its leading '/', with an empty prefix, so a reader gets it back without the '/' (`Header.AbsoluteHundredLosesSlash`). Every other splittable absolute path reads back unchanged.
- PathSplit.ThreeSegmentOracle: covers only paths of three non-empty segments. The test also builds paths of one or two segments; `PathSplit.PrefixAndNameCorrect` covers those, but not in the test's own terms.
- The tests' file output and their 9 GiB generator are left out.

## Findings

| source | as written | input that shows it | evidently intended | confidence | as-written member | corrected member |
|---|---|---|---|---|---|---|
| src/pax.ts:7 | the increment test adds the digit count of the digit count, `digits(digits(base))`, to base, instead of the digit count itself | a path value of 990 bytes: base 997 and `length()` = 1000, but the record "1000 path=...\n" is 1001 bytes. Every base in the band 10^k - k <= base <= 10^k - digits(k) - 1 fails the same way (`Pax.AsWrittenSelfConsistentIff`); for path records that is paths of 990-991, 9989-9991, 99988-99991, ... bytes. `header_with_pax` then sizes its buffer too short (`Block.AsWrittenBuffer`), `pax_buffer.set` throws a RangeError (src/tar.ts:355-360), and the `Tarball` constructor throws with it | `length()` equals the byte length of the record it heads: digits(length) + base = length | high (not executed) | Pax.PathOf990BytesMisreported | Pax.RecordLengthSelfConsistent |
