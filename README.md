# dispar binary-parsing layer, in Dafny

This project models the byte-level core of the dispar Mach-O disassembler and
proves properties of that model:

- **Reader** (`reader.dfy`, module `ByteReader`; decoding in `endian.dfy`, module `Endian`):
  an endian-aware cursor over a byte device. The device is an immutable
  in-memory byte sequence. The model covers the fixed-width unsigned getters
  (`getUInt16/32/64`, all through one `GetUInt(width)`), signed and unsigned
  single-byte get and peek, `read`, `pos`, `seek`, `atEnd`, `peekList` and the
  run-time byte-order flag. `GetUInt` and `PeekList` are loops proved against
  the pure decoders `DecodeLE`/`DecodeBE` and against slices of the device.
  The decoders are tied together by byte reversal and by the reference
  encoders `EncodeLE`/`EncodeBE`.
- **CStringReader** (`cstring_reader.dfy`, module `CStrings`): the reader of
  NUL-delimited string tables. `Split(buf, from)` is the specification: each
  string with the offset where it begins. The class `CStringReader` holds the
  cursor. Its `Next` hands out the entries of `Split(buf, 0)` one at a time,
  and `ReadAll` returns all of their strings. `Join` undoes `Split` both ways:
  it rebuilds the buffer, adding a missing final NUL, and splitting a join of
  NUL-free strings gives the strings back. The scenarios of
  `tests/CStringReader.cc` are proved as client methods.
- **SymbolEntry** (`symbol_entry.dfy`, module `Symbols`): a symbol-table record.
  It has a fixed string-table index, a settable 64-bit value and a settable
  resolved string, plus `==`, `!=` and `qHash`.
- **Section** (`section.dfy`, module `Sections`): a typed, named byte region.
  It holds its address, size and file offset, its content, the log of
  patched regions with the time of the last patch, and an attachment slot
  for a disassembly result. `SetSubData` is proved against `Splice`, which
  models `QByteArray::replace`, and against `Record`, which models the log
  append with duplicate suppression.
- `common.dfy` (module `Common`): bytes, Qt's fixed-width unsigned types, a
  signed `char`, and `Option`.

The plain getters are modelled as fields or one-line functions. These are
`Section.Type/Name/Address/Size/Offset/Data/ModifiedWhen/ModifiedRegions/Disassembly`,
`Section.IsModified`, `Reader.IsLittleEndian`, `Reader.AtEnd`,
`CStringReader.String/Offset` and `SymbolEntry.Index/Value/String/Equals/NotEquals/Hash`.
What is proved about each of them is stated by the members in the table
below.

Decisions the header or Qt's documented behaviour settle:

- **Splice.** `setSubData` calls `data_.replace(pos, |sub|, sub)`. In Qt 5,
  `replace` works in two ways:
  - when `pos + |sub| <= size`, it overwrites the bytes in place;
  - otherwise it removes from `pos` to the end and inserts `sub` there.

  So a patch that runs past the end makes the content grow to
  `pos + |sub|` bytes. `Splice` models exactly these two branches.
- **Timestamp.** The code keeps one time, `modified`, for the whole section,
  not one per region. An accepted patch always sets that time, even when the region is
  already logged or `sub` is empty.
- **Rejection.** The guard is `pos < 0 || pos > size - 1` in signed
  arithmetic. On empty content no position passes, so every patch is
  rejected.

## Model

| member | source | states |
|---|---|---|
| `Endian.DecodeLEBound` | src/Reader.h:16-23 | a value read little-endian from n bytes is below 256^n, so 2, 4 and 8 bytes fit in 16, 32 and 64 bits |
| `Endian.DecodeBEBound` | src/Reader.h:16-23 | the same bound for big-endian reads |
| `Endian.BigEndianIsReversedLittleEndian` | src/Reader.h:39-43 | for all bytes: the big-endian value equals the little-endian value of the reversed bytes |
| `Endian.LittleEndianIsReversedBigEndian` | src/Reader.h:39-43 | the converse: the little-endian value equals the big-endian value of the reversed bytes |
| `Endian.ReverseInvolutive` | src/Reader.h:39-43 | reversing the bytes twice gives them back |
| `Endian.DecodeEncodeLE` | src/Reader.h:39-40 | every value below 256^n, encoded little-endian in n bytes, decodes back to itself |
| `Endian.DecodeEncodeBE` | src/Reader.h:39-40 | the same round trip for big-endian |
| `Common.SignedChar` | src/Reader.h:25-27 | a byte read as `char` keeps its bit pattern: values below 128 unchanged, the others minus 256 |
| `ByteReader.Reader.constructor` | src/Reader.h:11 | a new reader is at position 0 on the device and is little-endian unless told otherwise |
| `ByteReader.Reader.SetLittleEndian` | src/Reader.h:13-14 | afterwards the flag is the argument; only the flag may change |
| `ByteReader.Reader.Pos` | src/Reader.h:32 | the position never exceeds the device length |
| `ByteReader.Reader.GetUInt` | src/Reader.h:39-40 | succeeds exactly when `width` bytes remain; then returns the decoding of those bytes in the current order, below 256^width, and advances by `width`; on failure it returns 0 and the position stays |
| `ByteReader.Reader.GetUInt16` | src/Reader.h:16-17 | succeeds exactly when 2 bytes remain; then returns the 16-bit decoding of the next 2 bytes and advances by 2; otherwise the position stays |
| `ByteReader.Reader.GetUInt32` | src/Reader.h:19-20 | the same with 4 bytes and 32 bits |
| `ByteReader.Reader.GetUInt64` | src/Reader.h:22-23 | the same with 8 bytes and 64 bits |
| `ByteReader.Reader.GetUChar` | src/Reader.h:26 | succeeds exactly when a byte remains; then returns it and advances by 1; otherwise returns 0 and the position stays |
| `ByteReader.Reader.GetChar` | src/Reader.h:25 | the same, returning the byte as a signed `char` |
| `ByteReader.Reader.PeekUChar` | src/Reader.h:28 | succeeds exactly when a byte remains and returns the byte `GetUChar` would return, without moving |
| `ByteReader.Reader.PeekChar` | src/Reader.h:27 | the same as a signed `char` |
| `ByteReader.Reader.Read` | src/Reader.h:30 | returns the next `min(max, remaining)` bytes (none for `max <= 0`) and advances by that many |
| `ByteReader.Reader.Seek` | src/Reader.h:33 | succeeds exactly for `0 <= p <= length`, giving position `p`; otherwise the position stays |
| `ByteReader.Reader.PeekList` | src/Reader.h:36 | true exactly when at least `|list|` bytes remain and the next `|list|` bytes equal `list`; never moves |
| `ByteReader.PeekThenGet` | src/Reader.h:25-28 | two peeks and a get report the same `ok` and return the same char; only the get moves the position, by 1; at the end all three report failure and the position stays |
| `ByteReader.ReadMagic` | src/Reader.h:11-20 | a default reader reads the stored Mach-O magic `cf fa ed fe` as `0xfeedfacf`; after switching to big-endian the same bytes read `0xcffaedfe`; `peekList` recognises the signature and `atEnd` holds after the read |
| `CStrings.NulFrom` | tests/CStringReader.cc:13-47 | a position between the scan offset and the buffer end that holds a NUL unless it is the end |
| `CStrings.NulFromIsFirst` | tests/CStringReader.cc:13-47 | no NUL lies between the scan offset and that position, so it is the first NUL |
| `CStrings.NulFromLeast` | tests/CStringReader.cc:13-47 | any NUL, or the end, with no NUL before it from the scan offset on, is exactly that position |
| `CStrings.SplitEntriesAreInBuffer` | tests/CStringReader.cc:32-43 | each string is NUL-free and equals the buffer bytes at its offset |
| `CStrings.SplitOffsetsChain` | tests/CStringReader.cc:35-43 | each offset is the previous offset plus the previous string's length plus 1 |
| `CStrings.SplitOffsetsIncrease` | tests/CStringReader.cc:35-43 | offsets strictly increase |
| `CStrings.SplitStartsAtFrom` | tests/CStringReader.cc:33-35 | while bytes remain there is a next string, and it starts at the scan offset |
| `CStrings.SplitTerminated` | tests/CStringReader.cc:24-45 | a NUL-terminated NUL-free run is the next string, and scanning resumes after its NUL |
| `CStrings.SplitUnterminated` | tests/CStringReader.cc:16-20 | a NUL-free run up to the end of the buffer is the last string |
| `CStrings.SplitJoin` | tests/CStringReader.cc:24-45 | splitting a join of NUL-free strings, each followed by a NUL, gives exactly those strings back |
| `CStrings.NulFromShift` | tests/CStringReader.cc:35-43 | behind any prefix, the scan finds the same NUL shifted by the prefix length |
| `CStrings.SplitShift` | tests/CStringReader.cc:35-43 | behind any prefix, the same strings are split out |
| `CStrings.JoinSplit` | tests/CStringReader.cc:63-88 | joining the strings, each followed by a NUL, rebuilds the buffer; a missing final NUL is added, so a final NUL yields no empty trailing string |
| `CStrings.CStringReader.constructor` | tests/CStringReader.cc:7-11 | a new reader has handed out nothing; its string is empty and its offset is 0 |
| `CStrings.CStringReader.FindNul` | tests/CStringReader.cc:13-47 | its forward scan finds `NulFrom` |
| `CStrings.CStringReader.Next` | tests/CStringReader.cc:13-47 | succeeds exactly while entries of `Split(buf, 0)` remain; the k-th success sets `string()`/`offset()` to the k-th entry; a failure changes nothing |
| `CStrings.CStringReader.ReadAll` | tests/CStringReader.cc:63-88 | returns every string of `Split(buf, 0)` in order, without moving the cursor |
| `CStrings.NextAgreesWithReadAll` | tests/CStringReader.cc:63-88 | for every buffer, calling `next()` until it fails collects exactly what `readAll()` returns |
| `CStrings.NextOnUnterminated` | tests/CStringReader.cc:16-20 | "hello": `next()` succeeds once with "hello" at offset 0, then fails |
| `CStrings.NextOnThreeStrings` | tests/CStringReader.cc:23-46 | "one\0two\0three\0": "one", "two", "three" at offsets 0, 4, 8, then `next()` fails |
| `CStrings.ThreeStringsSplit` | tests/CStringReader.cc:24-43 | the split of "one\0two\0three\0" is exactly those three entries |
| `CStrings.FreshReader` | tests/CStringReader.cc:49-61 | an empty buffer: `string()` empty, `offset()` 0, `readAll()` empty, `next()` false |
| `CStrings.ReadAllExamples` | tests/CStringReader.cc:63-88 | `readAll()` gives ["hello"] and ["one", "two", "three"] |
| `Symbols.SymbolEntry.constructor` | src/SymbolEntry.h:8 | stores index, value and string; the string defaults to empty |
| `Symbols.SymbolEntry.SetValue` | src/SymbolEntry.h:12-13 | the value becomes `v`; index and string cannot change |
| `Symbols.SymbolEntry.SetString` | src/SymbolEntry.h:15-16 | the string becomes `s`; index and value cannot change |
| `Symbols.EqualsIsEquivalence` | src/SymbolEntry.h:18-19 | `==` is reflexive, symmetric and transitive |
| `Symbols.EqualEntriesHashAlike` | src/SymbolEntry.h:27 | entries equal under `==` have equal `qHash` for every seed, the default seed 0 included |
| `Symbols.EqualityFollowsFields` | src/SymbolEntry.h:8-24 | the default string is empty; entries with equal fields are `==` and hash alike; a different value makes them `!=`; restoring it makes them `==` again; the index is kept |
| `Sections.TypeName` | src/Section.cc:9-38 | every section type has a non-empty label |
| `Sections.TypeNameInjective` | src/Section.cc:9-38 | distinct section types have distinct labels |
| `Sections.Splice` | src/Section.cc:81 | the bytes before `pos` and after `pos + |sub|` are unchanged, `[pos, pos + |sub|)` holds `sub`, and the new length is `max(old length, pos + |sub|)` |
| `Sections.Record` | src/Section.cc:84-87 | the logged region is present afterwards; the old log is a prefix, so nothing is lost or reordered; it grows by one exactly when the region was absent; no duplicates are introduced |
| `Sections.Section.constructor` | src/Section.cc:3-7 | stores type, name, address, size and offset; content empty, no patches, no time, no disassembly, not modified |
| `Sections.Section.SetData` | src/Section.cc:70-73 | replaces the content; nothing else may change |
| `Sections.Section.SetSubData` | src/Section.cc:75-88 | rejected unless `0 <= pos <= size - 1`, and then nothing changes; otherwise the content is `Splice`d, the time becomes `now`, the region is `Record`ed and the section is modified; type, name, address, size, offset and disassembly never change; the log stays free of duplicates |
| `Sections.Section.SetDisassembly` | src/Section.cc:105-108 | stores the handle; nothing else may change |
| `Sections.EmptyContentRejectsAll` | src/Section.cc:77 | on empty content every position is rejected |
| `Sections.RecordIdempotent` | src/Section.cc:84-87 | logging a region twice is the same as logging it once |
| `Sections.SpliceUndo` | src/Section.cc:81 | a patch that fits is undone by patching the overwritten bytes back |
| `Sections.SpliceEmpty` | src/Section.cc:81 | an empty patch leaves the content unchanged |
| `Sections.PatchTwice` | src/Section.cc:75-88 | patching the same range twice logs it once, keeps the later time, and leaves the content as the two splices in order |
| `Sections.PatchFreshSection` | src/Section.cc:3-7 | a fresh section has empty content, rejects every patch and stays unmodified |

## Left out

- The I/O device: `Reader`'s `QIODevice` is an immutable in-memory byte sequence. Device errors other than running out of data, and writes, are not modelled.
- src/Reader.cc is not part of this model: src/Reader.h declares the getters without their bodies. The model makes every getter all-or-nothing:
  - a failed multi-byte read leaves the position where it was;
  - `peekList` fails when too few bytes remain.
- `ByteReader.Reader.GetUInt`: where the C++ value on failure is unspecified, the model returns 0.
- `ByteReader.Reader.GetChar`: the model takes C++ `char` to be signed, as on the usual targets; the sign of `char` is platform-dependent.
- `ByteReader.Reader.Seek`: a seek past the end of a writable buffer, which Qt would pad, is not modelled, because the device is read-only.
- src/CStringReader.cc and src/CStringReader.h are not part of this model. The reader follows the assertions of tests/CStringReader.cc:
  - consecutive NULs give empty strings, which the tests do not decide;
  - strings are byte sequences, so the `QString` decoding of `string()` is not modelled;
  - `ReadAll` scans with a local cursor and leaves the reader's own cursor alone.
- `Symbols.SymbolEntry.Hash`: the mixing function of `qHash` (src/SymbolEntry.cc) is not part of this model. The model uses a stand-in that depends only on the three compared fields and the seed, which is all the equality/hash consistency property relies on.
- Clock: `QDateTime::currentDateTime()` is the `now` parameter of `SetSubData`, and a null `QDateTime` is `None`.
- Disassembly results: `std::shared_ptr<Disassembler::Result>` is an opaque handle. Reference counting and sharing are not modelled.
- `Sections.Section.SetSubData`: `pos` is an unbounded integer, so a 32-bit overflow of `pos + |sub|` inside `QByteArray` is not modelled.
- `Sections.TypeName`: the fallback `return ""` after the switch (src/Section.cc:37) is unreachable for the closed enum and is not modelled.
- Format detection and parsing (src/formats/Format.h), and the widgets (src/widgets/): the parser implementations and the registry are not part of this model, and the widgets are UI code.
- Concurrency: everything here is single-threaded, as the source is.
