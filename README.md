# arw-preview: the TIFF preview locator, in Dafny

arw-preview shows the JPEG preview embedded in a Sony ARW raw file. An ARW file is a
little-endian TIFF container. The part modelled here takes the file's bytes and finds
the `(start, length)` byte range of the preview. It does four things:

- It checks the little-endian TIFF signature `49 49 2A 00` ("II*\0", TIFF 6.0
  section 2, "Image File Header").
- It reads the offset of the first image file directory (IFD).
- It walks that directory's 12-byte entries and sizes each value with the type table
  `{1:1, 2:2, 3:2, 4:4, 5:8}`.
- It captures the inline values of tags 513 (JPEGInterchangeFormat) and 514
  (JPEGInterchangeFormatLength) of TIFF 6.0 section 22.

The model also covers `read_uint16`, `read_uint32` and `base_path`.

Files and modules:

- `optional.dfy`, module `Optional`: `Option`.
- `little_endian.dfy`, module `LittleEndian`: byte, `u16` and `u32` types, the two
  readers, the matching little-endian encoders, and round-trip lemmas.
- `paths.dfy`, module `Paths`: `rfind('/')` and `base_path`.
- `tiff.dfy`, module `Tiff`: the entry layout and the type table.
  - `StepAt` is what the loop body does with one entry.
  - `ScanFrom` is the entry walk, as a recursive function.
  - `LocatePreview` is the whole locator, as a function.
  - `ScanDirectory` is the entry walk as a method with a `while` loop, proved equal
    to `ScanFrom`.
  - `ReadPreviewRange` is the locator as a method. It runs the checks in `main`'s
    order, reads the entry count, calls `ScanDirectory`, and is proved equal to
    `LocatePreview`.
- `tiff_properties.dfy`, module `TiffProperties`: how the first entry that does not
  pass decides the walk, and which entry supplies the start.
- `locator_properties.dfy`, module `LocatorProperties`: the outcome of the whole
  locator under each condition. It also shows that a container built around known
  preview bytes is located exactly.

### Modelling choices

- **Buffer.** The buffer is an immutable `seq<byte>`. The source's `mmap` of the file
  is replaced by this parameter.
- **Reads past the end.** The source reads without any bounds check. In the model,
  every read past the end of the buffer gives `OutOfBounds`.
- **The header compare.** The header compare is `strncmp(data, "II\x2a\x00", 4)`. It
  compares byte by byte, stops at the first byte that differs, and stops at the NUL
  that ends the literal (index 3). So a buffer of 1 to 3 bytes is `InvalidHeader` if
  one of its bytes already differs. If all of its bytes match, it is `OutOfBounds`,
  because `strncmp` would read past the end.
- **Entry offsets wrap at 2^32.** The entry offset `IFDOffset + 2 + i*12` is computed
  modulo 2^32. The sum is formed in `unsigned int` before it is widened to
  `unsigned long long`. The next-IFD offset is computed the same way.
- **Value size wraps at 2^32.** `valueSize` is the 32-bit unsigned product
  `typeToByteCount[type] * numValues`, read back as a two's-complement `int`. A
  product that is 2^31 or more after wrapping reads back as a negative `int`, so it
  counts as inline. So does a product that wraps to 0..4 (see
  `WrappedValueSizeIsInline`). Any other product is not inline (see
  `WrappedValueSizeNotInline`).
- **Unknown types.** A type not in the table has size 0, which is what
  `std::map::operator[]` returns. Such an entry is always inline.
- **Missing start or length.** If tag 513 or 514 is never captured, the source uses an
  uninitialised variable. The model returns `NotFound(seenStart, seenLength)` instead.
- **First IFD offset 0.** The source breaks out of the IFD loop and then uses start
  and length uninitialised. The model returns `NoDirectory`.
- **Exit statuses.** The constructors keep the source's inconsistent exit statuses apart:
  - `EmptyFile` and `MisalignedIfd` exit with status 0.
  - `InvalidHeader` and `MisalignedValue` exit with status 1.
- **The next-IFD offset.** After the walk, both after the `break` at 514 and after the
  last entry, the source reads the next-IFD offset. The model bounds-checks that read
  and discards its value. The outer IFD loop runs once, so the value cannot matter.

### Where the code and its description differ

In each case below the model follows the code.

- An odd first IFD offset ends the program with status 0. It is not treated as a hard
  failure.
- An unknown entry type is not rejected. It silently has size 0.
- The source does not check `start + length` against the file size. `LocatePreview`
  returns `Found` regardless. `PreviewBytes` is a separate, checked view of the range
  that is handed to the decoder.

## Model

| member | source | states |
|---|---|---|
| LittleEndian.EncodeU16 | main.cpp:29-31 | the little-endian encoding of a 16-bit value is two bytes |
| LittleEndian.EncodeU32 | main.cpp:33-35 | the little-endian encoding of a 32-bit value is four bytes |
| LittleEndian.ReadU16 | main.cpp:29-31 | `read_uint16` yields a value below 2^16 |
| LittleEndian.ReadU32 | main.cpp:33-35 | `read_uint32` yields a value below 2^32 |
| LittleEndian.EncodeReadU16 | main.cpp:29-31 | the two bytes read are the little-endian encoding of the result: the low byte first, then the high byte |
| LittleEndian.EncodeReadU32 | main.cpp:33-35 | the four bytes read are the little-endian encoding of the result: b0 + 2^8 b1 + 2^16 b2 + 2^24 b3 |
| LittleEndian.DecodeEncodeU16 | main.cpp:29-31 | reading back the encoding of any 16-bit value gives that value |
| LittleEndian.DecodeEncodeU32 | main.cpp:33-35 | reading back the encoding of any 32-bit value gives that value |
| LittleEndian.ReadU16Encoded | main.cpp:29-31 | wherever the encoding of x lies in a buffer, `read_uint16` there yields x |
| LittleEndian.ReadU32Encoded | main.cpp:33-35 | wherever the encoding of x lies in a buffer, `read_uint32` there yields x |
| LittleEndian.ReadU32Local | main.cpp:33-35 | a 32-bit read depends only on its own four bytes |
| LittleEndian.ReadU16Example | main.cpp:29-31 | bytes 34 12 decode to 0x1234 |
| LittleEndian.ReadU32Example | main.cpp:33-35 | bytes 78 56 34 12 decode to 0x12345678 |
| Paths.LastSlash | main.cpp:74-75 | `rfind('/')` gives None exactly when the path has no slash; otherwise an index holding a slash with no slash after it |
| Paths.BasePath | main.cpp:73-78 | the result holds no slash and is a suffix of the path; it is the whole path when there is no slash, and otherwise it follows a slash |
| Paths.BasePathIdempotent | main.cpp:73-78 | taking the base path twice gives the same result as once |
| Paths.BasePathOfJoin | main.cpp:73-78 | the base path of `dir/name`, with `name` slash-free, is `name` |
| Tiff.TypeByteCount | main.cpp:134-140 | the type table, with 0 for a type not in it as `std::map::operator[]` gives; pinned down by `UnknownTypeIsInline` and `InlineExactlyWhenValuesFit` |
| Tiff.ValueSize | main.cpp:174 | the 32-bit product of table size and count, read as a signed `int`; pinned down by `InlineExactlyWhenValuesFit` and `WrappedValueSizeIsInline` |
| Tiff.IsInline | main.cpp:176 | an entry is inline when its value size is at most 4; see the three size lemmas |
| Tiff.ReadEntry | main.cpp:169-172 | the four field reads of one entry; pinned down by `EncodeReadEntry` and `ReadEntryEncoded` |
| Tiff.StepAt | main.cpp:174-196 | what the loop body does with one entry: unreadable, sets the start, sets the length, odd pointer, or skipped |
| Tiff.ScanFrom | main.cpp:167-197 | the entry walk as a recursive function; pinned down by the `TiffProperties` walk lemmas |
| Tiff.LocatePreview | main.cpp:111-206 | the whole locator as a function; pinned down by the `LocatorProperties` outcome lemmas |
| Tiff.EncodeEntry | main.cpp:168-172 | an IFD entry occupies 12 bytes |
| Tiff.EncodeReadEntry | main.cpp:168-172 | the 12 bytes an entry is read from are its encoding: tag at +0, type at +2, count at +4, value or offset at +8 |
| Tiff.ReadEntryEncoded | main.cpp:168-172 | wherever the encoding of an entry lies, reading an entry there yields that entry |
| Tiff.EntryOffset | main.cpp:168 | entry i lies at `IFDOffset + 2 + 12 i`, taken modulo 2^32, so it is below 2^32 |
| Tiff.CompareSignature | main.cpp:119-123 | the header matches exactly when the first four bytes are 49 49 2A 00, whatever follows; it would read past the end exactly when the buffer is shorter than four bytes and all its bytes match the signature |
| Tiff.ScanDirectory | main.cpp:167-197 | the entry loop, including its `break` at 514 and its early return on an odd value offset, yields exactly the recursive walk `ScanFrom` from entry 0 |
| Tiff.ReadPreviewRange | main.cpp:111-206 | the locator in `main`, from the empty-file check to the next-IFD read, yields exactly `LocatePreview` of the buffer |
| Tiff.PreviewBytes | main.cpp:208 | the range given to the JPEG decoder is inside the buffer exactly when start + length does not exceed its size, and then it holds the buffer's bytes start .. start + length - 1 |
| TiffProperties.StartUnchangedWithoutStartTag | main.cpp:180-196 | entries that are not inline 513s, pointer entries among them, never change the start |
| TiffProperties.StartIsLastStartTag | main.cpp:180-186 | the start is the value of the last inline 513 walked |
| TiffProperties.ScanStopsAtFirstLengthTag | main.cpp:167-197 | the walk visits entries in increasing order and ends at the first inline 514, with its value as the length; no later entry affects the result |
| TiffProperties.ScanFailsAtFirstOddPointer | main.cpp:188-193 | a non-inline entry with an odd value offset, met before any inline 514, ends the walk with the misaligned-value failure |
| TiffProperties.ScanOutOfBoundsAtFirst | main.cpp:168-172 | an entry past the end of the buffer, met before any inline 514, ends the walk out of bounds |
| TiffProperties.ScanExhaustsDirectory | main.cpp:167-197 | when every entry passes, the walk runs through all entries and the length stays unset |
| TiffProperties.FirstEntryThatDoesNotPass | main.cpp:167-197 | for every buffer, either all entries pass or a first entry does not, so the four walk lemmas cover every case |
| LocatorProperties.UnknownTypeIsInline | main.cpp:174-176 | a type outside the table counts 0 bytes, so its entry is always inline |
| LocatorProperties.InlineExactlyWhenValuesFit | main.cpp:134-140 | short of 32-bit wrap-around, an entry is inline exactly when its table size times its count is at most 4 |
| LocatorProperties.WrappedValueSizeIsInline | main.cpp:174-176 | 2^30 LONG values (2^32 bytes) wrap to size 0 and are taken as inline |
| LocatorProperties.WrappedValueSizeNotInline | main.cpp:174-176 | a type-5 entry with count 0x2000_0001 overflows to size 8 and is not inline |
| LocatorProperties.EmptyFileExactly | main.cpp:111-115 | the outcome is the benign empty one exactly when the buffer is empty |
| LocatorProperties.InvalidHeaderExactly | main.cpp:119-123 | a buffer of at least four bytes is rejected as an invalid header exactly when it does not start with 49 49 2A 00 |
| LocatorProperties.ShortBufferFails | main.cpp:111-150 | a buffer shorter than eight bytes ends empty, with an invalid header, or out of bounds, but never with a preview |
| LocatorProperties.NoDirectoryExactly | main.cpp:150-156 | the outcome is no-directory exactly when the header is valid and the first IFD offset is 0 |
| LocatorProperties.MisalignedIfdExactly | main.cpp:158-162 | the outcome is a misaligned IFD exactly when the header is valid and the first IFD offset is odd |
| LocatorProperties.EarlyOutcomeReadsOnlyHeader | main.cpp:150-162 | with a first IFD offset of 0 or odd, the outcome depends only on the first eight bytes, so no entry count or entry is read |
| LocatorProperties.FoundFromTags | main.cpp:164-208 | when an inline 514 follows passing entries, the last inline 513 before it gives the start and the 514 gives the length |
| LocatorProperties.FoundOnlyFromTags | main.cpp:131-208 | conversely, a preview is found only when the first entry that does not pass is an inline 514 giving the length, and the start is the value of an inline 513 before it; no preview comes from an unset tag |
| LocatorProperties.LengthWithoutStart | main.cpp:180-186 | an inline 514 with no inline 513 before it yields not-found, with no start and the length seen |
| LocatorProperties.NotFoundWithoutLengthTag | main.cpp:167-208 | a directory without an inline 514 yields not-found with no length |
| LocatorProperties.MisalignedValueAtOddPointer | main.cpp:188-193 | an odd value offset in a non-inline entry, met before any inline 514, rejects the file with the misaligned-value outcome |
| LocatorProperties.ContainerLocated | main.cpp:119-206 | a container built with start s and length l is located as exactly (s, l) |
| LocatorProperties.PreviewRoundTrip | main.cpp:119-208 | a container built around preview bytes is located, and the located range holds exactly those bytes |
| LocatorProperties.DirectoryAtEightExample | main.cpp:164-186 | a directory at offset 8 with entries (513, LONG, 1, 100) and (514, LONG, 1, 200) gives (100, 200) |
| LocatorProperties.OddIfdOffsetExample | main.cpp:158-162 | a first IFD offset of 9 gives the misaligned-IFD outcome |

## Left out

- Opening, `fstat`, the regular-file check, `mmap`, `munmap`, `close` and `cleanup`
  (main.cpp:24-27, 89-109, 117) are OS I/O. The file's contents are the `buf` parameter.
- The page of zeros that `mmap` maps past the end of a short file is not modelled. A
  read past the end is `OutOfBounds`.
- `previewImage.loadFromMemory` (main.cpp:208) is a foreign JPEG decoder. The model
  ends at the `(start, length)` pair. `PreviewBytes` gives the bytes it would receive.
- `get_letterbox_view` (main.cpp:38-70) is floating-point view arithmetic.
- The window, the event loop, textures, sprites, and `usage` printing (main.cpp:19-22,
  216-249) are UI and console output. `base_path` is modelled on its own, not as the
  window title.
- Exit statuses are not modelled as values. The comments on the `Outcome` constructors
  record which status each one ends with.
- Paths are Dafny `string`s, sequences of Unicode characters. `base_path` works on
  the bytes of `argv[1]`, so a path that is not valid text has no counterpart in the
  model. For `/` itself the two agree.
- Following the next-IFD offset is left out. Its comparison with the file size
  (main.cpp:199-203) has no effect, because the outer loop runs once. The read itself
  is kept, bounds-checked, with its value discarded.
