/** The outcomes of the whole locator, and a container built to be located. */
module LocatorProperties {
  import opened Optional
  import opened LittleEndian
  import opened Tiff
  import opened TiffProperties

  /** A type outside the table counts 0 bytes per value, so its entry is always inline. */
  lemma UnknownTypeIsInline(e: Entry)
    requires e.typ !in TypeByteCounts
    ensures ValueSize(e) == 0 && IsInline(e)
  {
  }

  /** Short of 32-bit wrap-around, an entry is inline exactly when its values fit in four bytes. */
  lemma InlineExactlyWhenValuesFit(e: Entry)
    requires TypeByteCount(e.typ) * e.count < 0x8000_0000
    ensures IsInline(e) <==> TypeByteCount(e.typ) * e.count <= 4
  {
  }

  /** The 32-bit product wraps: 2^30 LONG values (2^32 bytes) are taken as an inline value. */
  lemma WrappedValueSizeIsInline(tag: u16, value: u32)
    ensures TypeByteCount(4) * 0x4000_0000 > 4
    ensures IsInline(Entry(tag, 4, 0x4000_0000, value))
  {
  }

  /** Not every overflowing product is inline: 8 * 0x2000_0001 wraps to 8, which is not. */
  lemma WrappedValueSizeNotInline(tag: u16, value: u32)
    ensures TypeByteCount(5) * 0x2000_0001 >= 0x1_0000_0000
    ensures ValueSize(Entry(tag, 5, 0x2000_0001, value)) == 8
    ensures !IsInline(Entry(tag, 5, 0x2000_0001, value))
  {
  }

  /** Only a zero-length buffer is the benign empty outcome. */
  lemma EmptyFileExactly(buf: seq<byte>)
    ensures LocatePreview(buf) == EmptyFile <==> |buf| == 0
  {
  }

  /** A buffer of four bytes or more is rejected exactly when it does not start with "II*\0". */
  lemma InvalidHeaderExactly(buf: seq<byte>)
    requires |buf| >= 4
    ensures LocatePreview(buf) == InvalidHeader <==> buf[..4] != Signature
  {
  }

  /** A buffer too short to hold the first IFD offset never yields a preview. */
  lemma ShortBufferFails(buf: seq<byte>)
    requires |buf| < 8
    ensures LocatePreview(buf) in {EmptyFile, InvalidHeader, OutOfBounds}
  {
  }

  /** A first IFD offset of 0 means no directory, and nothing else does. */
  lemma NoDirectoryExactly(buf: seq<byte>)
    ensures LocatePreview(buf) == NoDirectory
        <==> |buf| >= 8 && buf[..4] == Signature && ReadU32(buf, 4) == 0
  {
  }

  /** An odd first IFD offset is misaligned, and nothing else is. */
  lemma MisalignedIfdExactly(buf: seq<byte>)
    ensures LocatePreview(buf) == MisalignedIfd
        <==> |buf| >= 8 && buf[..4] == Signature && ReadU32(buf, 4) % 2 == 1
  {
  }

  /** With a first IFD offset of 0 or odd, nothing after the first eight bytes is read. */
  lemma EarlyOutcomeReadsOnlyHeader(buf: seq<byte>)
    requires |buf| >= 8
    requires ReadU32(buf, 4) == 0 || ReadU32(buf, 4) % 2 == 1
    ensures LocatePreview(buf) == LocatePreview(buf[..8])
  {
    var head := buf[..8];
    assert head[..4] == buf[..4];
    assert head[4..8] == buf[4..8];
    ReadU32Local(buf, head, 4);
  }

  /** The well-formed prefix of the locator: header, a non-zero even IFD offset, and its entry count in bounds. */
  predicate DirectoryReadable(buf: seq<byte>)
  {
    |buf| >= 8 && buf[..4] == Signature
    && ReadU32(buf, 4) != 0 && ReadU32(buf, 4) % 2 == 0 && ReadU32(buf, 4) + 2 <= |buf|
  }

  /**
   * The preview is found when the walk meets an inline 514 before any failing entry,
   * with the last inline 513 before it as the start.
   */
  lemma FoundFromTags(buf: seq<byte>, j: nat, k: nat, start: u32, length: u32)
    requires DirectoryReadable(buf)
    requires var ifd := ReadU32(buf, 4);
      && j < k < ReadU16(buf, ifd)
      && AllPass(buf, ifd, 0, k)
      && StepAt(buf, ifd, j) == SetStart(start)
      && (forall j' :: j < j' < k ==> !StepAt(buf, ifd, j').SetStart?)
      && StepAt(buf, ifd, k) == SetLength(length)
      && EntryOffset(ifd, ReadU16(buf, ifd)) + 4 <= |buf|
    ensures LocatePreview(buf) == Found(start, length)
  {
    var ifd := ReadU32(buf, 4);
    var count := ReadU16(buf, ifd);
    assert buf[..4] == Signature;
    ScanStopsAtFirstLengthTag(buf, ifd, count, 0, k, None, length);
    StartIsLastStartTag(buf, ifd, 0, j, k, None, start);
  }

  /**
   * The converse: a preview is found only when the first entry that does not pass is
   * an inline 514 giving the length, and an inline 513 before it has given the start.
   */
  lemma FoundOnlyFromTags(buf: seq<byte>, start: u32, length: u32) returns (k: nat)
    requires LocatePreview(buf) == Found(start, length)
    ensures DirectoryReadable(buf)
    ensures var ifd := ReadU32(buf, 4);
      && k < ReadU16(buf, ifd) && AllPass(buf, ifd, 0, k)
      && StepAt(buf, ifd, k) == SetLength(length)
      && StartAfter(buf, ifd, 0, k, None) == Some(start)
  {
    assert |buf| >= 8 && CheckHeader(buf) == Match;
    var ifd := ReadU32(buf, 4);
    var count := ReadU16(buf, ifd);
    k := FirstEntryThatDoesNotPass(buf, ifd, count, 0);
    if k == count {
      ScanExhaustsDirectory(buf, ifd, count, 0, None);
      assert false;
    }
    match StepAt(buf, ifd, k)
    case Unreadable =>
      ScanOutOfBoundsAtFirst(buf, ifd, count, 0, k, None);
      assert false;
    case BadPointer =>
      ScanFailsAtFirstOddPointer(buf, ifd, count, 0, k, None);
      assert false;
    case SetLength(v) =>
      ScanStopsAtFirstLengthTag(buf, ifd, count, 0, k, None, v);
    case SetStart(_) =>
      assert false;
    case Skip =>
      assert false;
  }

  /** An inline 514 with no inline 513 before it leaves the start unset: not found, with the length seen. */
  lemma LengthWithoutStart(buf: seq<byte>, k: nat, length: u32)
    requires DirectoryReadable(buf)
    requires var ifd := ReadU32(buf, 4);
      && k < ReadU16(buf, ifd)
      && AllPass(buf, ifd, 0, k)
      && (forall j :: 0 <= j < k ==> !StepAt(buf, ifd, j).SetStart?)
      && StepAt(buf, ifd, k) == SetLength(length)
      && EntryOffset(ifd, ReadU16(buf, ifd)) + 4 <= |buf|
    ensures LocatePreview(buf) == NotFound(None, Some(length))
  {
    var ifd := ReadU32(buf, 4);
    var count := ReadU16(buf, ifd);
    assert buf[..4] == Signature;
    ScanStopsAtFirstLengthTag(buf, ifd, count, 0, k, None, length);
    StartUnchangedWithoutStartTag(buf, ifd, 0, k, None);
  }

  /** Without an inline 514 the walk runs out and the length is never set. */
  lemma NotFoundWithoutLengthTag(buf: seq<byte>)
    requires DirectoryReadable(buf)
    requires var ifd := ReadU32(buf, 4);
      && AllPass(buf, ifd, 0, ReadU16(buf, ifd))
      && EntryOffset(ifd, ReadU16(buf, ifd)) + 4 <= |buf|
    ensures LocatePreview(buf).NotFound? && LocatePreview(buf).seenLength.None?
  {
    var ifd := ReadU32(buf, 4);
    ScanExhaustsDirectory(buf, ifd, ReadU16(buf, ifd), 0, None);
  }

  /** An odd value offset met before any inline 514 rejects the file. */
  lemma MisalignedValueAtOddPointer(buf: seq<byte>, k: nat)
    requires DirectoryReadable(buf)
    requires var ifd := ReadU32(buf, 4);
      && k < ReadU16(buf, ifd) && AllPass(buf, ifd, 0, k) && StepAt(buf, ifd, k) == BadPointer
    ensures LocatePreview(buf) == MisalignedValue
  {
    var ifd := ReadU32(buf, 4);
    ScanFailsAtFirstOddPointer(buf, ifd, ReadU16(buf, ifd), 0, k, None);
  }

  /** `(a + b + c)[|a| .. |a| + |b|]` is `b`. */
  lemma MiddleSlice(a: seq<byte>, b: seq<byte>, c: seq<byte>)
    ensures (a + b + c)[|a|..|a| + |b|] == b
  {
  }

  /**
   * A minimal container: the header with its first IFD at offset 8, a directory of two
   * LONG entries (513 = `start`, 514 = `length`), a next-IFD offset of 0, then `tail`.
   */
  function Container(start: u32, length: u32, tail: seq<byte>): (buf: seq<byte>)
    ensures |buf| == 38 + |tail|
  {
    Signature + EncodeU32(8) + EncodeU16(2)
    + EncodeEntry(Entry(JpegInterchangeFormat, 4, 1, start))
    + EncodeEntry(Entry(JpegInterchangeFormatLength, 4, 1, length))
    + EncodeU32(0) + tail
  }

  /** The locator recovers exactly the start and length a container was built with. */
  lemma ContainerLocated(start: u32, length: u32, tail: seq<byte>)
    ensures LocatePreview(Container(start, length, tail)) == Found(start, length)
  {
    var buf := Container(start, length, tail);
    var startEntry := Entry(JpegInterchangeFormat, 4, 1, start);
    var lengthEntry := Entry(JpegInterchangeFormatLength, 4, 1, length);
    var rest := EncodeU32(0) + tail;
    assert buf == Signature + EncodeU32(8) + EncodeU16(2) + EncodeEntry(startEntry) + EncodeEntry(lengthEntry) + rest;
    MiddleSlice([], Signature, EncodeU32(8) + EncodeU16(2) + EncodeEntry(startEntry) + EncodeEntry(lengthEntry) + rest);
    assert buf[..4] == Signature;
    MiddleSlice(Signature, EncodeU32(8), EncodeU16(2) + EncodeEntry(startEntry) + EncodeEntry(lengthEntry) + rest);
    ReadU32Encoded(buf, 4, 8);
    MiddleSlice(Signature + EncodeU32(8), EncodeU16(2), EncodeEntry(startEntry) + EncodeEntry(lengthEntry) + rest);
    ReadU16Encoded(buf, 8, 2);
    MiddleSlice(Signature + EncodeU32(8) + EncodeU16(2), EncodeEntry(startEntry), EncodeEntry(lengthEntry) + rest);
    ReadEntryEncoded(buf, 10, startEntry);
    MiddleSlice(Signature + EncodeU32(8) + EncodeU16(2) + EncodeEntry(startEntry), EncodeEntry(lengthEntry), rest);
    ReadEntryEncoded(buf, 22, lengthEntry);
    assert EntryOffset(8, 0) == 10 && EntryOffset(8, 1) == 22 && EntryOffset(8, 2) == 34;
    assert StepAt(buf, 8, 0) == SetStart(start);
    assert StepAt(buf, 8, 1) == SetLength(length);
    assert ScanFrom(buf, 8, 2, 0, None) == Ended(Some(start), Some(length));
  }

  /** Build a container around preview bytes, locate it, and the located range holds those bytes. */
  lemma PreviewRoundTrip(preview: seq<byte>)
    requires |preview| < 0x1_0000_0000
    ensures var buf := Container(38, |preview|, preview);
      LocatePreview(buf) == Found(38, |preview|) && PreviewBytes(buf, 38, |preview|) == Some(preview)
  {
    var buf := Container(38, |preview|, preview);
    ContainerLocated(38, |preview|, preview);
    assert buf[38..38 + |preview|] == preview;
  }

  /** Entries (513, LONG, 1, 100) and (514, LONG, 1, 200) in a directory at offset 8 give (100, 200). */
  lemma DirectoryAtEightExample()
    ensures LocatePreview(Container(100, 200, [])) == Found(100, 200)
  {
    ContainerLocated(100, 200, []);
  }

  /** A first IFD offset of 9 is misaligned. */
  lemma OddIfdOffsetExample()
    ensures LocatePreview(Signature + EncodeU32(9)) == MisalignedIfd
  {
    var buf := Signature + EncodeU32(9);
    assert buf[..4] == Signature;
    assert buf[4..8] == EncodeU32(9);
    ReadU32Encoded(buf, 4, 9);
  }
}
