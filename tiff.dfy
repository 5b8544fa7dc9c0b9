/**
 * The preview locator of `main`: check the little-endian TIFF header, then walk the
 * entries of the first image file directory (IFD) looking for the inline
 * JPEGInterchangeFormat (513) and JPEGInterchangeFormatLength (514) tags of
 * TIFF 6.0 section 22. Every read the source makes without a bounds check is checked
 * here and reported as `OutOfBounds`.
 */
module Tiff {
  import opened Optional
  import opened LittleEndian

  /** One 12-byte directory entry: tag at +0, type at +2, count at +4, value or offset at +8. */
  datatype Entry = Entry(tag: u16, typ: u16, count: u32, value: u32)

  /** Tag 513: offset of the embedded JPEG stream. */
  const JpegInterchangeFormat: u16 := 513
  /** Tag 514: length in bytes of the embedded JPEG stream. */
  const JpegInterchangeFormatLength: u16 := 514

  /** "II*\0": byte order "II" (little-endian) and the number 42 of TIFF 6.0 section 2. */
  const Signature: seq<byte> := [0x49, 0x49, 0x2A, 0x00]

  /** `typeToByteCount`: bytes per value of BYTE, ASCII, SHORT, LONG and RATIONAL. */
  const TypeByteCounts: map<u16, nat> := map[1 := 1, 2 := 2, 3 := 2, 4 := 4, 5 := 8]

  /** `typeToByteCount[type]`: `std::map::operator[]` yields 0 for a type not in the table. */
  function TypeByteCount(typ: u16): nat
  {
    if typ in TypeByteCounts then TypeByteCounts[typ] else 0
  }

  /**
   * `int valueSize = typeToByteCount[type] * numValues`: the product is taken in 32-bit
   * unsigned arithmetic and the result read back as a two's-complement `int`.
   */
  function ValueSize(e: Entry): int
  {
    var product := TypeByteCount(e.typ) * e.count % 0x1_0000_0000;
    if product < 0x8000_0000 then product else product - 0x1_0000_0000
  }

  /** `valueOffsetIsValue`: the value field holds the value itself rather than an offset. */
  predicate IsInline(e: Entry)
  {
    ValueSize(e) <= 4
  }

  /** The twelve bytes that store `e`. */
  function EncodeEntry(e: Entry): (s: seq<byte>)
    ensures |s| == 12
  {
    EncodeU16(e.tag) + EncodeU16(e.typ) + EncodeU32(e.count) + EncodeU32(e.value)
  }

  /** The four field reads of one entry at byte offset `at`. */
  function ReadEntry(buf: seq<byte>, at: nat): Entry
    requires at + 12 <= |buf|
  {
    Entry(ReadU16(buf, at), ReadU16(buf, at + 2), ReadU32(buf, at + 4), ReadU32(buf, at + 8))
  }

  /** The twelve bytes an entry is read from are the encoding of that entry. */
  lemma EncodeReadEntry(buf: seq<byte>, at: nat)
    requires at + 12 <= |buf|
    ensures EncodeEntry(ReadEntry(buf, at)) == buf[at..at + 12]
  {
    EncodeReadU16(buf, at);
    EncodeReadU16(buf, at + 2);
    EncodeReadU32(buf, at + 4);
    EncodeReadU32(buf, at + 8);
    assert buf[at..at + 12] == buf[at..at + 2] + buf[at + 2..at + 4] + buf[at + 4..at + 8] + buf[at + 8..at + 12];
  }

  /** Where a buffer holds `x + rest` from `from` on, it holds `x` and then `rest`. */
  lemma PieceAt(buf: seq<byte>, from: nat, x: seq<byte>, rest: seq<byte>)
    requires from + |x| + |rest| <= |buf| && buf[from..from + |x| + |rest|] == x + rest
    ensures buf[from..from + |x|] == x
    ensures buf[from + |x|..from + |x| + |rest|] == rest
  {
    var w := buf[from..from + |x| + |rest|];
    assert buf[from..from + |x|] == w[..|x|];
    assert buf[from + |x|..from + |x| + |rest|] == w[|x|..];
  }

  /** Wherever the encoding of `e` sits in a buffer, the entry read there is `e`. */
  lemma ReadEntryEncoded(buf: seq<byte>, at: nat, e: Entry)
    requires at + 12 <= |buf| && buf[at..at + 12] == EncodeEntry(e)
    ensures ReadEntry(buf, at) == e
  {
    var tag, typ, count, value := EncodeU16(e.tag), EncodeU16(e.typ), EncodeU32(e.count), EncodeU32(e.value);
    assert EncodeEntry(e) == tag + (typ + (count + value));
    PieceAt(buf, at, tag, typ + (count + value));
    PieceAt(buf, at + 2, typ, count + value);
    PieceAt(buf, at + 4, count, value);
    ReadU16Encoded(buf, at, e.tag);
    ReadU16Encoded(buf, at + 2, e.typ);
    ReadU32Encoded(buf, at + 4, e.count);
    ReadU32Encoded(buf, at + 8, e.value);
  }

  /**
   * `IFDOffset + 2 + i*12`: the sum is formed in `unsigned int` before it is widened,
   * so it wraps at 2^32. With `i` the entry count it is also where the next-IFD offset lies.
   */
  function EntryOffset(ifd: u32, i: nat): (off: nat)
    ensures off < 0x1_0000_0000
  {
    (ifd + 2 + 12 * i) % 0x1_0000_0000
  }

  predicate EntryInBounds(buf: seq<byte>, ifd: u32, i: nat)
  {
    EntryOffset(ifd, i) + 12 <= |buf|
  }

  /** Entry `i` of the directory at `ifd`. */
  function EntryAt(buf: seq<byte>, ifd: u32, i: nat): Entry
    requires EntryInBounds(buf, ifd, i)
  {
    ReadEntry(buf, EntryOffset(ifd, i))
  }

  /** The outcome of comparing the first bytes with the signature, as `strncmp` does. */
  datatype HeaderCheck = Match | Mismatch | Truncated

  /**
   * `strncmp(data, "II\x2a\x00", 4)` from byte `k` on: it stops at the first byte that
   * differs, and at the literal's terminating NUL (index 3) once that byte matches too.
   * `Truncated` means it would read past the end of the buffer.
   */
  function CompareSignature(buf: seq<byte>, k: nat): (r: HeaderCheck)
    requires k < 4 && k <= |buf| && buf[..k] == Signature[..k]
    ensures r == Match <==> |buf| >= 4 && buf[..4] == Signature
    ensures r == Truncated <==> |buf| < 4 && buf == Signature[..|buf|]
    decreases 4 - k
  {
    if k == |buf| then Truncated
    else if buf[k] != Signature[k] then Mismatch
    else if Signature[k] == 0 then
      assert k == 3 && buf[..4] == buf[..k] + [buf[k]];
      Match
    else
      assert buf[..k + 1] == buf[..k] + [buf[k]];
      CompareSignature(buf, k + 1)
  }

  function CheckHeader(buf: seq<byte>): HeaderCheck
  {
    CompareSignature(buf, 0)
  }

  /** What the loop body makes of one entry. */
  datatype Step =
    | Unreadable          // the entry lies past the end of the buffer
    | SetStart(value: u32)  // inline 513
    | SetLength(value: u32) // inline 514: the loop breaks
    | BadPointer          // not inline, odd value offset: `main` returns 1
    | Skip                // any other entry

  /** The loop body on entry `i` of the directory at `ifd`. */
  function StepAt(buf: seq<byte>, ifd: u32, i: nat): Step
  {
    if !EntryInBounds(buf, ifd, i) then Unreadable
    else
      var e := EntryAt(buf, ifd, i);
      if IsInline(e) then
        if e.tag == JpegInterchangeFormat then SetStart(e.value)
        else if e.tag == JpegInterchangeFormatLength then SetLength(e.value)
        else Skip
      else if e.value % 2 != 0 then BadPointer
      else Skip
  }

  /** Where the entry walk ends. */
  datatype ScanEnd =
    | Ended(start: Option<u32>, length: Option<u32>)
    | EntryOutOfBounds
    | ValueMisaligned

  /**
   * The entry loop from entry `i` on, with `start` the preview start seen so far:
   * an inline 513 sets the start, an inline 514 gives the length and ends the walk,
   * a non-inline entry must point at an even offset, and anything else is skipped.
   */
  function ScanFrom(buf: seq<byte>, ifd: u32, count: u16, i: nat, start: Option<u32>): ScanEnd
    requires i <= count
    decreases count - i
  {
    if i == count then Ended(start, None)
    else match StepAt(buf, ifd, i)
      case Unreadable => EntryOutOfBounds
      case SetStart(v) => ScanFrom(buf, ifd, count, i + 1, Some(v))
      case SetLength(v) => Ended(start, Some(v))
      case BadPointer => ValueMisaligned
      case Skip => ScanFrom(buf, ifd, count, i + 1, start)
  }

  /** Every way the locator can end. */
  datatype Outcome =
    | EmptyFile                      // zero-length file: exit status 0
    | InvalidHeader                  // not "II*\0": exit status 1
    | NoDirectory                    // first IFD offset 0: start and length never set
    | MisalignedIfd                  // odd first IFD offset: exit status 0
    | MisalignedValue                // odd value offset in a non-inline entry: exit status 1
    | NotFound(seenStart: Option<u32>, seenLength: Option<u32>)  // 513 or 514 never set
    | OutOfBounds                    // a read past the end of the buffer
    | Found(start: u32, length: u32) // handed to the JPEG decoder

  /**
   * The locator as a function of the buffer: header, first IFD offset, entry walk, and
   * the (discarded) read of the next-IFD offset that follows the walk.
   */
  function LocatePreview(buf: seq<byte>): Outcome
  {
    if |buf| == 0 then EmptyFile
    else match CheckHeader(buf)
      case Mismatch => InvalidHeader
      case Truncated => OutOfBounds
      case Match =>
        if |buf| < 8 then OutOfBounds
        else
          var ifd := ReadU32(buf, 4);
          if ifd == 0 then NoDirectory
          else if ifd % 2 != 0 then MisalignedIfd
          else if ifd + 2 > |buf| then OutOfBounds
          else
            var count := ReadU16(buf, ifd);
            match ScanFrom(buf, ifd, count, 0, None)
            case EntryOutOfBounds => OutOfBounds
            case ValueMisaligned => MisalignedValue
            case Ended(start, length) =>
              if EntryOffset(ifd, count) + 4 > |buf| then OutOfBounds
              else if start.Some? && length.Some? then Found(start.value, length.value)
              else NotFound(start, length)
  }

  /**
   * The entry loop of `main` over the directory at `ifd` with `count` entries: it stops
   * at the first inline 514 (`break`), and returns from `main` on an odd value offset.
   */
  method ScanDirectory(buf: seq<byte>, ifd: u32, count: u16) returns (end: ScanEnd)
    ensures end == ScanFrom(buf, ifd, count, 0, None)
  {
    var previewStart: Option<u32> := None;
    var previewLength: Option<u32> := None;
    var i := 0;
    while i < count
      invariant 0 <= i <= count
      invariant previewLength.None?
      invariant ScanFrom(buf, ifd, count, i, previewStart) == ScanFrom(buf, ifd, count, 0, None)
    {
      var offset := EntryOffset(ifd, i);
      if offset + 12 > |buf| {
        return EntryOutOfBounds;
      }
      var entry := ReadEntry(buf, offset);
      if IsInline(entry) {
        if entry.tag == JpegInterchangeFormat {
          previewStart := Some(entry.value);
        } else if entry.tag == JpegInterchangeFormatLength {
          previewLength := Some(entry.value);
          break;
        }
      } else if entry.value % 2 != 0 {
        return ValueMisaligned;
      }
      i := i + 1;
    }
    end := Ended(previewStart, previewLength);
  }

  /** The header check and first-IFD walk of `main`, up to the call of the JPEG decoder. */
  method ReadPreviewRange(buf: seq<byte>) returns (r: Outcome)
    ensures r == LocatePreview(buf)
  {
    if |buf| == 0 {
      return EmptyFile;
    }
    var header := CheckHeader(buf);
    if header == Mismatch {
      return InvalidHeader;
    } else if header == Truncated {
      return OutOfBounds;
    }
    if |buf| < 8 {
      return OutOfBounds;
    }
    var firstIfdOffset := ReadU32(buf, 4);
    if firstIfdOffset == 0 {
      return NoDirectory;
    }
    if firstIfdOffset % 2 != 0 {
      return MisalignedIfd;
    }
    if firstIfdOffset + 2 > |buf| {
      return OutOfBounds;
    }
    var numDirEntries := ReadU16(buf, firstIfdOffset);
    var end := ScanDirectory(buf, firstIfdOffset, numDirEntries);
    if end == EntryOutOfBounds {
      return OutOfBounds;
    } else if end == ValueMisaligned {
      return MisalignedValue;
    }
    // The next-IFD offset is read and compared with the file size, but only the
    // first IFD is ever processed, so its value does not matter.
    var nextOffset := EntryOffset(firstIfdOffset, numDirEntries);
    if nextOffset + 4 > |buf| {
      return OutOfBounds;
    }
    var nextIfdOffset := ReadU32(buf, nextOffset);
    if end.start.Some? && end.length.Some? {
      r := Found(end.start.value, end.length.value);
    } else {
      r := NotFound(end.start, end.length);
    }
  }

  /**
   * The bytes `loadFromMemory(data + start, length)` is given, when they lie inside the
   * buffer; the source does not check this, so None marks a range past the end.
   */
  function PreviewBytes(buf: seq<byte>, start: u32, length: u32): (r: Option<seq<byte>>)
    ensures r.Some? <==> start + length <= |buf|
    ensures r.Some? ==> |r.value| == length && forall k :: 0 <= k < length ==> r.value[k] == buf[start + k]
  {
    if start + length <= |buf| then Some(buf[start..start + length]) else None
  }
}
