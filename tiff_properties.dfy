/**
 * What the entry walk of module Tiff promises: the first entry that does not pass
 * decides how the walk ends, and the last inline 513 before that point supplies the start.
 */
module TiffProperties {
  import opened Optional
  import opened LittleEndian
  import opened Tiff

  /** Entry `i` can be read and the walk goes on after it. */
  predicate PassesAt(buf: seq<byte>, ifd: u32, i: nat)
  {
    StepAt(buf, ifd, i).SetStart? || StepAt(buf, ifd, i).Skip?
  }

  /** Entries `i .. k-1` all pass. */
  predicate AllPass(buf: seq<byte>, ifd: u32, i: nat, k: nat)
  {
    forall j :: i <= j < k ==> PassesAt(buf, ifd, j)
  }

  /** The start after the passing entries `i .. k-1`, coming in with `s`. */
  function StartAfter(buf: seq<byte>, ifd: u32, i: nat, k: nat, s: Option<u32>): Option<u32>
    decreases k - i
  {
    if k <= i then s
    else match StepAt(buf, ifd, i)
      case SetStart(v) => StartAfter(buf, ifd, i + 1, k, Some(v))
      case _ => StartAfter(buf, ifd, i + 1, k, s)
  }

  /** Entries that are not inline 513s, pointer entries among them, leave the start alone. */
  lemma {:induction false} StartUnchangedWithoutStartTag(buf: seq<byte>, ifd: u32, i: nat, k: nat, s: Option<u32>)
    requires forall j :: i <= j < k ==> !StepAt(buf, ifd, j).SetStart?
    ensures StartAfter(buf, ifd, i, k, s) == s
    decreases k - i
  {
    if i < k {
      assert !StepAt(buf, ifd, i).SetStart?;
      StartUnchangedWithoutStartTag(buf, ifd, i + 1, k, s);
    }
  }

  /** The start is the value of the last inline 513 among the entries walked. */
  lemma {:induction false} StartIsLastStartTag(buf: seq<byte>, ifd: u32, i: nat, j: nat, k: nat, s: Option<u32>, v: u32)
    requires i <= j < k
    requires StepAt(buf, ifd, j) == SetStart(v)
    requires forall j' :: j < j' < k ==> !StepAt(buf, ifd, j').SetStart?
    ensures StartAfter(buf, ifd, i, k, s) == Some(v)
    decreases j - i
  {
    if i == j {
      StartUnchangedWithoutStartTag(buf, ifd, i + 1, k, Some(v));
    } else {
      var next := if StepAt(buf, ifd, i).SetStart? then Some(StepAt(buf, ifd, i).value) else s;
      StartIsLastStartTag(buf, ifd, i + 1, j, k, next, v);
    }
  }

  /**
   * The walk ends at the first inline 514 with its value as the length; the entries
   * after it are never looked at.
   */
  lemma {:induction false} ScanStopsAtFirstLengthTag(buf: seq<byte>, ifd: u32, count: u16, i: nat, k: nat, s: Option<u32>, v: u32)
    requires i <= k < count && AllPass(buf, ifd, i, k) && StepAt(buf, ifd, k) == SetLength(v)
    ensures ScanFrom(buf, ifd, count, i, s) == Ended(StartAfter(buf, ifd, i, k, s), Some(v))
    decreases k - i
  {
    if i < k {
      assert PassesAt(buf, ifd, i);
      var next := if StepAt(buf, ifd, i).SetStart? then Some(StepAt(buf, ifd, i).value) else s;
      ScanStopsAtFirstLengthTag(buf, ifd, count, i + 1, k, next, v);
    }
  }

  /** A non-inline entry with an odd offset, reached before any 514, fails the walk. */
  lemma {:induction false} ScanFailsAtFirstOddPointer(buf: seq<byte>, ifd: u32, count: u16, i: nat, k: nat, s: Option<u32>)
    requires i <= k < count && AllPass(buf, ifd, i, k) && StepAt(buf, ifd, k) == BadPointer
    ensures ScanFrom(buf, ifd, count, i, s) == ValueMisaligned
    decreases k - i
  {
    if i < k {
      assert PassesAt(buf, ifd, i);
      var next := if StepAt(buf, ifd, i).SetStart? then Some(StepAt(buf, ifd, i).value) else s;
      ScanFailsAtFirstOddPointer(buf, ifd, count, i + 1, k, next);
    }
  }

  /** An entry past the end of the buffer, reached before any 514, ends the walk out of bounds. */
  lemma {:induction false} ScanOutOfBoundsAtFirst(buf: seq<byte>, ifd: u32, count: u16, i: nat, k: nat, s: Option<u32>)
    requires i <= k < count && AllPass(buf, ifd, i, k) && !EntryInBounds(buf, ifd, k)
    ensures ScanFrom(buf, ifd, count, i, s) == EntryOutOfBounds
    decreases k - i
  {
    if i < k {
      assert PassesAt(buf, ifd, i);
      var next := if StepAt(buf, ifd, i).SetStart? then Some(StepAt(buf, ifd, i).value) else s;
      ScanOutOfBoundsAtFirst(buf, ifd, count, i + 1, k, next);
    }
  }

  /** When every entry passes, the walk runs to the entry count without a length. */
  lemma {:induction false} ScanExhaustsDirectory(buf: seq<byte>, ifd: u32, count: u16, i: nat, s: Option<u32>)
    requires i <= count && AllPass(buf, ifd, i, count)
    ensures ScanFrom(buf, ifd, count, i, s) == Ended(StartAfter(buf, ifd, i, count, s), None)
    decreases count - i
  {
    if i < count {
      assert PassesAt(buf, ifd, i);
      var next := if StepAt(buf, ifd, i).SetStart? then Some(StepAt(buf, ifd, i).value) else s;
      ScanExhaustsDirectory(buf, ifd, count, i + 1, next);
    }
  }

  /**
   * The four lemmas above cover every buffer: either all entries pass, or there is a
   * first entry that does not, and it is out of bounds, an odd pointer or an inline 514.
   */
  lemma {:induction false} FirstEntryThatDoesNotPass(buf: seq<byte>, ifd: u32, count: u16, i: nat)
    returns (k: nat)
    requires i <= count
    ensures i <= k <= count && AllPass(buf, ifd, i, k)
    ensures k < count ==> !PassesAt(buf, ifd, k)
    decreases count - i
  {
    if i == count || !PassesAt(buf, ifd, i) {
      k := i;
    } else {
      k := FirstEntryThatDoesNotPass(buf, ifd, count, i + 1);
    }
  }
}

