/**
 * Strip lookup: a pixel's byte position in the concatenated image data is
 * mapped to the strip holding it and the byte offset inside that strip by a
 * linear scan over the strip byte counts, with the reader's 32-bit running
 * total and 16-bit strip counter.
 */
module Strips {
  import opened Numeric

  /** Byte position where strip `i` begins: the sizes of the strips before it. */
  function StripStart(counts: seq<nat>, i: nat): nat
    requires i <= |counts|
  {
    Sum(counts[..i])
  }

  /**
   * `t` is the strip holding byte `ptr`: the least index whose strip ends
   * after `ptr`, or the strip count when every strip ends at or before it.
   */
  predicate IsTarget(counts: seq<nat>, ptr: nat, t: nat)
  {
    && t <= |counts|
    && StripStart(counts, t) <= ptr
    && (forall i :: 0 <= i < t ==> StripStart(counts, i) + counts[i] <= ptr)
    && (t < |counts| ==> ptr < StripStart(counts, t) + counts[t])
  }

  /** At most one strip holds a given byte. */
  lemma TargetUnique(counts: seq<nat>, ptr: nat, t1: nat, t2: nat)
    requires IsTarget(counts, ptr, t1) && IsTarget(counts, ptr, t2)
    ensures t1 == t2
  {
  }

  /** Sum of two 32-bit values, wrapped to 32 bits. */
  function Add32(a: u32, b: u32): (r: u32)
    ensures a + b < U32 ==> r == a + b
    ensures a + b >= U32 ==> r == a + b - U32
  {
    if a + b >= U32 then a + b - U32 else a + b
  }

  /**
   * The scan from strip `i` with running total `total`: stop at the first
   * strip whose end, computed in 32 bits, exceeds `ptr`. Returns the strip
   * index and the total of the strips before it.
   */
  function ScanStrips(counts: seq<u32>, ptr: u32, i: nat, total: u32): (r: (nat, u32))
    requires i <= |counts| && total <= ptr
    ensures i <= r.0 <= |counts| && r.1 <= ptr
    decreases |counts| - i
  {
    if i == |counts| || Add32(total, counts[i]) > ptr then (i, total)
    else ScanStrips(counts, ptr, i + 1, Add32(total, counts[i]))
  }

  /** A counter truncated to 16 bits. */
  function Mod16(t: nat): (r: nat)
    ensures r < U16 && (t < U16 ==> r == t)
  {
    t % U16
  }

  /** Where a byte lies: strip index and offset inside the strip. */
  datatype StripPos = StripPos(strip: nat, offset: nat)

  /**
   * The lookup shared by the three pixel reads: scan, truncate the strip
   * counter to 16 bits, and subtract the total of the preceding strips.
   */
  function LocateStrip(counts: seq<u32>, ptr: u32): (r: StripPos)
    ensures r.strip < U16 && r.offset <= ptr
  {
    var (t, total) := ScanStrips(counts, ptr, 0, 0);
    StripPos(Mod16(t), ptr - total)
  }

  /** Without 32-bit overflow of the running total, the scan finds the target strip. */
  lemma {:induction false} ScanFindsTarget(counts: seq<u32>, ptr: u32, i: nat, total: u32)
    requires i <= |counts| && total <= ptr
    requires Sum(counts) < U32
    requires total == StripStart(counts, i)
    requires forall j :: 0 <= j < i ==> StripStart(counts, j) + counts[j] <= ptr
    ensures IsTarget(counts, ptr, ScanStrips(counts, ptr, i, total).0)
    ensures ScanStrips(counts, ptr, i, total).1 == StripStart(counts, ScanStrips(counts, ptr, i, total).0)
    decreases |counts| - i
  {
    if i < |counts| {
      var next := total + counts[i];
      assert next == StripStart(counts, i + 1) < U32 by {
        SumStep(counts, i);
        SumPrefixMonotone(counts, i + 1, |counts|);
        SumWhole(counts);
      }
      if next <= ptr {
        assert ScanStrips(counts, ptr, i, total) == ScanStrips(counts, ptr, i + 1, next);
        ScanFindsTarget(counts, ptr, i + 1, next);
      } else {
        assert ScanStrips(counts, ptr, i, total) == (i, total);
      }
    }
  }

  /**
   * With fewer than 65536 strips and a total size below 2^32, the lookup
   * returns the target strip and the offset from that strip's start, and
   * the offset lies inside the strip whenever the strip exists.
   */
  lemma LocateStripCorrect(counts: seq<u32>, ptr: u32)
    requires |counts| < U16 && Sum(counts) < U32
    ensures IsTarget(counts, ptr, LocateStrip(counts, ptr).strip)
    ensures LocateStrip(counts, ptr).offset == ptr - StripStart(counts, LocateStrip(counts, ptr).strip)
    ensures LocateStrip(counts, ptr).strip < |counts| ==> LocateStrip(counts, ptr).offset < counts[LocateStrip(counts, ptr).strip]
  {
    var scan := ScanStrips(counts, ptr, 0, 0);
    ScanFindsTarget(counts, ptr, 0, 0);
    assert Mod16(scan.0) == scan.0;
    assert LocateStrip(counts, ptr) == StripPos(scan.0, ptr - scan.1);
  }

  lemma LocateStripExample()
    ensures LocateStrip([100, 100, 100], 250) == StripPos(2, 50)
    ensures LocateStrip([100, 100, 100], 300) == StripPos(3, 0)
  {
  }

  /**
   * Moving forward `d` bytes inside the same strip moves the offset by `d`
   * and keeps the strip.
   */
  lemma LocateStripShift(counts: seq<u32>, ptr: u32, d: nat)
    requires |counts| < U16 && Sum(counts) < U32
    requires ptr + d < U32
    requires LocateStrip(counts, ptr).strip < |counts|
    requires LocateStrip(counts, ptr).offset + d < counts[LocateStrip(counts, ptr).strip]
    ensures LocateStrip(counts, ptr + d) == StripPos(LocateStrip(counts, ptr).strip, LocateStrip(counts, ptr).offset + d)
  {
    var at := LocateStrip(counts, ptr);
    LocateStripCorrect(counts, ptr);
    ShiftWithinTarget(counts, ptr, d, at.strip);
    TargetIsFound(counts, ptr + d, at.strip);
  }

  /** The lookup returns any strip satisfying the target condition. */
  lemma TargetIsFound(counts: seq<u32>, ptr: u32, t: nat)
    requires |counts| < U16 && Sum(counts) < U32
    requires IsTarget(counts, ptr, t)
    ensures LocateStrip(counts, ptr) == StripPos(t, ptr - StripStart(counts, t))
  {
    var found := LocateStrip(counts, ptr);
    LocateStripCorrect(counts, ptr);
    TargetUnique(counts, ptr, t, found.strip);
  }

  lemma ShiftWithinTarget(counts: seq<nat>, ptr: nat, d: nat, t: nat)
    requires IsTarget(counts, ptr, t) && t < |counts|
    requires ptr - StripStart(counts, t) + d < counts[t]
    ensures IsTarget(counts, ptr + d, t)
  {
  }
}
