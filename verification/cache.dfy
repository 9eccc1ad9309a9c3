/**
 * The single-slot window cache behind `get_pixel`: a page that reserved a
 * slot keeps one window of one strip's bytes; a request inside the window
 * reads from it, any other request reloads the window from the requested
 * byte on, at most the fixed window size and never past the strip's end.
 */
module WindowCache {
  import opened Numeric
  import opened ByteOrder
  import opened TiffTypes
  import opened Strips
  import opened Pixels

  /** The slot's bookkeeping (strip, in-strip start, length) and the bytes loaded into its window. */
  datatype CacheSlot = CacheSlot(strip: nat, start: nat, len: nat, data: seq<byte>)

  /**
   * The window holds exactly the file bytes the last load read: `len` bytes
   * from the strip's offset plus `start`, that sum taken in 32 bits.
   */
  predicate SlotCoherent(p: Page, file: seq<byte>, s: CacheSlot)
  {
    && s.strip < |p.stripOffsets| && s.start < U32
    && s.data == Slice(file, Add32(p.stripOffsets[s.strip], s.start), s.len)
  }

  /** The slot after a request, and where in its window the pixel is read. */
  datatype Fetch = Fetch(slot: CacheSlot, readPos: nat)

  /** Bytes of a strip from `off` to its end, as the 32-bit difference `count - off`. */
  function Remain(count: u32, off: nat): (r: nat)
    requires off < U32
    ensures off <= count ==> r == count - off
    ensures r < U32
  {
    if off <= count then count - off else count + U32 - off
  }

  /** The strip found for a request has both an offset and a byte count. */
  predicate StripKnown(p: Page, t: nat)
  {
    t < |p.stripOffsets| && t < |p.stripByteCounts|
  }

  /** A miss: load the window from `off`, `min(window size, bytes left in the strip)` bytes. */
  function Reload(p: Page, file: seq<byte>, bufSize: nat, t: nat, off: nat): (r: Fetch)
    requires StripKnown(p, t) && off < U32
    ensures r.readPos == 0
    ensures r.slot.strip == t && r.slot.start == off
    ensures r.slot.len == Min(bufSize, Remain(p.stripByteCounts[t], off))
    ensures SlotCoherent(p, file, r.slot)
  {
    var size := Min(bufSize, Remain(p.stripByteCounts[t], off));
    Fetch(CacheSlot(t, off, size, Slice(file, Add32(p.stripOffsets[t], off), size)), 0)
  }

  /** The hit test of the source: same strip and the pixel's first byte inside the window. */
  predicate HitAsWritten(s: CacheSlot, t: nat, off: nat)
  {
    s.strip == t && s.start <= off && off < s.start + s.len
  }

  /**
   * On a hit the window byte read is file byte `Add32(offset, start) + (off - start)`, while
   * the direct read takes `Add32(offset, off)`: the two agree unless the window starts
   * below 2^32 and the pixel lies at or above it.
   */
  predicate WrapSafe(p: Page, s: CacheSlot, t: nat, off: nat)
    requires t < |p.stripOffsets|
  {
    s.strip == t && s.start <= off && p.stripOffsets[t] + s.start < U32 ==> p.stripOffsets[t] + off < U32
  }

  /** The intended hit test: same strip and the whole pixel inside the window. */
  predicate Hit(s: CacheSlot, t: nat, off: nat, bpp: nat)
  {
    s.strip == t && s.start <= off && off + bpp <= s.start + s.len
  }

  /**
   * The slot update as the source writes it. On a hit the slot is unchanged
   * and the read position is `off - start`; on a miss the window is
   * reloaded at `off` and read from 0. Either way, a coherent slot stays
   * coherent, and when `off` is inside the strip the window covers it and
   * holds that file byte at the read position.
   */
  function FetchWindowAsWritten(p: Page, file: seq<byte>, bufSize: nat, s: CacheSlot, t: nat, off: nat): (r: Fetch)
    requires StripKnown(p, t) && off < U32
    ensures HitAsWritten(s, t, off) ==> r.slot == s && r.readPos == off - s.start
    ensures !HitAsWritten(s, t, off) ==> r == Reload(p, file, bufSize, t, off)
    ensures SlotCoherent(p, file, s) ==> SlotCoherent(p, file, r.slot)
    ensures bufSize > 0 && off < p.stripByteCounts[t] ==>
      r.slot.strip == t && r.slot.start <= off < r.slot.start + r.slot.len && r.readPos == off - r.slot.start
    ensures SlotCoherent(p, file, s) && WrapSafe(p, s, t, off) && bufSize > 0 && off < p.stripByteCounts[t] ==>
      r.slot.data[r.readPos..r.readPos + 1] == Slice(file, Add32(p.stripOffsets[t], off), 1)
  {
    var r := if HitAsWritten(s, t, off) then Fetch(s, off - s.start) else Reload(p, file, bufSize, t, off);
    if SlotCoherent(p, file, r.slot) && r.readPos < r.slot.len && r.slot.strip == t && r.slot.start <= off
      && (p.stripOffsets[t] + r.slot.start < U32 ==> p.stripOffsets[t] + off < U32)
    then
      WindowPosition(p, file, r.slot, t, off, 1);
      r
    else
      r
  }

  /**
   * In a coherent window of strip `t` that starts at or before `off`, the
   * `w` bytes at `off - start` are the file bytes at the pixel's position,
   * provided the window and the pixel lie on the same side of the 32-bit wrap.
   */
  lemma WindowPosition(p: Page, file: seq<byte>, s: CacheSlot, t: nat, off: nat, w: nat)
    requires SlotCoherent(p, file, s) && s.strip == t && s.start <= off < U32
    requires off - s.start + w <= s.len
    requires p.stripOffsets[t] + s.start < U32 ==> p.stripOffsets[t] + off < U32
    ensures s.data[off - s.start..off - s.start + w] == Slice(file, Add32(p.stripOffsets[t], off), w)
  {
    var o := p.stripOffsets[t];
    SliceOfSlice(file, Add32(o, s.start), s.len, off - s.start, w);
    assert Add32(o, s.start) + (off - s.start) == Add32(o, off);
  }

  /**
   * The corrected slot update: a hit needs the whole pixel in the window.
   * A coherent slot stays coherent, and a pixel that lies inside its strip
   * and fits the window size is read from the window as its file bytes.
   */
  function FetchWindow(p: Page, file: seq<byte>, bufSize: nat, s: CacheSlot, t: nat, off: nat, bpp: nat): (r: Fetch)
    requires StripKnown(p, t) && off < U32
    ensures Hit(s, t, off, bpp) ==> r.slot == s && r.readPos == off - s.start
    ensures !Hit(s, t, off, bpp) ==> r == Reload(p, file, bufSize, t, off)
    ensures SlotCoherent(p, file, s) ==> SlotCoherent(p, file, r.slot)
    ensures SlotCoherent(p, file, s) && WrapSafe(p, s, t, off) && bpp <= bufSize && off + bpp <= p.stripByteCounts[t] ==>
      r.readPos + bpp <= r.slot.len && Slice(r.slot.data, r.readPos, bpp) == Slice(file, Add32(p.stripOffsets[t], off), bpp)
  {
    var r := if Hit(s, t, off, bpp) then Fetch(s, off - s.start) else Reload(p, file, bufSize, t, off);
    if SlotCoherent(p, file, r.slot) && r.readPos + bpp <= r.slot.len && r.slot.strip == t && r.slot.start <= off
      && (p.stripOffsets[t] + r.slot.start < U32 ==> p.stripOffsets[t] + off < U32)
    then
      WindowPosition(p, file, r.slot, t, off, bpp);
      r
    else
      r
  }

  /**
   * When the whole pixel is inside the window on a hit, the source's update
   * is the corrected one.
   */
  lemma AsWrittenIsCorrectedWhenPixelFits(p: Page, file: seq<byte>, bufSize: nat, s: CacheSlot, t: nat, off: nat, bpp: nat)
    requires StripKnown(p, t) && off < U32 && bpp > 0
    requires HitAsWritten(s, t, off) ==> off + bpp <= s.start + s.len
    ensures FetchWindowAsWritten(p, file, bufSize, s, t, off) == FetchWindow(p, file, bufSize, s, t, off, bpp)
  {
  }

  /** The strip found for (x, y) has an offset and a byte count, and the samples fit the channels. */
  predicate CachedReadDefined(p: Page, x: u16, y: u16)
  {
    StripKnown(p, PixelAt(p, x, y).strip) && Unpackable(p.bitPerSamples)
  }

  /**
   * What `get_pixel` needs of (x, y): without a slot it is the direct read,
   * which looks up only the strip's offset; with one, the window load also
   * takes the strip's byte count.
   */
  predicate ReadDefined(p: Page, slot: Option<CacheSlot>, x: u16, y: u16)
  {
    if slot.None? then Addressable(p, x, y) && Unpackable(p.bitPerSamples) else CachedReadDefined(p, x, y)
  }

  /**
   * The pixel lies inside its strip and is no wider than the window, and
   * its samples lie inside its bytes, so that the bytes after it (in the
   * window or in the direct read's buffer) are never unpacked.
   */
  predicate PixelFits(p: Page, bufSize: nat, x: u16, y: u16)
    requires CachedReadDefined(p, x, y)
  {
    && p.bytePerPixel <= bufSize && PixelAt(p, x, y).offset + p.bytePerPixel <= p.stripByteCounts[PixelAt(p, x, y).strip]
    && SamplesInPixel(p)
  }

  /** A coherent slot whose window and the pixel lie on the same side of the 32-bit wrap. */
  predicate SlotServes(p: Page, file: seq<byte>, s: CacheSlot, x: u16, y: u16)
    requires CachedReadDefined(p, x, y)
  {
    SlotCoherent(p, file, s) && WrapSafe(p, s, PixelAt(p, x, y).strip, PixelAt(p, x, y).offset)
  }

  /** The pixel's bytes as the corrected read takes them from the window. */
  function WindowPixel(f: Fetch, bpp: nat): seq<byte>
  {
    Slice(f.slot.data, f.readPos, bpp)
  }

  /**
   * The pixel's bytes as the source takes them from the slot's memory: the
   * loaded window followed by `beyond`, whatever the memory after the loaded
   * bytes holds (bytes of an earlier, longer load, or memory past the buffer).
   */
  function WindowPixelAsWritten(f: Fetch, bpp: nat, beyond: seq<byte>): seq<byte>
  {
    Slice(f.slot.data + beyond, f.readPos, bpp)
  }

  /**
   * `get_pixel` as written: without a slot it is the direct read; with one,
   * the slot is updated with the source's hit test and the pixel unpacked
   * from the slot's memory over a cleared colour. The colour is the direct
   * read's whenever a hit has the whole pixel inside the window; it can
   * differ only on a hit whose pixel runs past the window's end.
   */
  function GetPixelAsWritten(p: Page, file: seq<byte>, extract: Extractor, bufSize: nat, slot: Option<CacheSlot>, beyond: seq<byte>, x: u16, y: u16): (r: (Color, Option<CacheSlot>))
    requires ReadDefined(p, slot, x, y)
    ensures slot.None? ==> r == (GetPixelWithoutBuffering(p, file, extract, x, y), None)
    ensures slot.Some? ==> r.1.Some? && (SlotCoherent(p, file, slot.value) ==> SlotCoherent(p, file, r.1.value))
    ensures (slot.Some? && SlotServes(p, file, slot.value, x, y) && PixelFits(p, bufSize, x, y)
      && (HitAsWritten(slot.value, PixelAt(p, x, y).strip, PixelAt(p, x, y).offset) ==>
            PixelAt(p, x, y).offset + p.bytePerPixel <= slot.value.start + slot.value.len)) ==>
      r.0 == GetPixelWithoutBuffering(p, file, extract, x, y)
  {
    match slot
    case None => (GetPixelWithoutBuffering(p, file, extract, x, y), None)
    case Some(s) =>
      var at := PixelAt(p, x, y);
      var f := FetchWindowAsWritten(p, file, bufSize, s, at.strip, at.offset);
      var buf := WindowPixelAsWritten(f, p.bytePerPixel, beyond);
      if SlotServes(p, file, s, x, y) && PixelFits(p, bufSize, x, y)
        && (HitAsWritten(s, at.strip, at.offset) ==> at.offset + p.bytePerPixel <= s.start + s.len)
      then
        AsWrittenReadsPixel(p, file, bufSize, s, beyond, x, y);
        (Unpack(extract, buf, p.bitPerSamples, Cleared), Some(f.slot))
      else
        (Unpack(extract, buf, p.bitPerSamples, Cleared), Some(f.slot))
  }

  /** The corrected read takes exactly the pixel's file bytes from a slot that serves it. */
  lemma CorrectedReadsPixel(p: Page, file: seq<byte>, bufSize: nat, s: CacheSlot, x: u16, y: u16)
    requires CachedReadDefined(p, x, y) && SlotServes(p, file, s, x, y) && PixelFits(p, bufSize, x, y)
    ensures var at := PixelAt(p, x, y);
      WindowPixel(FetchWindow(p, file, bufSize, s, at.strip, at.offset, p.bytePerPixel), p.bytePerPixel)
        == Slice(file, PixelBase(p, x, y), p.bytePerPixel)
  {
  }

  /** The source's read does too, when a hit has the whole pixel inside the window. */
  lemma AsWrittenReadsPixel(p: Page, file: seq<byte>, bufSize: nat, s: CacheSlot, beyond: seq<byte>, x: u16, y: u16)
    requires CachedReadDefined(p, x, y) && SlotServes(p, file, s, x, y) && PixelFits(p, bufSize, x, y)
    requires HitAsWritten(s, PixelAt(p, x, y).strip, PixelAt(p, x, y).offset) ==>
      PixelAt(p, x, y).offset + p.bytePerPixel <= s.start + s.len
    ensures var at := PixelAt(p, x, y);
      WindowPixelAsWritten(FetchWindowAsWritten(p, file, bufSize, s, at.strip, at.offset), p.bytePerPixel, beyond)
        == Slice(file, PixelBase(p, x, y), p.bytePerPixel)
  {
    var at := PixelAt(p, x, y);
    var bpp := p.bytePerPixel;
    if bpp > 0 {
      AsWrittenIsCorrectedWhenPixelFits(p, file, bufSize, s, at.strip, at.offset, bpp);
      var f := FetchWindow(p, file, bufSize, s, at.strip, at.offset, bpp);
      CorrectedReadsPixel(p, file, bufSize, s, x, y);
      assert (f.slot.data + beyond)[f.readPos..f.readPos + bpp] == f.slot.data[f.readPos..f.readPos + bpp];
    }
  }

  /**
   * `get_pixel` with the corrected hit test. From a slot that serves the
   * pixel, a pixel that fits (`PixelFits`) reads exactly as the direct read does, and the slot stays coherent.
   */
  function GetPixel(p: Page, file: seq<byte>, extract: Extractor, bufSize: nat, slot: Option<CacheSlot>, x: u16, y: u16): (r: (Color, Option<CacheSlot>))
    requires ReadDefined(p, slot, x, y)
    ensures slot.None? ==> r == (GetPixelWithoutBuffering(p, file, extract, x, y), None)
    ensures slot.Some? ==> r.1.Some? && (SlotCoherent(p, file, slot.value) ==> SlotCoherent(p, file, r.1.value))
    ensures slot.Some? && SlotServes(p, file, slot.value, x, y) && PixelFits(p, bufSize, x, y) ==>
      r.0 == GetPixelWithoutBuffering(p, file, extract, x, y)
  {
    match slot
    case None => (GetPixelWithoutBuffering(p, file, extract, x, y), None)
    case Some(s) =>
      var at := PixelAt(p, x, y);
      var f := FetchWindow(p, file, bufSize, s, at.strip, at.offset, p.bytePerPixel);
      if SlotServes(p, file, s, x, y) && PixelFits(p, bufSize, x, y) then
        CorrectedReadsPixel(p, file, bufSize, s, x, y);
        (Unpack(extract, WindowPixel(f, p.bytePerPixel), p.bitPerSamples, Cleared), Some(f.slot))
      else
        (Unpack(extract, WindowPixel(f, p.bytePerPixel), p.bitPerSamples, Cleared), Some(f.slot))
  }

  /**
   * Every requested pixel is readable, lies inside its strip, fits the
   * window size and holds its samples in its bytes, and its strip ends below file position 2^32 (as every strip
   * of a file with 32-bit offsets does).
   */
  predicate AllCacheable(p: Page, bufSize: nat, coords: seq<(u16, u16)>)
  {
    forall i :: 0 <= i < |coords| ==>
      && CachedReadDefined(p, coords[i].0, coords[i].1)
      && PixelFits(p, bufSize, coords[i].0, coords[i].1)
      && p.stripOffsets[PixelAt(p, coords[i].0, coords[i].1).strip] + p.stripByteCounts[PixelAt(p, coords[i].0, coords[i].1).strip] < U32
  }

  predicate SlotReady(p: Page, file: seq<byte>, slot: Option<CacheSlot>)
  {
    slot.None? || SlotCoherent(p, file, slot.value)
  }

  /**
   * A run of `get_pixel` calls threading the page's slot. Starting from no
   * slot or a coherent one, every colour is the direct read of its pixel,
   * whatever the order of the requests: the cache is invisible.
   */
  function ReadPixels(p: Page, file: seq<byte>, extract: Extractor, bufSize: nat, slot: Option<CacheSlot>, coords: seq<(u16, u16)>): (r: (seq<Color>, Option<CacheSlot>))
    requires AllCacheable(p, bufSize, coords)
    requires SlotReady(p, file, slot)
    ensures |r.0| == |coords|
    ensures SlotReady(p, file, r.1) && (r.1.None? <==> slot.None?)
    ensures forall i :: 0 <= i < |coords| ==> r.0[i] == GetPixelWithoutBuffering(p, file, extract, coords[i].0, coords[i].1)
    decreases |coords|
  {
    if |coords| == 0 then ([], slot)
    else
      var (c, next) := GetPixel(p, file, extract, bufSize, slot, coords[0].0, coords[0].1);
      assert AllCacheable(p, bufSize, coords[1..]) by {
        forall i | 0 <= i < |coords| - 1 ensures coords[1..][i] == coords[i + 1] { }
      }
      var (rest, last) := ReadPixels(p, file, extract, bufSize, next, coords[1..]);
      ([c] + rest, last)
  }

  /** A three-byte RGB page with one six-byte strip at file offset 0. */
  const StraddlePage: Page := Page(2, 1, [8, 8, 8], 3, 3, CompressionNone, Rgb, PlanarContig, [0], [6], 1, [], [], [], 0, 0)

  const StraddleFile: seq<byte> := [1, 2, 3, 4, 5, 6]

  /** The first request of the example: a miss that loads bytes 0..3 of the strip. */
  lemma StraddleFirstLoad()
    ensures FetchWindowAsWritten(StraddlePage, StraddleFile, 4, CacheSlot(0, 0, 0, []), 0, 0) == Fetch(CacheSlot(0, 0, 4, [1, 2, 3, 4]), 0)
    ensures FetchWindow(StraddlePage, StraddleFile, 4, CacheSlot(0, 0, 0, []), 0, 0, 3) == Fetch(CacheSlot(0, 0, 4, [1, 2, 3, 4]), 0)
  {
    assert Add32(0, 0) == 0;
    assert Slice(StraddleFile, 0, 4) == [1, 2, 3, 4];
  }

  /**
   * With a four-byte window and three-byte pixels, reading pixel (0, 0)
   * loads bytes 0..3; pixel (1, 0) then starts inside the window and is
   * taken as a hit, but its last two bytes are not in it: they come from
   * whatever follows the window in memory.
   */
  lemma WindowStraddleAsWritten(beyond: seq<byte>)
    requires |beyond| >= 2
    ensures var f1 := FetchWindowAsWritten(StraddlePage, StraddleFile, 4, CacheSlot(0, 0, 0, []), 0, 0);
      var f2 := FetchWindowAsWritten(StraddlePage, StraddleFile, 4, f1.slot, 0, 3);
      && f1.slot == CacheSlot(0, 0, 4, [1, 2, 3, 4])
      && f2.slot == f1.slot && f2.readPos == 3
      && WindowPixelAsWritten(f2, 3, beyond) == [4, beyond[0], beyond[1]]
      && Slice(StraddleFile, 3, 3) == [4, 5, 6]
  {
    StraddleFirstLoad();
    var f1 := FetchWindowAsWritten(StraddlePage, StraddleFile, 4, CacheSlot(0, 0, 0, []), 0, 0);
    var f2 := FetchWindowAsWritten(StraddlePage, StraddleFile, 4, f1.slot, 0, 3);
    assert f2 == Fetch(f1.slot, 3);
    assert WindowPixelAsWritten(f2, 3, beyond) == ([1, 2, 3, 4] + beyond)[3..6];
  }

  /** The same two requests with the corrected hit test: the second reloads and reads the pixel's bytes. */
  lemma WindowStraddleCorrected()
    ensures var f1 := FetchWindow(StraddlePage, StraddleFile, 4, CacheSlot(0, 0, 0, []), 0, 0, 3);
      var f2 := FetchWindow(StraddlePage, StraddleFile, 4, f1.slot, 0, 3, 3);
      && f2.slot == CacheSlot(0, 3, 3, [4, 5, 6]) && f2.readPos == 0
      && WindowPixel(f2, 3) == Slice(StraddleFile, 3, 3)
  {
    StraddleFirstLoad();
    var f1 := FetchWindow(StraddlePage, StraddleFile, 4, CacheSlot(0, 0, 0, []), 0, 0, 3);
    var f2 := FetchWindow(StraddlePage, StraddleFile, 4, f1.slot, 0, 3, 3);
    assert Add32(0, 3) == 3;
    assert f2.slot.data == [4, 5, 6];
  }

  /** In the example page, pixels (0, 0) and (1, 0) start at bytes 0 and 3 of the image. */
  lemma StraddlePositions()
    ensures PixelPtr(StraddlePage, 0, 0) == 0 && PixelPtr(StraddlePage, 1, 0) == 3
  {
    assert (0 * StraddlePage.width + 0) * StraddlePage.bytePerPixel == 0;
    assert (0 * StraddlePage.width + 1) * StraddlePage.bytePerPixel == 3;
  }

  /** With one six-byte strip, bytes 0 and 3 lie in strip 0. */
  lemma SingleStripLookup()
    ensures LocateStrip([6], 0) == StripPos(0, 0) && LocateStrip([6], 3) == StripPos(0, 3)
  {
    assert Add32(0, 6) == 6;
    assert ScanStrips([6], 0, 0, 0) == (0, 0);
    assert ScanStrips([6], 3, 0, 0) == (0, 0);
    assert Mod16(0) == 0;
  }

  /** Pixel (0, 0) of the example lies at byte 0 of strip 0. */
  lemma FirstPixelAt()
    ensures PixelAt(StraddlePage, 0, 0) == StripPos(0, 0)
  {
    StraddlePositions();
    SingleStripLookup();
  }

  /** Pixel (1, 0) of the example lies at byte 3 of strip 0. */
  lemma SecondPixelAt()
    ensures PixelAt(StraddlePage, 1, 0) == StripPos(0, 3)
  {
    StraddlePositions();
    SingleStripLookup();
  }

  /** Where the two pixels of the example lie: strip 0, at bytes 0 and 3 of the file. */
  lemma StraddleAddresses()
    ensures PixelAt(StraddlePage, 0, 0) == StripPos(0, 0)
    ensures PixelAt(StraddlePage, 1, 0) == StripPos(0, 3)
    ensures PixelBase(StraddlePage, 1, 0) == 3
  {
    FirstPixelAt();
    SecondPixelAt();
    assert Add32(0, 3) == 3;
  }

  /** Three 8-bit samples start at bits 0, 8 and 16. */
  lemma ThreeByteStarts()
    ensures SampleStart([8, 8, 8], 0) == 0 && SampleStart([8, 8, 8], 1) == 8 && SampleStart([8, 8, 8], 2) == 16
  {
    var bps: seq<u16> := [8, 8, 8];
    assert bps[..0] == [] && bps[..1] == [8] && bps[..2] == [8, 8];
    assert [8][..0] == [] && [8, 8][..1] == [8];
  }

  /** Unpacking three whole bytes with a byte-reading extractor gives those bytes as r, g, b. */
  lemma UnpackThreeBytes(buf: seq<byte>)
    requires |buf| == 3
    ensures Unpack(ByteReader, buf, [8, 8, 8], Cleared) == Color(buf[0], buf[1], buf[2], 0)
  {
    ThreeByteStarts();
    var c := Unpack(ByteReader, buf, [8, 8, 8], Cleared);
    assert Channel(c, 0) == buf[0] && Channel(c, 1) == buf[1] && Channel(c, 2) == buf[2] && Channel(c, 3) == 0;
    ChannelsDetermineColor(c, Color(buf[0], buf[1], buf[2], 0));
  }

  /** One `get_pixel` call with a slot, as written: fetch, then unpack from the slot's memory. */
  lemma CachedReadUnfolds(p: Page, file: seq<byte>, extract: Extractor, bufSize: nat, s: CacheSlot, beyond: seq<byte>, x: u16, y: u16, f: Fetch)
    requires CachedReadDefined(p, x, y)
    requires f == FetchWindowAsWritten(p, file, bufSize, s, PixelAt(p, x, y).strip, PixelAt(p, x, y).offset)
    ensures GetPixelAsWritten(p, file, extract, bufSize, Some(s), beyond, x, y)
      == (Unpack(extract, WindowPixelAsWritten(f, p.bytePerPixel, beyond), p.bitPerSamples, Cleared), Some(f.slot))
  {
  }

  /** An extractor for byte-aligned 8-bit fields: the byte at the bit offset, 0 past the buffer. */
  const ByteReader: Extractor := (buf: seq<byte>, off: nat, w: nat) => if off / 8 < |buf| then buf[off / 8] else 0

  /**
   * At the level of colours: with an extractor that reads whole bytes, the
   * source's `get_pixel` returns (4, b0, b1, 0) for pixel (1, 0) after reading
   * pixel (0, 0), where b0 b1 are the two bytes that follow the window in
   * memory; the direct read returns (4, 5, 6, 0). The two agree only if
   * those memory bytes happen to be 5 and 6.
   */
  lemma StraddleColorsAsWritten(beyond: seq<byte>)
    requires |beyond| >= 2
    ensures PixelAt(StraddlePage, 0, 0) == StripPos(0, 0) && PixelAt(StraddlePage, 1, 0) == StripPos(0, 3)
    ensures var first := GetPixelAsWritten(StraddlePage, StraddleFile, ByteReader, 4, Some(CacheSlot(0, 0, 0, [])), beyond, 0, 0);
      var second := GetPixelAsWritten(StraddlePage, StraddleFile, ByteReader, 4, first.1, beyond, 1, 0).0;
      && second == Color(4, beyond[0], beyond[1], 0)
      && GetPixelWithoutBuffering(StraddlePage, StraddleFile, ByteReader, 1, 0) == Color(4, 5, 6, 0)
      && (second == GetPixelWithoutBuffering(StraddlePage, StraddleFile, ByteReader, 1, 0) <==> beyond[0] == 5 && beyond[1] == 6)
  {
    StraddleAddresses();
    StraddleCachedColor(beyond);
    StraddleDirectColor();
  }

  /** The source's second cached read of the example unpacks 4 and the two memory bytes after the window. */
  lemma StraddleCachedColor(beyond: seq<byte>)
    requires |beyond| >= 2
    ensures var first := GetPixelAsWritten(StraddlePage, StraddleFile, ByteReader, 4, Some(CacheSlot(0, 0, 0, [])), beyond, 0, 0);
      GetPixelAsWritten(StraddlePage, StraddleFile, ByteReader, 4, first.1, beyond, 1, 0).0 == Color(4, beyond[0], beyond[1], 0)
  {
    StraddleFirstRead(beyond);
    StraddleSecondRead(beyond);
  }

  /** The first cached read of the example leaves bytes 0..3 of the strip in the window. */
  lemma StraddleFirstRead(beyond: seq<byte>)
    ensures PixelAt(StraddlePage, 0, 0) == StripPos(0, 0)
    ensures GetPixelAsWritten(StraddlePage, StraddleFile, ByteReader, 4, Some(CacheSlot(0, 0, 0, [])), beyond, 0, 0).1
      == Some(CacheSlot(0, 0, 4, [1, 2, 3, 4]))
  {
    var s0 := CacheSlot(0, 0, 0, []);
    FirstPixelAt();
    StraddleFirstLoad();
    var f1 := FetchWindowAsWritten(StraddlePage, StraddleFile, 4, s0, 0, 0);
    CachedReadUnfolds(StraddlePage, StraddleFile, ByteReader, 4, s0, beyond, 0, 0, f1);
  }

  /** From that window, the second read is a hit at position 3 and unpacks 4, then the memory after the window. */
  lemma StraddleSecondRead(beyond: seq<byte>)
    requires |beyond| >= 2
    ensures PixelAt(StraddlePage, 1, 0) == StripPos(0, 3)
    ensures GetPixelAsWritten(StraddlePage, StraddleFile, ByteReader, 4, Some(CacheSlot(0, 0, 4, [1, 2, 3, 4])), beyond, 1, 0).0
      == Color(4, beyond[0], beyond[1], 0)
  {
    var s1 := CacheSlot(0, 0, 4, [1, 2, 3, 4]);
    SecondPixelAt();
    var f2 := Fetch(s1, 3);
    assert FetchWindowAsWritten(StraddlePage, StraddleFile, 4, s1, 0, 3) == f2;
    LastWindowByteThenMemory(beyond);
    CachedReadUnfolds(StraddlePage, StraddleFile, ByteReader, 4, s1, beyond, 1, 0, f2);
    UnpackThreeBytes([4, beyond[0], beyond[1]]);
  }

  /** Three bytes read from position 3 of a four-byte window: its last byte, then two bytes of memory. */
  lemma LastWindowByteThenMemory(beyond: seq<byte>)
    requires |beyond| >= 2
    ensures WindowPixelAsWritten(Fetch(CacheSlot(0, 0, 4, [1, 2, 3, 4]), 3), 3, beyond) == [4, beyond[0], beyond[1]]
  {
    assert WindowPixelAsWritten(Fetch(CacheSlot(0, 0, 4, [1, 2, 3, 4]), 3), 3, beyond) == ([1, 2, 3, 4] + beyond)[3..6];
  }

  /** The direct read of pixel (1, 0) of the example unpacks its file bytes 4 5 6. */
  lemma StraddleDirectColor()
    ensures PixelAt(StraddlePage, 1, 0).strip < |StraddlePage.stripOffsets|
    ensures GetPixelWithoutBuffering(StraddlePage, StraddleFile, ByteReader, 1, 0) == Color(4, 5, 6, 0)
  {
    StraddleAddresses();
    assert Slice(StraddleFile, 3, 3) == [4, 5, 6];
    assert GetPixelWithoutBuffering(StraddlePage, StraddleFile, ByteReader, 1, 0) == Unpack(ByteReader, [4, 5, 6], [8, 8, 8], Cleared);
    UnpackThreeBytes([4, 5, 6]);
  }
}
