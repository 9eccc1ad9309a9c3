/**
 * Pixel reads: a pixel's byte position, the strip lookup, the bytes read
 * from the file, and the assignment of its samples to the r, g, b, a
 * channels. The bit-field extractor is a parameter: its definition is not
 * part of this model.
 */
module Pixels {
  import opened Numeric
  import opened ByteOrder
  import opened TiffTypes
  import opened Strips

  /** An 8-bit-per-channel RGBA colour. */
  datatype Color = Color(r: byte, g: byte, b: byte, a: byte)

  /** The colour a pixel read starts from: every channel 0. */
  const Cleared: Color := Color(0, 0, 0, 0)

  /** Channel `k` in r, g, b, a order. */
  function Channel(c: Color, k: nat): byte
    requires k < 4
  {
    if k == 0 then c.r else if k == 1 then c.g else if k == 2 then c.b else c.a
  }

  function WithChannel(c: Color, k: nat, v: byte): (r: Color)
    requires k < 4
    ensures Channel(r, k) == v
    ensures forall j :: 0 <= j < 4 && j != k ==> Channel(r, j) == Channel(c, j)
  {
    if k == 0 then c.(r := v) else if k == 1 then c.(g := v) else if k == 2 then c.(b := v) else c.(a := v)
  }

  /** `extract_memory<uint8_t>(buffer, bit offset, bit width)`. */
  type Extractor = (seq<byte>, nat, nat) -> byte

  /** At most one sample per channel: more would write past the four channels. */
  predicate Unpackable(bps: seq<u16>)
  {
    |bps| <= 4
  }

  /** Bit offset of sample `k`: the depths before it, summed in an 8-bit counter. */
  function SampleStart(bps: seq<u16>, k: nat): (r: byte)
    requires k <= |bps|
  {
    Sum(bps[..k]) % 0x100
  }

  lemma SampleStartStep(bps: seq<u16>, k: nat)
    requires k < |bps|
    ensures SampleStart(bps, k + 1) == (SampleStart(bps, k) + bps[k]) % 0x100
  {
    SumStep(bps, k);
    var a := Sum(bps[..k]);
    assert a == 0x100 * (a / 0x100) + a % 0x100;
  }

  /** The sample loop from sample `k` on, `start` being the 8-bit bit offset reached so far. */
  function UnpackFrom(extract: Extractor, buf: seq<byte>, bps: seq<u16>, k: nat, start: byte, c: Color): (r: Color)
    requires Unpackable(bps) && k <= |bps|
    requires start == SampleStart(bps, k)
    ensures forall j :: 0 <= j < k ==> Channel(r, j) == Channel(c, j)
    ensures forall j :: k <= j < |bps| ==> Channel(r, j) == extract(buf, SampleStart(bps, j), bps[j])
    ensures forall j :: |bps| <= j < 4 ==> Channel(r, j) == Channel(c, j)
    decreases |bps| - k
  {
    if k == |bps| then c
    else
      SampleStartStep(bps, k);
      UnpackFrom(extract, buf, bps, k + 1, (start + bps[k]) % 0x100, WithChannel(c, k, extract(buf, start, bps[k])))
  }

  /**
   * Unpack one pixel's bytes over `init`: sample `k` goes to channel `k`,
   * read at the summed depths before it with width `bps[k]`; channels with
   * no sample keep their value.
   */
  function Unpack(extract: Extractor, buf: seq<byte>, bps: seq<u16>, init: Color): (r: Color)
    requires Unpackable(bps)
    ensures forall j :: 0 <= j < |bps| ==> Channel(r, j) == extract(buf, SampleStart(bps, j), bps[j])
    ensures forall j :: |bps| <= j < 4 ==> Channel(r, j) == Channel(init, j)
  {
    UnpackFrom(extract, buf, bps, 0, 0, init)
  }

  /**
   * Every sample's bits lie within the pixel's bytes. `extract_memory` is
   * handed the pixel's address in a longer buffer (the rest of the window, or a
   * scratch buffer whose later bytes are left over from earlier reads); the
   * model hands it the pixel's bytes only, which is the same thing exactly
   * when no sample reaches past them.
   */
  predicate SamplesWithin(bps: seq<u16>, bpp: nat)
  {
    forall k :: 0 <= k < |bps| ==> SampleStart(bps, k) + bps[k] <= 8 * bpp
  }

  predicate SamplesInPixel(p: Page)
  {
    SamplesWithin(p.bitPerSamples, p.bytePerPixel)
  }

  /** A colour is determined by its four channels. */
  lemma ChannelsDetermineColor(c: Color, d: Color)
    requires forall j :: 0 <= j < 4 ==> Channel(c, j) == Channel(d, j)
    ensures c == d
  {
    assert Channel(c, 0) == Channel(d, 0) && Channel(c, 1) == Channel(d, 1);
    assert Channel(c, 2) == Channel(d, 2) && Channel(c, 3) == Channel(d, 3);
  }

  /** Unpacking depends only on the pixel's bytes, the depths and the starting colour. */
  lemma UnpackDeterminedByBytes(extract: Extractor, buf: seq<byte>, bps: seq<u16>, init: Color, other: Color)
    requires Unpackable(bps) && |bps| == 4
    ensures Unpack(extract, buf, bps, init) == Unpack(extract, buf, bps, other)
  {
    ChannelsDetermineColor(Unpack(extract, buf, bps, init), Unpack(extract, buf, bps, other));
  }

  /** Byte position of pixel (x, y) in the image data: `(y * width + x) * bytes per pixel`, in 32 bits. */
  function PixelPtr(p: Page, x: u16, y: u16): (r: u32)
    ensures (y * p.width + x) * p.bytePerPixel < U32 ==> r == (y * p.width + x) * p.bytePerPixel
    ensures (y * p.width + x) * p.bytePerPixel >= U32 ==>
      r < (y * p.width + x) * p.bytePerPixel && (r - (y * p.width + x) * p.bytePerPixel) % U32 == 0
  {
    Wrap32((y * p.width + x) * p.bytePerPixel)
  }

  /** A value reduced to 32 bits, as an assignment to a `uint32_t` does. */
  function Wrap32(n: nat): (r: u32)
    ensures n < U32 ==> r == n
    ensures n >= U32 ==> r < n && (r - n) % U32 == 0
  {
    n % U32
  }

  /** Where pixel (x, y) lies among the strips. */
  function PixelAt(p: Page, x: u16, y: u16): StripPos
  {
    LocateStrip(p.stripByteCounts, PixelPtr(p, x, y))
  }

  /** The strip found for (x, y) has an offset entry. */
  predicate Addressable(p: Page, x: u16, y: u16)
  {
    PixelAt(p, x, y).strip < |p.stripOffsets|
  }

  /** File position of pixel (x, y): its strip's offset plus the in-strip offset, added in 32 bits. */
  function PixelBase(p: Page, x: u16, y: u16): (r: u32)
    requires Addressable(p, x, y)
    ensures p.stripOffsets[PixelAt(p, x, y).strip] + PixelAt(p, x, y).offset < U32 ==>
      r == p.stripOffsets[PixelAt(p, x, y).strip] + PixelAt(p, x, y).offset
    ensures p.stripOffsets[PixelAt(p, x, y).strip] + PixelAt(p, x, y).offset >= U32 ==>
      r == p.stripOffsets[PixelAt(p, x, y).strip] + PixelAt(p, x, y).offset - U32
  {
    Add32(p.stripOffsets[PixelAt(p, x, y).strip], PixelAt(p, x, y).offset)
  }

  /**
   * `get_pixel_without_buffering`: read the pixel's bytes and unpack them over
   * a cleared colour.
   */
  function GetPixelWithoutBuffering(p: Page, file: seq<byte>, extract: Extractor, x: u16, y: u16): (c: Color)
    requires Addressable(p, x, y) && Unpackable(p.bitPerSamples)
    ensures forall j :: 0 <= j < |p.bitPerSamples| ==>
      Channel(c, j) == extract(Slice(file, PixelBase(p, x, y), p.bytePerPixel), SampleStart(p.bitPerSamples, j), p.bitPerSamples[j])
    ensures forall j :: |p.bitPerSamples| <= j < 4 ==> Channel(c, j) == 0
  {
    Unpack(extract, Slice(file, PixelBase(p, x, y), p.bytePerPixel), p.bitPerSamples, Cleared)
  }

  /** The bulk read copies whole RGBA8 pixels verbatim for 8-bit-per-sample RGBA pages. */
  predicate FastPath(p: Page)
  {
    p.bitPerSamples == [8, 8, 8, 8] && p.samplesPerPixel == 4 && p.colorspace == Rgb
  }

  /** Two-sample grayscale pages (gray plus alpha) have their own bulk loop. */
  predicate GrayAlphaPath(p: Page)
  {
    p.samplesPerPixel == 2 && p.colorspace == MinIsBlack
  }

  /** The depths each bulk path reads exist and fit the four channels. */
  predicate BulkDefined(p: Page)
  {
    if FastPath(p) then true
    else if GrayAlphaPath(p) then |p.bitPerSamples| >= 1
    else Unpackable(p.bitPerSamples)
  }

  /** What a bulk read produces: raw bytes laid over the colour array, or unpacked colours. */
  datatype BulkRead = RawCopy(bytes: seq<byte>) | Unpacked(pixels: seq<Color>)

  /** The bytes of the `i`-th pixel of a bulk read starting at (x, y). */
  function BulkPixelBytes(p: Page, file: seq<byte>, x: u16, y: u16, i: nat): seq<byte>
    requires Addressable(p, x, y)
  {
    Slice(file, PixelBase(p, x, y) + RunBytes(i, p.bytePerPixel), p.bytePerPixel)
  }

  /** The gray-plus-alpha unpacking: the first sample fills r, g and b; the next, of the same width, fills a. */
  function GrayAlpha(extract: Extractor, buf: seq<byte>, depth: u16): (c: Color)
    ensures c.r == c.g == c.b == extract(buf, 0, depth)
    ensures c.a == extract(buf, depth, depth)
  {
    var gray := extract(buf, 0, depth);
    Color(gray, gray, gray, extract(buf, depth, depth))
  }

  /**
   * `get_pixels`: read `l` consecutive pixels from (x, y) onwards, all taken
   * from the strip holding (x, y), over the caller's colours `dest`. Every
   * path returns `l`.
   */
  function GetPixels(p: Page, file: seq<byte>, extract: Extractor, x: u16, y: u16, l: nat, dest: seq<Color>): (r: (nat, BulkRead))
    requires |dest| >= l
    requires Addressable(p, x, y) && BulkDefined(p)
    ensures r.0 == l
    ensures FastPath(p) ==> r.1 == RawCopy(Slice(file, PixelBase(p, x, y), 4 * l))
    ensures !FastPath(p) ==> r.1.Unpacked? && |r.1.pixels| == l
    ensures !FastPath(p) && GrayAlphaPath(p) ==> forall i :: 0 <= i < l ==>
      var c := r.1.pixels[i];
      var buf := BulkPixelBytes(p, file, x, y, i);
      c.r == c.g == c.b == extract(buf, 0, p.bitPerSamples[0]) && c.a == extract(buf, p.bitPerSamples[0], p.bitPerSamples[0])
    ensures !FastPath(p) && !GrayAlphaPath(p) ==> forall i :: 0 <= i < l ==>
      (forall j :: 0 <= j < |p.bitPerSamples| ==>
        Channel(r.1.pixels[i], j) == extract(BulkPixelBytes(p, file, x, y, i), SampleStart(p.bitPerSamples, j), p.bitPerSamples[j]))
      && (forall j :: |p.bitPerSamples| <= j < 4 ==> Channel(r.1.pixels[i], j) == Channel(dest[i], j))
  {
    if FastPath(p) then
      (l, RawCopy(Slice(file, PixelBase(p, x, y), 4 * l)))
    else if GrayAlphaPath(p) then
      (l, Unpacked(seq(l, i requires 0 <= i < l => GrayAlpha(extract, BulkPixelBytes(p, file, x, y, i), p.bitPerSamples[0]))))
    else
      (l, Unpacked(seq(l, i requires 0 <= i < l && i < |dest| => Unpack(extract, BulkPixelBytes(p, file, x, y, i), p.bitPerSamples, dest[i]))))
  }

  /**
   * Away from the fast and gray-plus-alpha paths, pixel `i` of a bulk read
   * from (x, y) over cleared colours is the single read of (x + i, y), as long
   * as it starts inside the same strip and no 32-bit position wraps.
   */
  lemma BulkAgreesWithSingle(p: Page, file: seq<byte>, extract: Extractor, x: u16, y: u16, l: nat, dest: seq<Color>, i: nat)
    requires |dest| >= l && Addressable(p, x, y) && Unpackable(p.bitPerSamples)
    requires !FastPath(p) && !GrayAlphaPath(p) && SamplesInPixel(p)
    requires i < l && dest[i] == Cleared
    requires x + i < U16
    requires (y * p.width + x + i) * p.bytePerPixel < U32
    requires |p.stripByteCounts| < U16 && Sum(p.stripByteCounts) < U32
    requires PixelAt(p, x, y).strip < |p.stripByteCounts|
    requires PixelAt(p, x, y).offset + i * p.bytePerPixel < p.stripByteCounts[PixelAt(p, x, y).strip]
    requires p.stripOffsets[PixelAt(p, x, y).strip] + PixelAt(p, x, y).offset + i * p.bytePerPixel < U32
    ensures Addressable(p, (x + i) as u16, y)
    ensures GetPixels(p, file, extract, x, y, l, dest).1.pixels[i] == GetPixelWithoutBuffering(p, file, extract, (x + i) as u16, y)
  {
    BaseStep(p, x, y, i);
    var buf := BulkPixelBytes(p, file, x, y, i);
    assert buf == Slice(file, PixelBase(p, (x + i) as u16, y), p.bytePerPixel);
    assert GetPixels(p, file, extract, x, y, l, dest).1.pixels[i] == Unpack(extract, buf, p.bitPerSamples, Cleared);
  }

  /** Pixel `x2`, `d` bytes after pixel `x` inside the same strip, is found in that strip `d` bytes further on. */
  lemma PixelAtStep(p: Page, x: u16, x2: u16, y: u16, d: nat)
    requires PixelPtr(p, x, y) + d < U32 && PixelPtr(p, x2, y) == PixelPtr(p, x, y) + d
    requires |p.stripByteCounts| < U16 && Sum(p.stripByteCounts) < U32
    requires PixelAt(p, x, y).strip < |p.stripByteCounts|
    requires PixelAt(p, x, y).offset + d < p.stripByteCounts[PixelAt(p, x, y).strip]
    ensures PixelAt(p, x2, y) == StripPos(PixelAt(p, x, y).strip, PixelAt(p, x, y).offset + d)
  {
    LocateStripShift(p.stripByteCounts, PixelPtr(p, x, y), d);
  }

  /** Stepping `i` pixels along a row moves the 32-bit position by `i` pixels' bytes, absent wrap. */
  lemma PixelPtrStep(p: Page, x: u16, y: u16, i: nat)
    requires x + i < U16
    requires (y * p.width + x + i) * p.bytePerPixel < U32
    ensures PixelPtr(p, x, y) + i * p.bytePerPixel < U32
    ensures PixelPtr(p, (x + i) as u16, y) == PixelPtr(p, x, y) + i * p.bytePerPixel
  {
    PtrStep(p.width, p.bytePerPixel, x, y, i);
  }

  /** The file position of pixel `x + i` is that of pixel `x` plus `i` pixels' bytes, absent wrap. */
  lemma BaseStep(p: Page, x: u16, y: u16, i: nat)
    requires Addressable(p, x, y)
    requires x + i < U16
    requires (y * p.width + x + i) * p.bytePerPixel < U32
    requires |p.stripByteCounts| < U16 && Sum(p.stripByteCounts) < U32
    requires PixelAt(p, x, y).strip < |p.stripByteCounts|
    requires PixelAt(p, x, y).offset + i * p.bytePerPixel < p.stripByteCounts[PixelAt(p, x, y).strip]
    requires p.stripOffsets[PixelAt(p, x, y).strip] + PixelAt(p, x, y).offset + i * p.bytePerPixel < U32
    ensures Addressable(p, (x + i) as u16, y)
    ensures PixelBase(p, (x + i) as u16, y) == PixelBase(p, x, y) + i * p.bytePerPixel
  {
    PixelPtrStep(p, x, y, i);
    BaseShift(p, x, (x + i) as u16, y, RunBytes(i, p.bytePerPixel));
  }

  /** Bytes taken by `i` pixels of `bpp` bytes each. */
  function RunBytes(i: nat, bpp: nat): nat
  {
    i * bpp
  }

  /** Moving the 32-bit position by `d` bytes inside a strip moves the file position by `d`, absent wrap. */
  lemma BaseShift(p: Page, x: u16, x2: u16, y: u16, d: nat)
    requires Addressable(p, x, y)
    requires PixelPtr(p, x, y) + d < U32 && PixelPtr(p, x2, y) == PixelPtr(p, x, y) + d
    requires |p.stripByteCounts| < U16 && Sum(p.stripByteCounts) < U32
    requires PixelAt(p, x, y).strip < |p.stripByteCounts|
    requires PixelAt(p, x, y).offset + d < p.stripByteCounts[PixelAt(p, x, y).strip]
    requires p.stripOffsets[PixelAt(p, x, y).strip] + PixelAt(p, x, y).offset + d < U32
    ensures Addressable(p, x2, y)
    ensures PixelBase(p, x2, y) == PixelBase(p, x, y) + d
  {
    PixelAtStep(p, x, x2, y, d);
  }

  /** Stepping `i` pixels along a row moves the byte position by `i` pixels' bytes, absent 32-bit wrap. */
  lemma PtrStep(w: u32, bpp: byte, x: u16, y: u16, i: nat)
    requires x + i < U16
    requires (y * w + x + i) * bpp < U32
    ensures (y * w + x) * bpp < U32
    ensures (y * w + (x + i) as u16) * bpp == (y * w + x) * bpp + i * bpp
  {
    var base := y * w + x;
    assert (base + i) * bpp == base * bpp + i * bpp;
    assert base * bpp <= (base + i) * bpp;
  }

  /**
   * The two reads disagree on gray-plus-alpha pixels: with two equal depths
   * under 256 bits, the bulk read repeats the gray sample into g and b and
   * puts the second sample in a, where the single read puts it in g and
   * leaves b and a at 0.
   */
  lemma GrayAlphaBulkVersusSingle(p: Page, file: seq<byte>, extract: Extractor, x: u16, y: u16, dest: seq<Color>)
    requires |dest| >= 1 && Addressable(p, x, y)
    requires GrayAlphaPath(p) && |p.bitPerSamples| == 2 && p.bitPerSamples[0] == p.bitPerSamples[1] < 0x100
    ensures var bulk := GetPixels(p, file, extract, x, y, 1, dest).1.pixels[0];
      var single := GetPixelWithoutBuffering(p, file, extract, x, y);
      bulk.r == single.r && bulk.g == single.r && bulk.b == single.r && bulk.a == single.g
      && single.b == 0 && single.a == 0
  {
    var bps := p.bitPerSamples;
    assert !FastPath(p);
    assert BulkPixelBytes(p, file, x, y, 0) == Slice(file, PixelBase(p, x, y), p.bytePerPixel);
    assert SampleStart(bps, 1) == bps[0] by {
      SumStep(bps, 0);
      assert bps[..0] == [];
    }
    var single := GetPixelWithoutBuffering(p, file, extract, x, y);
    assert Channel(single, 0) == single.r && Channel(single, 1) == single.g;
    assert Channel(single, 2) == single.b && Channel(single, 3) == single.a;
  }
}
