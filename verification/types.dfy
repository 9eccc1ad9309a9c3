/**
 * Entities of the decode pipeline: byte-order tag, header, tag entries,
 * directories, pages, and the TIFF 6.0 codes the reader recognises.
 */
module TiffTypes {
  import opened Numeric

  datatype Option<T> = None | Some(value: T)

  datatype Endian = Invalid | Big | Little

  /** The 8-byte Image File Header: byte-order magic, version, first IFD offset. */
  datatype Header = Header(order: seq<byte>, version: u16, offset: u32)

  /** One 12-byte directory record; `dataField` is the value slot read as a 32-bit integer. */
  datatype TagEntry = TagEntry(tag: u16, fieldType: u16, count: u32, dataField: u32)

  datatype Ifd = Ifd(entryCount: u16, entries: seq<TagEntry>)

  /** Per-directory metadata filled in by the tag handlers. */
  datatype Page = Page(
    width: u32,
    height: u32,
    bitPerSamples: seq<u16>,
    samplesPerPixel: u16,
    bytePerPixel: byte,
    compression: u16,
    colorspace: u16,
    planarConfiguration: u16,
    stripOffsets: seq<u32>,
    stripByteCounts: seq<u32>,
    rowsPerStrip: u32,
    colorPalette: seq<u16>,
    description: seq<byte>,
    dateTime: seq<byte>,
    extraSampleCounts: u32,
    extraSampleType: u16)

  /** A freshly constructed page, before any tag has been processed. */
  const EmptyPage: Page := Page(0, 0, [], 0, 0, 0, 0, 0, [], [], 0, [], [], [], 0, 0)

  // Tag ids (TIFF 6.0, section 8).
  const TagImageWidth: nat := 256
  const TagImageLength: nat := 257
  const TagBitsPerSample: nat := 258
  const TagCompression: nat := 259
  const TagPhotometric: nat := 262
  const TagImageDescription: nat := 270
  const TagStripOffsets: nat := 273
  const TagSamplesPerPixel: nat := 277
  const TagRowsPerStrip: nat := 278
  const TagStripByteCounts: nat := 279
  const TagXResolution: nat := 282
  const TagYResolution: nat := 283
  const TagPlanarConfiguration: nat := 284
  const TagResolutionUnit: nat := 296
  const TagDateTime: nat := 306
  const TagColorMap: nat := 320
  const TagExtraSamples: nat := 338

  // Field type SHORT; any other type is read as the whole slot.
  const TypeShort: nat := 3

  // Compression: only "none" is decoded.
  const CompressionNone: nat := 1

  // Photometric interpretations.
  const MinIsWhite: nat := 0
  const MinIsBlack: nat := 1
  const Rgb: nat := 2
  const PaletteColor: nat := 3
  const TransparencyMask: nat := 4

  /** The colorspaces a page may declare; CMYK and YCbCr are refused. */
  const AcceptedColorspaces: set<nat> := {MinIsWhite, MinIsBlack, Rgb, PaletteColor, TransparencyMask}

  // Planar configuration: only interleaved samples are decoded.
  const PlanarContig: nat := 1

  /** The page fields, for stating which one an operation may change. */
  datatype Field =
    | Width | Height | BitPerSamples | SamplesPerPixel | BytePerPixel
    | Compression | Colorspace | Planar | StripOffsets | StripByteCounts
    | RowsPerStrip | ColorPalette | Description | DateTime | ExtraSamples
    | NoField

  /** `p` and `q` agree on every field except possibly `f`. */
  predicate SameExcept(p: Page, q: Page, f: Field)
  {
    && (f == Width || p.width == q.width)
    && (f == Height || p.height == q.height)
    && (f == BitPerSamples || p.bitPerSamples == q.bitPerSamples)
    && (f == SamplesPerPixel || p.samplesPerPixel == q.samplesPerPixel)
    && (f == BytePerPixel || p.bytePerPixel == q.bytePerPixel)
    && (f == Compression || p.compression == q.compression)
    && (f == Colorspace || p.colorspace == q.colorspace)
    && (f == Planar || p.planarConfiguration == q.planarConfiguration)
    && (f == StripOffsets || p.stripOffsets == q.stripOffsets)
    && (f == StripByteCounts || p.stripByteCounts == q.stripByteCounts)
    && (f == RowsPerStrip || p.rowsPerStrip == q.rowsPerStrip)
    && (f == ColorPalette || p.colorPalette == q.colorPalette)
    && (f == Description || p.description == q.description)
    && (f == DateTime || p.dateTime == q.dateTime)
    && (f == ExtraSamples || (p.extraSampleCounts == q.extraSampleCounts && p.extraSampleType == q.extraSampleType))
  }
}
