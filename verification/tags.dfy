/**
 * Tag dispatch: the table from tag id to handler, and the handlers. Each
 * handler reads its value from the 4-byte slot (inline) or from the file at
 * the offset the slot holds (out of line), then either refuses the value or
 * fills in its page field (TIFF 6.0, section 8).
 */
module Tags {
  import opened Numeric
  import opened ByteOrder
  import opened TiffTypes
  import opened Directory

  datatype Handler =
    | ImageWidthProc | ImageLengthProc | BitsPerSampleProc | CompressionProc
    | PhotometricProc | StripOffsetsProc | RowsPerStripProc | StripByteCountsProc
    | XResolutionProc | YResolutionProc | PlanarConfigurationProc | ResolutionUnitProc
    | ColorMapProc | ImageDescriptionProc | SamplesPerPixelProc | DateTimeProc
    | ExtraSamplesProc

  /** The dispatch table; tags absent from it are skipped. */
  const TagProcs: map<nat, Handler> := map[
    TagImageWidth := ImageWidthProc,
    TagImageLength := ImageLengthProc,
    TagBitsPerSample := BitsPerSampleProc,
    TagCompression := CompressionProc,
    TagPhotometric := PhotometricProc,
    TagStripOffsets := StripOffsetsProc,
    TagRowsPerStrip := RowsPerStripProc,
    TagStripByteCounts := StripByteCountsProc,
    TagXResolution := XResolutionProc,
    TagYResolution := YResolutionProc,
    TagPlanarConfiguration := PlanarConfigurationProc,
    TagResolutionUnit := ResolutionUnitProc,
    TagColorMap := ColorMapProc,
    TagImageDescription := ImageDescriptionProc,
    TagSamplesPerPixel := SamplesPerPixelProc,
    TagDateTime := DateTimeProc,
    TagExtraSamples := ExtraSamplesProc]

  /** The tag id each handler is registered under. */
  function TagOf(h: Handler): (t: nat)
    ensures t in TagProcs && TagProcs[t] == h
  {
    match h
    case ImageWidthProc => TagImageWidth
    case ImageLengthProc => TagImageLength
    case BitsPerSampleProc => TagBitsPerSample
    case CompressionProc => TagCompression
    case PhotometricProc => TagPhotometric
    case StripOffsetsProc => TagStripOffsets
    case RowsPerStripProc => TagRowsPerStrip
    case StripByteCountsProc => TagStripByteCounts
    case XResolutionProc => TagXResolution
    case YResolutionProc => TagYResolution
    case PlanarConfigurationProc => TagPlanarConfiguration
    case ResolutionUnitProc => TagResolutionUnit
    case ColorMapProc => TagColorMap
    case ImageDescriptionProc => TagImageDescription
    case SamplesPerPixelProc => TagSamplesPerPixel
    case DateTimeProc => TagDateTime
    case ExtraSamplesProc => TagExtraSamples
  }

  /** The page field a handler writes. */
  function Owner(h: Handler): Field
  {
    match h
    case ImageWidthProc => Width
    case ImageLengthProc => Height
    case BitsPerSampleProc => BitPerSamples
    case CompressionProc => Compression
    case PhotometricProc => Colorspace
    case StripOffsetsProc => StripOffsets
    case RowsPerStripProc => RowsPerStrip
    case StripByteCountsProc => StripByteCounts
    case XResolutionProc => NoField
    case YResolutionProc => NoField
    case PlanarConfigurationProc => Planar
    case ResolutionUnitProc => NoField
    case ColorMapProc => ColorPalette
    case ImageDescriptionProc => Description
    case SamplesPerPixelProc => SamplesPerPixel
    case DateTimeProc => DateTime
    case ExtraSamplesProc => ExtraSamples
  }

  datatype Outcome = Outcome(ok: bool, page: Page)

  /** A 16-bit value held in the slot: left-justified, so the high half in "MM" files. */
  function ReadScalar16(v: FileView, e: TagEntry): (r: u16)
  {
    if v.big then e.dataField / U16 else e.dataField % U16
  }

  /** A 32-bit value held in the slot; also the out-of-line offset. */
  function ReadScalar32(v: FileView, e: TagEntry): (r: u32)
  {
    e.dataField
  }

  /** A scalar of the entry's declared type: SHORT reads 16 bits, anything else 32. */
  function ReadScalarGeneric(v: FileView, e: TagEntry): (r: u32)
    ensures e.fieldType == TypeShort ==> r < U16
    ensures e.fieldType != TypeShort ==> r == e.dataField
  {
    if e.fieldType == TypeShort then ReadScalar16(v, e) else ReadScalar32(v, e)
  }

  /** For an entry read from the file, the 16-bit scalar is the slot's first two bytes in file order. */
  lemma ShortScalarIsLeftJustified(v: FileView, pos: nat)
    requires Coherent(v)
    ensures ReadScalar16(v, ParseEntry(v, pos)) == DecodeIn(v.big, Slice(v.bytes, pos + 8, 2))
  {
    var s := Slice(v.bytes, pos + 8, 4);
    LeftJustifiedHalf(v.big, s);
    SliceOfSlice(v.bytes, pos + 8, 4, 0, 2);
  }

  /** A SHORT value stored left-justified in an entry's slot, as TIFF 6.0 section 2 prescribes, is read back. */
  lemma ShortValueReadBack(v: FileView, pos: nat, w: u16)
    requires Coherent(v)
    requires pos + 10 <= |v.bytes|
    requires v.bytes[pos + 8..pos + 10] == EncodeIn(v.big, w, 2)
    ensures ReadScalar16(v, ParseEntry(v, pos)) == w
  {
    Pow256Widths();
    ShortScalarIsLeftJustified(v, pos);
    DecodeEncodeIn(v.big, w, 2);
  }

  /** A SHORT entry whose slot holds `w` left-justified reads back `w` as a scalar of its declared type. */
  lemma ShortEntryReadBack(v: FileView, pos: nat, w: u16)
    requires Coherent(v)
    requires pos + 10 <= |v.bytes|
    requires ParseEntry(v, pos).fieldType == TypeShort
    requires v.bytes[pos + 8..pos + 10] == EncodeIn(v.big, w, 2)
    ensures ReadScalarGeneric(v, ParseEntry(v, pos)) == w
  {
    ShortValueReadBack(v, pos, w);
  }

  /** An entry of any other type whose slot holds the 32-bit `w` reads back `w`. */
  lemma LongEntryReadBack(v: FileView, pos: nat, w: u32)
    requires Coherent(v)
    requires pos + 12 <= |v.bytes|
    requires ParseEntry(v, pos).fieldType != TypeShort
    requires v.bytes[pos + 8..pos + 12] == EncodeIn(v.big, w, 4)
    ensures ReadScalarGeneric(v, ParseEntry(v, pos)) == w
  {
    Pow256Widths();
    assert Slice(v.bytes, pos + 8, 4) == v.bytes[pos + 8..pos + 12];
    DecodeEncodeIn(v.big, w, 4);
  }

  /** The slot's four bytes as they lie in the file. */
  function SlotBytes(v: FileView, e: TagEntry): (r: seq<byte>)
    ensures |r| == 4
  {
    Pow256Widths();
    EncodeIn(v.big, e.dataField, 4)
  }

  lemma SlotBytesAreFileBytes(v: FileView, pos: nat)
    requires Coherent(v)
    ensures SlotBytes(v, ParseEntry(v, pos)) == Slice(v.bytes, pos + 8, 4)
  {
    EncodeDecodeIn(v.big, Slice(v.bytes, pos + 8, 4));
  }

  /** The bytes before the first NUL. */
  function CString(s: seq<byte>): (r: seq<byte>)
    ensures |r| <= |s| && r == s[..|r|]
    ensures 0 !in r
    ensures |r| < |s| ==> s[|r|] == 0
  {
    if |s| == 0 || s[0] == 0 then [] else [s[0]] + CString(s[1..])
  }

  /** At most the first `n` bytes of `s` (a `std::string` built from position 0 with length `n`). */
  function Take(s: seq<byte>, n: nat): (r: seq<byte>)
    ensures |r| == if n < |s| then n else |s|
    ensures r == s[..|r|]
  {
    if n < |s| then s[..n] else s
  }

  /** Inline text of `count` bytes held in `mem`: the NUL-terminated string, cut to `count - 1`. */
  function InlineText(mem: seq<byte>, count: nat): (r: seq<byte>)
    requires 1 <= count
    ensures |r| <= count - 1 && |r| <= |mem| && 0 !in r && r == mem[..|r|]
    ensures |r| < count - 1 && |r| < |mem| ==> mem[|r|] == 0
  {
    Take(CString(mem), count - 1)
  }

  /** The slot value as it lies in the host's memory, which is where the source takes inline text from. */
  function HostSlotBytes(v: FileView, e: TagEntry): (r: seq<byte>)
    ensures |r| == 4
  {
    Pow256Widths();
    EncodeIn(v.hostBig, e.dataField, 4)
  }

  /** Inline ImageDescription as the source builds it: from the host-memory bytes of the slot value. */
  function InlineDescriptionAsWritten(v: FileView, e: TagEntry): (r: seq<byte>)
    requires 1 <= e.count <= 4
    ensures |r| <= e.count - 1 && 0 !in r && r == HostSlotBytes(v, e)[..|r|]
  {
    InlineText(HostSlotBytes(v, e), e.count)
  }

  /** On a host of the file's own byte order the memory bytes are the file bytes. */
  lemma InlineDescriptionSameOrderHost(v: FileView, e: TagEntry)
    requires 1 <= e.count <= 4
    requires v.hostBig == v.big
    ensures InlineDescriptionAsWritten(v, e) == InlineText(SlotBytes(v, e), e.count)
  {
  }

  /**
   * A little-endian host reading an "MM" file whose ImageDescription holds
   * "ab" inline (count 3, slot bytes 'a' 'b' 0 0): the source yields the empty
   * string, the slot's file bytes give "ab".
   */
  lemma InlineDescriptionCrossOrderHost()
    ensures
      var v := FileView([], false, true, true);
      var e := TagEntry(TagImageDescription, 2, 3, 0x6162_0000);
      && SlotBytes(v, e) == [0x61, 0x62, 0, 0]
      && InlineDescriptionAsWritten(v, e) == []
      && InlineText(SlotBytes(v, e), e.count) == [0x61, 0x62]
  {
    var v := FileView([], false, true, true);
    var e := TagEntry(TagImageDescription, 2, 3, 0x6162_0000);
    SlotValueBytes();
    assert SlotBytes(v, e) == [0x61, 0x62, 0, 0];
    assert HostSlotBytes(v, e) == [0, 0, 0x62, 0x61];
    TwoLetterText();
  }

  /** The value 0x61620000 is the bytes 0 0 0x62 0x61 least-significant first. */
  lemma SlotValueBytes()
    ensures Pow256(4) == U32
    ensures EncodeLE(0x6162_0000, 4) == [0, 0, 0x62, 0x61]
  {
    Pow256Widths();
    assert EncodeLE(0x61, 1) == [0x61] + EncodeLE(0, 0);
    assert EncodeLE(0x6162, 2) == [0x62] + EncodeLE(0x61, 1);
    assert EncodeLE(0x61_6200, 3) == [0] + EncodeLE(0x6162, 2);
  }

  /** "ab" followed by NULs reads as "ab"; a leading NUL reads as the empty string. */
  lemma TwoLetterText()
    ensures CString([0x61, 0x62, 0, 0]) == [0x61, 0x62]
    ensures CString([0, 0, 0x62, 0x61]) == []
  {
    assert CString([0, 0]) == [];
    assert [0x61, 0x62, 0, 0][1..] == [0x62, 0, 0];
    assert [0x62, 0, 0][1..] == [0, 0];
  }

  // The handlers. Each returns whether it succeeded and the page as it left it.

  function ImageWidthTag(v: FileView, e: TagEntry, p: Page): (r: Outcome)
    ensures r.ok && r.page == p.(width := ReadScalarGeneric(v, e))
    ensures SameExcept(p, r.page, Width)
  {
    Outcome(true, p.(width := ReadScalarGeneric(v, e)))
  }

  function ImageLengthTag(v: FileView, e: TagEntry, p: Page): (r: Outcome)
    ensures r.ok && r.page == p.(height := ReadScalarGeneric(v, e))
    ensures SameExcept(p, r.page, Height)
  {
    Outcome(true, p.(height := ReadScalarGeneric(v, e)))
  }

  /**
   * BitsPerSample: a zero slot is refused; more than two depths do not fit the
   * slot and are read out of line, otherwise the slot's first depth is kept alone.
   */
  function BitsPerSampleTag(v: FileView, e: TagEntry, p: Page): (r: Outcome)
    ensures !r.ok <==> e.dataField == 0
    ensures !r.ok ==> r.page == p
    ensures r.ok ==> SameExcept(p, r.page, BitPerSamples)
    ensures r.ok && e.count * 2 > 4 ==> r.page.bitPerSamples == ReadArray16(v, e.dataField, e.count)
    ensures r.ok && e.count * 2 <= 4 ==> r.page.bitPerSamples == [ReadScalar16(v, e)]
    ensures r.ok ==> |r.page.bitPerSamples| == if e.count > 2 then e.count as int else 1
  {
    if e.dataField == 0 then Outcome(false, p)
    else if e.count * 2 > 4 then Outcome(true, p.(bitPerSamples := ReadArray16(v, ReadScalar32(v, e), e.count)))
    else Outcome(true, p.(bitPerSamples := [ReadScalar16(v, e)]))
  }

  /** Compression: anything but "none" is refused and leaves the page alone. */
  function CompressionTag(v: FileView, e: TagEntry, p: Page): (r: Outcome)
    ensures r.ok <==> ReadScalar16(v, e) == CompressionNone
    ensures !r.ok ==> r.page == p
    ensures r.ok ==> r.page == p.(compression := CompressionNone)
  {
    var c := ReadScalar16(v, e);
    if c != CompressionNone then Outcome(false, p)
    else Outcome(true, p.(compression := c))
  }

  /** PhotometricInterpretation: stored first, then refused unless one of the five accepted colorspaces. */
  function PhotometricTag(v: FileView, e: TagEntry, p: Page): (r: Outcome)
    ensures r.ok <==> ReadScalar16(v, e) in AcceptedColorspaces
    ensures r.page == p.(colorspace := ReadScalar16(v, e))
  {
    var q := p.(colorspace := ReadScalar16(v, e));
    match q.colorspace
    case 0 => Outcome(true, q)
    case 1 => Outcome(true, q)
    case 2 => Outcome(true, q)
    case 3 => Outcome(true, q)
    case 4 => Outcome(true, q)
    case _ => Outcome(false, q)
  }

  /** The strip handlers write `[0]` of an empty table when the count is 0 and the slot is not. */
  predicate StripEntryDefined(e: TagEntry)
  {
    e.dataField == 0 || e.count > 0
  }

  /**
   * A strip table (offsets or byte counts): a zero slot is refused; otherwise
   * the table gets `count` entries, out of line when there are two or more.
   */
  function StripTable(v: FileView, e: TagEntry): (r: Option<seq<u32>>)
    requires StripEntryDefined(e)
    ensures r.None? <==> e.dataField == 0
    ensures r.Some? ==> |r.value| == e.count
    ensures r.Some? && e.count >= 2 ==> r.value == ReadArray32(v, e.dataField, e.count)
    ensures r.Some? && e.count == 1 ==> r.value == [e.dataField]
  {
    if e.dataField == 0 then None
    else if e.count >= 2 then Some(ReadArray32(v, ReadScalar32(v, e), e.count))
    else Some([ReadScalar32(v, e)])
  }

  function StripOffsetsTag(v: FileView, e: TagEntry, p: Page): (r: Outcome)
    requires StripEntryDefined(e)
    ensures r.ok <==> StripTable(v, e).Some?
    ensures !r.ok ==> r.page == p
    ensures r.ok ==> r.page == p.(stripOffsets := StripTable(v, e).value)
  {
    match StripTable(v, e)
    case None => Outcome(false, p)
    case Some(t) => Outcome(true, p.(stripOffsets := t))
  }

  function StripByteCountsTag(v: FileView, e: TagEntry, p: Page): (r: Outcome)
    requires StripEntryDefined(e)
    ensures r.ok <==> StripTable(v, e).Some?
    ensures !r.ok ==> r.page == p
    ensures r.ok ==> r.page == p.(stripByteCounts := StripTable(v, e).value)
  {
    match StripTable(v, e)
    case None => Outcome(false, p)
    case Some(t) => Outcome(true, p.(stripByteCounts := t))
  }

  function RowsPerStripTag(v: FileView, e: TagEntry, p: Page): (r: Outcome)
    ensures r.ok && r.page == p.(rowsPerStrip := ReadScalarGeneric(v, e))
    ensures SameExcept(p, r.page, RowsPerStrip)
  {
    Outcome(true, p.(rowsPerStrip := ReadScalarGeneric(v, e)))
  }

  /** PlanarConfiguration: stored first, then refused unless contiguous. */
  function PlanarConfigurationTag(v: FileView, e: TagEntry, p: Page): (r: Outcome)
    ensures r.ok <==> ReadScalar16(v, e) == PlanarContig
    ensures r.page == p.(planarConfiguration := ReadScalar16(v, e))
    ensures SameExcept(p, r.page, Planar)
  {
    var q := p.(planarConfiguration := ReadScalar16(v, e));
    Outcome(q.planarConfiguration == PlanarContig, q)
  }

  /** ColorMap: no entries is a no-op; otherwise a zero offset is refused, else the palette is read. */
  function ColorMapTag(v: FileView, e: TagEntry, p: Page): (r: Outcome)
    ensures !r.ok <==> e.count > 0 && e.dataField == 0
    ensures !r.ok || e.count == 0 ==> r.page == p
    ensures r.ok && e.count > 0 ==> r.page == p.(colorPalette := ReadArray16(v, e.dataField, e.count))
  {
    if e.count == 0 then Outcome(true, p)
    else
      var ptr := ReadScalar32(v, e);
      if ptr == 0 then Outcome(false, p)
      else Outcome(true, p.(colorPalette := ReadArray16(v, ptr, e.count)))
  }

  /** Inline text is read up to a NUL, which the four slot bytes must then hold. */
  predicate DescriptionEntryDefined(v: FileView, e: TagEntry)
  {
    e.count == 0 || e.count > 4 || 0 in SlotBytes(v, e)
  }

  /**
   * ImageDescription: no bytes is a no-op; up to four bytes are the slot's
   * NUL-terminated text (at most `count - 1` bytes); longer text is read out
   * of line and keeps `count - 1` bytes.
   */
  function ImageDescriptionTag(v: FileView, e: TagEntry, p: Page): (r: Outcome)
    requires DescriptionEntryDefined(v, e)
    ensures r.ok
    ensures e.count == 0 ==> r.page == p
    ensures e.count > 0 ==> SameExcept(p, r.page, Description)
    ensures 1 <= e.count <= 4 ==>
      var d := r.page.description;
      |d| <= e.count - 1 && 0 !in d && d == SlotBytes(v, e)[..|d|] && (|d| < e.count - 1 ==> SlotBytes(v, e)[|d|] == 0)
    ensures e.count > 4 ==> r.page.description == Slice(v.bytes, e.dataField, e.count - 1)
  {
    if e.count == 0 then Outcome(true, p)
    else if e.count <= 4 then Outcome(true, p.(description := InlineText(SlotBytes(v, e), e.count)))
    else
      var text := Slice(v.bytes, ReadScalar32(v, e), e.count);
      Outcome(true, p.(description := text[..e.count - 1]))
  }

  /** The source's handler reads inline text from host memory, which must hold its NUL. */
  predicate DescriptionEntryDefinedAsWritten(v: FileView, e: TagEntry)
  {
    e.count == 0 || e.count > 4 || 0 in HostSlotBytes(v, e)
  }

  /** ImageDescription as the source writes it: inline text from the host-memory bytes of the slot value. */
  function ImageDescriptionTagAsWritten(v: FileView, e: TagEntry, p: Page): (r: Outcome)
    requires DescriptionEntryDefinedAsWritten(v, e)
    ensures r.ok
    ensures e.count == 0 ==> r.page == p
    ensures e.count > 0 ==> SameExcept(p, r.page, Description)
    ensures 1 <= e.count <= 4 ==>
      var d := r.page.description;
      |d| <= e.count - 1 && 0 !in d && d == HostSlotBytes(v, e)[..|d|] && (|d| < e.count - 1 ==> HostSlotBytes(v, e)[|d|] == 0)
    ensures e.count > 4 ==> r.page.description == Slice(v.bytes, e.dataField, e.count - 1)
  {
    if e.count == 0 then Outcome(true, p)
    else if e.count <= 4 then Outcome(true, p.(description := InlineDescriptionAsWritten(v, e)))
    else
      var text := Slice(v.bytes, ReadScalar32(v, e), e.count);
      Outcome(true, p.(description := text[..e.count - 1]))
  }

  /** On a host of the file's own byte order the handler as written and the corrected one agree. */
  lemma DescriptionAsWrittenSameOrderHost(v: FileView, e: TagEntry, p: Page)
    requires v.hostBig == v.big
    ensures DescriptionEntryDefinedAsWritten(v, e) <==> DescriptionEntryDefined(v, e)
    ensures DescriptionEntryDefined(v, e) ==> ImageDescriptionTagAsWritten(v, e, p) == ImageDescriptionTag(v, e, p)
  {
  }

  function SamplesPerPixelTag(v: FileView, e: TagEntry, p: Page): (r: Outcome)
    ensures r.ok && r.page == p.(samplesPerPixel := ReadScalarGeneric(v, e) % U16)
    ensures SameExcept(p, r.page, SamplesPerPixel)
  {
    Outcome(true, p.(samplesPerPixel := ReadScalarGeneric(v, e) % U16))
  }

  /** DateTime: exactly 20 bytes ("YYYY:MM:DD HH:MM:SS" and NUL) or refused; 19 characters are kept. */
  function DateTimeTag(v: FileView, e: TagEntry, p: Page): (r: Outcome)
    ensures r.ok <==> e.count == 20
    ensures !r.ok ==> r.page == p
    ensures r.ok ==> r.page == p.(dateTime := Slice(v.bytes, e.dataField, 19))
  {
    if e.count != 20 then Outcome(false, p)
    else
      var text := Slice(v.bytes, ReadScalar32(v, e), 20);
      Outcome(true, p.(dateTime := text[..19]))
  }

  function ExtraSamplesTag(v: FileView, e: TagEntry, p: Page): (r: Outcome)
    ensures r.ok && r.page == p.(extraSampleCounts := e.count, extraSampleType := ReadScalar16(v, e))
    ensures SameExcept(p, r.page, ExtraSamples)
  {
    Outcome(true, p.(extraSampleCounts := e.count, extraSampleType := ReadScalar16(v, e)))
  }

  /** The resolution tags are accepted and not stored. */
  function IgnoredTag(v: FileView, e: TagEntry, p: Page): (r: Outcome)
    ensures r == Outcome(true, p)
  {
    Outcome(true, p)
  }

  /** The inputs on which a handler's behaviour is defined. */
  predicate EntryDefined(h: Handler, v: FileView, e: TagEntry)
  {
    match h
    case StripOffsetsProc => StripEntryDefined(e)
    case StripByteCountsProc => StripEntryDefined(e)
    case ImageDescriptionProc => DescriptionEntryDefined(v, e)
    case _ => true
  }

  /** The complete list of refusals, independent of the handler bodies. */
  predicate Rejects(h: Handler, v: FileView, e: TagEntry)
  {
    match h
    case CompressionProc => ReadScalar16(v, e) != CompressionNone
    case PhotometricProc => ReadScalar16(v, e) !in AcceptedColorspaces
    case PlanarConfigurationProc => ReadScalar16(v, e) != PlanarContig
    case DateTimeProc => e.count != 20
    case BitsPerSampleProc => e.dataField == 0
    case StripOffsetsProc => e.dataField == 0
    case StripByteCountsProc => e.dataField == 0
    case ColorMapProc => e.count > 0 && e.dataField == 0
    case _ => false
  }

  /**
   * Run the handler `h` on entry `e` against page `p`. It fails exactly on the
   * refusals, and writes no field but its own.
   */
  function ApplyHandler(h: Handler, v: FileView, e: TagEntry, p: Page): (r: Outcome)
    requires EntryDefined(h, v, e)
    ensures !r.ok <==> Rejects(h, v, e)
    ensures SameExcept(p, r.page, Owner(h))
  {
    match h
    case ImageWidthProc => ImageWidthTag(v, e, p)
    case ImageLengthProc => ImageLengthTag(v, e, p)
    case BitsPerSampleProc => BitsPerSampleTag(v, e, p)
    case CompressionProc => CompressionTag(v, e, p)
    case PhotometricProc => PhotometricTag(v, e, p)
    case StripOffsetsProc => StripOffsetsTag(v, e, p)
    case RowsPerStripProc => RowsPerStripTag(v, e, p)
    case StripByteCountsProc => StripByteCountsTag(v, e, p)
    case XResolutionProc => IgnoredTag(v, e, p)
    case YResolutionProc => IgnoredTag(v, e, p)
    case PlanarConfigurationProc => PlanarConfigurationTag(v, e, p)
    case ResolutionUnitProc => IgnoredTag(v, e, p)
    case ColorMapProc => ColorMapTag(v, e, p)
    case ImageDescriptionProc => ImageDescriptionTag(v, e, p)
    case SamplesPerPixelProc => SamplesPerPixelTag(v, e, p)
    case DateTimeProc => DateTimeTag(v, e, p)
    case ExtraSamplesProc => ExtraSamplesTag(v, e, p)
  }

  /** Through the table, the resolution tags are accepted and leave the page as it was. */
  lemma ResolutionTagsIgnored(v: FileView, e: TagEntry, p: Page)
    ensures ApplyHandler(TagProcs[TagXResolution], v, e, p) == Outcome(true, p)
    ensures ApplyHandler(TagProcs[TagYResolution], v, e, p) == Outcome(true, p)
    ensures ApplyHandler(TagProcs[TagResolutionUnit], v, e, p) == Outcome(true, p)
  {
  }
}
