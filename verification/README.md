# tiff_reader core, modelled in Dafny

This project models the decoding core of the `tiff_reader` library
(`src/tiff_reader.cpp`). That core is:

- reading the 8-byte TIFF header and choosing the byte order;
- reading the entries of the first Image File Directory (IFD);
- dispatching each entry through the tag table to its handler;
- the refusal rules and the page validation of `read_entry_tags` and `decode`;
- `validate_bit_per_samples` and `calc_byte_per_pixel`;
- the three pixel reads: `get_pixels`, `get_pixel` with its single-slot
  window cache, and `get_pixel_without_buffering`.

The file is an immutable byte sequence. Every read goes through a
`FileView`, which records the host's byte order, the file's byte order and
the swap mode chosen from the two. Integer widths of the source are written
out where they matter:

- the 32-bit pixel byte position;
- the 32-bit sum of a strip's offset and the in-strip offset that gives a file position;
- the 32-bit running strip total and the 16-bit strip counter of the strip scan;
- the 8-bit bit-offset counter of the sample unpacker;
- the 16-bit depth total and the 8-bit result of `calc_byte_per_pixel`.

Modules follow the source's structure:

| file | module | what it holds |
|---|---|---|
| numeric.dfy | `Numeric` | byte/u16/u32, sums |
| byteorder.dfy | `ByteOrder` | little/big-endian codecs, `buffer_reader` swap, `fread_pos` |
| types.dfy | `TiffTypes` | header, entry, IFD, page; TIFF 6.0 tag and enum codes |
| header.dfy | `TiffHeader` | `read_header`, `check_endian_type` |
| directory.dfy | `Directory` | `fetch_ifds` (first directory) |
| page.dfy | `PageModel` | `validate_bit_per_samples`, `calc_byte_per_pixel`, page validation |
| tags.dfy | `Tags` | `tag_procs` table, the handlers, `read_scalar` |
| decoder.dfy | `Decoder` | `read_entry_tags`, `decode`, constructor, `is_valid` |
| strips.dfy | `Strips` | the strip lookup shared by the pixel reads |
| pixels.dfy | `Pixels` | sample unpacking, `get_pixel_without_buffering`, `get_pixels` |
| cache.dfy | `WindowCache` | `get_pixel` and its window cache |
| samplefit.dfy | `SampleFit` | which pages keep every sample inside the pixel's bytes |

## Model

| member | source | states |
|---|---|---|
| ByteOrder.SwapModeReadsFileOrder | src/tiff_reader.cpp:351-359 | With swap mode set to "host order differs from file order", a native load plus optional byte swap yields the value in the file's declared byte order, on either host |
| ByteOrder.DecodeEncodeIn | src/tiff_reader.cpp:351-359 | Encoding a value in either byte order and decoding it in the same order gives the value back |
| ByteOrder.EncodeDecodeIn | src/tiff_reader.cpp:351-359 | Decoding bytes and re-encoding the value in the same order gives the bytes back |
| ByteOrder.Slice | src/tiff_reader.cpp:378-383 | Reading `size` bytes at `pos` yields exactly `size` bytes, equal to the file's bytes when the range lies inside the file |
| ByteOrder.ReadArray16 | src/tiff_reader.cpp:495 | An out-of-line array of `n` SHORTs has `n` elements, element `i` being the 16-bit value at `pos + 2i` |
| ByteOrder.ReadArray32 | src/tiff_reader.cpp:535 | An out-of-line array of `n` LONGs has `n` elements, element `i` being the 32-bit value at `pos + 4i` |
| TiffHeader.CheckEndianType | src/tiff_reader.cpp:367-376 | "MM" gives big-endian and "II" little-endian, each if and only if; any other pair is invalid |
| TiffHeader.ReadHeader | src/tiff_reader.cpp:346-365 | The header is accepted exactly when the magic is "II" or "MM" and the version, read in that order, is 42; then the swap mode agrees with host and file order and the offset is bytes 4..8 in file order |
| TiffHeader.OtherMagicRefused | src/tiff_reader.cpp:349-354 | A file whose first two bytes are neither magic is refused, whatever follows |
| TiffHeader.WellFormedHeaderAccepted | src/tiff_reader.cpp:346-365 | A header written in either byte order with version 42 is accepted on either host and returns the written IFD offset |
| Directory.ParseEntry | src/tiff_reader.cpp:407-415 | An entry's tag, type, count and value slot are the record's bytes 0-2, 2-4, 4-8 and 8-12 in file byte order |
| Directory.EntryRoundTrip | src/tiff_reader.cpp:407-415 | A 12-byte record written in the file's byte order parses back to the same entry |
| Directory.EntriesStart | src/tiff_reader.cpp:409 | The records start at `offset + 2` taken in 32 bits: the plain sum below 2^32, and the sum less 2^32 for an offset of 2^32 - 2 or 2^32 - 1 |
| Directory.FetchIfd | src/tiff_reader.cpp:395-415 | The first directory has as many entries as its 2-byte count says, entry `i` parsed at `EntriesStart(offset) + 12i`, the record index added after the 32-bit sum |
| Directory.DirectoryRoundTrip | src/tiff_reader.cpp:395-415 | A directory image written in the file's byte order, its records from `EntriesStart(offset)` on, is read back entry for entry |
| PageModel.CalcBytePerPixel | src/tiff_reader.cpp:132-147 | Bytes per pixel: samples times the first depth over 8 when the depth list is non-empty and its length differs from the sample count; otherwise the 16-bit depth total over 8, or 0 when not whole bytes; all in 8 bits. The product must stay below 2^31 |
| PageModel.BytePerPixelOfWholeBytes | src/tiff_reader.cpp:140-146 | With one depth per sample, a whole-byte total below 2048 bits gives exactly the total in bytes |
| PageModel.BytePerPixelExamples | src/tiff_reader.cpp:132-147 | RGB 8-8-8 is 3 bytes, RGBA is 4, 5-5-5 is 0 (not whole bytes), one sample with three depths is 1 |
| PageModel.Pad | src/tiff_reader.cpp:149-155 | Padding keeps the given depths as a prefix and appends copies of the first depth up to the sample count, never shortening |
| PageModel.ValidateBitPerSamples | src/tiff_reader.cpp:149-155 | Validation always succeeds; the list grows to at least the sample count, its old entries kept and the new ones equal to the first depth |
| PageModel.PadIdempotent | src/tiff_reader.cpp:149-155 | Padding an already padded list changes nothing |
| PageModel.Validate | src/tiff_reader.cpp:440-442 | Page validation changes only the depth list and the byte count: the list is padded to the sample count, and the byte count is derived from the padded list |
| PageModel.ValidatedPageUsesSummedDepth | src/tiff_reader.cpp:140-146 | After validating a page with at most one depth per sample, the byte count is the summed depth in bytes |
| Tags.TagOf | src/tiff_reader.cpp:14-32 | Every handler is registered in the dispatch table under its TIFF tag id |
| Tags.ShortScalarIsLeftJustified | src/tiff_reader.cpp:499 | The 16-bit value of an entry read from the file is the first two bytes of its value slot in file byte order (TIFF 6.0 left-justification) |
| Tags.ShortValueReadBack | src/tiff_reader.cpp:505 | A SHORT stored left-justified in the slot is read back unchanged, in either byte order |
| Tags.ReadScalarGeneric | src/tiff_reader.cpp:480 | A SHORT entry yields a value below 2^16; an entry of any other type yields the whole 32-bit slot |
| Tags.ShortEntryReadBack | src/tiff_reader.cpp:480 | A SHORT entry holding `w` left-justified in its slot reads back `w` through the generic read, in either byte order |
| Tags.LongEntryReadBack | src/tiff_reader.cpp:480 | An entry of any other type holding the 32-bit `w` in its slot reads back `w` through the generic read |
| Tags.SlotBytesAreFileBytes | src/tiff_reader.cpp:599-602 | The slot value re-encoded in file order is the slot's four bytes in the file |
| Tags.InlineText | src/tiff_reader.cpp:599-602 | Inline text is a NUL-free prefix of the slot bytes, at most `count - 1` long, stopped early only by a NUL |
| Tags.InlineDescriptionAsWritten | src/tiff_reader.cpp:599-602 | The source takes inline text from the slot value's bytes in host memory: a NUL-free prefix of those bytes, at most `count - 1` long |
| Tags.InlineDescriptionSameOrderHost | src/tiff_reader.cpp:599-602 | On a host of the file's own byte order the source's inline text equals the text of the slot's file bytes |
| Tags.InlineDescriptionCrossOrderHost | src/tiff_reader.cpp:599-602 | On a little-endian host an "MM" file holding "ab" inline yields the empty string as written, "ab" from the file bytes |
| Tags.ImageWidthTag | src/tiff_reader.cpp:478-482 | Always accepted; the width becomes the entry's scalar of its declared type and nothing else changes |
| Tags.ImageLengthTag | src/tiff_reader.cpp:483-487 | Always accepted; the height becomes the entry's scalar of its declared type and nothing else changes |
| Tags.BitsPerSampleTag | src/tiff_reader.cpp:488-502 | Refused iff the slot is 0; more than two depths are read out of line as `count` SHORTs, otherwise one depth from the slot; only the depth list changes |
| Tags.CompressionTag | src/tiff_reader.cpp:503-512 | Accepted iff the compression is "none"; a refusal leaves the page untouched |
| Tags.PhotometricTag | src/tiff_reader.cpp:513-527 | Accepted iff the colorspace is one of MinIsWhite, MinIsBlack, RGB, Palette, TransparencyMask; the value is stored even when refused |
| Tags.StripTable | src/tiff_reader.cpp:528-560 | A strip table is refused iff the slot is 0; otherwise it has `count` entries, read out of line when there are two or more and taken from the slot when one |
| Tags.StripOffsetsTag | src/tiff_reader.cpp:528-541 | Accepted iff the strip table is; then the offsets are that table and nothing else changes |
| Tags.StripByteCountsTag | src/tiff_reader.cpp:547-560 | Accepted iff the strip table is; then the byte counts are that table and nothing else changes |
| Tags.RowsPerStripTag | src/tiff_reader.cpp:542-546 | Always accepted; the rows per strip become the entry's scalar of its declared type and nothing else changes |
| Tags.PlanarConfigurationTag | src/tiff_reader.cpp:571-576 | Accepted iff the configuration is contiguous; the value is stored even when refused, and no other field changes |
| Tags.ColorMapTag | src/tiff_reader.cpp:582-594 | Refused iff the count is positive and the offset 0; an empty map changes nothing; otherwise the palette is `count` SHORTs read at the offset |
| Tags.ImageDescriptionTag | src/tiff_reader.cpp:595-613 | Always accepted; up to four bytes are the NUL-terminated text of the slot's file bytes, at most `count - 1` long; longer text is `count - 1` bytes read at the offset |
| Tags.ImageDescriptionTagAsWritten | src/tiff_reader.cpp:595-613 | As the source writes it: always accepted; up to four bytes are the NUL-terminated text of the slot value's bytes in host memory, at most `count - 1` long; longer text is `count - 1` bytes read at the offset |
| Tags.DescriptionAsWrittenSameOrderHost | src/tiff_reader.cpp:597-602 | On a host of the file's own byte order the handler as written accepts the same entries as the corrected one and gives the same page |
| Tags.SamplesPerPixelTag | src/tiff_reader.cpp:614-618 | Always accepted; the sample count is the scalar truncated to 16 bits and nothing else changes |
| Tags.DateTimeTag | src/tiff_reader.cpp:619-631 | Accepted iff the count is 20; then the stored text is the 19 bytes at the offset |
| Tags.ExtraSamplesTag | src/tiff_reader.cpp:632-637 | Always accepted; the extra-sample count becomes the entry's count and the extra-sample type its 16-bit scalar; nothing else changes |
| Tags.ApplyHandler | src/tiff_reader.cpp:478-637 | Each handler fails exactly under its refusal condition and writes no page field but its own |
| Tags.ResolutionTagsIgnored | src/tiff_reader.cpp:561-581 | Through the dispatch table, XResolution, YResolution and ResolutionUnit are accepted and leave the page as it was |
| Decoder.ProcessEntry | src/tiff_reader.cpp:426-433 | An entry fails iff it is recognised and refused; an unknown tag is skipped without effect; a handler touches only its own field |
| Decoder.ProcessEntries | src/tiff_reader.cpp:424-438 | A directory's entries all succeed iff none of them is refused |
| Decoder.ProcessConcat | src/tiff_reader.cpp:424-438 | Processing a concatenation is processing the first part and, if it succeeded, the second from the page it left; otherwise the second part is never reached |
| Decoder.StopsAtFirstRefusal | src/tiff_reader.cpp:428-431 | The outcome of a directory with a refused entry is fixed by the entries up to the first refusal, whatever follows |
| Decoder.UnknownTagsIgnored | src/tiff_reader.cpp:426-435 | Processing a directory gives the same outcome as processing only its recognised entries |
| Decoder.OnlyUnknownTags | src/tiff_reader.cpp:426-435 | A directory of unknown tags leaves the page exactly as it was |
| Decoder.RunDirectories | src/tiff_reader.cpp:424-438 | The tag pass keeps one page per directory and succeeds iff no entry of any directory is refused |
| Decoder.ReadEntryTags | src/tiff_reader.cpp:422-444 | Succeeds iff no entry is refused; on failure no page is validated; on success every page is validated, hence padded and with a derived byte count |
| Decoder.Decode | src/tiff_reader.cpp:446-459 | One directory and one page; decoding succeeds iff no entry of the first directory is refused; the page is validated only on success |
| Decoder.Open | src/tiff_reader.cpp:307-322 | A reader is closed iff the header is refused, valid iff the header is accepted and no first-directory entry is refused; a valid reader has one normalised page |
| Decoder.RefusedEntryIsFatal | src/tiff_reader.cpp:341-344 | Any refused entry in the first directory makes the reader invalid |
| Decoder.RefusalConditions | src/tiff_reader.cpp:503-631 | An entry is refused iff it is LZW-or-other compression, an unaccepted colorspace, a non-contiguous planar layout, a DateTime count other than 20, a zero slot for BitsPerSample or a strip table, or a ColorMap with count and zero offset |
| Strips.TargetUnique | src/tiff_reader.cpp:184-193 | At most one strip satisfies the target condition for a byte position |
| Strips.LocateStrip | src/tiff_reader.cpp:184-193 | The strip index is below 2^16, the counter being 16 bits, and the in-strip offset never exceeds the byte position |
| Strips.ScanFindsTarget | src/tiff_reader.cpp:186-193 | Without 32-bit overflow, the scan stops at the target strip with the total of the strips before it |
| Strips.LocateStripCorrect | src/tiff_reader.cpp:184-193 | The lookup returns the strip holding the byte (or the strip count past the end) and the offset from that strip's start, which lies inside the strip |
| Strips.LocateStripExample | src/tiff_reader.cpp:184-193 | With three 100-byte strips, byte 250 is offset 50 of strip 2 and byte 300 is past the end |
| Strips.LocateStripShift | src/tiff_reader.cpp:196-218 | Moving forward within a strip keeps the strip and moves the offset by the same amount |
| Strips.TargetIsFound | src/tiff_reader.cpp:184-193 | Any strip satisfying the target condition is the one the lookup returns |
| Pixels.PixelPtr | src/tiff_reader.cpp:184 | The pixel's byte position is `(y * width + x) * bytes per pixel` when that is below 2^32, and otherwise a smaller value congruent to it modulo 2^32 |
| Pixels.PixelBase | src/tiff_reader.cpp:292 | The file position of a pixel is its strip's offset plus its in-strip offset when that sum is below 2^32, and that sum less 2^32 otherwise |
| Pixels.Unpack | src/tiff_reader.cpp:263-272 | Sample `k` lands in channel `k`, extracted at the 8-bit sum of the depths before it with its own width; channels without a sample keep their value |
| Pixels.UnpackDeterminedByBytes | src/tiff_reader.cpp:263-272 | With four samples every channel is written, so the starting colour does not matter |
| Pixels.GetPixelWithoutBuffering | src/tiff_reader.cpp:278-305 | Channel `k` is sample `k` extracted from the pixel's `bytePerPixel` bytes at its strip offset plus in-strip offset, that sum taken in 32 bits; missing channels are 0 |
| SampleFit.WholeBytePixelsHoldTheirSamples | src/tiff_reader.cpp:140-146 | With one depth per sample and a whole-byte depth total below 2048 bits, every sample's bits lie inside the pixel's bytes |
| SampleFit.SamplesOutsidePixelExamples | src/tiff_reader.cpp:132-147 | Three 8-bit depths for one sample give 1 byte per pixel and a 1-bit depth gives 0, and in both the samples run past the pixel's bytes |
| Pixels.GrayAlpha | src/tiff_reader.cpp:205-210 | The gray sample fills r, g and b, and alpha is read after it with the same width |
| Pixels.GetPixels | src/tiff_reader.cpp:182-231 | Returns `l`; RGBA8 pages are a raw copy of `4l` bytes from the first pixel; gray-plus-alpha and general pages unpack pixel `i` from the `bytePerPixel` bytes `i` pixels on, general pages keeping unused channels of the caller's colours |
| Pixels.BulkAgreesWithSingle | src/tiff_reader.cpp:215-230 | In the general path, pixel `i` of a bulk read over cleared colours is the single read of `(x + i, y)` while it stays in the first strip and its file position below 2^32, on pages whose samples lie inside the pixel's bytes |
| Pixels.PtrStep | src/tiff_reader.cpp:184 | Stepping `i` pixels along a row moves the byte position by `i` pixels' bytes, absent wrap |
| Pixels.BaseStep | src/tiff_reader.cpp:217-218 | While the run stays inside the first pixel's strip and below 2^32, pixel `x + i` lies `i` pixels' bytes after pixel `x` in the file |
| Pixels.GrayAlphaBulkVersusSingle | src/tiff_reader.cpp:201-213 | For gray-plus-alpha pages the bulk read repeats gray into g and b and puts the second sample in alpha, while the single read puts it in g and leaves b and a at 0 |
| WindowCache.Reload | src/tiff_reader.cpp:253-260 | A miss loads the window at the pixel's offset, the smaller of the window size and the bytes left in the strip, and the loaded window holds those file bytes |
| WindowCache.FetchWindowAsWritten | src/tiff_reader.cpp:247-260 | As written: a hit keeps the slot and reads at `off - start`, a miss reloads; coherence is kept; inside the strip the window covers `off` and holds that file byte there |
| WindowCache.WindowPosition | src/tiff_reader.cpp:252-268 | In a coherent window that starts at or before the pixel, the bytes at `off - start` are the pixel's file bytes, when window and pixel lie on the same side of file position 2^32 |
| WindowCache.FetchWindow | src/tiff_reader.cpp:247-260 | With the whole pixel required for a hit, a pixel inside its strip that fits the window is read from the window as exactly its file bytes |
| WindowCache.AsWrittenIsCorrectedWhenPixelFits | src/tiff_reader.cpp:249-260 | When a hit as written has the whole pixel inside the window, the source's slot update is the corrected one |
| WindowCache.CorrectedReadsPixel | src/tiff_reader.cpp:262-268 | From a slot that serves it, the corrected read takes exactly a fitting pixel's file bytes |
| WindowCache.AsWrittenReadsPixel | src/tiff_reader.cpp:262-268 | So does the source's read, whatever memory follows the window, when a hit has the whole pixel inside the window |
| WindowCache.GetPixelAsWritten | src/tiff_reader.cpp:233-276 | Without a slot the read is the direct read and needs only the strip offset table; with one, the slot stays coherent, and from a slot that serves the pixel a fitting pixel (inside its strip, no wider than the window, its samples inside its bytes) reads as the direct read unless a hit runs past the window's end |
| WindowCache.GetPixel | src/tiff_reader.cpp:233-276 | Without a slot the direct read, needing only the strip offset table; with the corrected hit test, from a coherent slot whose window lies on the pixel's side of file position 2^32, a pixel inside its strip, no wider than the window and with its samples inside its bytes reads exactly as the direct read |
| WindowCache.ReadPixels | src/tiff_reader.cpp:233-276 | Any sequence of cached reads of fitting pixels whose strips end below 2^32 returns the direct read of every pixel and keeps the slot coherent: for such pixels the cache is invisible |
| WindowCache.WindowStraddleAsWritten | src/tiff_reader.cpp:249-252 | With a 4-byte window and 3-byte pixels, the second pixel is a hit as written; its bytes are 4 followed by the two bytes of memory after the window, where the file holds 4 5 6 |
| WindowCache.WindowStraddleCorrected | src/tiff_reader.cpp:249-260 | With the corrected test the second pixel reloads the window at its own offset, holding its three file bytes |
| WindowCache.StraddleColorsAsWritten | src/tiff_reader.cpp:262-272 | On that file the source's cached read gives colour (4, b0, b1, 0), b0 and b1 being the memory bytes after the window; the direct read gives (4, 5, 6, 0); the two agree iff b0, b1 are 5, 6 |

## Left out

- File I/O: `fopen`, `fseek` and `fread` are modelled as slicing an immutable byte sequence. Short reads are modelled as zero bytes, because the source does not check how much `fread` returned.
- Locks and the process-wide `info_buffer` and `pix_buffer`: they serialise access and carry no decoding logic, so they are not modelled.
- `reserve_page_id` and `release_page_id` (src/tiff_reader.cpp:115-130): pool bookkeeping is not modelled. A page either has a slot (`Some`) or has none (`None`). A fresh slot's contents are unknown, so the cached-read results assume a slot that is coherent with the file.
- The next-IFD offset read (src/tiff_reader.cpp:416-417): it is read but never followed, so only the first directory is modelled.
- The fast path of `get_pixels` copies raw bytes over `color_t` memory. The model returns those raw bytes and not their layout in `color_t`, which is declared outside src/tiff_reader.cpp.
- `extract_memory` is declared outside src/tiff_reader.cpp; its code is not modelled. It is a parameter (`Pixels.Extractor`), and every pixel result is stated in terms of it applied to the pixel's `bytePerPixel` bytes; the source hands it the address of the pixel inside a longer buffer, as the lines below on the pixel reads say.
- `color_t` is declared outside src/tiff_reader.cpp; its code is not modelled. Both single-pixel reads start from a default-constructed colour (src/tiff_reader.cpp:262, 294), which the model takes as all channels 0 (`Pixels.Cleared`). If that constructor leaves the channels uninitialised, channels without a sample are unspecified rather than 0.
- `read_scalar` and `read_scalar_generic` are declared outside src/tiff_reader.cpp; their code is not modelled. They are modelled per TIFF 6.0 section 2:
  - a SHORT is left-justified in the value slot;
  - a LONG is the whole slot;
  - the generic read uses the declared field type.
- `page::validate` and the page constructor are declared outside src/tiff_reader.cpp; their code is not modelled. They are modelled as padding followed by `calc_byte_per_pixel`, starting from a zero page.
- The numeric codes of tags, compression, photometric and planar values come from TIFF 6.0 sections 3 to 8, because the enum header is declared outside src/tiff_reader.cpp.
- `print_info`, `print_header`, `to_string`, `printf` diagnostics, `open`, `open_ptr`, the destructor, `get_page` and `get_page_count` are output or accessors with no decoding logic.
- Undefined behaviour in the source is excluded by preconditions instead of being modelled:
  - `Tags.StripEntryDefined`: a strip tag with count 0 and a non-zero slot.
  - `Tags.DescriptionEntryDefined` and `Tags.DescriptionEntryDefinedAsWritten`: inline text with no NUL in the slot bytes.
  - `PageModel.Paddable`: a positive sample count with no depths.
  - `Pixels.Unpackable`: more than four samples.
  - `WindowCache.StripKnown` and `Pixels.Addressable`: a strip index beyond the tables. A read without a slot needs only the offset table (`WindowCache.ReadDefined`).
  - `PageModel.ProductDefined`, required by `PageModel.CalcBytePerPixel` and, on the padded list, by `PageModel.PageValidatable`: samples times the first depth above 2^31 - 1. The two `uint16_t` operands are multiplied as `int`. The branch runs when the padded list is longer than the sample count, for example 32770 depths of 65535 with 32769 samples.
- Strips.LocateStripCorrect: proved only with fewer than 65536 strips and a total below 2^32. `LocateStrip` itself models both wrap-arounds, but what it returns after a wrap is not characterised.
- Strips.LocateStripShift: proved under the same bounds as `Strips.LocateStripCorrect`.
- Strips.TargetIsFound: proved under the same bounds as `Strips.LocateStripCorrect`.
- ByteOrder.ReadArray16: `fread_array_buffering` is declared outside src/tiff_reader.cpp; it is taken to read `n` elements in file order, each through the `buffer_reader` swap.
- ByteOrder.ReadArray32: the same assumption about `fread_array_buffering` as `ByteOrder.ReadArray16`.
- ByteOrder.BufferRead: `buffer_reader` is declared outside src/tiff_reader.cpp; it is taken to be a load in the host's byte order followed by a byte swap when the swap mode is set.
- Tags.ApplyHandler: dispatches ImageDescription to the corrected `Tags.ImageDescriptionTag`, which reads inline text from the slot's file bytes. The source's handler is `Tags.ImageDescriptionTagAsWritten`; the two agree on hosts of the file's own byte order (`Tags.DescriptionAsWrittenSameOrderHost`).
- Pixels.GetPixelWithoutBuffering: the extractor is handed the pixel's `bytePerPixel` bytes, where the source hands it `info_buffer`, whose bytes after the pixel are left over from earlier reads. The two agree when every sample lies inside the pixel's bytes (`Pixels.SamplesInPixel`), as on every page of whole-byte depths (`SampleFit.WholeBytePixelsHoldTheirSamples`). On other pages the decoder accepts (`SampleFit.SamplesOutsidePixelExamples`), samples past the pixel are extracted from nothing in the model and from stale bytes in the source, so their value is not modelled.
- Pixels.GetPixels: the gray-plus-alpha and general paths hand the extractor the pixel's `bytePerPixel` bytes, with the same gap as `Pixels.GetPixelWithoutBuffering`.
- WindowCache.GetPixel: equality with the direct read is promised only for a pixel inside its strip that fits the window size and whose samples lie inside its bytes (`WindowCache.PixelFits`), from a window on the pixel's side of file position 2^32 (`WindowCache.WrapSafe`). Past the pixel's bytes the model reads zeros, where the source reads the rest of the window and then whatever memory follows the loaded bytes; on pages whose samples reach there, the source's cached and direct reads take different memory and no relation between them is claimed.
- WindowCache.FetchWindow: reads the pixel's file bytes under the same conditions as `WindowCache.GetPixel`.
- WindowCache.ReadPixels: requires every requested pixel's strip to end below file position 2^32, which holds for every strip of a file addressed with 32-bit offsets, and every requested pixel to fit as in `WindowCache.GetPixel`, its samples inside its bytes included.
- WindowCache.GetPixelAsWritten: the memory after the loaded window is a parameter (`beyond`); the model does not track what earlier, longer loads left there. Its equality with the direct read is promised under the same fit condition as `WindowCache.GetPixel`.
- Pixels.BulkAgreesWithSingle: proved only while the pixel stays in the first pixel's strip, no 32-bit position wraps, and every sample lies inside the pixel's bytes (`Pixels.SamplesInPixel`), for the reason given under `Pixels.GetPixelWithoutBuffering`. Beyond the strip, the source's bulk read keeps reading past the strip and the two reads need not agree.
- Pixels.GetPixels: returns the count `l` itself. The source returns it as an `int` converted from `size_t`, which differs from `l` once `l` reaches 2^31; only a caller's argument can reach that.
- Pixels.GetPixels: the gray-plus-alpha path takes the second sample's bit offset as the first depth. That offset's parameter type in `extract_memory` is not visible, so no 8-bit truncation is modelled there.

## Findings

| source | as written | input that shows it | evidently intended | confidence | as-written member | corrected member |
|---|---|---|---|---|---|---|
| src/tiff_reader.cpp:249-252 | the window cache counts a request as a hit when the pixel's first byte lies in the window | 4-byte window, 3 bytes per pixel, one 6-byte strip `1 2 3 4 5 6`: read (0,0), then (1,0); the second read is a hit at window position 3 and unpacks `4 b0 b1`, where `b0 b1` are whatever memory follows the window, instead of `4 5 6` | a hit needs the whole pixel in the window, so the cached read equals the direct read | not executed | WindowCache.FetchWindowAsWritten, WindowCache.GetPixelAsWritten, WindowCache.WindowStraddleAsWritten, WindowCache.StraddleColorsAsWritten | WindowCache.FetchWindow, WindowCache.GetPixel, WindowCache.ReadPixels, WindowCache.WindowStraddleCorrected |
| src/tiff_reader.cpp:599-602 | inline ImageDescription text is copied from the host-memory bytes of the decoded 32-bit slot value | little-endian host, "MM" file, ImageDescription count 3 with slot bytes `'a' 'b' 0 0`: the decoded value 0x61620000 lies in memory as `0 0 'b' 'a'`, giving "" | the text is the slot's bytes in file order, "ab" | not executed | Tags.InlineDescriptionAsWritten, Tags.ImageDescriptionTagAsWritten, Tags.InlineDescriptionCrossOrderHost | Tags.ImageDescriptionTag, Tags.InlineDescriptionSameOrderHost, Tags.DescriptionAsWrittenSameOrderHost |
