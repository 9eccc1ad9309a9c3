/**
 * The decode driver: the first directory's entries are dispatched in on-disk
 * order, the first refusal aborts the whole file, and otherwise every page is
 * validated and the reader becomes valid.
 */
module Decoder {
  import opened Numeric
  import opened ByteOrder
  import opened TiffTypes
  import opened TiffHeader
  import opened Directory
  import opened Tags
  import opened PageModel

  /** A recognised entry whose handler refuses it. */
  predicate EntryRejected(v: FileView, e: TagEntry)
  {
    e.tag in TagProcs && Rejects(TagProcs[e.tag], v, e)
  }

  predicate AllAccepted(v: FileView, es: seq<TagEntry>)
  {
    forall i :: 0 <= i < |es| ==> !EntryRejected(v, es[i])
  }

  /** The entry's handler, if any, is defined on it. */
  predicate EntryHandled(v: FileView, e: TagEntry)
  {
    e.tag !in TagProcs || EntryDefined(TagProcs[e.tag], v, e)
  }

  /** Every entry that processing reaches (up to and including the first refused one) is handled. */
  predicate RunDefined(v: FileView, es: seq<TagEntry>)
    decreases |es|
  {
    |es| == 0 || (EntryHandled(v, es[0]) && (EntryRejected(v, es[0]) || RunDefined(v, es[1..])))
  }

  /** One entry: dispatched through the table when recognised, skipped otherwise. */
  function ProcessEntry(v: FileView, e: TagEntry, p: Page): (r: Outcome)
    requires EntryHandled(v, e)
    ensures !r.ok <==> EntryRejected(v, e)
    ensures e.tag !in TagProcs ==> r == Outcome(true, p)
    ensures e.tag in TagProcs ==> SameExcept(p, r.page, Owner(TagProcs[e.tag]))
  {
    if e.tag in TagProcs then ApplyHandler(TagProcs[e.tag], v, e, p)
    else Outcome(true, p)
  }

  /** The entries of one directory, in order, stopping at the first failed handler. */
  function ProcessEntries(v: FileView, es: seq<TagEntry>, p: Page): (r: Outcome)
    requires RunDefined(v, es)
    ensures r.ok <==> AllAccepted(v, es)
    decreases |es|
  {
    if |es| == 0 then Outcome(true, p)
    else
      var o := ProcessEntry(v, es[0], p);
      if !o.ok then o
      else
        assert forall i :: 1 <= i < |es| ==> es[i] == es[1..][i - 1];
        ProcessEntries(v, es[1..], o.page)
  }

  /**
   * Processing a concatenation is processing the first part, then (if it all
   * succeeded) the second part from the page it left.
   */
  lemma {:induction false} ProcessConcat(v: FileView, a: seq<TagEntry>, b: seq<TagEntry>, p: Page)
    requires RunDefined(v, a + b)
    ensures RunDefined(v, a)
    ensures ProcessEntries(v, a, p).ok ==>
      RunDefined(v, b) && ProcessEntries(v, a + b, p) == ProcessEntries(v, b, ProcessEntries(v, a, p).page)
    ensures !ProcessEntries(v, a, p).ok ==> ProcessEntries(v, a + b, p) == ProcessEntries(v, a, p)
    decreases |a|
  {
    if |a| == 0 {
      assert a + b == b;
    } else {
      assert (a + b)[0] == a[0];
      assert (a + b)[1..] == a[1..] + b;
      var o := ProcessEntry(v, a[0], p);
      if o.ok {
        ProcessConcat(v, a[1..], b, o.page);
      }
    }
  }

  /**
   * Processing stops at the first refused entry: the result is fixed by the
   * entries up to it, whatever follows.
   */
  lemma StopsAtFirstRefusal(v: FileView, es: seq<TagEntry>, k: nat, p: Page)
    requires RunDefined(v, es)
    requires k < |es| && EntryRejected(v, es[k])
    requires forall j :: 0 <= j < k ==> !EntryRejected(v, es[j])
    ensures RunDefined(v, es[..k + 1])
    ensures !ProcessEntries(v, es, p).ok
    ensures ProcessEntries(v, es, p) == ProcessEntries(v, es[..k + 1], p)
  {
    assert es == es[..k + 1] + es[k + 1..];
    ProcessConcat(v, es[..k + 1], es[k + 1..], p);
  }

  /** The entries whose tag is in the dispatch table, in order. */
  function Recognised(es: seq<TagEntry>): (r: seq<TagEntry>)
    ensures |r| <= |es|
    ensures forall i :: 0 <= i < |r| ==> r[i].tag in TagProcs && r[i] in es
    decreases |es|
  {
    if |es| == 0 then []
    else (if es[0].tag in TagProcs then [es[0]] else []) + Recognised(es[1..])
  }

  /** Unknown tags change nothing: processing gives what processing only the recognised entries gives. */
  lemma {:induction false} UnknownTagsIgnored(v: FileView, es: seq<TagEntry>, p: Page)
    requires RunDefined(v, es)
    ensures RunDefined(v, Recognised(es))
    ensures ProcessEntries(v, es, p) == ProcessEntries(v, Recognised(es), p)
    decreases |es|
  {
    if |es| > 0 {
      var o := ProcessEntry(v, es[0], p);
      if es[0].tag in TagProcs {
        var r := Recognised(es);
        assert r[0] == es[0] && r[1..] == Recognised(es[1..]);
        if o.ok {
          UnknownTagsIgnored(v, es[1..], o.page);
        }
      } else {
        assert Recognised(es) == [] + Recognised(es[1..]);
        assert [] + Recognised(es[1..]) == Recognised(es[1..]);
        UnknownTagsIgnored(v, es[1..], p);
      }
    }
  }

  /** A directory holding only unknown tags leaves the page exactly as it was. */
  lemma OnlyUnknownTags(v: FileView, es: seq<TagEntry>, p: Page)
    requires forall i :: 0 <= i < |es| ==> es[i].tag !in TagProcs
    ensures RunDefined(v, es)
    ensures ProcessEntries(v, es, p) == Outcome(true, p)
    decreases |es|
  {
    if |es| > 0 {
      OnlyUnknownTags(v, es[1..], p);
    }
  }

  /** Directory by directory, stopping at the first refused entry. */
  predicate DirectoriesDefined(v: FileView, ifds: seq<Ifd>)
    decreases |ifds|
  {
    |ifds| == 0 || (RunDefined(v, ifds[0].entries) && (!AllAccepted(v, ifds[0].entries) || DirectoriesDefined(v, ifds[1..])))
  }

  /** The tag pass of `read_entry_tags`: directory `k` fills page `k`, stopping at the first failure. */
  function RunDirectories(v: FileView, ifds: seq<Ifd>, pages: seq<Page>): (r: (bool, seq<Page>))
    requires |ifds| == |pages|
    requires DirectoriesDefined(v, ifds)
    ensures |r.1| == |pages|
    ensures r.0 <==> forall k :: 0 <= k < |ifds| ==> AllAccepted(v, ifds[k].entries)
    decreases |ifds|
  {
    if |ifds| == 0 then (true, [])
    else
      var o := ProcessEntries(v, ifds[0].entries, pages[0]);
      if !o.ok then (false, [o.page] + pages[1..])
      else
        var rest := RunDirectories(v, ifds[1..], pages[1..]);
        assert forall k :: 1 <= k < |ifds| ==> ifds[k] == ifds[1..][k - 1];
        (rest.0, [o.page] + rest.1)
  }

  /** A page that has been through validation: depths padded, bytes per pixel derived. */
  predicate Normalised(p: Page)
  {
    && |p.bitPerSamples| >= p.samplesPerPixel
    && ProductDefined(p.samplesPerPixel, p.bitPerSamples)
    && p.bytePerPixel == CalcBytePerPixel(p.samplesPerPixel, p.bitPerSamples)
  }

  /**
   * `read_entry_tags`: on the first failed handler it returns false with no
   * page validated; otherwise it validates every page and returns true.
   */
  function ReadEntryTags(v: FileView, ifds: seq<Ifd>, pages: seq<Page>): (r: (bool, seq<Page>))
    requires |ifds| == |pages|
    requires DirectoriesDefined(v, ifds)
    requires RunDirectories(v, ifds, pages).0 ==> forall q :: q in RunDirectories(v, ifds, pages).1 ==> PageValidatable(q)
    ensures r.0 <==> forall k :: 0 <= k < |ifds| ==> AllAccepted(v, ifds[k].entries)
    ensures !r.0 ==> r.1 == RunDirectories(v, ifds, pages).1
    ensures r.0 ==> |r.1| == |pages| && forall k :: 0 <= k < |pages| ==> r.1[k] == Validate(RunDirectories(v, ifds, pages).1[k])
    ensures r.0 ==> forall k :: 0 <= k < |pages| ==> Normalised(r.1[k])
  {
    var (ok, ps) := RunDirectories(v, ifds, pages);
    if !ok then (false, ps)
    else (true, seq(|ps|, k requires 0 <= k < |ps| => Validate(ps[k])))
  }

  /** Decoding is defined: reached entries are handled, and an accepted page can be padded. */
  predicate DecodeDefined(v: FileView, offset: nat)
  {
    var es := FetchIfd(v, offset).entries;
    RunDefined(v, es) && (ProcessEntries(v, es, EmptyPage).ok ==> PageValidatable(ProcessEntries(v, es, EmptyPage).page))
  }

  datatype Decoded = Decoded(ifds: seq<Ifd>, pages: seq<Page>, decoded: bool)

  /** `decode`: fetch the first directory, give it an empty page, process its tags. */
  function Decode(v: FileView, offset: nat): (r: Decoded)
    requires DecodeDefined(v, offset)
    ensures r.ifds == [FetchIfd(v, offset)] && |r.pages| == 1
    ensures r.decoded <==> AllAccepted(v, FetchIfd(v, offset).entries)
    ensures r.decoded ==> r.pages[0] == Validate(ProcessEntries(v, FetchIfd(v, offset).entries, EmptyPage).page)
    ensures !r.decoded ==> r.pages[0] == ProcessEntries(v, FetchIfd(v, offset).entries, EmptyPage).page
  {
    var ifd := FetchIfd(v, offset);
    assert [ifd][1..] == [];
    var (ok, pages) := ReadEntryTags(v, [ifd], [EmptyPage]);
    Decoded([ifd], pages, ok)
  }

  /** A reader whose file was refused at the header, or one that reached decoding. */
  datatype Reader =
    | Closed
    | Opened(resolved: Resolved, ifds: seq<Ifd>, pages: seq<Page>, decoded: bool)

  /** `is_valid`: the file is open and decoding completed. */
  predicate IsValid(r: Reader)
  {
    r.Opened? && r.decoded
  }

  predicate OpenDefined(file: seq<byte>, hostBig: bool)
  {
    match ReadHeader(file, hostBig)
    case None => true
    case Some(h) => DecodeDefined(h.view, h.header.offset)
  }

  /** The entries of the first directory of a file whose header is accepted. */
  function FirstEntries(h: Resolved): seq<TagEntry>
  {
    FetchIfd(h.view, h.header.offset).entries
  }

  /**
   * Construct a reader over `file` on a host of the given byte order. It is
   * valid exactly when the header is accepted and no entry of the first
   * directory is refused; a valid reader has one page, validated.
   */
  function Open(file: seq<byte>, hostBig: bool): (r: Reader)
    requires OpenDefined(file, hostBig)
    ensures r.Closed? <==> ReadHeader(file, hostBig).None?
    ensures IsValid(r) <==>
      ReadHeader(file, hostBig).Some? && AllAccepted(ReadHeader(file, hostBig).value.view, FirstEntries(ReadHeader(file, hostBig).value))
    ensures IsValid(r) ==> |r.pages| == 1 && Normalised(r.pages[0])
  {
    match ReadHeader(file, hostBig)
    case None => Closed
    case Some(h) =>
      var d := Decode(h.view, h.header.offset);
      Opened(h, d.ifds, d.pages, d.decoded)
  }

  /** Any refused entry in the first directory (LZW compression, a DateTime count other than 20, ...) makes the file invalid. */
  lemma RefusedEntryIsFatal(file: seq<byte>, hostBig: bool, i: nat)
    requires OpenDefined(file, hostBig)
    requires ReadHeader(file, hostBig).Some?
    requires i < |FirstEntries(ReadHeader(file, hostBig).value)|
    requires EntryRejected(ReadHeader(file, hostBig).value.view, FirstEntries(ReadHeader(file, hostBig).value)[i])
    ensures !IsValid(Open(file, hostBig))
  {
  }

  /** An entry is refused exactly by the conditions its handler checks. */
  lemma RefusalConditions(v: FileView, e: TagEntry)
    ensures EntryRejected(v, e) <==>
      || (e.tag == TagCompression && ReadScalar16(v, e) != CompressionNone)
      || (e.tag == TagPhotometric && ReadScalar16(v, e) !in AcceptedColorspaces)
      || (e.tag == TagPlanarConfiguration && ReadScalar16(v, e) != PlanarContig)
      || (e.tag == TagDateTime && e.count != 20)
      || ((e.tag == TagBitsPerSample || e.tag == TagStripOffsets || e.tag == TagStripByteCounts) && e.dataField == 0)
      || (e.tag == TagColorMap && e.count > 0 && e.dataField == 0)
  {
  }
}
