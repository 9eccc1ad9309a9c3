/**
 * Header and byte-order resolution: the first 8 bytes of the file carry the
 * byte-order magic ("II" or "MM"), the version 42 and the first IFD offset
 * (TIFF 6.0, section 2).
 */
module TiffHeader {
  import opened Numeric
  import opened ByteOrder
  import opened TiffTypes

  const MagicBig: seq<byte> := [0x4D, 0x4D]     // "MM"
  const MagicLittle: seq<byte> := [0x49, 0x49]  // "II"
  const Version: nat := 42

  /** Byte order named by a 2-byte magic. */
  function CheckEndianType(s: seq<byte>): (r: Endian)
    requires |s| == 2
    ensures r == Big <==> s == MagicBig
    ensures r == Little <==> s == MagicLittle
    ensures r == Invalid <==> s != MagicBig && s != MagicLittle
  {
    if s == MagicBig then Big
    else if s == MagicLittle then Little
    else Invalid
  }

  /** An accepted header together with the view every later read goes through. */
  datatype Resolved = Resolved(header: Header, endian: Endian, view: FileView)

  /**
   * Read the header of `file` on a host whose native order is big-endian iff
   * `hostBig`. None when the magic or the version is refused.
   */
  function ReadHeader(file: seq<byte>, hostBig: bool): (r: Option<Resolved>)
    ensures r.Some? <==>
      && (Slice(file, 0, 2) == MagicBig || Slice(file, 0, 2) == MagicLittle)
      && DecodeIn(Slice(file, 0, 2) == MagicBig, Slice(file, 2, 2)) == Version
    ensures r.Some? ==>
      && r.value.endian == (if Slice(file, 0, 2) == MagicBig then Big else Little)
      && r.value.endian != Invalid
      && r.value.view == FileView(file, hostBig, r.value.endian == Big, hostBig != (r.value.endian == Big))
      && Coherent(r.value.view)
      && r.value.header.order == Slice(file, 0, 2)
      && r.value.header.version == Version
      && r.value.header.offset == DecodeIn(r.value.endian == Big, Slice(file, 4, 4))
  {
    var buf := Slice(file, 0, 8);
    var order := buf[..2];
    var t := CheckEndianType(order);
    if t == Invalid then None
    else
      var big := t == Big;
      var swap := hostBig != big;
      Pow256Widths();
      SliceOfSlice(file, 0, 8, 2, 2);
      SliceOfSlice(file, 0, 8, 4, 4);
      SwapModeReadsFileOrder(hostBig, big, buf[2..4]);
      SwapModeReadsFileOrder(hostBig, big, buf[4..8]);
      var version := BufferRead(hostBig, swap, buf[2..4]);
      var offset := BufferRead(hostBig, swap, buf[4..8]);
      if version != Version then None
      else Some(Resolved(Header(order, version, offset), t, FileView(file, hostBig, big, swap)))
  }

  /** Only the two magics are accepted, whatever the rest of the file holds. */
  lemma OtherMagicRefused(file: seq<byte>, hostBig: bool)
    requires Slice(file, 0, 2) != MagicBig && Slice(file, 0, 2) != MagicLittle
    ensures ReadHeader(file, hostBig).None?
    ensures CheckEndianType(Slice(file, 0, 2)) == Invalid
  {
  }

  /** A well-formed header in either byte order is accepted, with its offset, on either host. */
  lemma {:induction false} WellFormedHeaderAccepted(big: bool, offset: u32, rest: seq<byte>, hostBig: bool)
    ensures
      var file := (if big then MagicBig else MagicLittle) + EncodeIn(big, Version, 2) + EncodeIn(big, offset, 4) + rest;
      var r := ReadHeader(file, hostBig);
      && r.Some?
      && r.value.endian == (if big then Big else Little)
      && r.value.header.offset == offset
      && r.value.view.swap == (hostBig != big)
  {
    Pow256Widths();
    var magic := if big then MagicBig else MagicLittle;
    var file := magic + EncodeIn(big, Version, 2) + EncodeIn(big, offset, 4) + rest;
    assert Slice(file, 0, 2) == magic;
    assert Slice(file, 2, 2) == EncodeIn(big, Version, 2);
    assert Slice(file, 4, 4) == EncodeIn(big, offset, 4);
    DecodeEncodeIn(big, Version, 2);
    DecodeEncodeIn(big, offset, 4);
  }
}
