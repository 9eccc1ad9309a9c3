/**
 * The first Image File Directory: a 2-byte entry count at the header's
 * offset, followed by 12-byte records of tag, field type, count and value
 * slot, every field in the file's byte order.
 */
module Directory {
  import opened Numeric
  import opened ByteOrder
  import opened TiffTypes

  const EntrySize: nat := 12

  /** Bytes `k .. k + w` of the 12-byte record loaded from `pos`, read through the view. */
  function RecordField(v: FileView, pos: nat, k: nat, w: nat): (r: nat)
    requires k + w <= EntrySize
    ensures r < Pow256(w)
    ensures Coherent(v) ==> r == DecodeIn(v.big, Slice(v.bytes, pos + k, w))
  {
    var rec := Slice(v.bytes, pos, EntrySize);
    SliceOfSlice(v.bytes, pos, EntrySize, k, w);
    SwapModeReadsFileOrder(v.hostBig, v.big, rec[k..k + w]);
    BufferRead(v.hostBig, v.swap, rec[k..k + w])
  }

  /** The record at `pos`: tag, field type, count and value slot, in that order. */
  function ParseEntry(v: FileView, pos: nat): (e: TagEntry)
    ensures Coherent(v) ==>
      && e.tag == DecodeIn(v.big, Slice(v.bytes, pos, 2))
      && e.fieldType == DecodeIn(v.big, Slice(v.bytes, pos + 2, 2))
      && e.count == DecodeIn(v.big, Slice(v.bytes, pos + 4, 4))
      && e.dataField == DecodeIn(v.big, Slice(v.bytes, pos + 8, 4))
  {
    Pow256Widths();
    TagEntry(RecordField(v, pos, 0, 2), RecordField(v, pos, 2, 2), RecordField(v, pos, 4, 4), RecordField(v, pos, 8, 4))
  }

  /** The 12 bytes that store `e` in the byte order selected by `big`. */
  function EncodeEntry(big: bool, e: TagEntry): (r: seq<byte>)
    ensures |r| == EntrySize
  {
    Pow256Widths();
    EncodeIn(big, e.tag, 2) + EncodeIn(big, e.fieldType, 2) + EncodeIn(big, e.count, 4) + EncodeIn(big, e.dataField, 4)
  }

  /** A record laid out as 2 + 2 + 4 + 4 bytes yields its four fields at offsets 0, 2, 4 and 8. */
  lemma RecordSplits(rec: seq<byte>, a: seq<byte>, b: seq<byte>, c: seq<byte>, d: seq<byte>)
    requires |a| == 2 && |b| == 2 && |c| == 4 && |d| == 4
    requires rec == a + b + c + d
    ensures rec[0..2] == a && rec[2..4] == b && rec[4..8] == c && rec[8..12] == d
  {
    assert rec[0..2] == a by { assert forall i :: 0 <= i < 2 ==> rec[i] == a[i]; }
    assert rec[2..4] == b by { assert forall i :: 0 <= i < 2 ==> rec[2 + i] == b[i]; }
    assert rec[4..8] == c by { assert forall i :: 0 <= i < 4 ==> rec[4 + i] == c[i]; }
    assert rec[8..12] == d by { assert forall i :: 0 <= i < 4 ==> rec[8 + i] == d[i]; }
  }

  /** A record written in the file's byte order parses back to the same entry. */
  lemma EntryRoundTrip(v: FileView, pos: nat, e: TagEntry)
    requires Coherent(v)
    requires pos + EntrySize <= |v.bytes|
    requires v.bytes[pos..pos + EntrySize] == EncodeEntry(v.big, e)
    ensures ParseEntry(v, pos) == e
  {
    Pow256Widths();
    var a, b, c, d := EncodeIn(v.big, e.tag, 2), EncodeIn(v.big, e.fieldType, 2), EncodeIn(v.big, e.count, 4), EncodeIn(v.big, e.dataField, 4);
    var rec := Slice(v.bytes, pos, EntrySize);
    RecordSplits(rec, a, b, c, d);
    var q := ParseEntry(v, pos);
    assert q.tag == e.tag by {
      SliceOfSlice(v.bytes, pos, EntrySize, 0, 2);
      DecodeEncodeIn(v.big, e.tag, 2);
    }
    assert q.fieldType == e.fieldType by {
      SliceOfSlice(v.bytes, pos, EntrySize, 2, 2);
      DecodeEncodeIn(v.big, e.fieldType, 2);
    }
    assert q.count == e.count by {
      SliceOfSlice(v.bytes, pos, EntrySize, 4, 4);
      DecodeEncodeIn(v.big, e.count, 4);
    }
    assert q.dataField == e.dataField by {
      SliceOfSlice(v.bytes, pos, EntrySize, 8, 4);
      DecodeEncodeIn(v.big, e.dataField, 4);
    }
  }

  /**
   * Where the records start: `offset + 2`, summed in 32 bits like the
   * `uint32_t` header offset it starts from; the record index is added after.
   */
  function EntriesStart(offset: nat): (r: nat)
    ensures r < U32
    ensures offset + 2 < U32 ==> r == offset + 2
    ensures offset < U32 <= offset + 2 ==> r == offset + 2 - U32
  {
    (offset + 2) % U32
  }

  /**
   * The first directory at `offset`: its entry count and entry `i` read from
   * `EntriesStart(offset) + 12 * i`. The following next-directory offset is not used.
   */
  function FetchIfd(v: FileView, offset: nat): (d: Ifd)
    ensures |d.entries| == d.entryCount
    ensures Coherent(v) ==> d.entryCount == DecodeIn(v.big, Slice(v.bytes, offset, 2))
    ensures forall i :: 0 <= i < |d.entries| ==> d.entries[i] == ParseEntry(v, EntriesStart(offset) + EntrySize * i)
  {
    var count := ReadU16(v, offset);
    Ifd(count, seq(count, i requires 0 <= i < count => ParseEntry(v, EntriesStart(offset) + EntrySize * i)))
  }

  /** A directory image written in the file's byte order is read back entry for entry. */
  lemma {:induction false} DirectoryRoundTrip(v: FileView, offset: nat, es: seq<TagEntry>)
    requires Coherent(v)
    requires |es| < U16
    requires offset + 2 <= |v.bytes| && EntriesStart(offset) + EntrySize * |es| <= |v.bytes|
    requires v.bytes[offset..offset + 2] == EncodeIn(v.big, |es|, 2)
    requires forall i :: 0 <= i < |es| ==>
      v.bytes[EntriesStart(offset) + EntrySize * i..EntriesStart(offset) + EntrySize * i + EntrySize] == EncodeEntry(v.big, es[i])
    ensures FetchIfd(v, offset).entries == es
  {
    Pow256Widths();
    DecodeEncodeIn(v.big, |es|, 2);
    var d := FetchIfd(v, offset);
    assert |d.entries| == |es|;
    assert Slice(v.bytes, offset, 2) == v.bytes[offset..offset + 2];
    forall i | 0 <= i < |es|
      ensures d.entries[i] == es[i]
    {
      var pos := EntriesStart(offset) + EntrySize * i;
      assert EntrySize * i + EntrySize <= EntrySize * |es|;
      EntryRoundTrip(v, pos, es[i]);
    }
  }
}
