/**
 * The binary field reader: unsigned integers stored least- or most-significant
 * byte first, the reader's host-native load followed by an optional byte swap,
 * and positioned reads over the immutable file image.
 */
module ByteOrder {
  import opened Numeric

  function Pow256(n: nat): (r: nat)
    ensures r >= 1
  {
    if n == 0 then 1 else 256 * Pow256(n - 1)
  }

  lemma Pow256Widths()
    ensures Pow256(1) == 0x100 && Pow256(2) == U16 && Pow256(4) == U32
  {
    assert Pow256(1) == 256 * Pow256(0);
    assert Pow256(2) == 256 * Pow256(1);
    assert Pow256(3) == 256 * Pow256(2);
    assert Pow256(4) == 256 * Pow256(3);
  }

  /** Value of `bs` read least-significant byte first ("II" order). */
  function DecodeLE(bs: seq<byte>): (r: nat)
    ensures r < Pow256(|bs|)
  {
    if |bs| == 0 then 0 else bs[0] + 256 * DecodeLE(bs[1..])
  }

  /** Value of `bs` read most-significant byte first ("MM" order). */
  function DecodeBE(bs: seq<byte>): (r: nat)
    ensures r < Pow256(|bs|)
  {
    if |bs| == 0 then 0 else 256 * DecodeBE(bs[..|bs| - 1]) + bs[|bs| - 1]
  }

  function Reverse(bs: seq<byte>): (r: seq<byte>)
    ensures |r| == |bs|
    ensures forall i :: 0 <= i < |bs| ==> r[i] == bs[|bs| - 1 - i]
  {
    if |bs| == 0 then [] else Reverse(bs[1..]) + [bs[0]]
  }

  lemma ReverseReverse(bs: seq<byte>)
    ensures Reverse(Reverse(bs)) == bs
  {
  }

  /** Reading most-significant first is reading the reversed bytes least-significant first. */
  lemma {:induction false} BigEndianIsReversedLittle(bs: seq<byte>)
    ensures DecodeBE(bs) == DecodeLE(Reverse(bs))
    decreases |bs|
  {
    if |bs| > 0 {
      var front := bs[..|bs| - 1];
      var rev := Reverse(bs);
      assert rev[1..] == Reverse(front);
      BigEndianIsReversedLittle(front);
    }
  }

  /** The `n` bytes of `v`, least-significant first. */
  function EncodeLE(v: nat, n: nat): (r: seq<byte>)
    requires v < Pow256(n)
    ensures |r| == n
  {
    if n == 0 then [] else [v % 256] + EncodeLE(v / 256, n - 1)
  }

  lemma {:induction false} DecodeEncodeLE(v: nat, n: nat)
    requires v < Pow256(n)
    ensures DecodeLE(EncodeLE(v, n)) == v
    decreases n
  {
    if n > 0 {
      var bs := EncodeLE(v, n);
      assert bs[1..] == EncodeLE(v / 256, n - 1);
      DecodeEncodeLE(v / 256, n - 1);
    }
  }

  lemma {:induction false} EncodeDecodeLE(bs: seq<byte>)
    ensures EncodeLE(DecodeLE(bs), |bs|) == bs
    decreases |bs|
  {
    if |bs| > 0 {
      var v := DecodeLE(bs);
      assert v % 256 == bs[0];
      assert v / 256 == DecodeLE(bs[1..]);
      EncodeDecodeLE(bs[1..]);
    }
  }

  lemma ShiftDistributes(c: int, x: int, y: int, z: int)
    ensures c + 256 * (x + y * z) == (c + 256 * x) + (256 * y) * z
    ensures 256 * (x * y + z) + c == x * (256 * y) + (256 * z + c)
  {
  }

  /** Splitting the bytes: the later bytes are the more significant ones. */
  lemma {:induction false} DecodeLEConcat(a: seq<byte>, b: seq<byte>)
    ensures DecodeLE(a + b) == DecodeLE(a) + Pow256(|a|) * DecodeLE(b)
    decreases |a|
  {
    if |a| == 0 {
      assert a + b == b;
    } else {
      var t := a[1..];
      assert (a + b)[1..] == t + b;
      assert (a + b)[0] == a[0];
      DecodeLEConcat(t, b);
      assert DecodeLE(a + b) == a[0] + 256 * DecodeLE(t + b);
      ShiftDistributes(a[0], DecodeLE(t), Pow256(|t|), DecodeLE(b));
    }
  }

  /** Splitting the bytes: the earlier bytes are the more significant ones. */
  lemma {:induction false} DecodeBEConcat(a: seq<byte>, b: seq<byte>)
    ensures DecodeBE(a + b) == DecodeBE(a) * Pow256(|b|) + DecodeBE(b)
    decreases |b|
  {
    if |b| == 0 {
      assert a + b == a;
    } else {
      var t := b[..|b| - 1];
      var last := b[|b| - 1];
      assert (a + b)[..|a + b| - 1] == a + t;
      assert (a + b)[|a + b| - 1] == last;
      DecodeBEConcat(a, t);
      assert DecodeBE(a + b) == 256 * DecodeBE(a + t) + last;
      ShiftDistributes(last, DecodeBE(a), Pow256(|t|), DecodeBE(t));
    }
  }

  /**
   * A 16-bit value stored left-justified in a 4-byte slot: it is the high half
   * of the slot's value in "MM" order and the low half in "II" order.
   */
  lemma LeftJustifiedHalf(big: bool, s: seq<byte>)
    requires |s| == 4
    ensures big ==> DecodeIn(big, s) / U16 == DecodeIn(big, s[..2])
    ensures !big ==> DecodeIn(big, s) % U16 == DecodeIn(big, s[..2])
  {
    Pow256Widths();
    assert s == s[..2] + s[2..];
    if big {
      DecodeBEConcat(s[..2], s[2..]);
    } else {
      DecodeLEConcat(s[..2], s[2..]);
    }
  }

  /** Value of `bs` in the byte order selected by `big`. */
  function DecodeIn(big: bool, bs: seq<byte>): (r: nat)
    ensures r < Pow256(|bs|)
  {
    if big then DecodeBE(bs) else DecodeLE(bs)
  }

  /** The `n` bytes that store `v` in the byte order selected by `big`. */
  function EncodeIn(big: bool, v: nat, n: nat): (r: seq<byte>)
    requires v < Pow256(n)
    ensures |r| == n
  {
    if big then Reverse(EncodeLE(v, n)) else EncodeLE(v, n)
  }

  /** Encoding then decoding in either byte order gives the value back. */
  lemma DecodeEncodeIn(big: bool, v: nat, n: nat)
    requires v < Pow256(n)
    ensures DecodeIn(big, EncodeIn(big, v, n)) == v
  {
    DecodeEncodeLE(v, n);
    if big {
      BigEndianIsReversedLittle(Reverse(EncodeLE(v, n)));
      ReverseReverse(EncodeLE(v, n));
    }
  }

  /** Decoding then encoding in either byte order gives the bytes back. */
  lemma EncodeDecodeIn(big: bool, bs: seq<byte>)
    ensures EncodeIn(big, DecodeIn(big, bs), |bs|) == bs
  {
    if big {
      BigEndianIsReversedLittle(bs);
      EncodeDecodeLE(Reverse(bs));
      ReverseReverse(bs);
    } else {
      EncodeDecodeLE(bs);
    }
  }

  /** Exchange the byte order of an `n`-byte value. */
  function ByteSwap(v: nat, n: nat): (r: nat)
    requires v < Pow256(n)
    ensures r < Pow256(n)
  {
    DecodeLE(Reverse(EncodeLE(v, n)))
  }

  /**
   * One `buffer_reader` read of `bs`: the host loads the bytes in its native
   * order, and the value is byte-swapped when swap mode is on.
   */
  function BufferRead(hostBig: bool, swap: bool, bs: seq<byte>): (r: nat)
    ensures r < Pow256(|bs|)
  {
    var native := DecodeIn(hostBig, bs);
    if swap then ByteSwap(native, |bs|) else native
  }

  /**
   * Swap mode set to "host order differs from file order" makes every read
   * return the value in the file's declared byte order, on either host.
   */
  lemma SwapModeReadsFileOrder(hostBig: bool, fileBig: bool, bs: seq<byte>)
    ensures BufferRead(hostBig, hostBig != fileBig, bs) == DecodeIn(fileBig, bs)
  {
    if hostBig && !fileBig {
      BigEndianIsReversedLittle(bs);
      EncodeDecodeLE(Reverse(bs));
      ReverseReverse(bs);
    } else if !hostBig && fileBig {
      EncodeDecodeLE(bs);
      BigEndianIsReversedLittle(bs);
    }
  }

  /**
   * `size` bytes of the file starting at `pos` (the effect of `fread_pos`).
   * Bytes past the end of the file read as 0: the source ignores short reads.
   */
  function Slice(file: seq<byte>, pos: nat, size: nat): (r: seq<byte>)
    ensures |r| == size
    ensures pos + size <= |file| ==> r == file[pos..pos + size]
  {
    seq(size, i requires 0 <= i < size => if pos + i < |file| then file[pos + i] else 0)
  }

  lemma SliceOfSlice(file: seq<byte>, pos: nat, size: nat, k: nat, w: nat)
    requires k + w <= size
    ensures Slice(file, pos, size)[k..k + w] == Slice(file, pos + k, w)
  {
  }

  /**
   * What a reader reads through: the file image, the host's byte order, the
   * file's declared byte order and the swap mode chosen from them.
   */
  datatype FileView = FileView(bytes: seq<byte>, hostBig: bool, big: bool, swap: bool)

  /** Swap mode agrees with the host and file byte orders. */
  predicate Coherent(v: FileView)
  {
    v.swap == (v.hostBig != v.big)
  }

  function ReadUInt(v: FileView, pos: nat, width: nat): (r: nat)
    ensures r < Pow256(width)
    ensures Coherent(v) ==> r == DecodeIn(v.big, Slice(v.bytes, pos, width))
  {
    SwapModeReadsFileOrder(v.hostBig, v.big, Slice(v.bytes, pos, width));
    BufferRead(v.hostBig, v.swap, Slice(v.bytes, pos, width))
  }

  function ReadU16(v: FileView, pos: nat): (r: u16)
    ensures Coherent(v) ==> r == DecodeIn(v.big, Slice(v.bytes, pos, 2))
  {
    Pow256Widths();
    ReadUInt(v, pos, 2)
  }

  function ReadU32(v: FileView, pos: nat): (r: u32)
    ensures Coherent(v) ==> r == DecodeIn(v.big, Slice(v.bytes, pos, 4))
  {
    Pow256Widths();
    ReadUInt(v, pos, 4)
  }

  /** `fread_array_buffering` into a vector of `n` 16-bit elements at `pos`. */
  function ReadArray16(v: FileView, pos: nat, n: nat): (r: seq<u16>)
    ensures |r| == n
    ensures forall i :: 0 <= i < n ==> r[i] == ReadU16(v, pos + 2 * i)
  {
    seq(n, i requires 0 <= i < n => ReadU16(v, pos + 2 * i))
  }

  /** `fread_array_buffering` into a vector of `n` 32-bit elements at `pos`. */
  function ReadArray32(v: FileView, pos: nat, n: nat): (r: seq<u32>)
    ensures |r| == n
    ensures forall i :: 0 <= i < n ==> r[i] == ReadU32(v, pos + 4 * i)
  {
    seq(n, i requires 0 <= i < n => ReadU32(v, pos + 4 * i))
  }
}
