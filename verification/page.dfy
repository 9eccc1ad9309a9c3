/**
 * Page normalisation: the bits-per-sample list is padded to one entry per
 * sample, then the bytes per pixel are derived from it.
 */
module PageModel {
  import opened Numeric
  import opened TiffTypes

  /** Running 16-bit total of the depths from index `i` on, wrapping like `uint16_t`. */
  function TotalBits16(bps: seq<u16>, i: nat, total: u16): (r: u16)
    requires i <= |bps|
    requires total == Sum(bps[..i]) % U16
    ensures r == Sum(bps) % U16
    decreases |bps| - i
  {
    if i == |bps| then
      SumWhole(bps);
      total
    else
      SumStep(bps, i);
      TotalBits16(bps, i + 1, (total + bps[i]) % U16)
  }

  /**
   * Bytes per pixel: "samples times the first depth" when the depth list is
   * non-empty and its length differs from the sample count, otherwise the
   * (16-bit) sum of the depths in bytes, or 0 when it is not whole bytes.
   * The result is truncated to 8 bits.
   */
  function CalcBytePerPixel(spp: u16, bps: seq<u16>): (r: byte)
    requires ProductDefined(spp, bps)
    ensures |bps| >= 1 && |bps| != spp ==> r == (spp * bps[0] / 8) % 0x100
    ensures !(|bps| >= 1 && |bps| != spp) ==>
      r == (if Sum(bps) % 8 != 0 then 0 else (Sum(bps) % U16 / 8) % 0x100)
  {
    if |bps| != spp && |bps| >= 1 then
      (spp * bps[0] / 8) % 0x100
    else
      var total := TotalBits16(bps, 0, 0);
      WrapKeepsBitRemainder(Sum(bps));
      if total % 8 != 0 then 0 else (total / 8) % 0x100
  }

  /**
   * The first branch multiplies two `uint16_t` values promoted to `int`; a
   * product above 2^31 - 1 overflows, which is undefined.
   */
  predicate ProductDefined(spp: u16, bps: seq<u16>)
  {
    |bps| >= 1 && |bps| != spp ==> spp * bps[0] < 0x8000_0000
  }

  /** Truncating to 16 bits leaves the remainder modulo 8 unchanged, as 8 divides 2^16. */
  lemma WrapKeepsBitRemainder(n: nat)
    ensures n % U16 % 8 == n % 8
  {
    var q, r := n / U16, n % U16;
    assert n == 8 * (q * 0x2000) + r;
    assert (8 * (q * 0x2000) + r) % 8 == r % 8;
  }

  /** Whole-byte depths whose sum fits the counters give exactly the byte count. */
  lemma BytePerPixelOfWholeBytes(spp: u16, bps: seq<u16>)
    requires |bps| == spp
    requires Sum(bps) % 8 == 0 && Sum(bps) < 8 * 0x100
    ensures CalcBytePerPixel(spp, bps) == Sum(bps) / 8
  {
  }

  lemma BytePerPixelExamples()
    ensures CalcBytePerPixel(3, [8, 8, 8]) == 3
    ensures CalcBytePerPixel(4, [8, 8, 8, 8]) == 4
    ensures CalcBytePerPixel(3, [5, 5, 5]) == 0
    ensures CalcBytePerPixel(1, [8, 8, 8]) == 1
  {
    assert Sum([8, 8, 8]) == 24 by { assert [8, 8, 8][..2] == [8, 8]; assert [8, 8][..1] == [8]; assert [8][..0] == []; }
    assert Sum([5, 5, 5]) == 15 by { assert [5, 5, 5][..2] == [5, 5]; assert [5, 5][..1] == [5]; assert [5][..0] == []; }
    assert Sum([8, 8, 8, 8]) == 32 by { assert [8, 8, 8, 8][..3] == [8, 8, 8]; assert Sum([8, 8, 8]) == 24 by { assert [8, 8, 8][..2] == [8, 8]; assert [8, 8][..1] == [8]; assert [8][..0] == []; } }
  }

  /** Padding is defined unless a sample count is declared for an empty depth list. */
  predicate Paddable(spp: u16, bps: seq<u16>)
  {
    |bps| > 0 || spp == 0
  }

  /** Append copies of the first depth until there is one per sample. */
  function Pad(spp: u16, bps: seq<u16>): (r: seq<u16>)
    requires Paddable(spp, bps)
    ensures |r| == if |bps| < spp then spp as int else |bps|
    ensures r[..|bps|] == bps
    ensures forall i :: |bps| <= i < |r| ==> r[i] == bps[0]
    decreases spp - |bps|
  {
    if |bps| >= spp then bps
    else
      var r := Pad(spp, bps + [bps[0]]);
      assert r[..|bps|] == (bps + [bps[0]])[..|bps|];
      r
  }

  /** `validate_bit_per_samples`: the padded list, and success. */
  function ValidateBitPerSamples(spp: u16, bps: seq<u16>): (r: (bool, seq<u16>))
    requires Paddable(spp, bps)
    ensures r.0
    ensures |r.1| >= |bps| && |r.1| >= spp
    ensures |r.1| == |bps| || |r.1| == spp
    ensures r.1[..|bps|] == bps
    ensures forall i :: |bps| <= i < |r.1| ==> r.1[i] == bps[0]
  {
    (true, Pad(spp, bps))
  }

  /** Padding is idempotent: a padded list is left as it is. */
  lemma PadIdempotent(spp: u16, bps: seq<u16>)
    requires Paddable(spp, bps)
    ensures Paddable(spp, Pad(spp, bps)) && Pad(spp, Pad(spp, bps)) == Pad(spp, bps)
  {
  }

  /** Validation is defined: the depths can be padded, and the padded list's byte count is defined. */
  predicate PageValidatable(p: Page)
  {
    Paddable(p.samplesPerPixel, p.bitPerSamples) && ProductDefined(p.samplesPerPixel, Pad(p.samplesPerPixel, p.bitPerSamples))
  }

  /** The validation pass run once per page after its tags: pad, then derive bytes per pixel. */
  function Validate(p: Page): (q: Page)
    requires PageValidatable(p)
    ensures q == p.(bitPerSamples := q.bitPerSamples, bytePerPixel := q.bytePerPixel)
    ensures |q.bitPerSamples| >= |p.bitPerSamples| && |q.bitPerSamples| >= p.samplesPerPixel
    ensures q.bitPerSamples[..|p.bitPerSamples|] == p.bitPerSamples
    ensures forall i :: 0 < |p.bitPerSamples| <= i < |q.bitPerSamples| ==> q.bitPerSamples[i] == p.bitPerSamples[0]
    ensures |p.bitPerSamples| <= p.samplesPerPixel ==> |q.bitPerSamples| == p.samplesPerPixel
    ensures ProductDefined(p.samplesPerPixel, q.bitPerSamples)
    ensures q.bytePerPixel == CalcBytePerPixel(p.samplesPerPixel, q.bitPerSamples)
  {
    var (_, bps) := ValidateBitPerSamples(p.samplesPerPixel, p.bitPerSamples);
    p.(bitPerSamples := bps, bytePerPixel := CalcBytePerPixel(p.samplesPerPixel, bps))
  }

  /**
   * After validation of a page with at most one depth per sample, the byte
   * count is the summed depth in bytes, or 0 when that is not whole bytes.
   */
  lemma ValidatedPageUsesSummedDepth(p: Page)
    requires PageValidatable(p)
    requires |p.bitPerSamples| <= p.samplesPerPixel
    ensures var q := Validate(p);
      q.bytePerPixel == (if Sum(q.bitPerSamples) % 8 != 0 then 0 else (Sum(q.bitPerSamples) % U16 / 8) % 0x100)
  {
  }
}
