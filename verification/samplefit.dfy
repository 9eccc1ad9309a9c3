/**
 * Which pages keep every sample inside the pixel's bytes: the condition
 * under which handing the sample extractor only the pixel's bytes is the
 * same as handing it the source's longer buffer.
 */
module SampleFit {
  import opened Numeric
  import opened PageModel
  import opened Pixels

  /** With one depth per sample and a whole-byte total below 2048 bits, every sample lies inside the pixel. */
  lemma {:induction false} WholeBytePixelsHoldTheirSamples(spp: u16, bps: seq<u16>)
    requires |bps| == spp
    requires Sum(bps) % 8 == 0 && Sum(bps) < 8 * 0x100
    ensures SamplesWithin(bps, CalcBytePerPixel(spp, bps))
  {
    BytePerPixelOfWholeBytes(spp, bps);
    forall k | 0 <= k < |bps|
      ensures SampleStart(bps, k) + bps[k] <= 8 * CalcBytePerPixel(spp, bps)
    {
      SumStep(bps, k);
      SumPrefixMonotone(bps, k + 1, |bps|);
      SumWhole(bps);
    }
  }

  /**
   * Depth lists the decoder accepts whose samples run past the pixel: three
   * 8-bit depths for one sample (one byte per pixel), and one 1-bit depth
   * (zero bytes per pixel).
   */
  lemma SamplesOutsidePixelExamples()
    ensures CalcBytePerPixel(1, [8, 8, 8]) == 1 && !SamplesWithin([8, 8, 8], 1)
    ensures CalcBytePerPixel(1, [1]) == 0 && !SamplesWithin([1], 0)
  {
    ThreeDepthsForOneSample();
    BilevelDepth();
  }

  lemma ThreeDepthsForOneSample()
    ensures CalcBytePerPixel(1, [8, 8, 8]) == 1 && !SamplesWithin([8, 8, 8], 1)
  {
    var bps: seq<u16> := [8, 8, 8];
    assert CalcBytePerPixel(1, bps) == (1 * 8 / 8) % 0x100;
    assert bps[..1] == [8] && [8][..0] == [];
    assert SampleStart(bps, 1) + bps[1] == 16;
  }

  lemma BilevelDepth()
    ensures CalcBytePerPixel(1, [1]) == 0 && !SamplesWithin([1], 0)
  {
    var one: seq<u16> := [1];
    assert one[..0] == [] && one[..1] == one;
    assert Sum(one) == 1;
    assert SampleStart(one, 0) + one[0] == 1;
  }
}
