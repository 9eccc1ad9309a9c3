/**
 * Fixed-width unsigned ranges used by the reader (bytes, 16- and 32-bit
 * fields) and sums over sequences of naturals (bit depths, strip sizes).
 */
module Numeric {

  type byte = x: int | 0 <= x < 0x100
  type u16 = x: int | 0 <= x < 0x1_0000
  type u32 = x: int | 0 <= x < 0x1_0000_0000

  const U16: nat := 0x1_0000
  const U32: nat := 0x1_0000_0000

  /** Sum of a sequence, peeled from the back so that prefix sums extend by one element. */
  function Sum(s: seq<nat>): nat
  {
    if |s| == 0 then 0 else Sum(s[..|s| - 1]) + s[|s| - 1]
  }

  lemma SumStep(s: seq<nat>, i: nat)
    requires i < |s|
    ensures Sum(s[..i + 1]) == Sum(s[..i]) + s[i]
  {
    assert s[..i + 1][..i] == s[..i];
  }

  lemma SumWhole(s: seq<nat>)
    ensures Sum(s[..|s|]) == Sum(s)
  {
    assert s[..|s|] == s;
  }

  /** Prefix sums never decrease. */
  lemma {:induction false} SumPrefixMonotone(s: seq<nat>, i: nat, j: nat)
    requires i <= j <= |s|
    ensures Sum(s[..i]) <= Sum(s[..j])
    decreases j - i
  {
    if i < j {
      SumPrefixMonotone(s, i, j - 1);
      SumStep(s, j - 1);
    }
  }

  function Min(a: nat, b: nat): nat
  {
    if a < b then a else b
  }
}
