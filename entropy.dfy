/**
 * calculateEntropy (app.js:318-335): a 256-slot histogram filled by a
 * counting loop, then a second loop over the slots that subtracts
 * p * log2(p) for every slot with a positive count, p being the slot's share
 * of the input. Floating point is modelled by `real`, and Math.log2 is the
 * parameter `log2`, so the structure of the sum is modelled exactly while the
 * logarithm stays abstract.
 */
module Entropy {
  import opened Bytes

  /** Number of occurrences of v in data. */
  function Count(data: seq<byte>, v: byte): (c: nat)
    ensures c <= |data|
  {
    if data == [] then 0
    else Count(data[..|data| - 1], v) + (if data[|data| - 1] == v then 1 else 0)
  }

  /** The histogram the counting loop builds: one slot per byte value. */
  function Histogram(data: seq<byte>): (counts: seq<nat>)
    ensures |counts| == 256
    ensures forall v: byte :: counts[v] == Count(data, v)
  {
    seq(256, (v: int) requires 0 <= v < 256 => Count(data, v))
  }

  function Sum(s: seq<nat>): nat
  {
    if s == [] then 0 else Sum(s[..|s| - 1]) + s[|s| - 1]
  }

  /** What one slot adds to the entropy: -p * log2(p) when its count is positive, nothing otherwise. */
  function Contribution(c: nat, n: nat, log2: real -> real): real
  {
    if c > 0 && n > 0 then
      var p := c as real / n as real;
      -(p * log2(p))
    else 0.0
  }

  /** The entropy accumulated over the slots of counts, in slot order. */
  function SlotSum(counts: seq<nat>, n: nat, log2: real -> real): real
  {
    if counts == [] then 0.0
    else SlotSum(counts[..|counts| - 1], n, log2) + Contribution(counts[|counts| - 1], n, log2)
  }

  /** The value calculateEntropy returns for data. */
  function EntropyOf(data: seq<byte>, log2: real -> real): real
  {
    SlotSum(Histogram(data), |data|, log2)
  }

  /** calculateEntropy: count every byte, then sum over the slots that occur. */
  method CalculateEntropy(data: seq<byte>, log2: real -> real) returns (entropy: real)
    ensures entropy == EntropyOf(data, log2)
  {
    var counts := new nat[256](_ => 0);
    for i := 0 to |data|
      invariant forall v: byte :: counts[v] == Count(data[..i], v)
    {
      assert data[..i + 1][..i] == data[..i];
      counts[data[i]] := counts[data[i]] + 1;
    }
    assert data[..|data|] == data;
    assert counts[..] == Histogram(data);

    entropy := 0.0;
    for i := 0 to 256
      invariant counts[..] == Histogram(data)
      invariant entropy == SlotSum(counts[..i], |data|, log2)
    {
      assert counts[..i + 1][..i] == counts[..i];
      if counts[i] > 0 {
        var probability := counts[i] as real / |data| as real;
        entropy := entropy - probability * log2(probability);
      }
    }
    assert counts[..256] == counts[..];
  }

  // ---------------------------------------------------------------------------
  // The histogram

  /** Count agrees with the multiplicity of v in the multiset of data. */
  lemma {:induction false} CountIsMultiplicity(data: seq<byte>, v: byte)
    ensures Count(data, v) == multiset(data)[v]
  {
    if data != [] {
      var init := data[..|data| - 1];
      CountIsMultiplicity(init, v);
      assert data == init + [data[|data| - 1]];
    }
  }

  lemma {:induction false} SumIncrement(s: seq<nat>, k: nat)
    requires k < |s|
    ensures Sum(s[k := s[k] + 1]) == Sum(s) + 1
  {
    var t := s[k := s[k] + 1];
    if k < |s| - 1 {
      assert t[..|t| - 1] == s[..|s| - 1][k := s[k] + 1];
      SumIncrement(s[..|s| - 1], k);
    } else {
      assert t[..|t| - 1] == s[..|s| - 1];
    }
  }

  lemma {:induction false} SumZero(s: seq<nat>)
    requires forall i :: 0 <= i < |s| ==> s[i] == 0
    ensures Sum(s) == 0
  {
    if s != [] {
      SumZero(s[..|s| - 1]);
    }
  }

  /** The slots of the histogram add up to the length of the input. */
  lemma {:induction false} HistogramSum(data: seq<byte>)
    ensures Sum(Histogram(data)) == |data|
  {
    if data == [] {
      SumZero(Histogram(data));
    } else {
      var init := data[..|data| - 1];
      var last := data[|data| - 1];
      HistogramSum(init);
      assert Histogram(data) == Histogram(init)[last := Histogram(init)[last] + 1];
      SumIncrement(Histogram(init), last);
    }
  }

  /** Inputs that are permutations of each other have the same histogram, hence the same entropy. */
  lemma EntropyPermutationInvariant(a: seq<byte>, b: seq<byte>, log2: real -> real)
    requires multiset(a) == multiset(b)
    ensures Histogram(a) == Histogram(b)
    ensures EntropyOf(a, log2) == EntropyOf(b, log2)
  {
    forall v: byte ensures Count(a, v) == Count(b, v) {
      CountIsMultiplicity(a, v);
      CountIsMultiplicity(b, v);
    }
    assert |a| == |multiset(a)| == |b|;
  }

  // ---------------------------------------------------------------------------
  // The entropy sum

  lemma {:induction false} SlotSumOfZeros(counts: seq<nat>, n: nat, log2: real -> real)
    requires forall i :: 0 <= i < |counts| ==> counts[i] == 0
    ensures SlotSum(counts, n, log2) == 0.0
  {
    if counts != [] {
      SlotSumOfZeros(counts[..|counts| - 1], n, log2);
    }
  }

  /** The empty input has entropy 0: no slot is positive, so nothing is added and nothing is divided. */
  lemma EntropyOfEmpty(log2: real -> real)
    ensures EntropyOf([], log2) == 0.0
  {
    SlotSumOfZeros(Histogram([]), 0, log2);
  }

  lemma {:induction false} SlotSumSingleSlot(counts: seq<nat>, v: nat, n: nat, log2: real -> real)
    requires v < |counts|
    requires forall i :: 0 <= i < |counts| && i != v ==> counts[i] == 0
    ensures SlotSum(counts, n, log2) == Contribution(counts[v], n, log2)
  {
    var init := counts[..|counts| - 1];
    if v == |counts| - 1 {
      SlotSumOfZeros(init, n, log2);
    } else {
      SlotSumSingleSlot(init, v, n, log2);
    }
  }

  lemma {:induction false} CountOfConstant(data: seq<byte>, v: byte, w: byte)
    requires forall i :: 0 <= i < |data| ==> data[i] == v
    ensures Count(data, w) == if w == v then |data| else 0
  {
    if data != [] {
      CountOfConstant(data[..|data| - 1], v, w);
    }
  }

  /**
   * A non-empty input made of one repeated value has the single term
   * -1 * log2(1); with log2(1) = 0 that is entropy 0.
   */
  lemma EntropyOfConstant(data: seq<byte>, v: byte, log2: real -> real)
    requires |data| > 0
    requires forall i :: 0 <= i < |data| ==> data[i] == v
    ensures EntropyOf(data, log2) == -log2(1.0)
    ensures log2(1.0) == 0.0 ==> EntropyOf(data, log2) == 0.0
  {
    forall w: byte ensures Count(data, w) == if w == v then |data| else 0 {
      CountOfConstant(data, v, w);
    }
    SlotSumSingleSlot(Histogram(data), v, |data|, log2);
    assert |data| as real / |data| as real == 1.0;
  }

  lemma {:induction false} SlotSumOfEqualShares(counts: seq<nat>, k: nat, log2: real -> real)
    requires k > 0 && |counts| <= 256
    requires forall i :: 0 <= i < |counts| ==> counts[i] == k
    ensures SlotSum(counts, 256 * k, log2) == -(|counts| as real) * (1.0 / 256.0) * log2(1.0 / 256.0)
  {
    if counts != [] {
      SlotSumOfEqualShares(counts[..|counts| - 1], k, log2);
      ShareOfEqualSlot(k);
    }
  }

  /**
   * When every one of the 256 byte values occurs equally often, each slot
   * has share 1/256 and the entropy is -log2(1/256), that is 8 bits per byte.
   */
  lemma EntropyOfUniform(data: seq<byte>, k: nat, log2: real -> real)
    requires k > 0
    requires forall v: byte :: Count(data, v) == k
    ensures |data| == 256 * k
    ensures EntropyOf(data, log2) == -log2(1.0 / 256.0)
    ensures log2(1.0 / 256.0) == -8.0 ==> EntropyOf(data, log2) == 8.0
  {
    HistogramSum(data);
    var h := Histogram(data);
    assert forall i :: 0 <= i < |h| ==> h[i] == k;
    assert Sum(h) == 256 * k by {
      SumOfConstant(h, k);
    }
    SlotSumOfEqualShares(h, k, log2);
  }

  lemma {:induction false} SumOfConstant(s: seq<nat>, k: nat)
    requires forall i :: 0 <= i < |s| ==> s[i] == k
    ensures Sum(s) == |s| * k
  {
    if s != [] {
      SumOfConstant(s[..|s| - 1], k);
    }
  }

  /**
   * When log2 is non-positive on (0, 1], as the logarithm is, every
   * contributing slot adds a non-negative amount, so the entropy is non-negative.
   */
  lemma EntropyNonNegative(data: seq<byte>, log2: real -> real)
    requires forall p: real :: 0.0 < p <= 1.0 ==> log2(p) <= 0.0
    ensures EntropyOf(data, log2) >= 0.0
  {
    SlotSumNonNegative(Histogram(data), |data|, log2);
  }

  lemma {:induction false} SlotSumNonNegative(counts: seq<nat>, n: nat, log2: real -> real)
    requires forall p: real :: 0.0 < p <= 1.0 ==> log2(p) <= 0.0
    requires forall i :: 0 <= i < |counts| ==> counts[i] <= n
    ensures SlotSum(counts, n, log2) >= 0.0
  {
    if counts != [] {
      SlotSumNonNegative(counts[..|counts| - 1], n, log2);
      var c := counts[|counts| - 1];
      if c > 0 && n > 0 {
        var p := c as real / n as real;
        assert 0.0 < p <= 1.0;
        assert log2(p) <= 0.0;
        ProductNonPositive(p, log2(p));
      }
    }
  }

  lemma ShareOfEqualSlot(k: nat)
    requires k > 0
    ensures k as real / (256 * k) as real == 1.0 / 256.0
  {
    var x := k as real;
    assert (256 * k) as real == 256.0 * x;
    assert x / (256.0 * x) == (1.0 / 256.0) * (x / x);
  }

  lemma ProductNonPositive(p: real, l: real)
    requires p > 0.0 && l <= 0.0
    ensures p * l <= 0.0
  {
  }
}
