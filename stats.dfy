/** The spike-length statistics of `eval_spk`, over exact integers and
    reals: slot `i` gathers the length of the `i`-th spike of every region. */
module SpikeStats {
  import opened Failures
  import opened Parse
  import opened DiscModel
  import opened Regions
  import opened RegionLayout

  /** One slot: the lengths, one per region, their mean and their
      population variance (the source reports the square root of it). */
  datatype SpikeStat = SpikeStat(len: seq<nat>, avg: real, dev2: real)

  /** Whether `eval_spk` can run: there is a stop to divide by and every
      index it reads exists. */
  predicate StatsReady(d: DiscState)
  {
    |d.stp| > 0 && |d.dec| <= |d.inc|
  }

  function SpikesPerRegion(d: DiscState): nat
    requires |d.stp| > 0
  {
    |d.dec| / |d.stp|
  }

  lemma {:induction false} SlotIndex(d: DiscState, slot: nat, r: nat)
    requires StatsReady(d) && slot < SpikesPerRegion(d) && r < |d.stp|
    ensures slot + r * SpikesPerRegion(d) < |d.dec| <= |d.inc|
  {
    var spr := SpikesPerRegion(d);
    MulMonotone(r + 1, |d.stp|, spr);
    assert |d.stp| * spr <= |d.dec|;
  }

  /** The length of spike `slot` of region `r`: decrease minus increase, as
      an `unsigned long`. */
  function SpikeLength(d: DiscState, slot: nat, r: nat): (len: nat)
    requires StatsReady(d) && slot < SpikesPerRegion(d) && r < |d.stp|
    ensures len < LongWord
    ensures var k := slot + r * SpikesPerRegion(d);
      k < |d.dec| <= |d.inc| && (d.inc[k] <= d.dec[k] < LongWord ==> len == d.dec[k] - d.inc[k])
  {
    SlotIndex(d, slot, r);
    var k := slot + r * SpikesPerRegion(d);
    Gap(d.inc[k], d.dec[k])
  }

  function SlotLengths(d: DiscState, slot: nat): (r: seq<nat>)
    requires StatsReady(d) && slot < SpikesPerRegion(d)
    ensures |r| == |d.stp|
  {
    seq(|d.stp|, q requires 0 <= q < |d.stp| => SpikeLength(d, slot, q))
  }

  function Sum(xs: seq<nat>): nat
  {
    if xs == [] then 0 else Sum(xs[..|xs| - 1]) + xs[|xs| - 1]
  }

  function Mean(xs: seq<nat>): (mu: real)
    requires |xs| > 0
    ensures mu >= 0.0
    ensures mu * |xs| as real == Sum(xs) as real
  {
    Sum(xs) as real / |xs| as real
  }

  /** The sum of squared deviations from `mu`, in the order `eval_spk`
      adds them up. */
  function SquaredDeviation(xs: seq<nat>, mu: real): real
  {
    if xs == [] then 0.0
    else
      var e := xs[|xs| - 1] as real - mu;
      SquaredDeviation(xs[..|xs| - 1], mu) + e * e
  }

  lemma {:induction false} SquaredDeviationNonNegative(xs: seq<nat>, mu: real)
    ensures SquaredDeviation(xs, mu) >= 0.0
    decreases |xs|
  {
    if xs != [] {
      SquaredDeviationNonNegative(xs[..|xs| - 1], mu);
    }
  }

  /** Divided by the number of regions, not by one less. */
  function PopVariance(xs: seq<nat>): (v: real)
    requires |xs| > 0
    ensures v >= 0.0
  {
    SquaredDeviationNonNegative(xs, Mean(xs));
    SquaredDeviation(xs, Mean(xs)) / |xs| as real
  }

  function SlotStat(d: DiscState, slot: nat): SpikeStat
    requires StatsReady(d) && slot < SpikesPerRegion(d)
  {
    var len := SlotLengths(d, slot);
    SpikeStat(len, Mean(len), PopVariance(len))
  }

  /** What `eval_spk` computes, slot by slot. */
  function SpikeTable(d: DiscState): (r: seq<SpikeStat>)
    requires StatsReady(d)
    ensures |r| == SpikesPerRegion(d)
  {
    seq(SpikesPerRegion(d), i requires 0 <= i < SpikesPerRegion(d) => SlotStat(d, i))
  }

  /** `eval_spk` is reached only on a consistent layout, which is enough for
      it to run. */
  lemma {:induction false} ConsistentIsReady(d: DiscState)
    requires Layout(d) == Consistent
    ensures StatsReady(d)
  {
    LayoutMeaning(d);
  }

  /** On a consistent layout slot `i` of region `r` pairs the `i`-th
      increase and the `i`-th decrease of that region: both lie in it. */
  lemma {:induction false} SlotPairsInRegion(d: DiscState, slot: nat, r: nat)
    requires Layout(d) == Consistent
    requires StatsReady(d) && slot < SpikesPerRegion(d) && r < |d.stp|
    ensures var k := slot + r * SpikesPerRegion(d);
      k < |d.inc| && k < |d.dec|
      && d.stt[r] <= d.inc[k] < d.stp[r] && d.stt[r] < d.dec[k] <= d.stp[r]
  {
    LayoutMeaning(d);
    SlotIndex(d, slot, r);
    assert RegionHolds(d, r, SpikesPerRegion(d));
  }

  lemma {:induction false} SumBounds(xs: seq<nat>, lo: nat, hi: nat)
    requires forall i :: 0 <= i < |xs| ==> lo <= xs[i] <= hi
    ensures |xs| * lo <= Sum(xs) <= |xs| * hi
    decreases |xs|
  {
    if xs != [] {
      var n := |xs| - 1;
      SumBounds(xs[..n], lo, hi);
      assert |xs| * lo == n * lo + lo;
      assert |xs| * hi == n * hi + hi;
    }
  }

  /** The mean lies between the least and the greatest length. */
  lemma {:induction false} MeanWithin(xs: seq<nat>, lo: nat, hi: nat)
    requires |xs| > 0
    requires forall i :: 0 <= i < |xs| ==> lo <= xs[i] <= hi
    ensures lo as real <= Mean(xs) <= hi as real
  {
    SumBounds(xs, lo, hi);
    var n := |xs| as real;
    var total := Sum(xs) as real;
    assert n * lo as real <= total <= n * hi as real;
    DivideBounds(total, n, lo as real, hi as real);
  }

  lemma DivideBounds(total: real, n: real, lo: real, hi: real)
    requires n > 0.0 && n * lo <= total <= n * hi
    ensures lo <= total / n <= hi
  {
  }

  function Square(e: int): int
  {
    e * e
  }

  lemma SquareSign(e: int)
    ensures Square(e) >= 0
    ensures e != 0 ==> Square(e) > 0
  {
    if e < 0 {
      var f := -e;
      assert f * f > 0;
      assert Square(e) == f * f;
    } else if e > 0 {
      assert e * e > 0;
    }
  }

  /** The squared deviations scaled by `n * n` to stay in the integers:
      the sum of `(n * x - total)^2`. */
  function Spread(xs: seq<nat>, total: int, n: int): int
  {
    if xs == [] then 0 else Spread(xs[..|xs| - 1], total, n) + Square(n * xs[|xs| - 1] - total)
  }

  lemma ScaleTerm(x: int, total: int, n: int)
    requires n > 0
    ensures (x as real - total as real / n as real) * (x as real - total as real / n as real)
            == Square(n * x - total) as real / (n * n) as real
  {
  }

  lemma AddFractions(a: real, b: real, q: real)
    requires q > 0.0
    ensures a / q + b / q == (a + b) / q
  {
  }

  lemma {:induction false} DeviationScaled(xs: seq<nat>, total: int, n: int)
    requires n > 0
    ensures SquaredDeviation(xs, total as real / n as real) == Spread(xs, total, n) as real / (n * n) as real
    decreases |xs|
  {
    if xs != [] {
      var init := xs[..|xs| - 1];
      var x := xs[|xs| - 1];
      DeviationScaled(init, total, n);
      ScaleTerm(x, total, n);
      AddFractions(Spread(init, total, n) as real, Square(n * x - total) as real, (n * n) as real);
    }
  }

  lemma {:induction false} SpreadNonNegative(xs: seq<nat>, total: int, n: int)
    ensures Spread(xs, total, n) >= 0
    decreases |xs|
  {
    if xs != [] {
      SpreadNonNegative(xs[..|xs| - 1], total, n);
      SquareSign(n * xs[|xs| - 1] - total);
    }
  }

  /** The spread vanishes when every `n * x` equals `total`... */
  lemma {:induction false} SpreadZero(xs: seq<nat>, total: int, n: int)
    requires forall i :: 0 <= i < |xs| ==> n * xs[i] == total
    ensures Spread(xs, total, n) == 0
    decreases |xs|
  {
    if xs != [] {
      var init := xs[..|xs| - 1];
      assert forall i :: 0 <= i < |init| ==> init[i] == xs[i];
      SpreadZero(init, total, n);
    }
  }

  /** ... and is positive as soon as one `n * xs[k]` differs from it. */
  lemma {:induction false} SpreadPositive(xs: seq<nat>, total: int, n: int, k: nat)
    requires k < |xs| && n * xs[k] != total
    ensures Spread(xs, total, n) > 0
    decreases |xs|
  {
    var init := xs[..|xs| - 1];
    SquareSign(n * xs[|xs| - 1] - total);
    SpreadNonNegative(init, total, n);
    if k < |xs| - 1 {
      assert init[k] == xs[k];
      SpreadPositive(init, total, n, k);
    }
  }

  lemma ScaledQuotient(a: int, q: int)
    requires a >= 0 && q > 0
    ensures a as real / q as real >= 0.0
    ensures a as real / q as real == 0.0 <==> a == 0
  {
  }

  /** The population variance in integers: the spread over `n^3`. */
  lemma {:induction false} VarianceScaled(xs: seq<nat>)
    requires |xs| > 0
    ensures PopVariance(xs) == Spread(xs, Sum(xs), |xs|) as real / (|xs| * |xs| * |xs|) as real
  {
    var n := |xs|;
    DeviationScaled(xs, Sum(xs), n);
    QuotientChain(PopVariance(xs), SquaredDeviation(xs, Mean(xs)), Spread(xs, Sum(xs), n) as real, n);
  }

  /** Dividing by `n * n` and then by `n` divides by `n^3`. */
  lemma QuotientChain(v: real, sq: real, a: real, n: int)
    requires n > 0 && v == sq / n as real && sq == a / (n * n) as real
    ensures v == a / (n * n * n) as real
  {
    MulStrict(0, n, n);
    NestedQuotient(a, (n * n) as real, n as real);
    RealProduct(n * n, n);
  }

  lemma RealProduct(a: int, b: int)
    ensures a as real * b as real == (a * b) as real
  {
  }

  lemma NestedQuotient(a: real, p: real, q: real)
    requires p > 0.0 && q > 0.0
    ensures (a / p) / q == a / (p * q)
  {
  }

  /** The variance is never negative, and is zero exactly when all regions
      have the same length for that slot. */
  lemma {:induction false} VarianceZeroIffEqual(xs: seq<nat>)
    requires |xs| > 0
    ensures PopVariance(xs) >= 0.0
    ensures PopVariance(xs) == 0.0 <==> forall i :: 0 <= i < |xs| ==> xs[i] == xs[0]
  {
    var n := |xs|;
    var total := Sum(xs);
    VarianceScaled(xs);
    SpreadNonNegative(xs, total, n);
    assert n * n * n > 0 by {
      MulStrict(0, n, n);
      MulStrict(0, n * n, n);
    }
    ScaledQuotient(Spread(xs, total, n), n * n * n);
    if forall i :: 0 <= i < |xs| ==> xs[i] == xs[0] {
      SumBounds(xs, xs[0], xs[0]);
      SpreadZero(xs, total, n);
    } else {
      var k :| 0 <= k < |xs| && xs[k] != xs[0];
      if n * xs[k] != total {
        SpreadPositive(xs, total, n, k);
      } else {
        assert n * xs[0] != total by {
          if xs[k] < xs[0] {
            MulStrict(xs[k], xs[0], n);
          } else {
            MulStrict(xs[0], xs[k], n);
          }
        }
        SpreadPositive(xs, total, n, 0);
      }
    }
  }

  /** Entries of the `len` array in the source's SPIKE record. */
  const SpikeRecordSlots := 4

  /** Whether `eval_spk`, as written, keeps its writes `len[j]`, `j` below
      the region count, inside the four entries of SPIKE. */
  predicate FitsSpikeRecord(d: DiscState)
  {
    |d.stp| <= SpikeRecordSlots
  }

  /** Five events 50000 sectors apart on a DVD, each spike 150 sectors long. */
  function FiveSpikes(): DiscState
  {
    Fresh().(inc := [10000, 60000, 110000, 160000, 210000],
             dec := [10150, 60150, 110150, 160150, 210150])
  }

  /** FiveSpikes with each spike its own region. */
  function FiveRegions(): DiscState
  {
    FiveSpikes().(stt := FiveSpikes().inc, stp := FiveSpikes().dec)
  }

  /** `seek_reg` makes each spike of FiveSpikes a region of its own. */
  lemma FiveRegionsFound(m: Mds)
    requires m.format == DVD
    ensures RegionEffect(m, FiveSpikes()) == Ok(FiveRegions())
  {
    FiveGaps(FiveSpikes().inc);
    FiveGaps(FiveSpikes().dec);
    GappedRegions(m, FiveSpikes());
  }

  /** When every step of both event lists is a gap, each increase starts a
      region and each decrease stops one. */
  lemma GappedRegions(m: Mds, d: DiscState)
    requires d.stt == [] && d.stp == []
    requires 0 < |d.inc| <= RegionCapacity && 0 < |d.dec| <= RegionCapacity
    requires forall k :: 1 <= k < |d.inc| ==> Gap(d.inc[k - 1], d.inc[k]) > Threshold(m)
    requires forall k :: 1 <= k < |d.dec| ==> Gap(d.dec[k - 1], d.dec[k]) > Threshold(m)
    ensures RegionEffect(m, d) == Ok(d.(stt := d.inc, stp := d.dec))
  {
    GappedList(d.inc, Threshold(m));
    GappedList(d.dec, Threshold(m));
    RegionEffectFits(m, d);
    assert d.stp + d.dec == d.dec;
  }

  /** A list whose every step is a gap is its own list of starts and its
      own list of stops. */
  lemma GappedList(xs: seq<nat>, thr: nat)
    requires 0 < |xs|
    requires forall k :: 1 <= k < |xs| ==> Gap(xs[k - 1], xs[k]) > thr
    ensures RegionStarts(xs, thr) == xs && RegionStops(xs, thr) == xs
  {
    AllGaps(xs, thr, 1);
    assert [xs[0]] + xs[1..] == xs;
    assert xs[..|xs| - 1] + [xs[|xs| - 1]] == xs;
  }

  /** Five entries 50000 sectors apart: every step is a DVD gap. */
  lemma FiveGaps(xs: seq<nat>)
    requires |xs| == 5 && forall k :: 0 <= k < 5 ==> xs[k] < 250000
    requires forall k :: 1 <= k < 5 ==> xs[k] == xs[k - 1] + 50000
    ensures forall k :: 1 <= k < |xs| ==> Gap(xs[k - 1], xs[k]) > DvdThreshold
  {
    forall k | 1 <= k < |xs|
      ensures Gap(xs[k - 1], xs[k]) > DvdThreshold
    {
      GapOnSorted(xs[k - 1], xs[k]);
    }
  }

  /** When every step of `xs` is a gap, every entry from `i` on starts a
      region and every entry before the last stops one. */
  lemma {:induction false} AllGaps(xs: seq<nat>, thr: nat, i: nat)
    requires 1 <= i <= |xs|
    requires forall k :: 1 <= k < |xs| ==> Gap(xs[k - 1], xs[k]) > thr
    ensures GapStarts(xs, thr, i) == xs[i..]
    ensures GapStops(xs, thr, i) == xs[i - 1..|xs| - 1]
    decreases |xs| - i
  {
    if i < |xs| {
      AllGaps(xs, thr, i + 1);
      assert Gap(xs[i - 1], xs[i]) > thr;
      assert xs[i..] == [xs[i]] + xs[i + 1..];
      assert xs[i - 1..|xs| - 1] == [xs[i - 1]] + xs[i..|xs| - 1];
    }
  }

  /** `eval_reg` finds one increase and one decrease in each region. */
  lemma FiveRegionsConsistent()
    ensures Layout(FiveRegions()) == Consistent
  {
    var d := FiveRegions();
    assert |d.inc| == |d.dec| == |d.stt| == |d.stp| == 5;
    assert RegionsAgree(d, 5, 5, 5, 1);
    OneSpikeEach(d, 4);
    OneSpikeEach(d, 3);
    OneSpikeEach(d, 2);
    OneSpikeEach(d, 1);
    OneSpikeEach(d, 0);
    assert RegionsAgree(d, 0, 0, 0, 1);
  }

  /** `seek_reg` accepts the five regions of FiveSpikes, `eval_reg` finds
      them consistent, and `eval_spk` then writes `len[4]`, past the end of
      the SPIKE record. */
  lemma LenOverflowWitness(m: Mds)
    requires m.format == DVD
    ensures RegionEffect(m, FiveSpikes()).Ok?
    ensures var d := RegionEffect(m, FiveSpikes()).value;
      Layout(d) == Consistent && !FitsSpikeRecord(d)
  {
    FiveRegionsFound(m);
    FiveRegionsConsistent();
  }

  /** Region `r` of the five-spike record holds one increase and one
      decrease. */
  lemma OneSpikeEach(d: DiscState, r: nat)
    requires d.inc == d.stt == FiveSpikes().inc && d.dec == d.stp == FiveSpikes().dec && r < 5
    ensures RegionsAgree(d, r, r, r, 1) == RegionsAgree(d, r + 1, r + 1, r + 1, 1)
  {
    RegionsAgreeStep(d, r, r, r, 1);
    assert d.stp[r] == d.stt[r] + 150 && d.dec[r] == d.stp[r];
    assert r + 1 < 5 ==> d.inc[r + 1] > d.stp[r] && d.dec[r + 1] > d.stp[r];
    assert IncRun(d.inc, r + 1, d.stt[r], d.stp[r]) == 0;
    assert DecRun(d.dec, r + 1, d.stt[r], d.stp[r]) == 0;
  }
}
