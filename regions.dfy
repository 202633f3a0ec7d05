/** Region detection (`seek_reg`): a region starts at an increase that
    follows the previous one by more than a threshold, and stops at the
    decrease before such a gap in the decreases. */
module Regions {
  import opened Failures
  import opened Parse
  import opened DiscModel

  const CdThreshold := 4000
  const DvdThreshold := 40000

  function Threshold(m: Mds): nat
  {
    if m.format == CD then CdThreshold else DvdThreshold
  }

  /** Sector numbers are `unsigned long`, taken here as 64 bits. */
  const LongWord: nat := 0x1_0000_0000_0000_0000

  /** `cur - prev` as an `unsigned long`. */
  function Gap(prev: nat, cur: nat): (r: nat)
    ensures r < LongWord
    ensures cur < prev < cur + LongWord ==> r == LongWord - (prev - cur)
  {
    (cur - prev) % LongWord
  }

  /** On increasing 64-bit values the unsigned gap is the plain difference. */
  lemma GapOnSorted(prev: nat, cur: nat)
    requires prev <= cur < LongWord
    ensures Gap(prev, cur) == cur - prev
  {
  }

  /** The entries `xs[k]`, `k >= i`, that follow their predecessor by more
      than `thr`. */
  function GapStarts(xs: seq<nat>, thr: nat, i: nat): (r: seq<nat>)
    requires 1 <= i <= |xs|
    ensures |r| <= |xs| - i
    decreases |xs| - i
  {
    if i == |xs| then []
    else (if Gap(xs[i - 1], xs[i]) > thr then [xs[i]] else []) + GapStarts(xs, thr, i + 1)
  }

  /** The entries `xs[k - 1]`, `k >= i`, that their successor follows by
      more than `thr`. */
  function GapStops(xs: seq<nat>, thr: nat, i: nat): (r: seq<nat>)
    requires 1 <= i <= |xs|
    ensures |r| <= |xs| - i
    decreases |xs| - i
  {
    if i == |xs| then []
    else (if Gap(xs[i - 1], xs[i]) > thr then [xs[i - 1]] else []) + GapStops(xs, thr, i + 1)
  }

  /** The region starts `seek_reg` finds: the first increase, then every
      increase after a gap. */
  function RegionStarts(inc: seq<nat>, thr: nat): (r: seq<nat>)
    ensures |r| <= |inc|
    ensures r != [] <==> inc != []
    ensures inc != [] ==> r[0] == inc[0]
  {
    if inc == [] then [] else [inc[0]] + GapStarts(inc, thr, 1)
  }

  /** The region stops: every decrease before a gap, then the last decrease. */
  function RegionStops(dec: seq<nat>, thr: nat): (r: seq<nat>)
    ensures |r| <= |dec|
    ensures r != [] <==> dec != []
    ensures dec != [] ==> r[|r| - 1] == dec[|dec| - 1]
  {
    if dec == [] then [] else GapStops(dec, thr, 1) + [dec[|dec| - 1]]
  }

  /** `seek_reg`: the starts and stops are appended, or the program stops
      when the starts would pass 10 entries or the stops found inside the
      loop would pass 9 (the last decrease always finds room for itself).
      The first start is written at index 0 whatever the start count, so
      the start list must be empty beforehand for it to be appended. */
  function RegionEffect(m: Mds, d: DiscState): (r: Result<DiscState>)
    requires d.stt == [] && |d.stp| < RegionCapacity
    ensures r.Err? ==> r.error == StartOverflow || r.error == StopOverflow
    ensures |d.inc| <= RegionCapacity && |d.stp| + |d.dec| <= RegionCapacity ==> r.Ok?
    ensures r.Ok? ==> && r.value.(stt := d.stt, stp := d.stp) == d
                      && |r.value.stt| <= RegionCapacity && |r.value.stp| <= RegionCapacity
                      && (r.value.stt != [] <==> d.inc != [])
                      && (d.inc != [] ==> r.value.stt[0] == d.inc[0])
                      && d.stp <= r.value.stp && (d.dec != [] ==> r.value.stp != [] && r.value.stp[|r.value.stp| - 1] == d.dec[|d.dec| - 1])
  {
    var starts := RegionStarts(d.inc, Threshold(m));
    var stops := RegionStops(d.dec, Threshold(m));
    if |d.stt| + |starts| > RegionCapacity then Err(StartOverflow)
    else if |d.stp| + |stops| > RegionCapacity then Err(StopOverflow)
    else Ok(d.(stt := d.stt + starts, stp := d.stp + stops))
  }

  /** When both lists fit, the effect stores the starts and appends the stops. */
  lemma RegionEffectFits(m: Mds, d: DiscState)
    requires d.stt == [] && |d.stp| < RegionCapacity
    requires |RegionStarts(d.inc, Threshold(m))| <= RegionCapacity
    requires |d.stp| + |RegionStops(d.dec, Threshold(m))| <= RegionCapacity
    ensures RegionEffect(m, d) == Ok(d.(stt := RegionStarts(d.inc, Threshold(m)), stp := d.stp + RegionStops(d.dec, Threshold(m))))
  {
    assert d.stt + RegionStarts(d.inc, Threshold(m)) == RegionStarts(d.inc, Threshold(m));
  }

  lemma {:induction false} GapStartsSubsequence(xs: seq<nat>, thr: nat, i: nat)
    requires 1 <= i <= |xs|
    ensures IsSubsequence(GapStarts(xs, thr, i), xs[i..])
    decreases |xs| - i
  {
    if i < |xs| {
      GapStartsSubsequence(xs, thr, i + 1);
      assert xs[i..] == [xs[i]] + xs[i + 1..];
      if Gap(xs[i - 1], xs[i]) > thr {
        SubsequenceCons(GapStarts(xs, thr, i + 1), xs[i + 1..], xs[i]);
      } else {
        SubsequenceSkip(GapStarts(xs, thr, i + 1), xs[i + 1..], xs[i]);
        assert GapStarts(xs, thr, i) == GapStarts(xs, thr, i + 1);
      }
    }
  }

  lemma {:induction false} GapStopsSubsequence(xs: seq<nat>, thr: nat, i: nat)
    requires 1 <= i <= |xs|
    ensures IsSubsequence(GapStops(xs, thr, i), xs[i - 1..|xs| - 1])
    decreases |xs| - i
  {
    if i < |xs| {
      GapStopsSubsequence(xs, thr, i + 1);
      assert xs[i - 1..|xs| - 1] == [xs[i - 1]] + xs[i..|xs| - 1];
      if Gap(xs[i - 1], xs[i]) > thr {
        SubsequenceCons(GapStops(xs, thr, i + 1), xs[i..|xs| - 1], xs[i - 1]);
      } else {
        SubsequenceSkip(GapStops(xs, thr, i + 1), xs[i..|xs| - 1], xs[i - 1]);
        assert GapStops(xs, thr, i) == GapStops(xs, thr, i + 1);
      }
    }
  }

  /** Every element of a subsequence is an element of the sequence. */
  lemma {:induction false} SubsequenceMembers(a: seq<nat>, b: seq<nat>)
    requires IsSubsequence(a, b)
    ensures forall x :: x in a ==> x in b
    decreases |b|
  {
    if a != [] {
      if a[0] == b[0] {
        SubsequenceMembers(a[1..], b[1..]);
        assert a == [a[0]] + a[1..];
      } else {
        SubsequenceMembers(a, b[1..]);
      }
    }
  }

  /** A subsequence of a strictly increasing sequence is strictly increasing. */
  lemma {:induction false} SubsequenceIncreasing(a: seq<nat>, b: seq<nat>)
    requires IsSubsequence(a, b) && StrictlyIncreasing(b)
    ensures StrictlyIncreasing(a)
    decreases |b|
  {
    if a != [] {
      if a[0] == b[0] {
        SubsequenceIncreasing(a[1..], b[1..]);
        SubsequenceMembers(a[1..], b[1..]);
        forall j | 0 < j < |a|
          ensures a[0] < a[j]
        {
          assert a[j] == a[1..][j - 1];
          assert a[j] in b[1..];
        }
      } else {
        SubsequenceIncreasing(a, b[1..]);
      }
    }
  }

  /** The starts are some of the increases, in order: the first increase,
      then increases after a gap; so strictly increasing increases give
      strictly increasing starts. */
  lemma {:induction false} StartsAreIncreases(inc: seq<nat>, thr: nat)
    ensures IsSubsequence(RegionStarts(inc, thr), inc)
    ensures inc != [] ==> RegionStarts(inc, thr)[0] == inc[0]
    ensures StrictlyIncreasing(inc) ==> StrictlyIncreasing(RegionStarts(inc, thr))
  {
    if inc != [] {
      GapStartsSubsequence(inc, thr, 1);
      SubsequenceCons(GapStarts(inc, thr, 1), inc[1..], inc[0]);
      assert [inc[0]] + inc[1..] == inc;
      if StrictlyIncreasing(inc) {
        SubsequenceIncreasing(RegionStarts(inc, thr), inc);
      }
    }
  }

  /** The stops are some of the decreases, in order, ending with the last. */
  lemma {:induction false} StopsAreDecreases(dec: seq<nat>, thr: nat)
    ensures IsSubsequence(RegionStops(dec, thr), dec)
    ensures dec != [] ==> RegionStops(dec, thr)[|RegionStops(dec, thr)| - 1] == dec[|dec| - 1]
    ensures StrictlyIncreasing(dec) ==> StrictlyIncreasing(RegionStops(dec, thr))
  {
    if dec != [] {
      GapStopsSubsequence(dec, thr, 1);
      SubsequenceAppend(GapStops(dec, thr, 1), dec[..|dec| - 1], dec[|dec| - 1]);
      assert dec[0..|dec| - 1] == dec[..|dec| - 1];
      assert dec[..|dec| - 1] + [dec[|dec| - 1]] == dec;
      if StrictlyIncreasing(dec) {
        SubsequenceIncreasing(RegionStops(dec, thr), dec);
      }
    }
  }

  lemma {:induction false} GapStartsExact(xs: seq<nat>, thr: nat, j: nat, i: nat)
    requires StrictlyIncreasing(xs) && 1 <= j <= |xs| && 1 <= i < |xs|
    ensures xs[i] in GapStarts(xs, thr, j) <==> j <= i && Gap(xs[i - 1], xs[i]) > thr
    decreases |xs| - j
  {
    if j < |xs| {
      GapStartsExact(xs, thr, j + 1, i);
    }
  }

  lemma {:induction false} GapStopsExact(xs: seq<nat>, thr: nat, j: nat, i: nat)
    requires StrictlyIncreasing(xs) && 1 <= j <= |xs| && 1 <= i < |xs|
    ensures xs[i - 1] in GapStops(xs, thr, j) <==> j <= i && Gap(xs[i - 1], xs[i]) > thr
    decreases |xs| - j
  {
    if j < |xs| {
      GapStopsExact(xs, thr, j + 1, i);
    }
  }

  /** On strictly increasing increases, an increase starts a region exactly
      when it is the first or follows the previous one by more than the
      threshold. */
  lemma {:induction false} StartExactly(inc: seq<nat>, thr: nat, i: nat)
    requires StrictlyIncreasing(inc) && i < |inc|
    ensures inc[i] in RegionStarts(inc, thr) <==> i == 0 || Gap(inc[i - 1], inc[i]) > thr
  {
    if i > 0 {
      GapStartsExact(inc, thr, 1, i);
      assert inc[0] < inc[i];
    }
  }

  /** On strictly increasing decreases, a decrease stops a region exactly
      when it is the last or the next one follows it by more than the
      threshold. */
  lemma {:induction false} StopExactly(dec: seq<nat>, thr: nat, i: nat)
    requires StrictlyIncreasing(dec) && 0 < i <= |dec|
    ensures dec[i - 1] in RegionStops(dec, thr) <==> i == |dec| || Gap(dec[i - 1], dec[i]) > thr
  {
    if i < |dec| {
      GapStopsExact(dec, thr, 1, i);
      assert dec[i - 1] < dec[|dec| - 1];
    }
  }

  /** A successful `seek_reg` keeps both lists within their ten entries
      and leaves everything else as it was. */
  lemma {:induction false} RegionBounds(m: Mds, d: DiscState)
    requires d.stt == [] && |d.stp| < RegionCapacity
    ensures var r := RegionEffect(m, d);
      && (r.Ok? <==> |d.stt| + |RegionStarts(d.inc, Threshold(m))| <= RegionCapacity
                     && |d.stp| + |RegionStops(d.dec, Threshold(m))| <= RegionCapacity)
      && (r.Ok? ==> |r.value.stt| <= RegionCapacity && |r.value.stp| <= RegionCapacity
                    && r.value.(stt := d.stt, stp := d.stp) == d)
      && (d.inc != [] ==> r.Ok? ==> r.value.stt[0] == d.inc[0])
  {
  }
}
