/** The layout verdict (`eval_reg`): whether the spikes split evenly and in
    order over the regions. */
module RegionLayout {
  import opened DiscModel

  datatype Verdict = Normal | Unreliable | Consistent

  function RunMeasure(xs: seq<nat>, j: nat): nat
  {
    if j <= |xs| then |xs| - j else 0
  }

  /** How many increases from index `j` on lie in [lo, hi) in a row. */
  function IncRun(xs: seq<nat>, j: nat, lo: nat, hi: nat): nat
    decreases RunMeasure(xs, j)
  {
    if j < |xs| && lo <= xs[j] < hi then 1 + IncRun(xs, j + 1, lo, hi) else 0
  }

  /** How many decreases from index `j` on lie in (lo, hi] in a row. */
  function DecRun(xs: seq<nat>, j: nat, lo: nat, hi: nat): nat
    decreases RunMeasure(xs, j)
  {
    if j < |xs| && lo < xs[j] <= hi then 1 + DecRun(xs, j + 1, lo, hi) else 0
  }

  /** The region loop of `eval_reg` from region `r`, with `ic` increases
      and `dc` decreases already assigned: each region must take exactly
      `spr` of each. */
  function RegionsAgree(d: DiscState, r: nat, ic: nat, dc: nat, spr: nat): (agree: bool)
    requires |d.stt| == |d.stp|
    ensures agree && spr > 0 && r < |d.stp| ==> ic < |d.inc| && dc < |d.dec|
    decreases |d.stp| - r
  {
    if r >= |d.stp| then true
    else
      var ip := IncRun(d.inc, ic, d.stt[r], d.stp[r]);
      var dp := DecRun(d.dec, dc, d.stt[r], d.stp[r]);
      if ip != spr || dp != spr then false
      else RegionsAgree(d, r + 1, ic + ip, dc + dp, spr)
  }

  /** One region of RegionsAgree: both runs of region `r` hold `spr`
      entries and the regions after it agree. */
  lemma RegionsAgreeStep(d: DiscState, r: nat, ic: nat, dc: nat, spr: nat)
    requires |d.stt| == |d.stp| && r < |d.stp|
    ensures var ip := IncRun(d.inc, ic, d.stt[r], d.stp[r]);
            var dp := DecRun(d.dec, dc, d.stt[r], d.stp[r]);
            RegionsAgree(d, r, ic, dc, spr) == (ip == spr && dp == spr && RegionsAgree(d, r + 1, ic + ip, dc + dp, spr))
  {
  }

  /** `eval_reg`: no region at all is a normal-density disc; otherwise the
      counts must match, the spikes must divide evenly over the regions,
      and each region must hold its share. */
  function Layout(d: DiscState): (r: Verdict)
    ensures r == Normal <==> d.stt == [] && d.stp == []
    ensures r == Consistent ==> && |d.inc| == |d.dec| && |d.stt| == |d.stp| > 0
                                && |d.dec| % |d.stp| == 0
  {
    if |d.stt| == 0 && |d.stp| == 0 then Normal
    else if |d.inc| != |d.dec| || |d.stt| != |d.stp| then Unreliable
    else if |d.dec| % |d.stp| != 0 then Unreliable
    else if RegionsAgree(d, 0, 0, 0, |d.dec| / |d.stp|) then Consistent
    else Unreliable
  }

  /** A run is the longest stretch of in-range entries from `j`. */
  lemma {:induction false} IncRunSpec(xs: seq<nat>, j: nat, lo: nat, hi: nat)
    requires j <= |xs|
    ensures j + IncRun(xs, j, lo, hi) <= |xs|
    ensures forall k :: j <= k < j + IncRun(xs, j, lo, hi) ==> lo <= xs[k] < hi
    ensures j + IncRun(xs, j, lo, hi) < |xs| ==> !(lo <= xs[j + IncRun(xs, j, lo, hi)] < hi)
    decreases |xs| - j
  {
    if j < |xs| && lo <= xs[j] < hi {
      IncRunSpec(xs, j + 1, lo, hi);
    }
  }

  lemma {:induction false} DecRunSpec(xs: seq<nat>, j: nat, lo: nat, hi: nat)
    requires j <= |xs|
    ensures j + DecRun(xs, j, lo, hi) <= |xs|
    ensures forall k :: j <= k < j + DecRun(xs, j, lo, hi) ==> lo < xs[k] <= hi
    ensures j + DecRun(xs, j, lo, hi) < |xs| ==> !(lo < xs[j + DecRun(xs, j, lo, hi)] <= hi)
    decreases |xs| - j
  {
    if j < |xs| && lo < xs[j] <= hi {
      DecRunSpec(xs, j + 1, lo, hi);
    }
  }

  /** The `n` increases from `j` lie in [lo, hi) and the one after them,
      if any, does not. */
  predicate IncBlock(xs: seq<nat>, j: nat, n: nat, lo: nat, hi: nat)
  {
    && j + n <= |xs|
    && (forall k :: j <= k < j + n ==> lo <= xs[k] < hi)
    && (j + n < |xs| ==> !(lo <= xs[j + n] < hi))
  }

  predicate DecBlock(xs: seq<nat>, j: nat, n: nat, lo: nat, hi: nat)
  {
    && j + n <= |xs|
    && (forall k :: j <= k < j + n ==> lo < xs[k] <= hi)
    && (j + n < |xs| ==> !(lo < xs[j + n] <= hi))
  }

  lemma {:induction false} IncRunIsBlock(xs: seq<nat>, j: nat, n: nat, lo: nat, hi: nat)
    requires j <= |xs|
    ensures IncRun(xs, j, lo, hi) == n <==> IncBlock(xs, j, n, lo, hi)
  {
    IncRunSpec(xs, j, lo, hi);
    if IncBlock(xs, j, n, lo, hi) {
      BlockIncRun(xs, j, n, lo, hi);
    }
  }

  lemma {:induction false} DecRunIsBlock(xs: seq<nat>, j: nat, n: nat, lo: nat, hi: nat)
    requires j <= |xs|
    ensures DecRun(xs, j, lo, hi) == n <==> DecBlock(xs, j, n, lo, hi)
  {
    DecRunSpec(xs, j, lo, hi);
    if DecBlock(xs, j, n, lo, hi) {
      BlockDecRun(xs, j, n, lo, hi);
    }
  }

  lemma {:induction false} BlockIncRun(xs: seq<nat>, j: nat, n: nat, lo: nat, hi: nat)
    requires IncBlock(xs, j, n, lo, hi)
    ensures IncRun(xs, j, lo, hi) == n
    decreases n
  {
    if n > 0 {
      BlockIncRun(xs, j + 1, n - 1, lo, hi);
    }
  }

  lemma {:induction false} BlockDecRun(xs: seq<nat>, j: nat, n: nat, lo: nat, hi: nat)
    requires DecBlock(xs, j, n, lo, hi)
    ensures DecRun(xs, j, lo, hi) == n
    decreases n
  {
    if n > 0 {
      BlockDecRun(xs, j + 1, n - 1, lo, hi);
    }
  }

  /** Region `q` holds the `q`-th block of `spr` increases (in
      [start, stop)) and of `spr` decreases (in (start, stop]). */
  predicate RegionHolds(d: DiscState, q: nat, spr: nat)
    requires q < |d.stt| == |d.stp|
  {
    IncBlock(d.inc, q * spr, spr, d.stt[q], d.stp[q]) && DecBlock(d.dec, q * spr, spr, d.stt[q], d.stp[q])
  }

  /** The region loop succeeds exactly when each remaining region holds its
      block. */
  lemma {:induction false} RegionsAgreeExactly(d: DiscState, r: nat, spr: nat)
    requires |d.stt| == |d.stp| && r <= |d.stp|
    requires |d.inc| == |d.dec| == |d.stp| * spr
    ensures RegionsAgree(d, r, r * spr, r * spr, spr) <==> forall q :: r <= q < |d.stp| ==> RegionHolds(d, q, spr)
    decreases |d.stp| - r
  {
    if r < |d.stp| {
      MulMonotone(r + 1, |d.stp|, spr);
      var j := r * spr;
      assert j + spr == (r + 1) * spr;
      IncRunIsBlock(d.inc, j, spr, d.stt[r], d.stp[r]);
      DecRunIsBlock(d.dec, j, spr, d.stt[r], d.stp[r]);
      RegionsAgreeExactly(d, r + 1, spr);
      var here := IncRun(d.inc, j, d.stt[r], d.stp[r]) == spr && DecRun(d.dec, j, d.stt[r], d.stp[r]) == spr;
      assert here <==> RegionHolds(d, r, spr);
      if here {
        assert RegionsAgree(d, r, j, j, spr) == RegionsAgree(d, r + 1, (r + 1) * spr, (r + 1) * spr, spr);
      } else {
        assert !RegionsAgree(d, r, j, j, spr);
      }
    }
  }

  /** What the verdict means: normal exactly when no region was found;
      consistent exactly when the counts match, divide evenly, and the
      increases and decreases split left to right into consecutive blocks
      of `|dec| / |stp|`, block `q` inside region `q`. */
  lemma {:induction false} LayoutMeaning(d: DiscState)
    ensures Layout(d) == Normal <==> d.stt == [] && d.stp == []
    ensures Layout(d) == Consistent <==>
      && d.stp != []
      && |d.inc| == |d.dec| && |d.stt| == |d.stp| && |d.dec| % |d.stp| == 0
      && forall q :: 0 <= q < |d.stp| ==> RegionHolds(d, q, |d.dec| / |d.stp|)
  {
    if d.stp != [] && |d.inc| == |d.dec| && |d.stt| == |d.stp| && |d.dec| % |d.stp| == 0 {
      var spr := |d.dec| / |d.stp|;
      assert |d.dec| == |d.stp| * spr;
      RegionsAgreeExactly(d, 0, spr);
    }
  }
}
