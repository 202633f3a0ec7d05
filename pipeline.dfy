/** `eval_dpm`: the analysis steps in their fixed order, and the invariants
    the finished record keeps. */
module Pipeline {
  import opened Failures
  import opened Parse
  import opened SampleTable
  import opened DiscModel
  import opened LayerBreak
  import opened Spikes
  import opened Precision
  import opened Amplitude
  import opened Regions

  /** Spike detection as `eval_dpm` dispatches it: the high-precision
      detector for interval 50, otherwise the whole disc for 0 or 1 layers
      and layer 0 then layer 1 for 2 layers. */
  function Detect(m: Mds, s: seq<Sample>, d: DiscState): (r: Result<DiscState>)
    ensures r.Ok? ==> r.value.stt == d.stt && r.value.stp == d.stp && r.value.brkSmp == d.brkSmp
  {
    if m.itv == 50 then PrecisionEffect(m, s, d)
    else if m.lay == 2 then
      var l0 :- SpikeEffect(m, s, 0, d);
      SpikeEffect(m, s, 1, l0)
    else if m.lay <= 1 then SpikeEffect(m, s, -1, d)
    else Ok(d)
  }

  /** The amplitudes, each computed only when its list is not empty. */
  function Amplitudes(m: Mds, s: seq<Sample>, d: DiscState): (r: DiscState)
    requires ValidInterval(m.itv)
    ensures r.(incAmp := d.incAmp, decAmp := d.decAmp) == d
    ensures d.inc == [] ==> r.incAmp == d.incAmp
    ensures d.dec == [] ==> r.decAmp == d.decAmp
  {
    var a := if d.inc != [] then IncAmpEffect(m, s, d) else d;
    if a.dec != [] then DecAmpEffect(m, s, a) else a
  }

  /** The record `eval_dpm` leaves, or the condition that stops the program. */
  function Analysis(m: Mds, s: seq<Sample>, d: DiscState): (r: Result<DiscState>)
    requires ValidInterval(m.itv) && BreakReadable(m, |s|)
    requires d.stt == [] && |d.stp| < RegionCapacity
    ensures r.Err? ==> AnalysisError(r.error)
    ensures r.Ok? ==> && d.inc <= r.value.inc && d.dec <= r.value.dec
                      && (r.value.stt != [] <==> r.value.inc != [])
  {
    var b := BreakEffect(m, s, d);
    var e :- Detect(m, s, b);
    RegionEffect(m, Amplitudes(m, s, e))
  }

  predicate AnalysisError(e: Error)
  {
    e == IncreaseOverflow || e == DecreaseOverflow || e == StartOverflow || e == StopOverflow
  }

  /** The lists of a finished record: sorted, within capacity, and the
      region boundaries taken from the event lists. */
  predicate WellFormed(d: DiscState)
  {
    && WithinCapacity(d)
    && StrictlyIncreasing(d.inc) && StrictlyIncreasing(d.dec)
    && StrictlyIncreasing(d.stt) && StrictlyIncreasing(d.stp)
    && IsSubsequence(d.stt, d.inc) && IsSubsequence(d.stp, d.dec)
    && (d.inc != [] <==> d.stt != []) && (d.dec != [] <==> d.stp != [])
    && (d.inc != [] ==> d.stt[0] == d.inc[0])
    && (d.dec != [] ==> d.stp[|d.stp| - 1] == d.dec[|d.dec| - 1])
  }

  /** A spike scan keeps each list within 200 entries. */
  lemma {:induction false} SpikeCapacity(m: Mds, s: seq<Sample>, layNum: int, d: DiscState)
    requires |d.inc| <= EventCapacity && |d.dec| <= EventCapacity
    ensures var r := SpikeEffect(m, s, layNum, d);
      r.Ok? ==> |r.value.inc| <= EventCapacity && |r.value.dec| <= EventCapacity
                && r.value.brkSmp == d.brkSmp && r.value.stt == d.stt && r.value.stp == d.stp
  {
    var lo := SegmentLow(layNum, d.brkSmp);
    var last := SegmentLast(layNum, d.brkSmp, |s|);
    var ev := Events(s, BandMin(m.itv), BandMax(m.itv), lo, last);
    SpikeByEvents(m, s, layNum, d);
    PositionsCount(s, m.itv, BandMin(m.itv), BandMax(m.itv), Up, ev);
    PositionsCount(s, m.itv, BandMin(m.itv), BandMax(m.itv), Down, ev);
  }

  /** The high-precision scan keeps each list within 200 entries. */
  lemma {:induction false} PrecisionCapacity(m: Mds, s: seq<Sample>, d: DiscState)
    requires |d.inc| <= EventCapacity && |d.dec| <= EventCapacity
    ensures var r := PrecisionEffect(m, s, d);
      r.Ok? ==> |r.value.inc| <= EventCapacity && |r.value.dec| <= EventCapacity
                && r.value.stt == d.stt && r.value.stp == d.stp
  {
    var vs := Visits(s, 0);
    PrecisionState(m, s, d);
    SectorsAt(Select(IncAccepted, vs), m.itv);
    DecSectorsAt(s, Select(DecAccepted, vs), m.itv);
  }

  /** The layer-0 segment ends by the break, so its sectors are all at most
      the sector where the layer-1 segment begins. */
  lemma {:induction false} LayerBoundsMeet(brkSmp: nat, n: nat, itv: nat)
    ensures SegmentBound(0, brkSmp, n, itv) <= SegmentLow(1, brkSmp) * itv
  {
    var last := SegmentLast(0, brkSmp, n);
    if 0 <= last {
      MulMonotone(last + 1, brkSmp + 1, itv);
    }
  }

  lemma {:induction false} AtMostWeaken(xs: seq<nat>, a: int, b: int)
    requires AtMost(xs, a) && a <= b
    ensures AtMost(xs, b)
  {
  }

  /** Detection from empty lists yields sorted lists within capacity, and
      leaves the region lists alone; it fails only by overflowing a list. */
  lemma {:induction false} DetectSorted(m: Mds, s: seq<Sample>, d: DiscState)
    requires ValidInterval(m.itv) && d.inc == [] && d.dec == []
    ensures var r := Detect(m, s, d);
      && (r.Ok? ==> && StrictlyIncreasing(r.value.inc) && StrictlyIncreasing(r.value.dec)
                    && |r.value.inc| <= EventCapacity && |r.value.dec| <= EventCapacity
                    && r.value.stt == d.stt && r.value.stp == d.stp)
      && (r.Err? ==> r.error == IncreaseOverflow || r.error == DecreaseOverflow)
  {
    if m.itv == 50 {
      PrecisionSorted(m, s, d);
      PrecisionCapacity(m, s, d);
      PrecisionState(m, s, d);
    } else if m.lay == 2 {
      SpikeSorted(m, s, 0, d);
      SpikeCapacity(m, s, 0, d);
      SpikeByEvents(m, s, 0, d);
      var r0 := SpikeEffect(m, s, 0, d);
      if r0.Ok? {
        var l0 := r0.value;
        LayerBoundsMeet(d.brkSmp, |s|, m.itv);
        AtMostWeaken(l0.inc, SegmentBound(0, d.brkSmp, |s|, m.itv), SegmentLow(1, l0.brkSmp) * m.itv);
        AtMostWeaken(l0.dec, SegmentBound(0, d.brkSmp, |s|, m.itv), SegmentLow(1, l0.brkSmp) * m.itv);
        SpikeSorted(m, s, 1, l0);
        SpikeCapacity(m, s, 1, l0);
        SpikeByEvents(m, s, 1, l0);
      }
    } else if m.lay <= 1 {
      SpikeSorted(m, s, -1, d);
      SpikeCapacity(m, s, -1, d);
      SpikeByEvents(m, s, -1, d);
    }
  }

  /** `seek_reg` on sorted lists within capacity and empty region lists
      yields a well-formed record, or stops on a full region list. */
  lemma {:induction false} RegionsWellFormed(m: Mds, a: DiscState)
    requires a.stt == [] && a.stp == []
    requires StrictlyIncreasing(a.inc) && StrictlyIncreasing(a.dec)
    requires |a.inc| <= EventCapacity && |a.dec| <= EventCapacity
    ensures var r := RegionEffect(m, a);
      && (r.Ok? ==> WellFormed(r.value))
      && (r.Err? ==> r.error == StartOverflow || r.error == StopOverflow)
  {
    var starts := RegionStarts(a.inc, Threshold(m));
    var stops := RegionStops(a.dec, Threshold(m));
    var r := RegionEffect(m, a);
    if r.Ok? {
      assert [] + starts == starts && [] + stops == stops;
      assert r.value == a.(stt := starts, stp := stops);
      RegionListsWellFormed(m, a);
    }
  }

  /** The region lists `seek_reg` derives from sorted event lists, when
      they fit, make a well-formed record. */
  lemma RegionListsWellFormed(m: Mds, a: DiscState)
    requires StrictlyIncreasing(a.inc) && StrictlyIncreasing(a.dec)
    requires |a.inc| <= EventCapacity && |a.dec| <= EventCapacity
    requires |RegionStarts(a.inc, Threshold(m))| <= RegionCapacity
    requires |RegionStops(a.dec, Threshold(m))| <= RegionCapacity
    ensures WellFormed(a.(stt := RegionStarts(a.inc, Threshold(m)), stp := RegionStops(a.dec, Threshold(m))))
  {
    StartsAreIncreases(a.inc, Threshold(m));
    StopsAreDecreases(a.dec, Threshold(m));
  }

  /** Starting from the cleared record, a finished analysis is consistent;
      the only ways it stops are the four overflows. */
  lemma {:induction false} AnalysisInvariants(m: Mds, s: seq<Sample>)
    requires ValidInterval(m.itv) && BreakReadable(m, |s|)
    ensures var r := Analysis(m, s, Fresh());
      && (r.Ok? ==> WellFormed(r.value))
      && (r.Err? ==> AnalysisError(r.error))
  {
    var b := BreakEffect(m, s, Fresh());
    DetectSorted(m, s, b);
    var e := Detect(m, s, b);
    if e.Ok? {
      RegionsWellFormed(m, Amplitudes(m, s, e.value));
    }
  }
}
