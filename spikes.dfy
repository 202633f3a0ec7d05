/** The threshold spike detector (`seek_spk`) for the intervals 256, 500
    and 2048. */
module Spikes {
  import opened Failures
  import opened Parse
  import opened SampleTable
  import opened DiscModel

  /** Lower edge of the band: 10 for 256, 100 for 500 and 2048. Other
      intervals leave the band (0, 0), which holds no value. */
  function BandMin(itv: nat): nat
  {
    if itv == 256 then 10 else if itv == 500 || itv == 2048 then 100 else 0
  }

  /** Upper edge of the band: 60 for 256, 400 for 500 and 2048. */
  function BandMax(itv: nat): nat
  {
    if itv == 256 then 60 else if itv == 500 || itv == 2048 then 400 else 0
  }

  datatype Kind = Up | Down | Flat

  /** An increase lies strictly inside (min, max), a decrease strictly
      inside (-max, -min). */
  function KindOf(v: int, min: nat, max: nat): Kind
  {
    if min < v < max then Up else if -(max as int) < v < -(min as int) then Down else Flat
  }

  function KindAt(s: seq<Sample>, k: int, min: nat, max: nat): Kind
  {
    KindOf(VarAt(s, k), min, max)
  }

  /** The source compares the signed variation with `unsigned int` band
      edges, so both sides are compared as unsigned 32-bit values and the
      lower decrease edge is `-var_min` taken modulo 2^32. For the bands in
      use this is exactly the signed test of KindOf. */
  lemma {:induction false} UnsignedBandTest(v: int, min: nat, max: nat)
    requires -HalfWord <= v < HalfWord
    requires (0 < min <= max < HalfWord) || (min == 0 && max == 0)
    ensures var u := v % Word;
      && ((min < u < max) <==> KindOf(v, min, max) == Up)
      && ((Word - max) % Word < u < (Word - min) % Word <==> KindOf(v, min, max) == Down)
  {
    if v < 0 {
      assert v % Word == v + Word;
    } else {
      assert v % Word == v;
    }
  }

  /** The lists and the running sum a scan builds. */
  datatype Scan = Scan(inc: seq<nat>, dec: seq<nat>, sum: nat)

  function ScanMeasure(i: int, last: int): nat
  {
    if i <= last then last - i + 1 else 0
  }

  /** The loop of `seek_spk` from sample `i` to sample `last`: an
      increase or a decrease is recorded at the sample's sector and the
      next sample is skipped; any other sample adds |variation| to the sum.
      A 201st entry in either list is fatal. */
  function ThresholdScan(s: seq<Sample>, itv: nat, min: nat, max: nat, i: nat, last: int, acc: Scan): (r: Result<Scan>)
    requires last < |s|
    ensures r.Err? ==> r.error == IncreaseOverflow || r.error == DecreaseOverflow
    ensures r.Ok? ==> acc.inc <= r.value.inc && acc.dec <= r.value.dec && acc.sum <= r.value.sum
    ensures r.Ok? && |acc.inc| <= EventCapacity && |acc.dec| <= EventCapacity
            ==> |r.value.inc| <= EventCapacity && |r.value.dec| <= EventCapacity
    decreases ScanMeasure(i, last)
  {
    if i > last then Ok(acc)
    else
      match KindAt(s, i, min, max)
      case Up =>
        if |acc.inc| >= EventCapacity then Err(IncreaseOverflow)
        else ThresholdScan(s, itv, min, max, i + 2, last, acc.(inc := acc.inc + [Position(i, itv)]))
      case Down =>
        if |acc.dec| >= EventCapacity then Err(DecreaseOverflow)
        else ThresholdScan(s, itv, min, max, i + 2, last, acc.(dec := acc.dec + [Position(i, itv)]))
      case Flat =>
        ThresholdScan(s, itv, min, max, i + 1, last, acc.(sum := acc.sum + Abs(s[i].variation)))
  }

  /** The samples the scan records as events, left to right: a sample in
      either band is an event unless the sample before it was one. */
  function Events(s: seq<Sample>, min: nat, max: nat, i: nat, last: int): seq<nat>
    decreases ScanMeasure(i, last)
  {
    if i > last then []
    else if KindAt(s, i, min, max) != Flat then [i] + Events(s, min, max, i + 2, last)
    else Events(s, min, max, i + 1, last)
  }

  /** The sectors of the events of kind `k`. */
  function PositionsOf(s: seq<Sample>, itv: nat, min: nat, max: nat, k: Kind, ev: seq<nat>): seq<nat>
  {
    if ev == [] then []
    else (if KindAt(s, ev[0], min, max) == k then [Position(ev[0], itv)] else [])
         + PositionsOf(s, itv, min, max, k, ev[1..])
  }

  /** What the events keep out of the sum: the event sample itself and the
      sample skipped after it, when that one is still in the segment. */
  function Mass(s: seq<Sample>, last: int, ev: seq<nat>): nat
  {
    if ev == [] then 0
    else Abs(VarAt(s, ev[0])) + (if ev[0] + 1 <= last then Abs(VarAt(s, ev[0] + 1)) else 0)
         + Mass(s, last, ev[1..])
  }

  function Count(s: seq<Sample>, min: nat, max: nat, k: Kind, ev: seq<nat>): nat
  {
    if ev == [] then 0
    else (if KindAt(s, ev[0], min, max) == k then 1 else 0) + Count(s, min, max, k, ev[1..])
  }

  lemma {:induction false} PositionsCount(s: seq<Sample>, itv: nat, min: nat, max: nat, k: Kind, ev: seq<nat>)
    ensures |PositionsOf(s, itv, min, max, k, ev)| == Count(s, min, max, k, ev)
    decreases |ev|
  {
    if ev != [] {
      PositionsCount(s, itv, min, max, k, ev[1..]);
    }
  }

  /** The scan, described by its events: the lists grow by exactly the
      events' sectors, the sum is every |variation| of the segment except
      the events' and the skipped samples', and the scan fails exactly
      when a list would pass 200 entries. */
  lemma {:induction false} ScanByEvents(s: seq<Sample>, itv: nat, min: nat, max: nat, i: nat, last: int, acc: Scan)
    requires last < |s| && |acc.inc| <= EventCapacity && |acc.dec| <= EventCapacity
    ensures ScanAgrees(s, itv, min, max, i, last, acc)
    decreases ScanMeasure(i, last), 1
  {
    if i <= last {
      if KindAt(s, i, min, max) == Flat {
        var acc' := acc.(sum := acc.sum + Abs(s[i].variation));
        ScanByEvents(s, itv, min, max, i + 1, last, acc');
        assert ThresholdScan(s, itv, min, max, i, last, acc) == ThresholdScan(s, itv, min, max, i + 1, last, acc');
        assert Events(s, min, max, i, last) == Events(s, min, max, i + 1, last);
        assert AbsSum(s, i, last) == Abs(VarAt(s, i)) + AbsSum(s, i + 1, last);
      } else if KindAt(s, i, min, max) == Up {
        ScanUpStep(s, itv, min, max, i, last, acc);
      } else {
        ScanDownStep(s, itv, min, max, i, last, acc);
      }
    }
  }

  /** The statement of ScanByEvents. */
  predicate ScanAgrees(s: seq<Sample>, itv: nat, min: nat, max: nat, i: nat, last: int, acc: Scan)
    requires last < |s|
  {
    var r := ThresholdScan(s, itv, min, max, i, last, acc);
    var ev := Events(s, min, max, i, last);
    && (r.Ok? <==> |acc.inc| + Count(s, min, max, Up, ev) <= EventCapacity
                   && |acc.dec| + Count(s, min, max, Down, ev) <= EventCapacity)
    && (r.Err? ==> r.error == IncreaseOverflow || r.error == DecreaseOverflow)
    && (r.Ok? ==>
          && r.value.inc == acc.inc + PositionsOf(s, itv, min, max, Up, ev)
          && r.value.dec == acc.dec + PositionsOf(s, itv, min, max, Down, ev)
          && r.value.sum + Mass(s, last, ev) == acc.sum + AbsSum(s, i, last))
  }

  /** ScanByEvents at an increase. */
  lemma {:induction false} ScanUpStep(s: seq<Sample>, itv: nat, min: nat, max: nat, i: nat, last: int, acc: Scan)
    requires last < |s| && |acc.inc| <= EventCapacity && |acc.dec| <= EventCapacity
    requires i <= last && KindAt(s, i, min, max) == Up
    ensures ScanAgrees(s, itv, min, max, i, last, acc)
    decreases ScanMeasure(i, last), 0
  {
    var rest := Events(s, min, max, i + 2, last);
    var ev := Events(s, min, max, i, last);
    assert ev == [i] + rest;
    EventHead(s, itv, min, max, last, i, rest);
    MassStep(s, i, last);
    assert Count(s, min, max, Up, ev) == 1 + Count(s, min, max, Up, rest);
    assert Count(s, min, max, Down, ev) == Count(s, min, max, Down, rest);
    if |acc.inc| < EventCapacity {
      var acc' := acc.(inc := acc.inc + [Position(i, itv)]);
      assert ThresholdScan(s, itv, min, max, i, last, acc) == ThresholdScan(s, itv, min, max, i + 2, last, acc');
      ScanByEvents(s, itv, min, max, i + 2, last, acc');
      assert PositionsOf(s, itv, min, max, Down, ev) == PositionsOf(s, itv, min, max, Down, rest);
      assert acc'.inc + PositionsOf(s, itv, min, max, Up, rest)
          == acc.inc + PositionsOf(s, itv, min, max, Up, ev);
    } else {
      assert ThresholdScan(s, itv, min, max, i, last, acc) == Err(IncreaseOverflow);
    }
  }

  /** ScanByEvents at a decrease. */
  lemma {:induction false} ScanDownStep(s: seq<Sample>, itv: nat, min: nat, max: nat, i: nat, last: int, acc: Scan)
    requires last < |s| && |acc.inc| <= EventCapacity && |acc.dec| <= EventCapacity
    requires i <= last && KindAt(s, i, min, max) == Down
    ensures ScanAgrees(s, itv, min, max, i, last, acc)
    decreases ScanMeasure(i, last), 0
  {
    var rest := Events(s, min, max, i + 2, last);
    var ev := Events(s, min, max, i, last);
    assert ev == [i] + rest;
    EventHead(s, itv, min, max, last, i, rest);
    MassStep(s, i, last);
    assert Count(s, min, max, Down, ev) == 1 + Count(s, min, max, Down, rest);
    assert Count(s, min, max, Up, ev) == Count(s, min, max, Up, rest);
    if |acc.dec| < EventCapacity {
      var acc' := acc.(dec := acc.dec + [Position(i, itv)]);
      assert ThresholdScan(s, itv, min, max, i, last, acc) == ThresholdScan(s, itv, min, max, i + 2, last, acc');
      ScanByEvents(s, itv, min, max, i + 2, last, acc');
      assert PositionsOf(s, itv, min, max, Up, ev) == PositionsOf(s, itv, min, max, Up, rest);
      assert acc'.dec + PositionsOf(s, itv, min, max, Down, rest)
          == acc.dec + PositionsOf(s, itv, min, max, Down, ev);
    } else {
      assert ThresholdScan(s, itv, min, max, i, last, acc) == Err(DecreaseOverflow);
    }
  }

  /** How the positions, counts and mass of an event list split at its
      first event `x`. */
  lemma {:induction false} EventHead(s: seq<Sample>, itv: nat, min: nat, max: nat, last: int, x: nat, rest: seq<nat>)
    ensures PositionsOf(s, itv, min, max, Up, [x] + rest)
            == (if KindAt(s, x, min, max) == Up then [Position(x, itv)] else []) + PositionsOf(s, itv, min, max, Up, rest)
    ensures PositionsOf(s, itv, min, max, Down, [x] + rest)
            == (if KindAt(s, x, min, max) == Down then [Position(x, itv)] else []) + PositionsOf(s, itv, min, max, Down, rest)
    ensures Count(s, min, max, Up, [x] + rest) == (if KindAt(s, x, min, max) == Up then 1 else 0) + Count(s, min, max, Up, rest)
    ensures Count(s, min, max, Down, [x] + rest) == (if KindAt(s, x, min, max) == Down then 1 else 0) + Count(s, min, max, Down, rest)
    ensures Mass(s, last, [x] + rest)
            == Abs(VarAt(s, x)) + (if x + 1 <= last then Abs(VarAt(s, x + 1)) else 0) + Mass(s, last, rest)
  {
    assert ([x] + rest)[0] == x && ([x] + rest)[1..] == rest;
  }

  lemma {:induction false} MassStep(s: seq<Sample>, i: int, last: int)
    requires i <= last
    ensures AbsSum(s, i, last) == Abs(VarAt(s, i)) + (if i + 1 <= last then Abs(VarAt(s, i + 1)) else 0)
                                  + AbsSum(s, i + 2, last)
  {
    if i + 1 <= last {
      assert AbsSum(s, i + 1, last) == Abs(VarAt(s, i + 1)) + AbsSum(s, i + 2, last);
    }
  }

  /** The events lie in the segment and are in a band. */
  lemma {:induction false} EventsInSegment(s: seq<Sample>, min: nat, max: nat, i: nat, last: int)
    ensures forall e :: e in Events(s, min, max, i, last) ==> i <= e <= last && KindAt(s, e, min, max) != Flat
    decreases ScanMeasure(i, last)
  {
    if i <= last {
      if KindAt(s, i, min, max) == Flat {
        EventsInSegment(s, min, max, i + 1, last);
      } else {
        EventsInSegment(s, min, max, i + 2, last);
        assert Events(s, min, max, i, last) == [i] + Events(s, min, max, i + 2, last);
      }
    }
  }

  /** Two events are at least two samples apart: the sample after an
      event is always skipped. */
  lemma {:induction false} EventsSpaced(s: seq<Sample>, min: nat, max: nat, i: nat, last: int)
    ensures forall a, b :: 0 <= a < b < |Events(s, min, max, i, last)| ==>
      Events(s, min, max, i, last)[a] + 2 <= Events(s, min, max, i, last)[b]
    decreases ScanMeasure(i, last)
  {
    if i <= last {
      if KindAt(s, i, min, max) == Flat {
        EventsSpaced(s, min, max, i + 1, last);
        assert Events(s, min, max, i, last) == Events(s, min, max, i + 1, last);
      } else {
        var ev := Events(s, min, max, i, last);
        var rest := Events(s, min, max, i + 2, last);
        EventsSpaced(s, min, max, i + 2, last);
        EventsInSegment(s, min, max, i + 2, last);
        assert ev == [i] + rest;
        forall a, b | 0 <= a < b < |ev|
          ensures ev[a] + 2 <= ev[b]
        {
          assert ev[b] == rest[b - 1];
          assert rest[b - 1] in rest;
          if a > 0 {
            assert ev[a] == rest[a - 1];
          }
        }
      }
    }
  }

  /** Every sample of the segment in a band is an event or the sample
      skipped right after one. */
  lemma {:induction false} EventsComplete(s: seq<Sample>, min: nat, max: nat, i: nat, last: int)
    ensures forall k :: i <= k <= last && KindAt(s, k, min, max) != Flat ==>
      k in Events(s, min, max, i, last) || k - 1 in Events(s, min, max, i, last)
    decreases ScanMeasure(i, last)
  {
    if i <= last {
      var ev := Events(s, min, max, i, last);
      if KindAt(s, i, min, max) == Flat {
        EventsComplete(s, min, max, i + 1, last);
        assert ev == Events(s, min, max, i + 1, last);
      } else {
        var rest := Events(s, min, max, i + 2, last);
        EventsComplete(s, min, max, i + 2, last);
        assert ev == [i] + rest;
        forall k | i <= k <= last && KindAt(s, k, min, max) != Flat
          ensures k in ev || k - 1 in ev
        {
          if k >= i + 2 {
            assert k in rest || k - 1 in rest;
          }
        }
      }
    }
  }

  /** The sectors of the events of one kind rise strictly. */
  lemma {:induction false} PositionsIncreasing(s: seq<Sample>, itv: nat, min: nat, max: nat, k: Kind, ev: seq<nat>)
    requires itv > 0
    requires forall a, b :: 0 <= a < b < |ev| ==> ev[a] < ev[b]
    ensures StrictlyIncreasing(PositionsOf(s, itv, min, max, k, ev))
    decreases |ev|
  {
    if ev != [] {
      var rest := PositionsOf(s, itv, min, max, k, ev[1..]);
      PositionsIncreasing(s, itv, min, max, k, ev[1..]);
      PositionsOrigin(s, itv, min, max, k, ev[1..]);
      FilterFacts(s, min, max, k, ev[1..]);
      forall j | 0 <= j < |rest|
        ensures Position(ev[0], itv) < rest[j]
      {
        var e := Filter(s, min, max, k, ev[1..])[j];
        assert e in ev[1..];
        PositionBelow(ev[0], e, itv);
      }
    }
  }

  /** The events of kind `k`. */
  function Filter(s: seq<Sample>, min: nat, max: nat, k: Kind, ev: seq<nat>): seq<nat>
  {
    if ev == [] then []
    else (if KindAt(s, ev[0], min, max) == k then [ev[0]] else []) + Filter(s, min, max, k, ev[1..])
  }

  lemma {:induction false} FilterFacts(s: seq<Sample>, min: nat, max: nat, k: Kind, ev: seq<nat>)
    ensures forall x :: x in Filter(s, min, max, k, ev) ==> x in ev && KindAt(s, x, min, max) == k
    decreases |ev|
  {
    if ev != [] {
      FilterFacts(s, min, max, k, ev[1..]);
    }
  }

  /** Each sector among the events' is that of the event of that kind at
      the same place. */
  lemma {:induction false} PositionsOrigin(s: seq<Sample>, itv: nat, min: nat, max: nat, k: Kind, ev: seq<nat>)
    ensures |PositionsOf(s, itv, min, max, k, ev)| == |Filter(s, min, max, k, ev)|
    ensures forall j :: 0 <= j < |PositionsOf(s, itv, min, max, k, ev)| ==>
      PositionsOf(s, itv, min, max, k, ev)[j] == Position(Filter(s, min, max, k, ev)[j], itv)
    decreases |ev|
  {
    if ev != [] {
      var rest := ev[1..];
      PositionsOrigin(s, itv, min, max, k, rest);
      if KindAt(s, ev[0], min, max) == k {
        assert PositionsOf(s, itv, min, max, k, ev) == [Position(ev[0], itv)] + PositionsOf(s, itv, min, max, k, rest);
        assert Filter(s, min, max, k, ev) == [ev[0]] + Filter(s, min, max, k, rest);
      } else {
        assert PositionsOf(s, itv, min, max, k, ev) == PositionsOf(s, itv, min, max, k, rest);
        assert Filter(s, min, max, k, ev) == Filter(s, min, max, k, rest);
      }
    }
  }

  /** Every event of that kind has its sector in the list. */
  lemma {:induction false} PositionsCover(s: seq<Sample>, itv: nat, min: nat, max: nat, k: Kind, ev: seq<nat>)
    ensures forall e :: e in ev && KindAt(s, e, min, max) == k ==> Position(e, itv) in PositionsOf(s, itv, min, max, k, ev)
    decreases |ev|
  {
    if ev != [] {
      PositionsCover(s, itv, min, max, k, ev[1..]);
      assert ev == [ev[0]] + ev[1..];
    }
  }

  /** The samples a layer's scan covers: up to the break for layer 0, after
      it for layer 1, the whole table otherwise, cut to the table. */
  function SegmentLow(layNum: int, brkSmp: nat): nat
  {
    if layNum == 1 then brkSmp + 1 else 0
  }

  function SegmentLast(layNum: int, brkSmp: nat, n: nat): (last: int)
    ensures last < n
  {
    if layNum == 0 then (if brkSmp < n then brkSmp else n - 1) else n - 1
  }

  /** Layer 0 and layer 1 keep the segment's sum; any other layer number
      leaves both sums as they were. */
  function LayerSums(layNum: int, sum: nat, lay0: nat, lay1: nat): (nat, nat)
  {
    if layNum == 0 then (sum, lay1) else if layNum == 1 then (lay0, sum) else (lay0, lay1)
  }

  /** The scan of samples `lo .. last` with the band of `itv`, applied to
      the record: the lists grow and `var_sum` restarts from 0. */
  function SegmentEffect(s: seq<Sample>, itv: nat, lo: nat, last: int, d: DiscState): (r: Result<DiscState>)
    requires last < |s|
    ensures r.Err? ==> r.error == IncreaseOverflow || r.error == DecreaseOverflow
    ensures r.Ok? ==> && d.inc <= r.value.inc && d.dec <= r.value.dec
                      && r.value.(inc := d.inc, dec := d.dec, varSum := d.varSum) == d
  {
    var r :- ThresholdScan(s, itv, BandMin(itv), BandMax(itv), lo, last, Scan(d.inc, d.dec, 0));
    Ok(d.(inc := r.inc, dec := r.dec, varSum := r.sum))
  }

  /** `seek_spk(layNum)`: the new DISC state, or the overflow that stops
      the program. Layers 0 and 1 also keep the segment's sum. */
  function SpikeEffect(m: Mds, s: seq<Sample>, layNum: int, d: DiscState): (r: Result<DiscState>)
    ensures r.Err? ==> r.error == IncreaseOverflow || r.error == DecreaseOverflow
    ensures r.Ok? ==> && d.inc <= r.value.inc && d.dec <= r.value.dec
                      && r.value.lay0Sum == (if layNum == 0 then r.value.varSum else d.lay0Sum)
                      && r.value.lay1Sum == (if layNum == 1 then r.value.varSum else d.lay1Sum)
                      && r.value.(inc := d.inc, dec := d.dec, varSum := d.varSum,
                                  lay0Sum := d.lay0Sum, lay1Sum := d.lay1Sum) == d
  {
    var d' :- SegmentEffect(s, m.itv, SegmentLow(layNum, d.brkSmp), SegmentLast(layNum, d.brkSmp, |s|), d);
    var (lay0, lay1) := LayerSums(layNum, d'.varSum, d.lay0Sum, d.lay1Sum);
    Ok(d'.(lay0Sum := lay0, lay1Sum := lay1))
  }

  /** SpikeEffect in terms of the segment's events. */
  lemma {:induction false} SpikeByEvents(m: Mds, s: seq<Sample>, layNum: int, d: DiscState)
    requires |d.inc| <= EventCapacity && |d.dec| <= EventCapacity
    ensures var r := SpikeEffect(m, s, layNum, d);
            var lo := SegmentLow(layNum, d.brkSmp);
            var last := SegmentLast(layNum, d.brkSmp, |s|);
            var ev := Events(s, BandMin(m.itv), BandMax(m.itv), lo, last);
      && (r.Ok? <==> |d.inc| + Count(s, BandMin(m.itv), BandMax(m.itv), Up, ev) <= EventCapacity
                     && |d.dec| + Count(s, BandMin(m.itv), BandMax(m.itv), Down, ev) <= EventCapacity)
      && (r.Err? ==> r.error == IncreaseOverflow || r.error == DecreaseOverflow)
      && (r.Ok? ==>
            && r.value.inc == d.inc + PositionsOf(s, m.itv, BandMin(m.itv), BandMax(m.itv), Up, ev)
            && r.value.dec == d.dec + PositionsOf(s, m.itv, BandMin(m.itv), BandMax(m.itv), Down, ev)
            && r.value.varSum + Mass(s, last, ev) == AbsSum(s, lo, last)
            && r.value.lay0Sum == (if layNum == 0 then r.value.varSum else d.lay0Sum)
            && r.value.lay1Sum == (if layNum == 1 then r.value.varSum else d.lay1Sum)
            && r.value.(inc := d.inc, dec := d.dec, varSum := d.varSum, lay0Sum := d.lay0Sum, lay1Sum := d.lay1Sum) == d)
  {
    var lo := SegmentLow(layNum, d.brkSmp);
    var last := SegmentLast(layNum, d.brkSmp, |s|);
    ScanByEvents(s, m.itv, BandMin(m.itv), BandMax(m.itv), lo, last, Scan(d.inc, d.dec, 0));
  }

  /** The lists stay sorted: every new sector lies after the segment's
      start, so a list that ended at or before it stays strictly
      increasing. */
  lemma {:induction false} SpikeSorted(m: Mds, s: seq<Sample>, layNum: int, d: DiscState)
    requires ValidInterval(m.itv)
    requires |d.inc| <= EventCapacity && |d.dec| <= EventCapacity
    requires StrictlyIncreasing(d.inc) && StrictlyIncreasing(d.dec)
    requires AtMost(d.inc, SegmentLow(layNum, d.brkSmp) * m.itv) && AtMost(d.dec, SegmentLow(layNum, d.brkSmp) * m.itv)
    ensures var r := SpikeEffect(m, s, layNum, d);
      r.Ok? ==> StrictlyIncreasing(r.value.inc) && StrictlyIncreasing(r.value.dec)
                && AtMost(r.value.inc, SegmentBound(layNum, d.brkSmp, |s|, m.itv))
                && AtMost(r.value.dec, SegmentBound(layNum, d.brkSmp, |s|, m.itv))
  {
    var lo := SegmentLow(layNum, d.brkSmp);
    var last := SegmentLast(layNum, d.brkSmp, |s|);
    ScanSorted(s, m.itv, BandMin(m.itv), BandMax(m.itv), lo, last, Scan(d.inc, d.dec, 0));
  }

  /** The scan of a segment keeps lists sorted that end at or before its
      start, and leaves them at or before its end. */
  lemma {:induction false} ScanSorted(s: seq<Sample>, itv: nat, min: nat, max: nat, lo: nat, last: int, acc: Scan)
    requires itv > 0 && last < |s|
    requires |acc.inc| <= EventCapacity && |acc.dec| <= EventCapacity
    requires StrictlyIncreasing(acc.inc) && StrictlyIncreasing(acc.dec)
    requires AtMost(acc.inc, lo * itv) && AtMost(acc.dec, lo * itv)
    ensures var r := ThresholdScan(s, itv, min, max, lo, last, acc);
      r.Ok? ==> StrictlyIncreasing(r.value.inc) && StrictlyIncreasing(r.value.dec)
                && AtMost(r.value.inc, (if last < lo then lo else last + 1) * itv)
                && AtMost(r.value.dec, (if last < lo then lo else last + 1) * itv)
  {
    var ev := Events(s, min, max, lo, last);
    ScanByEvents(s, itv, min, max, lo, last, acc);
    if ThresholdScan(s, itv, min, max, lo, last, acc).Ok? {
      EventsInSegment(s, min, max, lo, last);
      EventsSpaced(s, min, max, lo, last);
      NewSectors(s, itv, min, max, Up, lo, last, ev);
      NewSectors(s, itv, min, max, Down, lo, last, ev);
      ConcatIncreasing(acc.inc, PositionsOf(s, itv, min, max, Up, ev), lo * itv);
      ConcatIncreasing(acc.dec, PositionsOf(s, itv, min, max, Down, ev), lo * itv);
      if last < lo {
        assert ev == [];
      } else {
        MulMonotone(lo, last + 1, itv);
      }
    }
  }

  /** The last sector a list can hold after the scan of a segment: the
      segment's last, or its start when the segment is empty. */
  function SegmentBound(layNum: int, brkSmp: nat, n: nat, itv: nat): int
  {
    var lo := SegmentLow(layNum, brkSmp);
    var last := SegmentLast(layNum, brkSmp, n);
    (if last < lo then lo else last + 1) * itv
  }

  /** The sectors of the events of a segment rise strictly and lie in
      (lo * itv, (last + 1) * itv]. */
  lemma {:induction false} NewSectors(s: seq<Sample>, itv: nat, min: nat, max: nat, k: Kind, lo: nat, last: int, ev: seq<nat>)
    requires itv > 0
    requires forall e :: e in ev ==> lo <= e <= last
    requires forall a, b :: 0 <= a < b < |ev| ==> ev[a] + 2 <= ev[b]
    ensures StrictlyIncreasing(PositionsOf(s, itv, min, max, k, ev))
    ensures forall j :: 0 <= j < |PositionsOf(s, itv, min, max, k, ev)| ==> lo * itv < PositionsOf(s, itv, min, max, k, ev)[j]
    ensures AtMost(PositionsOf(s, itv, min, max, k, ev), (last + 1) * itv)
  {
    var ps := PositionsOf(s, itv, min, max, k, ev);
    PositionsIncreasing(s, itv, min, max, k, ev);
    PositionsOrigin(s, itv, min, max, k, ev);
    FilterFacts(s, min, max, k, ev);
    forall j | 0 <= j < |ps|
      ensures lo * itv < ps[j] <= (last + 1) * itv
    {
      var e := Filter(s, min, max, k, ev)[j];
      assert e in ev;
      MulStrict(lo, e + 1, itv);
      if e < last {
        PositionBelow(e, last as nat, itv);
      }
    }
  }

  /** Every sample of the segment of kind `k` that does not follow an
      event has its sector in `xs`. */
  predicate RecordsAll(s: seq<Sample>, itv: nat, min: nat, max: nat, k: Kind, lo: nat, last: int, xs: seq<nat>)
  {
    var ev := Events(s, min, max, lo, last);
    forall q: nat :: lo <= q <= last && q - 1 !in ev && KindAt(s, q, min, max) == k ==> Position(q, itv) in xs
  }

  /** Every entry of `xs` from index `from` on is the sector of a sample of
      the segment of kind `k`. */
  predicate OnlyKind(s: seq<Sample>, itv: nat, min: nat, max: nat, k: Kind, lo: nat, last: int, xs: seq<nat>, from: nat)
    requires itv > 0
  {
    forall j :: from <= j < |xs| ==>
      xs[j] % itv == 0 && lo <= SampleOf(xs[j], itv) <= last && KindAt(s, SampleOf(xs[j], itv), min, max) == k
  }

  lemma {:induction false} ScanRecordsAll(s: seq<Sample>, itv: nat, min: nat, max: nat, k: Kind, lo: nat, last: int, prefix: seq<nat>)
    requires k != Flat
    ensures RecordsAll(s, itv, min, max, k, lo, last, prefix + PositionsOf(s, itv, min, max, k, Events(s, min, max, lo, last)))
  {
    var ev := Events(s, min, max, lo, last);
    EventsComplete(s, min, max, lo, last);
    PositionsCover(s, itv, min, max, k, ev);
  }

  lemma {:induction false} ScanOnlyKind(s: seq<Sample>, itv: nat, min: nat, max: nat, k: Kind, lo: nat, last: int, prefix: seq<nat>)
    requires itv > 0
    ensures OnlyKind(s, itv, min, max, k, lo, last, prefix + PositionsOf(s, itv, min, max, k, Events(s, min, max, lo, last)), |prefix|)
  {
    var ev := Events(s, min, max, lo, last);
    var ps := PositionsOf(s, itv, min, max, k, ev);
    var xs := prefix + ps;
    EventsInSegment(s, min, max, lo, last);
    PositionsOrigin(s, itv, min, max, k, ev);
    FilterFacts(s, min, max, k, ev);
    forall j | |prefix| <= j < |xs|
      ensures xs[j] % itv == 0 && lo <= SampleOf(xs[j], itv) <= last && KindAt(s, SampleOf(xs[j], itv), min, max) == k
    {
      var e := Filter(s, min, max, k, ev)[j - |prefix|];
      assert e in Filter(s, min, max, k, ev);
      assert xs[j] == ps[j - |prefix|];
      SampleOfPosition(e, itv);
    }
  }

  /** Each new sector is that of an in-band sample of the segment, and every
      in-band sample of the segment that does not follow an event is
      recorded. */
  lemma {:induction false} SpikeSoundComplete(m: Mds, s: seq<Sample>, layNum: int, d: DiscState)
    requires ValidInterval(m.itv)
    requires |d.inc| <= EventCapacity && |d.dec| <= EventCapacity
    ensures var r := SpikeEffect(m, s, layNum, d);
            var lo := SegmentLow(layNum, d.brkSmp);
            var last := SegmentLast(layNum, d.brkSmp, |s|);
      r.Ok? ==>
        && RecordsAll(s, m.itv, BandMin(m.itv), BandMax(m.itv), Up, lo, last, r.value.inc)
        && RecordsAll(s, m.itv, BandMin(m.itv), BandMax(m.itv), Down, lo, last, r.value.dec)
        && OnlyKind(s, m.itv, BandMin(m.itv), BandMax(m.itv), Up, lo, last, r.value.inc, |d.inc|)
        && OnlyKind(s, m.itv, BandMin(m.itv), BandMax(m.itv), Down, lo, last, r.value.dec, |d.dec|)
  {
    var lo := SegmentLow(layNum, d.brkSmp);
    var last := SegmentLast(layNum, d.brkSmp, |s|);
    var min, max := BandMin(m.itv), BandMax(m.itv);
    SpikeByEvents(m, s, layNum, d);
    ScanRecordsAll(s, m.itv, min, max, Up, lo, last, d.inc);
    ScanRecordsAll(s, m.itv, min, max, Down, lo, last, d.dec);
    ScanOnlyKind(s, m.itv, min, max, Up, lo, last, d.inc);
    ScanOnlyKind(s, m.itv, min, max, Down, lo, last, d.dec);
  }
}
