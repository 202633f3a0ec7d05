/** The `DISC` record of scan.c as an object whose analysis functions
    update it in place: fixed-capacity arrays with their counts, and the
    scalar results. Each method is proved against the value-level
    function that specifies it. */
module DiscRecord {
  import opened Failures
  import opened Parse
  import opened SampleTable
  import opened DiscModel
  import opened LayerBreak
  import opened Spikes
  import opened Precision
  import opened Amplitude
  import opened Regions
  import opened RegionLayout
  import opened SpikeStats
  import opened Pipeline

  class Disc {
    const incLba: array<nat>
    const decLba: array<nat>
    const sttLba: array<nat>
    const stpLba: array<nat>
    var incCnt: nat
    var decCnt: nat
    var sttCnt: nat
    var stpCnt: nat
    var incAmp: (int, int)
    var decAmp: (int, int)
    var brkSmp: nat
    var brkLba: nat
    var trkPth: TrackPath
    var errCnt: nat
    var varSum: nat
    var lay0Sum: nat
    var lay1Sum: nat

    ghost predicate Valid()
      reads this
    {
      && incLba.Length == EventCapacity && decLba.Length == EventCapacity
      && sttLba.Length == RegionCapacity && stpLba.Length == RegionCapacity
      && incLba != decLba && sttLba != stpLba
      && incCnt <= EventCapacity && decCnt <= EventCapacity
      && sttCnt <= RegionCapacity && stpCnt <= RegionCapacity
    }

    function State(): DiscState
      requires Valid()
      reads this, incLba, decLba, sttLba, stpLba
    {
      DiscState(incLba[..incCnt], decLba[..decCnt], sttLba[..sttCnt], stpLba[..stpCnt],
                incAmp, decAmp, brkSmp, brkLba, trkPth, errCnt, varSum, lay0Sum, lay1Sum)
    }

    /** `DISC dsc = {0}`. */
    constructor ()
      ensures Valid() && State() == Fresh()
      ensures fresh(incLba) && fresh(decLba) && fresh(sttLba) && fresh(stpLba)
    {
      incLba := new nat[EventCapacity];
      decLba := new nat[EventCapacity];
      sttLba := new nat[RegionCapacity];
      stpLba := new nat[RegionCapacity];
      incCnt, decCnt, sttCnt, stpCnt := 0, 0, 0, 0;
      incAmp, decAmp := (0, 0), (0, 0);
      brkSmp, brkLba, trkPth := 0, 0, NoPath;
      errCnt, varSum, lay0Sum, lay1Sum := 0, 0, 0, 0;
    }

    /** `seek_brk`: a running minimum over the window, replaced on `>=` so
        the last minimum wins. */
    method SeekBrk(m: Mds, s: seq<Sample>)
      requires Valid() && ValidInterval(m.itv) && BreakReadable(m, |s|)
      modifies this
      ensures Valid() && State() == BreakEffect(m, s, old(State()))
    {
      if m.format == CD || m.lay < 2 {
        return;
      }
      var lo, hi := WindowLow(m), WindowHigh(m);
      var brk := FindBreak(s, lo, hi, brkSmp);
      BreakEffectAt(m, s, State(), brk);
      brkSmp := brk;
      brkLba := (brkSmp + 1) * m.itv;
      trkPth := if Abs(Int32(s[lo].tim - s[hi + 1].tim)) < OppositeLimit then Opposite else Parallel;
      assert trkPth == PathOf(s, lo, hi);
    }

    /** The loop of `seek_brk`: the running minimum of the timing over
        samples `lo .. hi`, moved on `>=` so that the last of several equal
        minima wins; `init` when the window is empty. */
    method FindBreak(s: seq<Sample>, lo: nat, hi: int, init: nat) returns (brk: nat)
      requires lo < |s| && hi < |s|
      ensures lo <= hi ==> brk == LastMinIndex(s, lo, hi)
      ensures lo > hi ==> brk == init
    {
      var brkTim := s[lo].tim;
      brk := init;
      var i := lo;
      while i <= hi
        invariant lo <= i && (i > lo ==> i - 1 <= hi)
        invariant i > lo ==> brk == LastMinIndex(s, lo, i - 1) && brkTim == s[brk].tim
        invariant i == lo ==> brkTim == s[lo].tim && brk == init
      {
        if brkTim >= s[i].tim {
          brkTim := s[i].tim;
          brk := i;
        }
        i := i + 1;
      }
    }

    /** `calc_inc_amp`: the sample of a sector is recovered by dividing by
        the interval. */
    method CalcIncAmp(m: Mds, s: seq<Sample>)
      requires Valid() && ValidInterval(m.itv) && incCnt > 0
      modifies this
      ensures Valid() && State() == IncAmpEffect(m, s, old(State()))
    {
      var fis := incLba[0] / m.itv - 1;
      var lis := incLba[incCnt - 1] / m.itv - 1;
      incAmp := (VarAt(s, fis) + VarAt(s, fis + 1) + VarAt(s, fis + 2),
                 VarAt(s, lis) + VarAt(s, lis + 1) + VarAt(s, lis + 2));
    }

    /** `calc_dec_amp`. */
    method CalcDecAmp(m: Mds, s: seq<Sample>)
      requires Valid() && ValidInterval(m.itv) && decCnt > 0
      modifies this
      ensures Valid() && State() == DecAmpEffect(m, s, old(State()))
    {
      var fds := decLba[0] / m.itv - 1;
      var lds := decLba[decCnt - 1] / m.itv - 1;
      decAmp := (VarAt(s, fds) + VarAt(s, fds - 1) + VarAt(s, fds - 2),
                 VarAt(s, lds) + VarAt(s, lds - 1) + VarAt(s, lds - 2));
    }

    /** `seek_spk`: scans the segment of `layNum` and keeps its sum for
        layers 0 and 1. */
    method SeekSpk(m: Mds, s: seq<Sample>, layNum: int) returns (r: Outcome)
      requires Valid()
      modifies this, incLba, decLba
      ensures Valid()
      ensures var e := SpikeEffect(m, s, layNum, old(State()));
        && (r.Pass? <==> e.Ok?)
        && (e.Ok? ==> State() == e.value)
        && (e.Err? ==> r == Fail(e.error))
    {
      var (lay0, lay1) := (lay0Sum, lay1Sum);
      r := ScanSegment(s, m.itv, SegmentLow(layNum, brkSmp), SegmentLast(layNum, brkSmp, |s|));
      if r.Pass? {
        lay0Sum, lay1Sum := LayerSums(layNum, varSum, lay0, lay1).0, LayerSums(layNum, varSum, lay0, lay1).1;
      }
    }

    /** The body of `seek_spk` once the segment is chosen: each sample in
        the band of the interval is recorded at its sector and the sample
        after it skipped; |variation| of every other sample goes to
        `var_sum`. */
    method ScanSegment(s: seq<Sample>, itv: nat, lo: nat, last: int) returns (r: Outcome)
      requires Valid() && last < |s|
      modifies this, incLba, decLba
      ensures Valid()
      ensures var e := SegmentEffect(s, itv, lo, last, old(State()));
        && (r.Pass? <==> e.Ok?)
        && (e.Ok? ==> State() == e.value)
        && (e.Err? ==> r == Fail(e.error))
    {
      var varMin, varMax := 0, 0;
      if itv == 256 {
        varMin, varMax := 10, 60;
      } else if itv == 500 || itv == 2048 {
        varMin, varMax := 100, 400;
      }
      assert varMin == BandMin(itv) && varMax == BandMax(itv);
      var ic, dc, sum;
      r, ic, dc, sum := ScanLoop(s, itv, varMin, varMax, lo, last);
      incCnt, decCnt, varSum := ic, dc, sum;
    }

    /** The loop of `seek_spk` over samples `lo .. last`. */
    method ScanLoop(s: seq<Sample>, itv: nat, varMin: nat, varMax: nat, lo: nat, last: int)
      returns (r: Outcome, ic: nat, dc: nat, sum: nat)
      requires Valid() && last < |s|
      modifies incLba, decLba
      ensures Valid() && ic <= EventCapacity && dc <= EventCapacity
      ensures var e := ThresholdScan(s, itv, varMin, varMax, lo, last, Scan(old(incLba[..incCnt]), old(decLba[..decCnt]), 0));
        && (r.Pass? <==> e.Ok?)
        && (e.Ok? ==> e.value == Scan(incLba[..ic], decLba[..dc], sum))
        && (e.Err? ==> r == Fail(e.error))
    {
      ghost var goal := ThresholdScan(s, itv, varMin, varMax, lo, last, Scan(incLba[..incCnt], decLba[..decCnt], 0));
      var sector := lo * itv;
      ic, dc, sum := incCnt, decCnt, 0;
      var i := lo;
      r := Pass;
      while i <= last
        invariant Valid() && lo <= i && sector == i * itv
        invariant ic <= EventCapacity && dc <= EventCapacity
        invariant ThresholdScan(s, itv, varMin, varMax, i, last, Scan(incLba[..ic], decLba[..dc], sum)) == goal
        decreases ScanMeasure(i, last)
      {
        Advance(i, 1, itv);
        sector := sector + itv;
        var v := s[i].variation;
        assert sector == Position(i, itv);
        if v > varMin && v < varMax {
          assert KindAt(s, i, varMin, varMax) == Up;
          if ic == EventCapacity {
            return Fail(IncreaseOverflow), ic, dc, sum;
          }
          ghost var before := incLba[..ic];
          incLba[ic] := sector;
          ic := ic + 1;
          assert incLba[..ic] == before + [sector];
          Advance(i, 2, itv);
          i := i + 2;
          sector := sector + itv;
        } else if v < -(varMin as int) && v > -(varMax as int) {
          assert KindAt(s, i, varMin, varMax) == Down;
          if dc == EventCapacity {
            return Fail(DecreaseOverflow), ic, dc, sum;
          }
          ghost var before := decLba[..dc];
          decLba[dc] := sector;
          dc := dc + 1;
          assert decLba[..dc] == before + [sector];
          Advance(i, 2, itv);
          i := i + 2;
          sector := sector + itv;
        } else {
          assert KindAt(s, i, varMin, varMax) == Flat;
          sum := sum + Abs(v);
          i := i + 1;
        }
      }
    }

    /** `seek_spk_high_precision`: a candidate spike is confirmed by the
        next sample, suppressed (and counted) by the artifact and
        continuation rules, and an accepted one skips the two samples
        after it; a decrease is moved to its last falling sample. */
    method SeekSpkHighPrecision(m: Mds, s: seq<Sample>) returns (r: Outcome)
      requires Valid()
      modifies this, incLba, decLba
      ensures Valid()
      ensures var e := PrecisionEffect(m, s, old(State()));
        && (r.Pass? <==> e.Ok?)
        && (e.Ok? ==> State() == e.value)
        && (e.Err? ==> r == Fail(e.error))
    {
      var ic, dc, sum, err;
      r, ic, dc, sum, err := PrecisionLoop(s, m.itv);
      incCnt, decCnt, varSum, errCnt := ic, dc, sum, err;
    }

    method PrecisionLoop(s: seq<Sample>, itv: nat) returns (r: Outcome, ic: nat, dc: nat, sum: nat, err: nat)
      requires Valid()
      modifies incLba, decLba
      ensures Valid() && ic <= EventCapacity && dc <= EventCapacity
      ensures var e := PrecisionScan(s, itv, 0, PScan(old(incLba[..incCnt]), old(decLba[..decCnt]), varSum, errCnt));
        && (r.Pass? <==> e.Ok?)
        && (e.Ok? ==> e.value == PScan(incLba[..ic], decLba[..dc], sum, err))
        && (e.Err? ==> r == Fail(e.error))
    {
      ghost var goal := PrecisionScan(s, itv, 0, PScan(incLba[..incCnt], decLba[..decCnt], varSum, errCnt));
      var sector := 0;
      ic, dc, sum, err := incCnt, decCnt, varSum, errCnt;
      ghost var incs, decs := incLba[..ic], decLba[..dc];
      var i := 0;
      r := Pass;
      while i < |s|
        invariant Valid() && sector == i * itv
        invariant ic <= EventCapacity && dc <= EventCapacity
        invariant incLba[..ic] == incs && decLba[..dc] == decs
        invariant PrecisionScan(s, itv, i, PScan(incs, decs, sum, err)) == goal
        decreases |s| - i
      {
        Advance(i, 1, itv);
        sector := sector + itv;
        assert sector == Position(i, itv);
        var v := s[i].variation;
        if IncCandidate(s, i) {
          if IncArtifact(s, i) || IncContinuation(s, i) {
            assert Classify(s, i) == Rejected;
            PrecisionQuietStep(s, itv, i, PScan(incs, decs, sum, err));
            err := err + 1;
            sum := sum + Abs(v);
            i := i + 1;
          } else {
            assert Classify(s, i) == IncAccepted;
            PrecisionIncStep(s, itv, i, PScan(incs, decs, sum, err));
            if ic == EventCapacity {
              return Fail(IncreaseOverflow), ic, dc, sum, err;
            }
            RecordIncrease(sector, ic);
            ic := ic + 1;
            incs := incs + [sector];
            Advance(i, 3, itv);
            i := i + 3;
            sector := sector + itv * 2;
          }
        } else if DecCandidate(s, i) {
          if DecArtifact(s, i) || DecContinuation(s, i) {
            assert Classify(s, i) == Rejected;
            PrecisionQuietStep(s, itv, i, PScan(incs, decs, sum, err));
            err := err + 1;
            sum := sum + Abs(v);
            i := i + 1;
          } else {
            assert Classify(s, i) == DecAccepted;
            PrecisionDecStep(s, itv, i, PScan(incs, decs, sum, err));
            if dc == EventCapacity {
              return Fail(DecreaseOverflow), ic, dc, sum, err;
            }
            RecordDecrease(s, itv, i, sector, dc);
            dc := dc + 1;
            decs := decs + [DecPosition(s, i, itv)];
            Advance(i, 3, itv);
            i := i + 3;
            sector := sector + itv * 2;
          }
        } else {
          assert Classify(s, i) == Quiet;
          PrecisionQuietStep(s, itv, i, PScan(incs, decs, sum, err));
          sum := sum + Abs(v);
          i := i + 1;
        }
      }
    }

    /** Stores the sector of an accepted increase as entry `ic` of the list. */
    method RecordIncrease(sector: nat, ic: nat)
      requires Valid() && ic < EventCapacity
      modifies incLba
      ensures incLba[..ic + 1] == old(incLba[..ic]) + [sector]
    {
      incLba[ic] := sector;
    }

    /** Stores the decrease found at sample `i` as entry `dc` of the list,
        one interval later for each further falling sample. */
    method RecordDecrease(s: seq<Sample>, itv: nat, i: nat, sector: nat, dc: nat)
      requires Valid() && dc < EventCapacity && sector == Position(i, itv)
      modifies decLba
      ensures decLba[..dc + 1] == old(decLba[..dc]) + [DecPosition(s, i, itv)]
    {
      DecPositionSteps(s, i, itv);
      decLba[dc] := sector;
      if VarAt(s, i + 1) < -3 {
        decLba[dc] := decLba[dc] + itv;
      }
      if VarAt(s, i + 1) < -3 && VarAt(s, i + 2) < -3 {
        decLba[dc] := decLba[dc] + itv;
      }
    }

    /** `seek_reg`: the first increase opens a region, and so does every
        increase that follows the one before it by more than the
        threshold; every decrease that the next one follows by more than the
        threshold closes one, and the last decrease closes the final one. */
    method SeekReg(m: Mds) returns (r: Outcome)
      requires Valid() && sttCnt == 0 && stpCnt < RegionCapacity
      modifies this, sttLba, stpLba
      ensures Valid()
      ensures var e := RegionEffect(m, old(State()));
        && (r.Pass? <==> e.Ok?)
        && (e.Ok? ==> State() == e.value)
        && (e.Err? ==> r == Fail(e.error))
    {
      var threshold := if m.format == CD then CdThreshold else DvdThreshold;
      assert threshold == Threshold(m);
      var ok, st := FindStarts(threshold);
      if !ok {
        return Fail(StartOverflow);
      }
      sttCnt := st;
      var sp;
      ok, sp := FindStops(threshold);
      if !ok {
        return Fail(StopOverflow);
      }
      stpCnt := sp;
      r := Pass;
    }

    /** The start loop of `seek_reg`, writing the starts from index 0. */
    method FindStarts(threshold: nat) returns (ok: bool, st: nat)
      requires Valid()
      modifies sttLba
      ensures Valid()
      ensures ok <==> |RegionStarts(incLba[..incCnt], threshold)| <= RegionCapacity
      ensures ok ==> st <= RegionCapacity && sttLba[..st] == RegionStarts(incLba[..incCnt], threshold)
    {
      ghost var inc := incLba[..incCnt];
      ghost var starts := RegionStarts(inc, threshold);
      st := 0;
      if incCnt > 0 {
        sttLba[0] := incLba[0];
        st := 1;
      }
      var i := 1;
      while i < incCnt
        invariant Valid() && 1 <= i && (incCnt > 0 ==> i <= incCnt) && st <= RegionCapacity
        invariant incCnt > 0 ==> sttLba[..st] + GapStarts(inc, threshold, i) == starts
        invariant incCnt == 0 ==> st == 0
        invariant incLba[..incCnt] == inc
      {
        assert incLba[i - 1] == inc[i - 1] && incLba[i] == inc[i];
        if Gap(incLba[i - 1], incLba[i]) > threshold {
          assert GapStarts(inc, threshold, i) == [inc[i]] + GapStarts(inc, threshold, i + 1);
          if st == RegionCapacity {
            assert |starts| > RegionCapacity;
            return false, st;
          }
          ghost var before := sttLba[..st];
          sttLba[st] := incLba[i];
          st := st + 1;
          assert sttLba[..st] == before + [inc[i]];
          assert (before + [inc[i]]) + GapStarts(inc, threshold, i + 1)
              == before + ([inc[i]] + GapStarts(inc, threshold, i + 1));
        } else {
          assert GapStarts(inc, threshold, i) == [] + GapStarts(inc, threshold, i + 1);
          assert [] + GapStarts(inc, threshold, i + 1) == GapStarts(inc, threshold, i + 1);
        }
        i := i + 1;
      }
      ok := true;
    }

    /** The stop loop of `seek_reg`, appending after the current stops;
        only nine fit before the last decrease is added. */
    method FindStops(threshold: nat) returns (ok: bool, sp: nat)
      requires Valid() && stpCnt < RegionCapacity
      modifies stpLba
      ensures Valid()
      ensures ok <==> stpCnt + |RegionStops(decLba[..decCnt], threshold)| <= RegionCapacity
      ensures ok ==> sp <= RegionCapacity
                     && stpLba[..sp] == old(stpLba[..stpCnt]) + RegionStops(decLba[..decCnt], threshold)
    {
      ghost var dec := decLba[..decCnt];
      ghost var stp0 := stpLba[..stpCnt];
      sp := stpCnt;
      var i := 1;
      while i < decCnt
        invariant Valid() && 1 <= i && (decCnt > 0 ==> i <= decCnt) && sp < RegionCapacity
        invariant decCnt > 0 ==> stp0 + GapStops(dec, threshold, 1) == stpLba[..sp] + GapStops(dec, threshold, i)
        invariant decCnt == 0 ==> stpLba[..sp] == stp0
        invariant decLba[..decCnt] == dec
      {
        assert decLba[i - 1] == dec[i - 1] && decLba[i] == dec[i];
        if Gap(decLba[i - 1], decLba[i]) > threshold {
          assert GapStops(dec, threshold, i) == [dec[i - 1]] + GapStops(dec, threshold, i + 1);
          if sp == RegionCapacity - 1 {
            assert |stp0| + |RegionStops(dec, threshold)| > RegionCapacity;
            return false, sp;
          }
          ghost var before := stpLba[..sp];
          stpLba[sp] := decLba[i - 1];
          sp := sp + 1;
          assert stpLba[..sp] == before + [dec[i - 1]];
          assert (before + [dec[i - 1]]) + GapStops(dec, threshold, i + 1)
              == before + ([dec[i - 1]] + GapStops(dec, threshold, i + 1));
        } else {
          assert GapStops(dec, threshold, i) == [] + GapStops(dec, threshold, i + 1);
          assert [] + GapStops(dec, threshold, i + 1) == GapStops(dec, threshold, i + 1);
        }
        i := i + 1;
      }
      if decCnt > 0 {
        assert stpLba[..sp] == stp0 + GapStops(dec, threshold, 1);
        ghost var before := stpLba[..sp];
        stpLba[sp] := decLba[decCnt - 1];
        sp := sp + 1;
        assert stpLba[..sp] == before + [dec[decCnt - 1]];
      }
      ok := true;
    }

    /** `eval_reg`: the verdict on the layout; the regions are visited in
        order, each taking the increases and decreases that follow the
        ones already taken for as long as they lie inside it. */
    method EvalReg() returns (v: Verdict)
      requires Valid()
      ensures v == Layout(State())
    {
      if sttCnt == 0 && stpCnt == 0 {
        return Normal;
      } else if incCnt != decCnt || sttCnt != stpCnt {
        return Unreliable;
      } else if decCnt % stpCnt != 0 {
        return Unreliable;
      }
      ghost var d := State();
      var regCnt, sprCnt := stpCnt, decCnt / stpCnt;
      var incNum: nat, decNum: nat := 0, 0;
      var i := 0;
      while i < regCnt
        invariant i <= regCnt && incNum <= incCnt && decNum <= decCnt
        invariant RegionsAgree(d, i, incNum, decNum, sprCnt) == RegionsAgree(d, 0, 0, 0, sprCnt)
      {
        RegionsAgreeStep(d, i, incNum, decNum, sprCnt);
        assert sttLba[i] == d.stt[i] && stpLba[i] == d.stp[i];
        var iprCnt := CountIncreases(incNum, sttLba[i], stpLba[i]);
        incNum := incNum + iprCnt;
        var dprCnt := CountDecreases(decNum, sttLba[i], stpLba[i]);
        decNum := decNum + dprCnt;
        if iprCnt != sprCnt || dprCnt != sprCnt {
          return Unreliable;
        }
        i := i + 1;
      }
      return Consistent;
    }

    /** The increases from index `from` on that lie in [lo, hi), up to the
        first one that does not. */
    method CountIncreases(from: nat, lo: nat, hi: nat) returns (n: nat)
      requires Valid() && from <= incCnt
      ensures n == IncRun(incLba[..incCnt], from, lo, hi) && from + n <= incCnt
    {
      ghost var inc := incLba[..incCnt];
      n := 0;
      var j := from;
      while j < incCnt && incLba[j] >= lo && incLba[j] < hi
        invariant from <= j <= incCnt && n == j - from
        invariant IncRun(inc, from, lo, hi) == n + IncRun(inc, j, lo, hi)
      {
        n := n + 1;
        j := j + 1;
      }
    }

    /** The decreases from index `from` on that lie in (lo, hi]. */
    method CountDecreases(from: nat, lo: nat, hi: nat) returns (n: nat)
      requires Valid() && from <= decCnt
      ensures n == DecRun(decLba[..decCnt], from, lo, hi) && from + n <= decCnt
    {
      ghost var dec := decLba[..decCnt];
      n := 0;
      var j := from;
      while j < decCnt && decLba[j] <= hi && decLba[j] > lo
        invariant from <= j <= decCnt && n == j - from
        invariant DecRun(dec, from, lo, hi) == n + DecRun(dec, j, lo, hi)
      {
        n := n + 1;
        j := j + 1;
      }
    }

    /** `eval_spk`: for each slot, the lengths of that spike in every
        region, their mean and their population variance. */
    method EvalSpk(spk: array<SpikeStat>)
      requires Valid() && StatsReady(State()) && spk.Length == SpikesPerRegion(State())
      modifies spk
      ensures spk[..] == SpikeTable(State())
    {
      var regCnt, sprCnt := stpCnt, decCnt / stpCnt;
      var i := 0;
      while i < sprCnt
        invariant i <= sprCnt
        invariant forall k :: 0 <= k < i ==> spk[k] == SlotStat(State(), k)
      {
        var len, avg := GatherLengths(i);
        avg := avg / regCnt as real;
        var dev := SquaredDeviations(len, avg);
        spk[i] := SpikeStat(len, avg, dev / regCnt as real);
        i := i + 1;
      }
    }

    /** The lengths of spike `slot` in every region, and their sum. */
    method GatherLengths(slot: nat) returns (len: seq<nat>, total: real)
      requires Valid() && StatsReady(State()) && slot < SpikesPerRegion(State())
      ensures len == SlotLengths(State(), slot) && total == Sum(len) as real
    {
      ghost var d := State();
      var regCnt, sprCnt := stpCnt, decCnt / stpCnt;
      len, total := [], 0.0;
      var j := 0;
      while j < regCnt
        invariant j <= regCnt && len == SlotLengths(d, slot)[..j] && total == Sum(len) as real
      {
        var spkNum := slot + j * sprCnt;
        SlotIndex(d, slot, j);
        var l := Gap(incLba[spkNum], decLba[spkNum]);
        assert (len + [l])[..j] == len;
        len := len + [l];
        total := total + l as real;
        j := j + 1;
      }
    }

    /** `eval_dpm`: the break, the spike detector chosen by the interval
        and the layer count, the amplitudes of non-empty lists, and the
        regions. */
    method EvalDpm(m: Mds, s: seq<Sample>) returns (r: Outcome)
      requires Valid() && ValidInterval(m.itv) && BreakReadable(m, |s|)
      requires sttCnt == 0 && stpCnt < RegionCapacity
      modifies this, incLba, decLba, sttLba, stpLba
      ensures Valid()
      ensures var e := Analysis(m, s, old(State()));
        && (r.Pass? <==> e.Ok?)
        && (e.Ok? ==> State() == e.value)
        && (e.Err? ==> r == Fail(e.error))
    {
      ghost var d0 := State();
      SeekBrk(m, s);
      ghost var b := State();
      r := DetectSpikes(m, s);
      if r.Fail? {
        return;
      }
      ghost var e := State();
      assert Detect(m, s, b) == Ok(e);
      CalcAmps(m, s);
      assert State() == Amplitudes(m, s, e);
      r := SeekReg(m);
    }

    /** The detector `eval_dpm` runs for the interval and layer count. */
    method DetectSpikes(m: Mds, s: seq<Sample>) returns (r: Outcome)
      requires Valid()
      modifies this, incLba, decLba
      ensures Valid()
      ensures var e := Detect(m, s, old(State()));
        && (r.Pass? <==> e.Ok?)
        && (e.Ok? ==> State() == e.value)
        && (e.Err? ==> r == Fail(e.error))
    {
      if m.itv == 50 {
        r := SeekSpkHighPrecision(m, s);
      } else if m.lay == 2 {
        r := SeekSpk(m, s, 0);
        if r.Pass? {
          r := SeekSpk(m, s, 1);
        }
      } else if m.lay <= 1 {
        r := SeekSpk(m, s, -1);
      } else {
        r := Pass;
      }
    }

    /** `calc_inc_amp` and `calc_dec_amp`, each when its list is not empty. */
    method CalcAmps(m: Mds, s: seq<Sample>)
      requires Valid() && ValidInterval(m.itv)
      modifies this
      ensures Valid() && State() == Amplitudes(m, s, old(State()))
    {
      if incCnt > 0 {
        CalcIncAmp(m, s);
      }
      if decCnt > 0 {
        CalcDecAmp(m, s);
      }
    }
  }

  /** The second loop of `eval_spk` for one slot: the squared deviations
      from the mean, added up in order. */
  method SquaredDeviations(len: seq<nat>, avg: real) returns (dev: real)
    ensures dev == SquaredDeviation(len, avg)
  {
    dev := 0.0;
    var j := 0;
    while j < |len|
      invariant j <= |len| && dev == SquaredDeviation(len[..j], avg)
    {
      var avgDev := len[j] as real - avg;
      assert len[..j + 1][..j] == len[..j];
      dev := dev + avgDev * avgDev;
      j := j + 1;
    }
    assert len[..|len|] == len;
  }
}
