/** The layer-break locator (`seek_brk`). */
module LayerBreak {
  import opened Parse
  import opened SampleTable
  import opened DiscModel

  /** 4.7 GB is about 2294922 sectors of 2048 bytes: the highest sector a
      single layer can hold. */
  const SingleLayerSectors := 2294922
  /** Timing jumps below this across the window mean an opposite track path. */
  const OppositeLimit := 100

  /** `seek_brk` works only on dual-layer DVDs (`!cd && lay >= 2`). */
  predicate DualLayerDvd(m: Mds)
  {
    m.format == DVD && m.lay >= 2
  }

  /** First sample of the break window, `(sct / 2) / itv - 1`. */
  function WindowLow(m: Mds): int
    requires ValidInterval(m.itv)
  {
    (m.sct / 2) / m.itv - 1
  }

  /** Last sample of the break window, `2294922 / itv - 1`. */
  function WindowHigh(m: Mds): int
    requires ValidInterval(m.itv)
  {
    SingleLayerSectors / m.itv - 1
  }

  /** The samples `seek_brk` reads exist: the first of the window and the
      one just after it (the source reads them without a check). */
  predicate BreakReadable(m: Mds, n: nat)
    requires ValidInterval(m.itv)
  {
    DualLayerDvd(m) ==> 0 <= WindowLow(m) < n && WindowHigh(m) + 1 < n
  }

  /** The largest index in `lo .. hi` holding the least timing of the
      window: a running minimum updated on `>=`. */
  function LastMinIndex(s: seq<Sample>, lo: nat, hi: nat): (k: nat)
    requires lo <= hi < |s|
    ensures lo <= k <= hi
    decreases hi - lo
  {
    if lo == hi then lo
    else
      var k := LastMinIndex(s, lo, hi - 1);
      if s[k].tim >= s[hi].tim then hi else k
  }

  /** No sample of the window is lower than the one LastMinIndex picks,
      and every later one is strictly higher. */
  lemma {:induction false} LastMinIndexIsLastMin(s: seq<Sample>, lo: nat, hi: nat)
    requires lo <= hi < |s|
    ensures forall j :: lo <= j <= hi ==> s[LastMinIndex(s, lo, hi)].tim <= s[j].tim
    ensures forall j :: LastMinIndex(s, lo, hi) < j <= hi ==> s[LastMinIndex(s, lo, hi)].tim < s[j].tim
    decreases hi - lo
  {
    if lo < hi {
      LastMinIndexIsLastMin(s, lo, hi - 1);
    }
  }

  /** "opposite" when the timing at the start of the window and the timing
      just after its end differ by less than 100, "parallel" otherwise. The
      difference of the two `unsigned int`s is taken as a `signed int`
      before its absolute value. */
  function PathOf(s: seq<Sample>, lo: nat, hi: nat): (r: TrackPath)
    requires lo < |s| && hi + 1 < |s|
    ensures r != NoPath
    ensures s[lo].tim == s[hi + 1].tim ==> r == Opposite
  {
    if Abs(Int32(s[lo].tim - s[hi + 1].tim)) < OppositeLimit then Opposite else Parallel
  }

  /** When both timings fit a `signed int`, the wrapped difference is the
      plain one: the path is opposite exactly when the timings differ by
      less than 100. */
  lemma {:induction false} PathOfPlain(s: seq<Sample>, lo: nat, hi: nat)
    requires lo < |s| && hi + 1 < |s|
    requires s[lo].tim < HalfWord && s[hi + 1].tim < HalfWord
    ensures PathOf(s, lo, hi) == Opposite <==> Abs(s[lo].tim - s[hi + 1].tim) < OppositeLimit
  {
    var d := s[lo].tim - s[hi + 1].tim;
    if d < 0 {
      assert d % Word == d + Word;
    } else {
      assert d % Word == d;
    }
  }

  /** The record after `seek_brk`. For an empty window the break sample
      keeps its value; its sector and the path are written in any case. */
  function BreakEffect(m: Mds, s: seq<Sample>, d: DiscState): (r: DiscState)
    requires ValidInterval(m.itv) && BreakReadable(m, |s|)
    ensures r.(brkSmp := d.brkSmp, brkLba := d.brkLba, trkPth := d.trkPth) == d
    ensures !DualLayerDvd(m) ==> r == d
    ensures DualLayerDvd(m) ==> && r.brkLba == (r.brkSmp + 1) * m.itv && r.trkPth != NoPath
                                && (WindowLow(m) <= WindowHigh(m) ==> WindowLow(m) <= r.brkSmp <= WindowHigh(m))
  {
    if !DualLayerDvd(m) then d
    else
      var lo, hi := WindowLow(m), WindowHigh(m);
      var brk := if lo <= hi then LastMinIndex(s, lo, hi) else d.brkSmp;
      d.(brkSmp := brk, brkLba := (brk + 1) * m.itv, trkPth := PathOf(s, lo, hi))
  }

  /** BreakEffect on a dual-layer DVD, once the break sample is known. */
  lemma BreakEffectAt(m: Mds, s: seq<Sample>, d: DiscState, brk: nat)
    requires ValidInterval(m.itv) && BreakReadable(m, |s|) && DualLayerDvd(m)
    requires WindowLow(m) <= WindowHigh(m) ==> brk == LastMinIndex(s, WindowLow(m), WindowHigh(m))
    requires WindowLow(m) > WindowHigh(m) ==> brk == d.brkSmp
    ensures BreakEffect(m, s, d)
            == d.(brkSmp := brk, brkLba := (brk + 1) * m.itv, trkPth := PathOf(s, WindowLow(m), WindowHigh(m)))
  {
  }

  /** The break found lies between half the sector count and the capacity
      of one layer, and no later sample of the window is lower. */
  lemma {:induction false} BreakWithinWindow(m: Mds, s: seq<Sample>, d: DiscState)
    requires ValidInterval(m.itv) && BreakReadable(m, |s|) && DualLayerDvd(m)
    requires WindowLow(m) <= WindowHigh(m)
    ensures var b := BreakEffect(m, s, d);
      && m.sct / 2 < b.brkLba + m.itv
      && b.brkLba <= SingleLayerSectors
      && b.brkSmp < |s|
      && (forall j :: WindowLow(m) <= j <= WindowHigh(m) ==> s[b.brkSmp].tim <= s[j].tim)
      && (forall j :: b.brkSmp < j <= WindowHigh(m) ==> s[b.brkSmp].tim < s[j].tim)
  {
    var lo, hi := WindowLow(m), WindowHigh(m);
    var k := LastMinIndex(s, lo, hi);
    LastMinIndexIsLastMin(s, lo, hi);
    var itv := m.itv;
    assert (lo + 1) * itv <= (k + 1) * itv by {
      MulMonotone(lo + 1, k + 1, itv);
    }
    assert (k + 1) * itv <= (hi + 1) * itv by {
      MulMonotone(k + 1, hi + 1, itv);
    }
    DivBounds(m.sct / 2, itv);
    DivBounds(SingleLayerSectors, itv);
  }

  lemma DivBounds(x: nat, y: nat)
    requires y > 0
    ensures (x / y) * y <= x < (x / y) * y + y
  {
  }
}
