/** The analysis record of scan.c (`DISC`) as a value, and the helpers the
    detectors share. */
module DiscModel {
  import opened Parse
  import opened SampleTable

  /** Capacity of the increase and decrease lists (`inc_lba`, `dec_lba`). */
  const EventCapacity := 200
  /** Capacity of the region start and stop lists (`stt_lba`, `stp_lba`). */
  const RegionCapacity := 10

  /** `trk_pth`: empty until `seek_brk` classifies a dual-layer disc. */
  datatype TrackPath = NoPath | Opposite | Parallel

  /** The `DISC` record without its floating-point ratios: each list holds
      its first `*_cnt` entries. */
  datatype DiscState = DiscState(
    inc: seq<nat>,        // inc_lba[0 .. inc_cnt)
    dec: seq<nat>,        // dec_lba[0 .. dec_cnt)
    stt: seq<nat>,        // stt_lba[0 .. stt_cnt)
    stp: seq<nat>,        // stp_lba[0 .. stp_cnt)
    incAmp: (int, int),   // inc_amp[0], inc_amp[1]
    decAmp: (int, int),   // dec_amp[0], dec_amp[1]
    brkSmp: nat,
    brkLba: nat,
    trkPth: TrackPath,
    errCnt: nat,
    varSum: nat,
    lay0Sum: nat,
    lay1Sum: nat)

  /** `DISC dsc = {0}`. */
  function Fresh(): DiscState
  {
    DiscState([], [], [], [], (0, 0), (0, 0), 0, 0, NoPath, 0, 0, 0, 0)
  }

  predicate WithinCapacity(d: DiscState)
  {
    |d.inc| <= EventCapacity && |d.dec| <= EventCapacity
    && |d.stt| <= RegionCapacity && |d.stp| <= RegionCapacity
  }

  /** The variation of sample `j`; a read outside the table yields 0 (the
      source reads past both ends of its array there). */
  function VarAt(s: seq<Sample>, j: int): int
  {
    if 0 <= j < |s| then s[j].variation else 0
  }

  function Abs(x: int): nat
  {
    if x < 0 then -x else x
  }

  /** The sector at which sample `i` ends: the detectors' running `sector`
      when they look at sample `i`. */
  function Position(i: nat, itv: nat): nat
  {
    (i + 1) * itv
  }

  /** The sample whose sector is `p`: `p / itv - 1`, as `calc_inc_amp` and
      `calc_dec_amp` recover it. */
  function SampleOf(p: nat, itv: nat): int
    requires itv > 0
  {
    p / itv - 1
  }

  lemma SampleOfPosition(i: nat, itv: nat)
    requires itv > 0
    ensures SampleOf(Position(i, itv), itv) == i && Position(i, itv) % itv == 0
  {
    assert Position(i, itv) == (i + 1) * itv;
    assert (i + 1) * itv / itv == i + 1 by {
      DivExact(i + 1, itv);
    }
  }

  lemma DivExact(q: nat, c: nat)
    requires c > 0
    ensures q * c / c == q && q * c % c == 0
  {
    var a := q * c;
    assert a == c * (a / c) + a % c;
    MulAwayFromZero(a / c - q, c);
  }

  lemma MulMonotone(a: nat, b: nat, c: nat)
    requires a <= b
    ensures a * c <= b * c
  {
  }

  lemma {:induction false} PositionBelow(a: nat, b: nat, itv: nat)
    requires a < b && itv > 0
    ensures Position(a, itv) < Position(b, itv)
  {
    MulStrict(a + 1, b + 1, itv);
  }

  /** Moving `k` samples on moves the sector by `k` intervals. */
  lemma Advance(i: nat, k: nat, itv: nat)
    ensures (i + k) * itv == i * itv + k * itv
  {
  }

  lemma {:induction false} MulStrict(x: nat, y: nat, c: nat)
    requires x < y && c > 0
    ensures x * c < y * c
  {
  }

  /** A nonzero multiple of `c` is at least `c` away from 0. */
  lemma MulAwayFromZero(d: int, c: nat)
    requires c > 0
    ensures d > 0 ==> c * d >= c
    ensures d < 0 ==> c * d <= -(c as int)
  {
  }

  /** The sum of |variation| over samples `lo .. hi` (inclusive). */
  function AbsSum(s: seq<Sample>, lo: int, hi: int): nat
    decreases hi - lo
  {
    if lo > hi then 0 else Abs(VarAt(s, lo)) + AbsSum(s, lo + 1, hi)
  }

  predicate StrictlyIncreasing(xs: seq<nat>)
  {
    forall i, j :: 0 <= i < j < |xs| ==> xs[i] < xs[j]
  }

  /** Every element of `xs` is at most `bound`. */
  predicate AtMost(xs: seq<nat>, bound: int)
  {
    forall i :: 0 <= i < |xs| ==> xs[i] <= bound
  }

  /** `a` is `b` with some elements deleted. */
  predicate IsSubsequence(a: seq<nat>, b: seq<nat>)
    decreases |b|
  {
    if a == [] then true
    else if b == [] then false
    else if a[0] == b[0] then IsSubsequence(a[1..], b[1..])
    else IsSubsequence(a, b[1..])
  }

  /** Two increasing lists, the second above the first, make one. */
  lemma ConcatIncreasing(xs: seq<nat>, ys: seq<nat>, bound: int)
    requires StrictlyIncreasing(xs) && StrictlyIncreasing(ys) && AtMost(xs, bound)
    requires forall j :: 0 <= j < |ys| ==> bound < ys[j]
    ensures StrictlyIncreasing(xs + ys)
  {
  }

  lemma {:induction false} SubsequenceDropFirst(a: seq<nat>, b: seq<nat>)
    requires a != [] && IsSubsequence(a, b)
    ensures IsSubsequence(a[1..], b)
    decreases |b|, 0
  {
    if a[1..] != [] {
      if a[0] == b[0] {
        SubsequenceDropFirst(a[1..], b[1..]);
        SubsequenceSkip(a[1..][1..], b[1..], b[0]);
        assert [b[0]] + b[1..] == b;
        if a[1..][0] != b[0] {
          SubsequenceSkip(a[1..], b[1..], b[0]);
        }
      } else {
        SubsequenceDropFirst(a, b[1..]);
        SubsequenceSkip(a[1..], b[1..], b[0]);
        assert [b[0]] + b[1..] == b;
      }
    }
  }

  lemma {:induction false} SubsequenceSkip(a: seq<nat>, b: seq<nat>, x: nat)
    requires IsSubsequence(a, b)
    ensures IsSubsequence(a, [x] + b)
    decreases |b|, 1
  {
    if a != [] {
      assert ([x] + b)[1..] == b;
      if a[0] == x {
        SubsequenceDropFirst(a, b);
      }
    }
  }

  lemma {:induction false} SubsequenceExtend(a: seq<nat>, b: seq<nat>, x: nat)
    requires IsSubsequence(a, b)
    ensures IsSubsequence(a, b + [x])
    decreases |b|
  {
    if a != [] {
      assert (b + [x])[0] == b[0] && (b + [x])[1..] == b[1..] + [x];
      if a[0] == b[0] {
        SubsequenceExtend(a[1..], b[1..], x);
      } else {
        SubsequenceExtend(a, b[1..], x);
      }
    }
  }

  lemma {:induction false} SubsequenceAppend(a: seq<nat>, b: seq<nat>, x: nat)
    requires IsSubsequence(a, b)
    ensures IsSubsequence(a + [x], b + [x])
    decreases |b|
  {
    if a == [] {
      assert a + [x] == [x];
      SubsequenceOfLast(b, x);
    } else {
      assert (a + [x])[0] == a[0] && (a + [x])[1..] == a[1..] + [x];
      assert (b + [x])[0] == b[0] && (b + [x])[1..] == b[1..] + [x];
      if a[0] == b[0] {
        SubsequenceAppend(a[1..], b[1..], x);
      } else {
        SubsequenceAppend(a, b[1..], x);
      }
    }
  }

  lemma {:induction false} SubsequenceOfLast(b: seq<nat>, x: nat)
    ensures IsSubsequence([x], b + [x])
    decreases |b|
  {
    assert [x][1..] == [];
    if b != [] {
      assert (b + [x])[0] == b[0] && (b + [x])[1..] == b[1..] + [x];
      SubsequenceOfLast(b[1..], x);
    }
  }

  lemma {:induction false} SubsequenceCons(a: seq<nat>, b: seq<nat>, x: nat)
    requires IsSubsequence(a, b)
    ensures IsSubsequence([x] + a, [x] + b)
  {
    assert ([x] + a)[1..] == a && ([x] + b)[1..] == b;
  }
}
