/** The spike detector for the interval 50 (`seek_spk_high_precision`). */
module Precision {
  import opened Failures
  import opened Parse
  import opened SampleTable
  import opened DiscModel

  /** A rise of 4 .. 32 whose two-sample rise exceeds 13. */
  predicate IncCandidate(s: seq<Sample>, i: int)
  {
    3 < VarAt(s, i) < 33 && VarAt(s, i) + VarAt(s, i + 1) > 13
  }

  /** The increase is an artifact: the two samples before it or the two
      after it fall by more than 9. */
  predicate IncArtifact(s: seq<Sample>, i: int)
  {
    VarAt(s, i - 2) + VarAt(s, i - 1) < -9 || VarAt(s, i + 2) + VarAt(s, i + 3) < -9
  }

  /** The increase continues one already under way. */
  predicate IncContinuation(s: seq<Sample>, i: int)
  {
    VarAt(s, i - 1) > 9
  }

  predicate DecCandidate(s: seq<Sample>, i: int)
  {
    -33 < VarAt(s, i) < -3 && VarAt(s, i) + VarAt(s, i + 1) < -13
  }

  predicate DecArtifact(s: seq<Sample>, i: int)
  {
    VarAt(s, i - 2) + VarAt(s, i - 1) > 9 || VarAt(s, i + 2) + VarAt(s, i + 3) > 9
  }

  predicate DecContinuation(s: seq<Sample>, i: int)
  {
    VarAt(s, i - 1) < -9
  }

  /** What the detector makes of a sample it looks at. */
  datatype Class = IncAccepted | DecAccepted | Rejected | Quiet

  function Classify(s: seq<Sample>, i: int): (r: Class)
    ensures r == IncAccepted ==> 3 < VarAt(s, i) < 33
    ensures r == DecAccepted ==> -33 < VarAt(s, i) < -3
    ensures r == Quiet <==> !IncCandidate(s, i) && !DecCandidate(s, i)
    ensures -3 <= VarAt(s, i) <= 3 ==> r == Quiet
  {
    if IncCandidate(s, i) then
      (if IncArtifact(s, i) || IncContinuation(s, i) then Rejected else IncAccepted)
    else if DecCandidate(s, i) then
      (if DecArtifact(s, i) || DecContinuation(s, i) then Rejected else DecAccepted)
    else Quiet
  }

  predicate Accepted(c: Class)
  {
    c == IncAccepted || c == DecAccepted
  }

  /** How far the next look moves: past the two samples after an accepted
      spike, else to the next sample. */
  function Stride(s: seq<Sample>, i: int): nat
  {
    StrideOf(Classify(s, i))
  }

  function StrideOf(c: Class): nat
  {
    if Accepted(c) then 3 else 1
  }

  /** A decrease is dated to its last falling sample: one sample later when
      the next sample still falls by more than 3, two when the one after
      that does too. */
  function DecShift(s: seq<Sample>, i: int): nat
  {
    (if VarAt(s, i + 1) < -3 then 1 else 0) + (if VarAt(s, i + 1) < -3 && VarAt(s, i + 2) < -3 then 1 else 0)
  }

  function DecPosition(s: seq<Sample>, i: nat, itv: nat): nat
  {
    Position(i, itv) + DecShift(s, i) * itv
  }

  /** DecPosition as the source computes it: one interval later for each
      further falling sample. */
  lemma DecPositionSteps(s: seq<Sample>, i: nat, itv: nat)
    ensures DecPosition(s, i, itv)
            == Position(i, itv) + (if VarAt(s, i + 1) < -3 then itv else 0)
               + (if VarAt(s, i + 1) < -3 && VarAt(s, i + 2) < -3 then itv else 0)
  {
    assert DecShift(s, i) * itv
           == (if VarAt(s, i + 1) < -3 then itv else 0) + (if VarAt(s, i + 1) < -3 && VarAt(s, i + 2) < -3 then itv else 0);
  }

  /** The lists, the running sum and the suppressed-candidate count. */
  datatype PScan = PScan(inc: seq<nat>, dec: seq<nat>, sum: nat, err: nat)

  /** The loop of `seek_spk_high_precision` from sample `i`. */
  function PrecisionScan(s: seq<Sample>, itv: nat, i: nat, acc: PScan): (r: Result<PScan>)
    ensures r.Err? ==> r.error == IncreaseOverflow || r.error == DecreaseOverflow
    ensures r.Ok? ==> && acc.inc <= r.value.inc && acc.dec <= r.value.dec
                      && acc.sum <= r.value.sum && acc.err <= r.value.err
    ensures r.Ok? && |acc.inc| <= EventCapacity && |acc.dec| <= EventCapacity
            ==> |r.value.inc| <= EventCapacity && |r.value.dec| <= EventCapacity
    decreases |s| - i
  {
    if i >= |s| then Ok(acc)
    else
      match Classify(s, i)
      case IncAccepted =>
        if |acc.inc| >= EventCapacity then Err(IncreaseOverflow)
        else PrecisionScan(s, itv, i + 3, acc.(inc := acc.inc + [Position(i, itv)]))
      case DecAccepted =>
        if |acc.dec| >= EventCapacity then Err(DecreaseOverflow)
        else PrecisionScan(s, itv, i + 3, acc.(dec := acc.dec + [DecPosition(s, i, itv)]))
      case Rejected =>
        PrecisionScan(s, itv, i + 1, acc.(sum := acc.sum + Abs(s[i].variation), err := acc.err + 1))
      case Quiet =>
        PrecisionScan(s, itv, i + 1, acc.(sum := acc.sum + Abs(s[i].variation)))
  }

  /** One step of PrecisionScan at an accepted increase. */
  lemma PrecisionIncStep(s: seq<Sample>, itv: nat, i: nat, acc: PScan)
    requires i < |s| && Classify(s, i) == IncAccepted
    ensures |acc.inc| >= EventCapacity ==> PrecisionScan(s, itv, i, acc) == Err(IncreaseOverflow)
    ensures |acc.inc| < EventCapacity ==>
      PrecisionScan(s, itv, i, acc) == PrecisionScan(s, itv, i + 3, acc.(inc := acc.inc + [Position(i, itv)]))
  {
  }

  /** One step of PrecisionScan at an accepted decrease. */
  lemma PrecisionDecStep(s: seq<Sample>, itv: nat, i: nat, acc: PScan)
    requires i < |s| && Classify(s, i) == DecAccepted
    ensures |acc.dec| >= EventCapacity ==> PrecisionScan(s, itv, i, acc) == Err(DecreaseOverflow)
    ensures |acc.dec| < EventCapacity ==>
      PrecisionScan(s, itv, i, acc) == PrecisionScan(s, itv, i + 3, acc.(dec := acc.dec + [DecPosition(s, i, itv)]))
  {
  }

  /** One step of PrecisionScan at a sample that is not accepted. */
  lemma PrecisionQuietStep(s: seq<Sample>, itv: nat, i: nat, acc: PScan)
    requires i < |s| && !Accepted(Classify(s, i))
    ensures PrecisionScan(s, itv, i, acc)
            == PrecisionScan(s, itv, i + 1, acc.(sum := acc.sum + Abs(s[i].variation),
                                                 err := acc.err + (if Classify(s, i) == Rejected then 1 else 0)))
  {
  }

  /** A sample the loop looks at, with what it makes of it. */
  datatype Visit = Visit(at: nat, cls: Class)

  /** The samples the loop looks at, from `i` on. */
  function Visits(s: seq<Sample>, i: nat): seq<Visit>
    decreases |s| - i
  {
    if i >= |s| then [] else [Visit(i, Classify(s, i))] + Visits(s, i + Stride(s, i))
  }

  /** The samples of the visits of class `c`. */
  function Select(c: Class, vs: seq<Visit>): seq<nat>
  {
    if vs == [] then []
    else (if vs[0].cls == c then [vs[0].at] else []) + Select(c, vs[1..])
  }

  function Sectors(xs: seq<nat>, itv: nat): seq<nat>
  {
    if xs == [] then [] else [Position(xs[0], itv)] + Sectors(xs[1..], itv)
  }

  function DecSectors(s: seq<Sample>, xs: seq<nat>, itv: nat): seq<nat>
  {
    if xs == [] then [] else [DecPosition(s, xs[0], itv)] + DecSectors(s, xs[1..], itv)
  }

  /** The |variation| of the looked-at samples that are not accepted. */
  function QuietMass(s: seq<Sample>, vs: seq<Visit>): nat
  {
    if vs == [] then 0
    else (if Accepted(vs[0].cls) then 0 else Abs(VarAt(s, vs[0].at))) + QuietMass(s, vs[1..])
  }

  /** The statement of PrecisionByVisits. */
  predicate PrecisionAgrees(s: seq<Sample>, itv: nat, i: nat, acc: PScan)
  {
    Agrees(s, itv, acc, PrecisionScan(s, itv, i, acc), Visits(s, i))
  }

  /** What the result `r` of a scan from `acc` over the visits `vs` holds. */
  predicate Agrees(s: seq<Sample>, itv: nat, acc: PScan, r: Result<PScan>, vs: seq<Visit>)
  {
    && (r.Ok? <==> |acc.inc| + |Select(IncAccepted, vs)| <= EventCapacity
                   && |acc.dec| + |Select(DecAccepted, vs)| <= EventCapacity)
    && (r.Err? ==> r.error == IncreaseOverflow || r.error == DecreaseOverflow)
    && (r.Ok? ==>
          && r.value.inc == acc.inc + Sectors(Select(IncAccepted, vs), itv)
          && r.value.dec == acc.dec + DecSectors(s, Select(DecAccepted, vs), itv)
          && r.value.err == acc.err + |Select(Rejected, vs)|
          && r.value.sum == acc.sum + QuietMass(s, vs))
  }

  /** The scan, described by the samples it looks at: accepted increases
      and decreases are appended at their sectors, every suppressed
      candidate counts one error, the sum grows by the |variation| of every
      looked-at sample not accepted, and the scan fails exactly when a list
      would pass 200 entries. */
  lemma {:induction false} PrecisionByVisits(s: seq<Sample>, itv: nat, i: nat, acc: PScan)
    requires |acc.inc| <= EventCapacity && |acc.dec| <= EventCapacity
    ensures PrecisionAgrees(s, itv, i, acc)
    decreases |s| - i, 1
  {
    if i < |s| {
      if Classify(s, i) == IncAccepted {
        IncStep(s, itv, i, acc);
      } else if Classify(s, i) == DecAccepted {
        DecStep(s, itv, i, acc);
      } else if Classify(s, i) == Rejected {
        RejectedStep(s, itv, i, acc);
      } else {
        QuietStep(s, itv, i, acc);
      }
    }
  }

  /** PrecisionByVisits at an accepted increase. */
  lemma {:induction false} IncStep(s: seq<Sample>, itv: nat, i: nat, acc: PScan)
    requires |acc.inc| <= EventCapacity && |acc.dec| <= EventCapacity
    requires i < |s| && Classify(s, i) == IncAccepted
    ensures PrecisionAgrees(s, itv, i, acc)
    decreases |s| - i, 0
  {
    var x := Visit(i, IncAccepted);
    assert Stride(s, i) == 3;
    assert Visits(s, i) == [x] + Visits(s, i + 3);
    VisitsHead(s, itv, x, Visits(s, i + 3));
    if |acc.inc| >= EventCapacity {
      assert PrecisionScan(s, itv, i, acc) == Err(IncreaseOverflow);
    } else {
      var acc' := acc.(inc := acc.inc + [Position(i, itv)]);
      assert PrecisionScan(s, itv, i, acc) == PrecisionScan(s, itv, i + 3, acc');
      PrecisionByVisits(s, itv, i + 3, acc');
      IncTransfer(s, itv, acc, PrecisionScan(s, itv, i + 3, acc'), x, Visits(s, i + 3));
    }
  }

  lemma {:induction false} IncTransfer(s: seq<Sample>, itv: nat, acc: PScan, r: Result<PScan>, x: Visit, rest: seq<Visit>)
    requires x.cls == IncAccepted && |acc.inc| < EventCapacity
    requires Agrees(s, itv, acc.(inc := acc.inc + [Position(x.at, itv)]), r, rest)
    ensures Agrees(s, itv, acc, r, [x] + rest)
  {
    VisitsHead(s, itv, x, rest);
    assert acc.inc + [Position(x.at, itv)] + Sectors(Select(IncAccepted, rest), itv)
        == acc.inc + ([Position(x.at, itv)] + Sectors(Select(IncAccepted, rest), itv));
  }

  /** PrecisionByVisits at an accepted decrease. */
  lemma {:induction false} DecStep(s: seq<Sample>, itv: nat, i: nat, acc: PScan)
    requires |acc.inc| <= EventCapacity && |acc.dec| <= EventCapacity
    requires i < |s| && Classify(s, i) == DecAccepted
    ensures PrecisionAgrees(s, itv, i, acc)
    decreases |s| - i, 0
  {
    var x := Visit(i, DecAccepted);
    assert Stride(s, i) == 3;
    assert Visits(s, i) == [x] + Visits(s, i + 3);
    VisitsHead(s, itv, x, Visits(s, i + 3));
    if |acc.dec| >= EventCapacity {
      assert PrecisionScan(s, itv, i, acc) == Err(DecreaseOverflow);
    } else {
      var acc' := acc.(dec := acc.dec + [DecPosition(s, i, itv)]);
      assert PrecisionScan(s, itv, i, acc) == PrecisionScan(s, itv, i + 3, acc');
      PrecisionByVisits(s, itv, i + 3, acc');
      DecTransfer(s, itv, acc, PrecisionScan(s, itv, i + 3, acc'), x, Visits(s, i + 3));
    }
  }

  lemma {:induction false} DecTransfer(s: seq<Sample>, itv: nat, acc: PScan, r: Result<PScan>, x: Visit, rest: seq<Visit>)
    requires x.cls == DecAccepted && |acc.dec| < EventCapacity
    requires Agrees(s, itv, acc.(dec := acc.dec + [DecPosition(s, x.at, itv)]), r, rest)
    ensures Agrees(s, itv, acc, r, [x] + rest)
  {
    VisitsHead(s, itv, x, rest);
    assert acc.dec + [DecPosition(s, x.at, itv)] + DecSectors(s, Select(DecAccepted, rest), itv)
        == acc.dec + ([DecPosition(s, x.at, itv)] + DecSectors(s, Select(DecAccepted, rest), itv));
  }

  /** PrecisionByVisits at a suppressed candidate: its |variation| is
      summed and it counts one error. */
  lemma {:induction false} RejectedStep(s: seq<Sample>, itv: nat, i: nat, acc: PScan)
    requires |acc.inc| <= EventCapacity && |acc.dec| <= EventCapacity
    requires i < |s| && Classify(s, i) == Rejected
    ensures PrecisionAgrees(s, itv, i, acc)
    decreases |s| - i, 0
  {
    var x := Visit(i, Rejected);
    assert Stride(s, i) == 1;
    assert Visits(s, i) == [x] + Visits(s, i + 1);
    var acc' := acc.(sum := acc.sum + Abs(VarAt(s, i)), err := acc.err + 1);
    assert PrecisionScan(s, itv, i, acc) == PrecisionScan(s, itv, i + 1, acc');
    PrecisionByVisits(s, itv, i + 1, acc');
    QuietTransfer(s, itv, acc, PrecisionScan(s, itv, i + 1, acc'), x, Visits(s, i + 1));
  }

  /** PrecisionByVisits at a sample that is no candidate. */
  lemma {:induction false} QuietStep(s: seq<Sample>, itv: nat, i: nat, acc: PScan)
    requires |acc.inc| <= EventCapacity && |acc.dec| <= EventCapacity
    requires i < |s| && Classify(s, i) == Quiet
    ensures PrecisionAgrees(s, itv, i, acc)
    decreases |s| - i, 0
  {
    var x := Visit(i, Quiet);
    assert Stride(s, i) == 1;
    assert Visits(s, i) == [x] + Visits(s, i + 1);
    var acc' := acc.(sum := acc.sum + Abs(VarAt(s, i)));
    assert PrecisionScan(s, itv, i, acc) == PrecisionScan(s, itv, i + 1, acc');
    PrecisionByVisits(s, itv, i + 1, acc');
    QuietTransfer(s, itv, acc, PrecisionScan(s, itv, i + 1, acc'), x, Visits(s, i + 1));
  }

  lemma {:induction false} QuietTransfer(s: seq<Sample>, itv: nat, acc: PScan, r: Result<PScan>, x: Visit, rest: seq<Visit>)
    requires !Accepted(x.cls)
    requires Agrees(s, itv, acc.(sum := acc.sum + Abs(VarAt(s, x.at)), err := acc.err + (if x.cls == Rejected then 1 else 0)), r, rest)
    ensures Agrees(s, itv, acc, r, [x] + rest)
  {
    VisitsHead(s, itv, x, rest);
  }

  /** How the selections, their sectors and the mass split at the first
      visit `x`. */
  lemma {:induction false} VisitsHead(s: seq<Sample>, itv: nat, x: Visit, rest: seq<Visit>)
    ensures Sectors(Select(IncAccepted, [x] + rest), itv)
            == (if x.cls == IncAccepted then [Position(x.at, itv)] else []) + Sectors(Select(IncAccepted, rest), itv)
    ensures DecSectors(s, Select(DecAccepted, [x] + rest), itv)
            == (if x.cls == DecAccepted then [DecPosition(s, x.at, itv)] else []) + DecSectors(s, Select(DecAccepted, rest), itv)
    ensures |Select(IncAccepted, [x] + rest)| == |Select(IncAccepted, rest)| + (if x.cls == IncAccepted then 1 else 0)
    ensures |Select(DecAccepted, [x] + rest)| == |Select(DecAccepted, rest)| + (if x.cls == DecAccepted then 1 else 0)
    ensures |Select(Rejected, [x] + rest)| == |Select(Rejected, rest)| + (if x.cls == Rejected then 1 else 0)
    ensures QuietMass(s, [x] + rest) == QuietMass(s, rest) + (if Accepted(x.cls) then 0 else Abs(VarAt(s, x.at)))
  {
    var vs := [x] + rest;
    assert vs[0] == x && vs[1..] == rest;
    var inc := Select(IncAccepted, rest);
    var dec := Select(DecAccepted, rest);
    if x.cls == IncAccepted {
      assert Select(IncAccepted, vs) == [x.at] + inc;
      assert ([x.at] + inc)[1..] == inc;
    } else {
      assert Select(IncAccepted, vs) == [] + inc == inc;
    }
    if x.cls == DecAccepted {
      assert Select(DecAccepted, vs) == [x.at] + dec;
      assert ([x.at] + dec)[1..] == dec;
    } else {
      assert Select(DecAccepted, vs) == [] + dec == dec;
    }
  }

  /** The visits lie in the table and carry the class of their sample. */
  lemma {:induction false} VisitsClassified(s: seq<Sample>, i: nat)
    ensures forall v :: v in Visits(s, i) ==> i <= v.at < |s| && v.cls == Classify(s, v.at)
    decreases |s| - i
  {
    if i < |s| {
      VisitsClassified(s, i + Stride(s, i));
      assert Visits(s, i) == [Visit(i, Classify(s, i))] + Visits(s, i + Stride(s, i));
    }
  }

  /** After a looked-at sample the loop moves on by its stride: one
      sample, or three past an accepted spike. */
  lemma {:induction false} VisitsSpaced(s: seq<Sample>, i: nat)
    ensures forall a, b :: 0 <= a < b < |Visits(s, i)| ==>
      Visits(s, i)[a].at + StrideOf(Visits(s, i)[a].cls) <= Visits(s, i)[b].at
    decreases |s| - i
  {
    if i < |s| {
      var vs := Visits(s, i);
      var rest := Visits(s, i + Stride(s, i));
      VisitsSpaced(s, i + Stride(s, i));
      VisitsClassified(s, i + Stride(s, i));
      assert vs == [Visit(i, Classify(s, i))] + rest;
      forall a, b | 0 <= a < b < |vs|
        ensures vs[a].at + StrideOf(vs[a].cls) <= vs[b].at
      {
        assert vs[b] == rest[b - 1];
        assert rest[b - 1] in rest;
        if a > 0 {
          assert vs[a] == rest[a - 1];
        }
      }
    }
  }

  /** Every sample from `i` on is looked at, or is one of the two skipped
      right after an accepted spike. */
  lemma {:induction false} VisitsComplete(s: seq<Sample>, i: nat, k: nat)
    requires i <= k < |s|
    ensures || Visit(k, Classify(s, k)) in Visits(s, i)
            || (k >= 1 && Visit(k - 1, Classify(s, k - 1)) in Visits(s, i) && Accepted(Classify(s, k - 1)))
            || (k >= 2 && Visit(k - 2, Classify(s, k - 2)) in Visits(s, i) && Accepted(Classify(s, k - 2)))
    decreases |s| - i
  {
    var rest := Visits(s, i + Stride(s, i));
    assert Visits(s, i) == [Visit(i, Classify(s, i))] + rest;
    if k >= i + Stride(s, i) {
      VisitsComplete(s, i + Stride(s, i), k);
    } else if k > i {
      assert Stride(s, i) == 3 && Accepted(Classify(s, i));
    }
  }

  /** Select keeps exactly the samples visited with its class. */
  lemma {:induction false} SelectFacts(c: Class, vs: seq<Visit>)
    ensures forall x :: x in Select(c, vs) <==> Visit(x, c) in vs
    decreases |vs|
  {
    if vs != [] {
      SelectFacts(c, vs[1..]);
      assert vs == [vs[0]] + vs[1..];
    }
  }

  /** Two selected accepted spikes are at least three samples apart. */
  lemma {:induction false} SelectSpaced(c: Class, vs: seq<Visit>)
    requires Accepted(c)
    requires forall a, b :: 0 <= a < b < |vs| ==> vs[a].at + StrideOf(vs[a].cls) <= vs[b].at
    ensures forall a, b :: 0 <= a < b < |Select(c, vs)| ==> Select(c, vs)[a] + 3 <= Select(c, vs)[b]
    decreases |vs|
  {
    if vs != [] {
      var tail := Select(c, vs[1..]);
      SelectSpaced(c, vs[1..]);
      SelectFacts(c, vs[1..]);
      if vs[0].cls == c {
        var xs := Select(c, vs);
        assert xs == [vs[0].at] + tail;
        forall a, b | 0 <= a < b < |xs|
          ensures xs[a] + 3 <= xs[b]
        {
          assert xs[b] == tail[b - 1];
          assert Visit(tail[b - 1], c) in vs[1..];
          var q :| 0 <= q < |vs[1..]| && vs[1..][q] == Visit(tail[b - 1], c);
          assert vs[0].at + StrideOf(vs[0].cls) <= vs[q + 1].at;
          if a > 0 {
            assert xs[a] == tail[a - 1];
          }
        }
      } else {
        assert Select(c, vs) == tail;
      }
    }
  }

  lemma {:induction false} SectorsAt(xs: seq<nat>, itv: nat)
    ensures |Sectors(xs, itv)| == |xs|
    ensures forall j :: 0 <= j < |xs| ==> Sectors(xs, itv)[j] == Position(xs[j], itv)
    decreases |xs|
  {
    if xs != [] {
      SectorsAt(xs[1..], itv);
    }
  }

  lemma {:induction false} DecSectorsAt(s: seq<Sample>, xs: seq<nat>, itv: nat)
    ensures |DecSectors(s, xs, itv)| == |xs|
    ensures forall j :: 0 <= j < |xs| ==> DecSectors(s, xs, itv)[j] == DecPosition(s, xs[j], itv)
    decreases |xs|
  {
    if xs != [] {
      DecSectorsAt(s, xs[1..], itv);
    }
  }

  lemma {:induction false} DecShiftBound(s: seq<Sample>, i: nat)
    ensures DecShift(s, i) <= 2
    ensures i + 1 >= |s| ==> DecShift(s, i) == 0
    ensures i + 2 >= |s| ==> DecShift(s, i) <= 1
  {
  }

  /** A decrease is dated to a sample at most two after it, and never past
      the end of the table. */
  lemma {:induction false} DecPositionIs(s: seq<Sample>, i: nat, itv: nat)
    requires i < |s|
    ensures DecPosition(s, i, itv) == Position(i + DecShift(s, i), itv)
    ensures i + DecShift(s, i) < |s|
  {
    DecShiftBound(s, i);
  }

  /** New increases rise strictly, after sector `lo * itv` and within the
      table. */
  lemma {:induction false} NewIncSorted(s: seq<Sample>, itv: nat, lo: nat, vs: seq<Visit>)
    requires itv > 0
    requires forall v :: v in vs ==> lo <= v.at < |s|
    requires forall a, b :: 0 <= a < b < |vs| ==> vs[a].at + StrideOf(vs[a].cls) <= vs[b].at
    ensures StrictlyIncreasing(Sectors(Select(IncAccepted, vs), itv))
    ensures forall j :: 0 <= j < |Sectors(Select(IncAccepted, vs), itv)| ==> lo * itv < Sectors(Select(IncAccepted, vs), itv)[j]
    ensures AtMost(Sectors(Select(IncAccepted, vs), itv), |s| * itv)
  {
    SelectSpaced(IncAccepted, vs);
    SelectFacts(IncAccepted, vs);
    SpacedSectors(Select(IncAccepted, vs), itv, lo, |s|);
  }

  lemma {:induction false} SpacedSectors(xs: seq<nat>, itv: nat, lo: nat, n: nat)
    requires itv > 0
    requires forall x :: x in xs ==> lo <= x < n
    requires forall a, b :: 0 <= a < b < |xs| ==> xs[a] + 3 <= xs[b]
    ensures StrictlyIncreasing(Sectors(xs, itv))
    ensures forall j :: 0 <= j < |Sectors(xs, itv)| ==> lo * itv < Sectors(xs, itv)[j]
    ensures AtMost(Sectors(xs, itv), n * itv)
  {
    var ps := Sectors(xs, itv);
    SectorsAt(xs, itv);
    forall a, b | 0 <= a < b < |ps|
      ensures ps[a] < ps[b]
    {
      MulMonotone(xs[a] + 1, xs[b], itv);
    }
    forall j | 0 <= j < |ps|
      ensures lo * itv < ps[j] <= n * itv
    {
      assert xs[j] in xs;
      MulMonotone(lo + 1, xs[j] + 1, itv);
      MulMonotone(xs[j] + 1, n, itv);
    }
  }

  /** New decreases rise strictly, after sector `lo * itv` and within the
      table, although each may be dated up to two samples late. */
  lemma {:induction false} NewDecSorted(s: seq<Sample>, itv: nat, lo: nat, vs: seq<Visit>)
    requires itv > 0
    requires forall v :: v in vs ==> lo <= v.at < |s|
    requires forall a, b :: 0 <= a < b < |vs| ==> vs[a].at + StrideOf(vs[a].cls) <= vs[b].at
    ensures StrictlyIncreasing(DecSectors(s, Select(DecAccepted, vs), itv))
    ensures forall j :: 0 <= j < |DecSectors(s, Select(DecAccepted, vs), itv)| ==> lo * itv < DecSectors(s, Select(DecAccepted, vs), itv)[j]
    ensures AtMost(DecSectors(s, Select(DecAccepted, vs), itv), |s| * itv)
  {
    SelectSpaced(DecAccepted, vs);
    SelectFacts(DecAccepted, vs);
    SpacedDecSectors(s, Select(DecAccepted, vs), itv, lo);
  }

  lemma {:induction false} SpacedDecSectors(s: seq<Sample>, xs: seq<nat>, itv: nat, lo: nat)
    requires itv > 0
    requires forall x :: x in xs ==> lo <= x < |s|
    requires forall a, b :: 0 <= a < b < |xs| ==> xs[a] + 3 <= xs[b]
    ensures StrictlyIncreasing(DecSectors(s, xs, itv))
    ensures forall j :: 0 <= j < |DecSectors(s, xs, itv)| ==> lo * itv < DecSectors(s, xs, itv)[j]
    ensures AtMost(DecSectors(s, xs, itv), |s| * itv)
  {
    var ps := DecSectors(s, xs, itv);
    DecSectorsAt(s, xs, itv);
    forall a, b | 0 <= a < b < |ps|
      ensures ps[a] < ps[b]
    {
      var x, y := xs[a], xs[b];
      assert x in xs && y in xs;
      DecPositionIs(s, x, itv);
      DecPositionIs(s, y, itv);
      DecShiftBound(s, x);
      PositionBelow(x + DecShift(s, x), y + DecShift(s, y), itv);
    }
    forall j | 0 <= j < |ps|
      ensures lo * itv < ps[j] <= |s| * itv
    {
      var x := xs[j];
      assert x in xs;
      DecPositionIs(s, x, itv);
      MulStrict(lo, x + DecShift(s, x) + 1, itv);
      MulMonotone(x + DecShift(s, x) + 1, |s|, itv);
    }
  }

  /** `seek_spk_high_precision`: the new DISC state, or the overflow that
      stops the program. The sum and the error count carry on from the
      state they start in. */
  function PrecisionEffect(m: Mds, s: seq<Sample>, d: DiscState): (r: Result<DiscState>)
    ensures r.Err? ==> r.error == IncreaseOverflow || r.error == DecreaseOverflow
    ensures r.Ok? ==> && d.inc <= r.value.inc && d.dec <= r.value.dec
                      && d.varSum <= r.value.varSum && d.errCnt <= r.value.errCnt
                      && r.value.(inc := d.inc, dec := d.dec, varSum := d.varSum, errCnt := d.errCnt) == d
  {
    var r :- PrecisionScan(s, m.itv, 0, PScan(d.inc, d.dec, d.varSum, d.errCnt));
    Ok(d.(inc := r.inc, dec := r.dec, varSum := r.sum, errCnt := r.err))
  }

  /** PrecisionEffect in terms of the samples the loop looks at. */
  lemma {:induction false} PrecisionState(m: Mds, s: seq<Sample>, d: DiscState)
    requires |d.inc| <= EventCapacity && |d.dec| <= EventCapacity
    ensures var r := PrecisionEffect(m, s, d);
            var vs := Visits(s, 0);
      && (r.Ok? <==> |d.inc| + |Select(IncAccepted, vs)| <= EventCapacity
                     && |d.dec| + |Select(DecAccepted, vs)| <= EventCapacity)
      && (r.Err? ==> r.error == IncreaseOverflow || r.error == DecreaseOverflow)
      && (r.Ok? ==>
            && r.value.inc == d.inc + Sectors(Select(IncAccepted, vs), m.itv)
            && r.value.dec == d.dec + DecSectors(s, Select(DecAccepted, vs), m.itv)
            && r.value.errCnt == d.errCnt + |Select(Rejected, vs)|
            && r.value.varSum == d.varSum + QuietMass(s, vs)
            && r.value.(inc := d.inc, dec := d.dec, errCnt := d.errCnt, varSum := d.varSum) == d)
  {
    PrecisionByVisits(s, m.itv, 0, PScan(d.inc, d.dec, d.varSum, d.errCnt));
  }

  /** From empty lists, the lists come out strictly increasing and within
      the table. */
  lemma {:induction false} PrecisionSorted(m: Mds, s: seq<Sample>, d: DiscState)
    requires ValidInterval(m.itv) && d.inc == [] && d.dec == []
    ensures var r := PrecisionEffect(m, s, d);
      r.Ok? ==> && StrictlyIncreasing(r.value.inc) && StrictlyIncreasing(r.value.dec)
                && AtMost(r.value.inc, |s| * m.itv) && AtMost(r.value.dec, |s| * m.itv)
  {
    PrecisionState(m, s, d);
    VisitsClassified(s, 0);
    VisitsSpaced(s, 0);
    NewIncSorted(s, m.itv, 0, Visits(s, 0));
    NewDecSorted(s, m.itv, 0, Visits(s, 0));
    assert [] + Sectors(Select(IncAccepted, Visits(s, 0)), m.itv) == Sectors(Select(IncAccepted, Visits(s, 0)), m.itv);
    assert [] + DecSectors(s, Select(DecAccepted, Visits(s, 0)), m.itv) == DecSectors(s, Select(DecAccepted, Visits(s, 0)), m.itv);
  }

  /** Entry `j` on of `xs` is the sector of a looked-at accepted increase. */
  predicate IncOrigin(s: seq<Sample>, itv: nat, xs: seq<nat>, from: nat)
    requires itv > 0
  {
    forall j :: from <= j < |xs| ==>
      xs[j] % itv == 0 && 0 <= SampleOf(xs[j], itv) < |s|
      && Visit(SampleOf(xs[j], itv), IncAccepted) in Visits(s, 0) && Classify(s, SampleOf(xs[j], itv)) == IncAccepted
  }

  /** Sector `p` dates a looked-at accepted decrease `t` samples before
      the sample of `p`, where `t` is that decrease's shift (0, 1 or 2). */
  predicate DatedDecrease(s: seq<Sample>, itv: nat, p: nat)
    requires itv > 0
  {
    var q := SampleOf(p, itv);
    p % itv == 0 && (AcceptedDecrease(s, q, 0) || AcceptedDecrease(s, q - 1, 1) || AcceptedDecrease(s, q - 2, 2))
  }

  /** Sample `k` is a looked-at accepted decrease with shift `t`. */
  predicate AcceptedDecrease(s: seq<Sample>, k: int, t: nat)
  {
    k >= 0 && Visit(k, DecAccepted) in Visits(s, 0) && Classify(s, k) == DecAccepted && DecShift(s, k) == t
  }

  predicate DecOrigin(s: seq<Sample>, itv: nat, xs: seq<nat>, from: nat)
    requires itv > 0
  {
    forall j :: from <= j < |xs| ==> DatedDecrease(s, itv, xs[j])
  }

  /** Every looked-at accepted spike is in its list. */
  predicate RecordsAccepted(s: seq<Sample>, itv: nat, inc: seq<nat>, dec: seq<nat>)
  {
    forall v :: v in Visits(s, 0) ==>
      (v.cls == IncAccepted ==> Classify(s, v.at) == IncAccepted && Position(v.at, itv) in inc)
      && (v.cls == DecAccepted ==> Classify(s, v.at) == DecAccepted && DecPosition(s, v.at, itv) in dec)
  }

  /** Each new entry comes from an accepted spike the loop looked at, and
      every such spike is recorded. */
  lemma {:induction false} PrecisionSoundComplete(m: Mds, s: seq<Sample>, d: DiscState)
    requires ValidInterval(m.itv)
    requires |d.inc| <= EventCapacity && |d.dec| <= EventCapacity
    ensures var r := PrecisionEffect(m, s, d);
      r.Ok? ==>
        && IncOrigin(s, m.itv, r.value.inc, |d.inc|)
        && DecOrigin(s, m.itv, r.value.dec, |d.dec|)
        && RecordsAccepted(s, m.itv, r.value.inc, r.value.dec)
  {
    var vs := Visits(s, 0);
    var r := PrecisionEffect(m, s, d);
    PrecisionState(m, s, d);
    if r.Ok? {
      IncSound(s, m.itv, d.inc);
      DecSound(s, m.itv, d.dec);
      AcceptedRecorded(s, m.itv, d.inc, d.dec);
    }
  }

  lemma {:induction false} IncSound(s: seq<Sample>, itv: nat, prefix: seq<nat>)
    requires itv > 0
    ensures IncOrigin(s, itv, prefix + Sectors(Select(IncAccepted, Visits(s, 0)), itv), |prefix|)
  {
    var vs := Visits(s, 0);
    var xs := Select(IncAccepted, vs);
    var all := prefix + Sectors(xs, itv);
    VisitsClassified(s, 0);
    SelectFacts(IncAccepted, vs);
    SectorsAt(xs, itv);
    forall j | |prefix| <= j < |all|
      ensures all[j] % itv == 0 && 0 <= SampleOf(all[j], itv) < |s|
              && Visit(SampleOf(all[j], itv), IncAccepted) in vs && Classify(s, SampleOf(all[j], itv)) == IncAccepted
    {
      var x := xs[j - |prefix|];
      assert x in xs;
      assert all[j] == Position(x, itv);
      SampleOfPosition(x, itv);
    }
  }

  lemma {:induction false} DecSound(s: seq<Sample>, itv: nat, prefix: seq<nat>)
    requires itv > 0
    ensures DecOrigin(s, itv, prefix + DecSectors(s, Select(DecAccepted, Visits(s, 0)), itv), |prefix|)
  {
    var vs := Visits(s, 0);
    var xs := Select(DecAccepted, vs);
    var all := prefix + DecSectors(s, xs, itv);
    VisitsClassified(s, 0);
    SelectFacts(DecAccepted, vs);
    DecSectorsAt(s, xs, itv);
    forall j | |prefix| <= j < |all|
      ensures DatedDecrease(s, itv, all[j])
    {
      var x := xs[j - |prefix|];
      assert x in xs;
      DecEntryDated(s, itv, x);
    }
  }

  /** The sector of a looked-at accepted decrease dates it. */
  lemma {:induction false} DecEntryDated(s: seq<Sample>, itv: nat, x: nat)
    requires itv > 0 && x < |s| && Visit(x, DecAccepted) in Visits(s, 0) && Classify(s, x) == DecAccepted
    ensures DatedDecrease(s, itv, DecPosition(s, x, itv))
  {
    var t := DecShift(s, x);
    DecPositionIs(s, x, itv);
    SampleOfPosition(x + t, itv);
    assert SampleOf(DecPosition(s, x, itv), itv) - t == x;
    assert AcceptedDecrease(s, x, t);
  }

  lemma {:induction false} AcceptedRecorded(s: seq<Sample>, itv: nat, pinc: seq<nat>, pdec: seq<nat>)
    ensures RecordsAccepted(s, itv, pinc + Sectors(Select(IncAccepted, Visits(s, 0)), itv),
                            pdec + DecSectors(s, Select(DecAccepted, Visits(s, 0)), itv))
  {
    var vs := Visits(s, 0);
    var xi := Select(IncAccepted, vs);
    var xd := Select(DecAccepted, vs);
    VisitsClassified(s, 0);
    SelectFacts(IncAccepted, vs);
    SelectFacts(DecAccepted, vs);
    SectorsAt(xi, itv);
    DecSectorsAt(s, xd, itv);
    forall v | v in vs
      ensures (v.cls == IncAccepted ==> Classify(s, v.at) == IncAccepted && Position(v.at, itv) in pinc + Sectors(xi, itv))
              && (v.cls == DecAccepted ==> Classify(s, v.at) == DecAccepted && DecPosition(s, v.at, itv) in pdec + DecSectors(s, xd, itv))
    {
      if v.cls == IncAccepted {
        assert v.at in xi;
        var j :| 0 <= j < |xi| && xi[j] == v.at;
        assert (pinc + Sectors(xi, itv))[|pinc| + j] == Position(v.at, itv);
      }
      if v.cls == DecAccepted {
        assert v.at in xd;
        var j :| 0 <= j < |xd| && xd[j] == v.at;
        assert (pdec + DecSectors(s, xd, itv))[|pdec| + j] == DecPosition(s, v.at, itv);
      }
    }
  }
}
