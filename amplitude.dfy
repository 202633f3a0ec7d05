/** The spike amplitudes (`calc_inc_amp`, `calc_dec_amp`): the variation
    summed over three samples around the first and the last recorded spike. */
module Amplitude {
  import opened Parse
  import opened SampleTable
  import opened DiscModel

  /** The rise at sector `p`: the variation of its sample and the two
      after it. */
  function IncAmplitude(s: seq<Sample>, itv: nat, p: nat): (r: int)
    requires itv > 0
    ensures SampleOf(p, itv) >= |s| ==> r == 0
  {
    var k := SampleOf(p, itv);
    VarAt(s, k) + VarAt(s, k + 1) + VarAt(s, k + 2)
  }

  /** The fall at sector `p`: the variation of its sample and the two
      before it (a decrease is dated to its last falling sample). */
  function DecAmplitude(s: seq<Sample>, itv: nat, p: nat): (r: int)
    requires itv > 0
    ensures SampleOf(p, itv) >= |s| + 2 ==> r == 0
  {
    var k := SampleOf(p, itv);
    VarAt(s, k) + VarAt(s, k - 1) + VarAt(s, k - 2)
  }

  /** `calc_inc_amp`, which the source calls only when an increase was
      recorded: the amplitudes of the first and the last increase. */
  function IncAmpEffect(m: Mds, s: seq<Sample>, d: DiscState): (r: DiscState)
    requires ValidInterval(m.itv) && d.inc != []
    ensures r.(incAmp := d.incAmp) == d
  {
    d.(incAmp := (IncAmplitude(s, m.itv, d.inc[0]), IncAmplitude(s, m.itv, d.inc[|d.inc| - 1])))
  }

  /** `calc_dec_amp`, called only when a decrease was recorded. */
  function DecAmpEffect(m: Mds, s: seq<Sample>, d: DiscState): (r: DiscState)
    requires ValidInterval(m.itv) && d.dec != []
    ensures r.(decAmp := d.decAmp) == d
  {
    d.(decAmp := (DecAmplitude(s, m.itv, d.dec[0]), DecAmplitude(s, m.itv, d.dec[|d.dec| - 1])))
  }

  /** On a regular table an increase amplitude is the growth of the timing
      across the spike: the timing two samples after it minus the timing
      just before it. */
  lemma {:induction false} IncAmplitudeTelescopes(s: seq<Sample>, itv: nat, i: nat)
    requires Derived(s) && Regular(s) && itv > 0
    requires 1 <= i && i + 2 < |s|
    ensures IncAmplitude(s, itv, Position(i, itv)) == s[i + 2].tim - s[i - 1].tim
  {
    SampleOfPosition(i, itv);
    ExactDifferences(s);
  }

  /** On a regular table a decrease amplitude is the drop of the timing
      across the spike: the timing at its sample minus the timing three
      samples before. */
  lemma {:induction false} DecAmplitudeTelescopes(s: seq<Sample>, itv: nat, i: nat)
    requires Derived(s) && Regular(s) && itv > 0
    requires 3 <= i < |s|
    ensures DecAmplitude(s, itv, Position(i, itv)) == s[i].tim - s[i - 3].tim
  {
    SampleOfPosition(i, itv);
    ExactDifferences(s);
  }
}
