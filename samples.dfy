/** The sample decoder of parse.c (`read_dpm`): cumulative 4-byte
    timestamps, their first difference (timing) and second difference
    (variation), with the C integer widths written out. */
module SampleTable {
  import opened Bytes
  import opened Failures
  import opened Parse

  /** One DPM record: `raw` is an unsigned 4-byte timestamp, `tim` an
      `unsigned int`, `variation` (`var`) a `signed int`. */
  datatype Sample = Sample(raw: nat, tim: nat, variation: int)

  const HalfWord: int := 0x8000_0000

  /** The `signed int` that a 32-bit pattern holding `x mod 2^32` stands for. */
  function Int32(x: int): (r: int)
    ensures -HalfWord <= r < HalfWord
  {
    var u := x % Word;
    if u < HalfWord then u else u - Word
  }

  /** Where the sample array starts: 24 bytes past the table pointer for
      location 1, 28 bytes for location 2 (0 otherwise, as the source leaves
      its offset). */
  function SampleStart(m: Mds): nat
  {
    if m.loc == 1 then m.ptr + 24 else if m.loc == 2 then m.ptr + 28 else 0
  }

  /** The record `read_dpm` builds from the raw value `raw` when the record
      before it is `prev`: the difference of two `unsigned long`s stored in
      an `unsigned int`, and the difference of two `unsigned int`s stored in
      a `signed int`. */
  function Next(prev: Sample, raw: nat): (r: Sample)
    ensures r.raw == raw && 0 <= r.tim < Word && -HalfWord <= r.variation < HalfWord
    ensures prev.raw <= raw < prev.raw + Word ==> r.tim == raw - prev.raw
  {
    var tim := (raw - prev.raw) % Word;
    Sample(raw, tim, Int32(tim - prev.tim))
  }

  /** The timing and variation of `s` are derived from its raw values as
      `read_dpm` derives them, including the 32-bit wrap-around. */
  predicate Derived(s: seq<Sample>)
  {
    && (|s| > 0 ==> s[0].tim == s[0].raw && s[0].variation == 0)
    && forall i :: 0 < i < |s| ==> s[i] == Next(s[i - 1], s[i].raw)
  }

  /** The raw values of `s` are the consecutive 4-byte fields from `start`. */
  predicate RawsAt(f: seq<byte>, start: nat, s: seq<Sample>)
  {
    forall i :: 0 <= i < |s| ==> start + 4 * i + 4 <= |f| && s[i].raw == ReadLe(f, start + 4 * i, 4)
  }

  /** `read_dpm`: fills the `smp` records of `dpm` in place, each record's
      timing and variation computed from the record before it. A table that
      does not fit in the file is rejected before anything is written. */
  method ReadDpm(f: seq<byte>, m: Mds, dpm: array<Sample>) returns (r: Outcome)
    requires dpm.Length == m.smp
    modifies dpm
    ensures r == (if SampleStart(m) + 4 * m.smp <= |f| then Pass else Fail(Truncated))
    ensures r.Fail? ==> dpm[..] == old(dpm[..])
    ensures r.Pass? ==> RawsAt(f, SampleStart(m), dpm[..]) && Derived(dpm[..])
  {
    var start := SampleStart(m);
    if start + 4 * m.smp > |f| {
      return Fail(Truncated);
    }
    r := Pass;
    if m.smp == 0 {
      return;
    }
    var raw := ReadLe(f, start, 4);
    dpm[0] := Sample(raw, raw % Word, 0);
    ghost var table := [dpm[0]];
    var offset := start + 4;
    var i := 1;
    while i < m.smp
      invariant 1 <= i <= m.smp
      invariant offset == start + 4 * i
      invariant dpm[..i] == table
      invariant RawsAt(f, start, table) && Derived(table)
    {
      assert offset + 4 <= start + 4 * m.smp;
      raw := ReadLe(f, offset, 4);
      dpm[i] := Next(dpm[i - 1], raw);
      RawsAppend(f, start, table, dpm[i]);
      DerivedAppend(table, dpm[i]);
      table := table + [dpm[i]];
      assert dpm[..i + 1] == table;
      offset := offset + 4;
      i := i + 1;
    }
    assert dpm[..] == dpm[..i];
  }

  lemma RawsAppend(f: seq<byte>, start: nat, t: seq<Sample>, x: Sample)
    requires RawsAt(f, start, t)
    requires start + 4 * |t| + 4 <= |f| && x.raw == ReadLe(f, start + 4 * |t|, 4)
    ensures RawsAt(f, start, t + [x])
  {
    assert forall i :: 0 <= i < |t| ==> (t + [x])[i] == t[i];
  }

  lemma DerivedAppend(t: seq<Sample>, x: Sample)
    requires Derived(t) && t != [] && x == Next(t[|t| - 1], x.raw)
    ensures Derived(t + [x])
  {
    assert forall i :: 0 <= i < |t| ==> (t + [x])[i] == t[i];
  }

  /** The raw values read back are the timestamps that were stored. */
  lemma {:induction false} RawsRoundTrip(f: seq<byte>, start: nat, s: seq<Sample>, stamps: seq<nat>)
    requires |stamps| == |s| && RawsAt(f, start, s)
    requires forall i :: 0 <= i < |stamps| ==>
               stamps[i] < Word && f[start + 4 * i..start + 4 * i + 4] == EncodeLe(stamps[i], 4)
    ensures forall i :: 0 <= i < |s| ==> s[i].raw == stamps[i]
  {
    forall i | 0 <= i < |s|
      ensures s[i].raw == stamps[i]
    {
      FieldReads(f, start + 4 * i, 4, stamps[i]);
    }
  }

  /** A table whose timestamps never decrease, whose timing steps fit a
      `signed int` and whose raw values are 4-byte values. */
  predicate Regular(s: seq<Sample>)
  {
    && (forall i :: 0 <= i < |s| ==> s[i].raw < Word)
    && (forall i :: 0 < i < |s| ==> s[i - 1].raw <= s[i].raw)
    && (forall i :: 0 < i < |s| ==> -HalfWord <= s[i].tim - s[i - 1].tim < HalfWord)
  }

  /** On a regular table no wrap-around happens: timing is exactly the first
      difference of the raw values and variation exactly the second. */
  lemma {:induction false} ExactDifferences(s: seq<Sample>)
    requires Derived(s) && Regular(s)
    ensures |s| > 0 ==> s[0].tim == s[0].raw && s[0].variation == 0
    ensures forall i :: 0 < i < |s| ==> s[i].tim == s[i].raw - s[i - 1].raw
    ensures forall i :: 0 < i < |s| ==> s[i].variation == s[i].tim - s[i - 1].tim
  {
    forall i | 0 < i < |s|
      ensures s[i].tim == s[i].raw - s[i - 1].raw && s[i].variation == s[i].tim - s[i - 1].tim
    {
      var d := s[i].tim - s[i - 1].tim;
      assert 0 <= s[i].raw - s[i - 1].raw < Word;
      assert (if d % Word < HalfWord then d % Word else d % Word - Word) == d by {
        if d < 0 {
          assert d % Word == d + Word;
        } else {
          assert d % Word == d;
        }
      }
    }
  }

  function SumTim(s: seq<Sample>, n: nat): int
    requires n <= |s|
  {
    if n == 0 then 0 else SumTim(s, n - 1) + s[n - 1].tim
  }

  function SumVar(s: seq<Sample>, n: nat): int
    requires n <= |s|
  {
    if n == 0 then 0 else SumVar(s, n - 1) + s[n - 1].variation
  }

  /** Timing inverts the running sum: on a regular table each raw value is
      the sum of the timings up to it, and each timing the sum of the
      variations up to it plus the first timing. */
  lemma {:induction false} RunningSums(s: seq<Sample>, i: nat)
    requires Derived(s) && Regular(s) && i < |s|
    ensures s[i].raw == SumTim(s, i + 1)
    ensures s[i].tim == s[0].tim + SumVar(s, i + 1)
  {
    ExactDifferences(s);
    if i > 0 {
      RunningSums(s, i - 1);
    }
  }
}
