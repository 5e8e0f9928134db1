/** The best-of-N sample selector of sysoff.c (`sysoff_estimate`).

    A device answers an offset query with an array of clock times holding N
    bracketed samples: a system-clock reading, a device-clock reading and a
    second system-clock reading. The Extended query lays the samples out as
    independent triplets (stride 3); the Basic query lets neighbouring
    samples share a boundary reading (stride 2). The selector keeps the
    sample with the narrowest bracket, the first one on a tie. */
module Selector {
  import opened TimeCodec

  /** One bracketed sample, in nanoseconds. */
  datatype Sample = Sample(before: int, hw: int, after: int)

  /** What a measurement yields: the offset, the system-clock instant it is
      valid for, and the uncertainty of the sample. */
  datatype Reading = Reading(offset: int, ts: int, delay: int)

  /** Distance in the array between the first readings of two consecutive samples. */
  function Stride(extended: bool): nat {
    if extended then 3 else 2
  }

  /** Number of samples `sysoff_estimate` examines: sample 0 is read before
      the loop, so at least one. */
  function Examined(nSamples: int): nat {
    if nSamples < 1 then 1 else nSamples
  }

  /** Number of array entries `sysoff_estimate` reads. */
  function Span(extended: bool, nSamples: int): (len: nat)
    ensures extended ==> len == 3 * Examined(nSamples)
    ensures !extended ==> len == 2 * Examined(nSamples) + 1
  {
    Stride(extended) * (Examined(nSamples) - 1) + 3
  }

  /** Sample `i` of the array in the given layout. */
  function SampleAt(pct: seq<ClockTime>, extended: bool, i: nat): Sample
    requires Stride(extended) * i + 2 < |pct|
  {
    var k := Stride(extended) * i;
    Sample(ToNanoseconds(pct[k]), ToNanoseconds(pct[k + 1]), ToNanoseconds(pct[k + 2]))
  }

  /** The samples `sysoff_estimate` examines, in index order. */
  function Samples(pct: seq<ClockTime>, extended: bool, nSamples: int): (s: seq<Sample>)
    requires Span(extended, nSamples) <= |pct|
    ensures |s| == Examined(nSamples)
  {
    seq(Examined(nSamples), i requires 0 <= i < Examined(nSamples) => SampleAt(pct, extended, i))
  }

  /** Width of the bracket: the uncertainty of where the device reading fell. */
  function Width(x: Sample): int {
    x.after - x.before
  }

  /** `(t2 + t1) / 2` with C's truncating division. */
  function Midpoint(x: Sample): int {
    DivTrunc(x.after + x.before, 2)
  }

  /** Offset of the system clock at the midpoint against the device reading. */
  function OffsetOf(x: Sample): int {
    Midpoint(x) - x.hw
  }

  function ReadingOf(x: Sample): Reading {
    Reading(OffsetOf(x), Midpoint(x), Width(x))
  }

  /** `k` is the lowest index whose bracket is as narrow as any. */
  predicate IsFirstShortest(s: seq<Sample>, k: int) {
    0 <= k < |s| &&
    (forall j :: 0 <= j < |s| ==> Width(s[k]) <= Width(s[j])) &&
    (forall j :: 0 <= j < k ==> Width(s[k]) < Width(s[j]))
  }

  /** The index the selector settles on. */
  function FirstShortest(s: seq<Sample>): (k: nat)
    requires |s| > 0
    ensures IsFirstShortest(s, k)
  {
    if |s| == 1 then 0
    else
      var k := FirstShortest(s[..|s| - 1]);
      assert forall j :: 0 <= j < |s| - 1 ==> s[..|s| - 1][j] == s[j];
      if Width(s[|s| - 1]) < Width(s[k]) then |s| - 1 else k
  }

  /** What `sysoff_estimate` returns for the samples: a reading with the
      narrowest delay, taken from the first sample that attains it. */
  function Selection(s: seq<Sample>): (r: Reading)
    requires |s| > 0
    ensures forall j :: 0 <= j < |s| ==> r.delay <= Width(s[j])
    ensures exists k :: 0 <= k < |s| && r == ReadingOf(s[k]) &&
                        forall j :: 0 <= j < k ==> r.delay < Width(s[j])
  {
    var k := FirstShortest(s);
    ReadingOf(s[k])
  }

  /** `sysoff_estimate`: scan the samples in index order and keep the one
      with the narrowest bracket; a later sample replaces the kept one only
      when its bracket is strictly narrower. */
  method Estimate(pct: seq<ClockTime>, extended: bool, nSamples: int) returns (offset: int, ts: int, delay: int)
    requires Span(extended, nSamples) <= |pct|
    ensures Reading(offset, ts, delay) == Selection(Samples(pct, extended, nSamples))
  {
    ghost var s := Samples(pct, extended, nSamples);
    var stride := if extended then 3 else 2;
    var i := 0;
    var t1 := ToNanoseconds(pct[stride * i]);
    var tp := ToNanoseconds(pct[stride * i + 1]);
    var t2 := ToNanoseconds(pct[stride * i + 2]);
    var shortestInterval := t2 - t1;
    var bestTimestamp := DivTrunc(t2 + t1, 2);
    var bestOffset := bestTimestamp - tp;
    ghost var best := 0;

    i := 1;
    while i < nSamples
      invariant 1 <= i <= Examined(nSamples)
      invariant 0 <= best < i
      invariant Reading(bestOffset, bestTimestamp, shortestInterval) == ReadingOf(s[best])
      invariant forall j :: 0 <= j < i ==> Width(s[best]) <= Width(s[j])
      invariant forall j :: 0 <= j < best ==> Width(s[best]) < Width(s[j])
    {
      t1 := ToNanoseconds(pct[stride * i]);
      tp := ToNanoseconds(pct[stride * i + 1]);
      t2 := ToNanoseconds(pct[stride * i + 2]);
      var interval := t2 - t1;
      var timestamp := DivTrunc(t2 + t1, 2);
      var offsetI := timestamp - tp;
      assert s[i] == Sample(t1, tp, t2);
      if interval < shortestInterval {
        shortestInterval := interval;
        bestTimestamp := timestamp;
        bestOffset := offsetI;
        best := i;
      }
      i := i + 1;
    }
    FirstShortestUnique(s, best);
    offset, ts, delay := bestOffset, bestTimestamp, shortestInterval;
  }

  /** The tie-break makes the choice deterministic: exactly one index is the
      first shortest, and it is the one the selector picks. */
  lemma FirstShortestUnique(s: seq<Sample>, k: int)
    requires IsFirstShortest(s, k)
    ensures k == FirstShortest(s)
  {
    var m := FirstShortest(s);
    assert Width(s[k]) <= Width(s[m]) && Width(s[m]) <= Width(s[k]);
  }

  /** Appending a sample whose bracket is not narrower than the selected one
      leaves the result unchanged. */
  lemma AppendNotNarrower(s: seq<Sample>, x: Sample)
    requires |s| > 0
    requires Width(x) >= Selection(s).delay
    ensures Selection(s + [x]) == Selection(s)
  {
    var t := s + [x];
    assert t[..|t| - 1] == s;
  }

  /** Appending a strictly narrower sample makes it the selected one. */
  lemma AppendNarrower(s: seq<Sample>, x: Sample)
    requires |s| > 0
    requires Width(x) < Selection(s).delay
    ensures Selection(s + [x]) == ReadingOf(x)
  {
    var t := s + [x];
    assert t[..|t| - 1] == s;
  }

  /** Inserting a strictly wider sample anywhere leaves the result unchanged. */
  lemma InsertWider(a: seq<Sample>, x: Sample, b: seq<Sample>)
    requires |a + b| > 0
    requires Width(x) > Selection(a + b).delay
    ensures Selection(a + [x] + b) == Selection(a + b)
  {
    var s, t := a + b, a + [x] + b;
    var k := FirstShortest(s);
    var k' := if k < |a| then k else k + 1;
    assert t[k'] == s[k];
    forall j | 0 <= j < |t|
      ensures Width(t[k']) <= Width(t[j])
      ensures j < k' ==> Width(t[k']) < Width(t[j])
    {
      if j < |a| {
        assert t[j] == s[j];
      } else if j > |a| {
        assert t[j] == s[j - 1];
      }
    }
    FirstShortestUnique(t, k');
  }

  /** Midpoints stay inside the bracket, whichever way round it is. */
  lemma MidpointWithinBracket(x: Sample)
    ensures x.before <= x.after ==> x.before <= Midpoint(x) <= x.after
    ensures x.after <= x.before ==> x.after <= Midpoint(x) <= x.before
  {
  }

  /** The midpoint truncates toward zero, not toward the earlier reading:
      for a bracket before the epoch it rounds up. */
  lemma MidpointTruncatesTowardZero()
    ensures Midpoint(Sample(-3, 0, 0)) == -1
    ensures Midpoint(Sample(1, 0, 4)) == 2
  {
  }

  /** In the Basic (overlapping) layout, the closing reading of each sample is
      the opening reading of the next. */
  lemma SharedBoundary(pct: seq<ClockTime>, nSamples: int, i: nat)
    requires Span(false, nSamples) <= |pct|
    requires i + 1 < Examined(nSamples)
    ensures Samples(pct, false, nSamples)[i].after == Samples(pct, false, nSamples)[i + 1].before
  {
  }

  /** The selector reads nothing beyond the first `Span` entries: 3N for the
      Extended layout, 2N+1 for the Basic layout. */
  lemma SamplesWithinSpan(pct: seq<ClockTime>, pct': seq<ClockTime>, extended: bool, nSamples: int)
    requires Span(extended, nSamples) <= |pct| && Span(extended, nSamples) <= |pct'|
    requires pct[..Span(extended, nSamples)] == pct'[..Span(extended, nSamples)]
    ensures Samples(pct, extended, nSamples) == Samples(pct', extended, nSamples)
  {
    var n := Span(extended, nSamples);
    forall i | 0 <= i < Examined(nSamples)
      ensures SampleAt(pct, extended, i) == SampleAt(pct', extended, i)
    {
      var k := Stride(extended) * i;
      assert pct[k] == pct[..n][k] && pct[k + 1] == pct[..n][k + 1] && pct[k + 2] == pct[..n][k + 2];
      assert pct'[k] == pct'[..n][k] && pct'[k + 1] == pct'[..n][k + 1] && pct'[k + 2] == pct'[..n][k + 2];
    }
  }

  /** Two independent samples with brackets 200 and 100 ns: the second wins. */
  lemma ExtendedExample()
    ensures Selection(Samples([ClockTime(0, 100), ClockTime(0, 150), ClockTime(0, 300),
                               ClockTime(0, 1000), ClockTime(0, 1040), ClockTime(0, 1100)], true, 2))
            == Reading(10, 1050, 100)
  {
    var s := Samples([ClockTime(0, 100), ClockTime(0, 150), ClockTime(0, 300),
                      ClockTime(0, 1000), ClockTime(0, 1040), ClockTime(0, 1100)], true, 2);
    assert s[0] == Sample(100, 150, 300) && s[1] == Sample(1000, 1040, 1100);
    assert s == [s[0], s[1]];
    AppendNarrower([s[0]], s[1]);
  }

  /** Overlapping samples (0, 10, 20) and (20, 35, 50) share the reading 20
      and are still two candidates; the narrower first one wins. */
  lemma BasicExample()
    ensures Samples([ClockTime(0, 0), ClockTime(0, 10), ClockTime(0, 20), ClockTime(0, 35), ClockTime(0, 50)], false, 2)
            == [Sample(0, 10, 20), Sample(20, 35, 50)]
    ensures Selection(Samples([ClockTime(0, 0), ClockTime(0, 10), ClockTime(0, 20),
                               ClockTime(0, 35), ClockTime(0, 50)], false, 2))
            == Reading(0, 10, 20)
  {
    var s := Samples([ClockTime(0, 0), ClockTime(0, 10), ClockTime(0, 20), ClockTime(0, 35), ClockTime(0, 50)], false, 2);
    assert s[0] == Sample(0, 10, 20) && s[1] == Sample(20, 35, 50);
    assert s == [s[0], s[1]];
    AppendNotNarrower([s[0]], s[1]);
  }
}
