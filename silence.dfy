/**
 * The per-window silence analysis shared by both pullers, parameterised by the
 * window length in seconds, the sample rate and the loudness threshold.
 * Everything is counted in samples: a time of t seconds is t * rate samples,
 * so the source's comparisons against `rate * .25` and `window * rate * 1.2`
 * become exact integer comparisons.
 */
module Silence {
  import opened Wrappers
  import opened Pcm

  function Min(a: int, b: int): int
  {
    if a <= b then a else b
  }

  /** The size guard: more than 1.2 windows' worth of samples is rejected. */
  predicate Oversized(n: nat, windowSec: nat, rate: nat)
  {
    5 * n > 6 * windowSec * rate
  }

  /**
   * The positions among the first n samples whose value exceeds the threshold,
   * in the order `forEach` visits them.
   */
  function LoudPositions(pcm: seq<int>, threshold: int, n: nat): (r: seq<int>)
    requires n <= |pcm|
    ensures |r| <= n
  {
    if n == 0 then []
    else LoudPositions(pcm, threshold, n - 1) + (if pcm[n - 1] > threshold then [n - 1] else [])
  }

  /**
   * LoudPositions holds exactly the loud positions below n, each once, in
   * increasing order.
   */
  lemma {:induction false} LoudPositionsExact(pcm: seq<int>, threshold: int, n: nat)
    requires n <= |pcm|
    ensures forall i :: 0 <= i < |LoudPositions(pcm, threshold, n)| ==>
      0 <= LoudPositions(pcm, threshold, n)[i] < n && pcm[LoudPositions(pcm, threshold, n)[i]] > threshold
    ensures forall i, j :: 0 <= i < j < |LoudPositions(pcm, threshold, n)| ==>
      LoudPositions(pcm, threshold, n)[i] < LoudPositions(pcm, threshold, n)[j]
    ensures forall k :: 0 <= k < n && pcm[k] > threshold ==> k in LoudPositions(pcm, threshold, n)
  {
    if n > 0 {
      LoudPositionsExact(pcm, threshold, n - 1);
    }
  }

  /** `loud_indexes`: the sentinel 0, every loud position, then the sentinel n - 1. */
  function LoudIndexes(pcm: seq<int>, threshold: int): (r: seq<int>)
    ensures |r| >= 2 && r[0] == 0 && r[|r| - 1] == |pcm| - 1
  {
    [0] + LoudPositions(pcm, threshold, |pcm|) + [|pcm| - 1]
  }

  /** A gap longer than a quarter of a second, `sample_dist > rate * .25`. */
  predicate IsSilentGap(gap: int, rate: nat)
  {
    4 * gap > rate
  }

  /** The sum of the qualifying gaps between consecutive entries of `loud`: only positive gaps qualify, so it is never negative. */
  function GapSum(loud: seq<int>, rate: nat): (r: int)
    ensures r >= 0
  {
    if |loud| < 2 then 0
    else
      var gap := loud[|loud| - 1] - loud[|loud| - 2];
      GapSum(loud[..|loud| - 1], rate) + (if IsSilentGap(gap, rate) then gap else 0)
  }

  /** `total_silence_seconds` before the clamp, in samples: the whole window if there were fewer than two indexes, plus the gaps. */
  function TotalSilence(loud: seq<int>, rate: nat, window: nat): (r: int)
    ensures r >= 0
  {
    (if |loud| < 2 then window else 0) + GapSum(loud, rate)
  }

  /**
   * The silent fraction of the window, or None exactly when the guard rejects
   * the samples. The silence is clamped to the window, so the fraction lies in [0, 1].
   */
  function SilentFraction(pcm: seq<int>, windowSec: nat, rate: nat, threshold: int): (r: Option<real>)
    requires windowSec > 0 && rate > 0
    ensures r.None? <==> Oversized(|pcm|, windowSec, rate)
    ensures r.Some? ==> 0.0 <= r.value <= 1.0
  {
    if Oversized(|pcm|, windowSec, rate) then None
    else
      var window := windowSec * rate;
      assert window > 0 by {
        assert windowSec * rate >= 1 * rate;
      }
      var clamped := Min(TotalSilence(LoudIndexes(pcm, threshold), rate, window), window);
      FractionInUnitInterval(clamped, window);
      Some(clamped as real / window as real)
  }

  lemma FractionInUnitInterval(part: int, whole: int)
    requires 0 <= part <= whole && whole > 0
    ensures 0.0 <= part as real / whole as real <= 1.0
  {
    assert part as real <= whole as real;
    assert whole as real / whole as real == 1.0;
  }

  /** Builds `loud_indexes` by pushing onto a list while walking the array. */
  method CollectLoudIndexes(pcm: array<int16>, threshold: int) returns (loud: seq<int>)
    ensures loud == LoudIndexes(pcm[..], threshold)
  {
    loud := [0];
    var idx := 0;
    while idx < pcm.Length
      invariant 0 <= idx <= pcm.Length
      invariant loud == [0] + LoudPositions(pcm[..], threshold, idx)
    {
      if pcm[idx] > threshold {
        loud := loud + [idx];
      }
      idx := idx + 1;
    }
    loud := loud + [pcm.Length - 1];
  }

  /** The classifier as the source runs it: guard, index list, gap loop, clamp, divide. */
  method ClassifySilence(pcm: array<int16>, windowSec: nat, rate: nat, threshold: int) returns (silent: Option<real>)
    requires windowSec > 0 && rate > 0
    ensures silent == SilentFraction(pcm[..], windowSec, rate, threshold)
  {
    if 5 * pcm.Length > 6 * windowSec * rate {
      return None;
    }
    var loud := CollectLoudIndexes(pcm, threshold);
    var window := windowSec * rate;
    var total := 0;
    if |loud| < 2 {
      total := window;
    }
    var i := 1;
    while i < |loud|
      invariant 1 <= i <= |loud|
      invariant total == (if |loud| < 2 then window else 0) + GapSum(loud[..i], rate)
    {
      var dist := loud[i] - loud[i - 1];
      assert loud[..i + 1][..i] == loud[..i];
      if 4 * dist > rate {
        total := total + dist;
      }
      i := i + 1;
    }
    assert loud[..|loud|] == loud;
    var clamped := if total <= window then total else window;
    silent := Some(clamped as real / window as real);
  }
}

module SilenceProperties {
  import opened Wrappers
  import opened Silence

  /**
   * The shape of `loud_indexes`: at least two entries, the sentinels 0 and
   * n - 1 at the ends, between them exactly the loud positions in increasing
   * order, and nondecreasing throughout when there is at least one sample.
   * Having two entries always, the "fewer than two" branch never fires.
   */
  lemma LoudIndexesShape(pcm: seq<int>, threshold: int)
    ensures var loud := LoudIndexes(pcm, threshold);
      && |loud| >= 2
      && loud[0] == 0
      && loud[|loud| - 1] == |pcm| - 1
      && (forall i :: 0 < i < |loud| - 1 ==> 0 <= loud[i] < |pcm| && pcm[loud[i]] > threshold)
      && (forall k :: 0 <= k < |pcm| && pcm[k] > threshold ==> k in loud[1..|loud| - 1])
      && (forall i, j :: 0 < i < j < |loud| - 1 ==> loud[i] < loud[j])
      && (|pcm| >= 1 ==> forall i :: 0 < i < |loud| ==> loud[i - 1] <= loud[i])
    ensures forall rate: nat, window: nat ::
      TotalSilence(LoudIndexes(pcm, threshold), rate, window) == GapSum(LoudIndexes(pcm, threshold), rate)
  {
    LoudIndexesInterior(pcm, threshold);
    if |pcm| >= 1 {
      LoudIndexesSorted(pcm, threshold);
    }
  }

  /** Between the sentinels, `loud_indexes` holds exactly the loud positions, in increasing order. */
  lemma LoudIndexesInterior(pcm: seq<int>, threshold: int)
    ensures var loud := LoudIndexes(pcm, threshold);
      && (forall i :: 0 < i < |loud| - 1 ==> 0 <= loud[i] < |pcm| && pcm[loud[i]] > threshold)
      && (forall k :: 0 <= k < |pcm| && pcm[k] > threshold ==> k in loud[1..|loud| - 1])
      && (forall i, j :: 0 < i < j < |loud| - 1 ==> loud[i] < loud[j])
  {
    var mid := LoudPositions(pcm, threshold, |pcm|);
    var loud := LoudIndexes(pcm, threshold);
    LoudPositionsExact(pcm, threshold, |pcm|);
    assert loud[1..|loud| - 1] == mid;
    assert forall i :: 0 < i < |loud| - 1 ==> loud[i] == mid[i - 1];
  }

  /** With at least one sample, the sentinels fit around the loud positions, so the whole list is nondecreasing. */
  lemma LoudIndexesSorted(pcm: seq<int>, threshold: int)
    requires |pcm| >= 1
    ensures var loud := LoudIndexes(pcm, threshold);
      forall i :: 0 < i < |loud| ==> loud[i - 1] <= loud[i]
  {
    var loud := LoudIndexes(pcm, threshold);
    LoudIndexesInterior(pcm, threshold);
    forall i | 0 < i < |loud|
      ensures loud[i - 1] <= loud[i]
    {
      if 1 < i < |loud| - 1 {
        assert loud[i - 1] < loud[i];
      }
    }
  }

  /**
   * For a nondecreasing index list the counted gaps are disjoint stretches
   * between the first and last index, so they add up to at most that span.
   */
  lemma {:induction false} GapSumTelescopes(loud: seq<int>, rate: nat)
    requires |loud| >= 1
    requires forall i :: 0 < i < |loud| ==> loud[i - 1] <= loud[i]
    ensures 0 <= GapSum(loud, rate) <= loud[|loud| - 1] - loud[0]
  {
    if |loud| >= 2 {
      GapSumTelescopes(loud[..|loud| - 1], rate);
    }
  }

  /** The silence counted before the clamp never exceeds the span of the window, n - 1 samples. */
  lemma SilenceWithinSpan(pcm: seq<int>, threshold: int, rate: nat, window: nat)
    ensures 0 <= TotalSilence(LoudIndexes(pcm, threshold), rate, window) <= if |pcm| == 0 then 0 else |pcm| - 1
  {
    var loud := LoudIndexes(pcm, threshold);
    LoudIndexesShape(pcm, threshold);
    if |pcm| >= 1 {
      GapSumTelescopes(loud, rate);
    } else {
      assert loud == [0, -1];
      assert loud[..1] == [0];
      assert GapSum(loud, rate) == GapSum([0], rate);
    }
  }

  /** An empty window (no decoded samples) has indexes [0, -1] and no silence at all. */
  lemma EmptyWindowHasNoSilence(windowSec: nat, rate: nat, threshold: int)
    requires windowSec > 0 && rate > 0
    ensures LoudIndexes([], threshold) == [0, -1]
    ensures SilentFraction([], windowSec, rate, threshold) == Some(0.0)
  {
    SilenceWithinSpan([], threshold, rate, windowSec * rate);
    assert windowSec * rate > 0 by {
      assert windowSec * rate >= 1 * rate;
    }
  }

  /** When every sample is loud, the loud positions are all of 0 .. k - 1. */
  lemma {:induction false} AllLoudPositions(pcm: seq<int>, threshold: int, k: nat)
    requires k <= |pcm|
    requires forall i :: 0 <= i < |pcm| ==> pcm[i] > threshold
    ensures LoudPositions(pcm, threshold, k) == seq(k, i => i)
  {
    if k > 0 {
      AllLoudPositions(pcm, threshold, k - 1);
      assert seq(k, i => i) == seq(k - 1, i => i) + [k - 1];
    }
  }

  /** When no sample is loud below k, there are no loud positions below k. */
  lemma {:induction false} QuietPrefixPositions(pcm: seq<int>, threshold: int, k: nat)
    requires k <= |pcm|
    requires forall i :: 0 <= i < k ==> pcm[i] <= threshold
    ensures LoudPositions(pcm, threshold, k) == []
  {
    if k > 0 {
      QuietPrefixPositions(pcm, threshold, k - 1);
    }
  }

  /** With steps of at most one sample and a rate of at least 4, no gap is longer than a quarter second. */
  lemma {:induction false} UnitStepsHaveNoSilentGap(loud: seq<int>, rate: nat)
    requires rate >= 4
    requires forall i :: 0 < i < |loud| ==> loud[i] - loud[i - 1] <= 1
    ensures GapSum(loud, rate) == 0
  {
    if |loud| >= 2 {
      UnitStepsHaveNoSilentGap(loud[..|loud| - 1], rate);
    }
  }

  /**
   * If every sample is loud (and there is at least one), the index list is
   * 0, 0, 1, ..., n - 1, n - 1: no gap qualifies and the window has no silence.
   */
  lemma AllLoudWindowHasNoSilence(pcm: seq<int>, windowSec: nat, rate: nat, threshold: int)
    requires windowSec > 0 && rate >= 4
    requires |pcm| >= 1
    requires forall i :: 0 <= i < |pcm| ==> pcm[i] > threshold
    requires !Oversized(|pcm|, windowSec, rate)
    ensures SilentFraction(pcm, windowSec, rate, threshold) == Some(0.0)
  {
    var loud := LoudIndexes(pcm, threshold);
    AllLoudIndexSteps(pcm, threshold);
    UnitStepsHaveNoSilentGap(loud, rate);
    assert TotalSilence(loud, rate, windowSec * rate) == 0;
    assert windowSec * rate > 0 by {
      assert windowSec * rate >= 1 * rate;
    }
    assert Min(0, windowSec * rate) == 0;
  }

  /** If every sample is loud the index list is 0, 0, 1, ..., n - 1, n - 1: it never steps by more than one. */
  lemma AllLoudIndexSteps(pcm: seq<int>, threshold: int)
    requires |pcm| >= 1
    requires forall i :: 0 <= i < |pcm| ==> pcm[i] > threshold
    ensures forall i :: 0 < i < |LoudIndexes(pcm, threshold)| ==>
      LoudIndexes(pcm, threshold)[i] - LoudIndexes(pcm, threshold)[i - 1] <= 1
  {
    var n := |pcm|;
    AllLoudPositions(pcm, threshold, n);
    var loud := LoudIndexes(pcm, threshold);
    assert loud == [0] + seq(n, i => i) + [n - 1];
    assert forall i :: 0 < i <= n ==> loud[i] == i - 1;
  }

  /**
   * If no sample is loud, the index list is just the sentinels [0, n - 1] and
   * the silence is that one gap when it exceeds a quarter second, otherwise nothing.
   */
  lemma AllQuietWindowSilence(pcm: seq<int>, threshold: int, rate: nat, window: nat)
    requires forall i :: 0 <= i < |pcm| ==> pcm[i] <= threshold
    ensures LoudIndexes(pcm, threshold) == [0, |pcm| - 1]
    ensures TotalSilence(LoudIndexes(pcm, threshold), rate, window) ==
      if IsSilentGap(|pcm| - 1, rate) then |pcm| - 1 else 0
  {
    QuietPrefixPositions(pcm, threshold, |pcm|);
    var loud := [0, |pcm| - 1];
    assert LoudIndexes(pcm, threshold) == loud;
    assert loud[..1] == [0];
    assert GapSum(loud, rate) == GapSum([0], rate) + (if IsSilentGap(|pcm| - 1, rate) then |pcm| - 1 else 0);
  }

  /** Positions below k when exactly one sample, at p, is loud. */
  lemma {:induction false} SingleLoudPositions(pcm: seq<int>, threshold: int, p: nat, k: nat)
    requires p < |pcm| && k <= |pcm|
    requires forall i :: 0 <= i < |pcm| ==> (pcm[i] > threshold <==> i == p)
    ensures LoudPositions(pcm, threshold, k) == if p < k then [p] else []
  {
    if k > 0 {
      SingleLoudPositions(pcm, threshold, p, k - 1);
    }
  }

  /**
   * With exactly one loud sample at p, the index list is [0, p, n - 1]: the
   * silence is the two gaps on either side of p, whichever of them qualifies.
   */
  lemma SingleLoudSampleSilence(pcm: seq<int>, threshold: int, p: nat, rate: nat, window: nat)
    requires p < |pcm|
    requires forall i :: 0 <= i < |pcm| ==> (pcm[i] > threshold <==> i == p)
    ensures LoudIndexes(pcm, threshold) == [0, p, |pcm| - 1]
    ensures TotalSilence(LoudIndexes(pcm, threshold), rate, window) ==
      (if IsSilentGap(p, rate) then p else 0) + (if IsSilentGap(|pcm| - 1 - p, rate) then |pcm| - 1 - p else 0)
  {
    SingleLoudPositions(pcm, threshold, p, |pcm|);
    var loud := [0, p, |pcm| - 1];
    assert LoudIndexes(pcm, threshold) == loud;
    assert loud[..2] == [0, p];
    assert [0, p][..1] == [0];
    assert GapSum([0, p], rate) == GapSum([0], rate) + (if IsSilentGap(p, rate) then p else 0);
    assert GapSum(loud, rate) == GapSum([0, p], rate) + (if IsSilentGap(|pcm| - 1 - p, rate) then |pcm| - 1 - p else 0);
  }

  /** `Math.min` on the accumulated seconds. */
  function RealMin(a: real, b: real): real
  {
    if a <= b then a else b
  }

  /**
   * The accumulation `total_silence_seconds += sample_dist / sample_rate` over
   * the gaps longer than `sample_rate * .25`, in exact reals.
   */
  function GapSeconds(loud: seq<int>, rate: nat): (r: real)
    requires rate > 0
    ensures r >= 0.0
  {
    if |loud| < 2 then 0.0
    else
      var dist := loud[|loud| - 1] - loud[|loud| - 2];
      GapSeconds(loud[..|loud| - 1], rate) + (if dist as real > rate as real * 0.25 then dist as real / rate as real else 0.0)
  }

  /**
   * The classifier written the way the source computes it, in seconds:
   * guard against `window * rate * 1.2`, seconds of silence (the whole window
   * when there are fewer than two indexes), `Math.min` with the window, and
   * division by the window length.
   */
  function SecondsSilentFraction(pcm: seq<int>, windowSec: nat, rate: nat, threshold: int): (r: Option<real>)
    requires windowSec > 0 && rate > 0
    ensures r.Some? ==> 0.0 <= r.value <= 1.0
  {
    if |pcm| as real > windowSec as real * rate as real * 1.2 then None
    else
      var loud := LoudIndexes(pcm, threshold);
      var total := (if |loud| < 2 then windowSec as real else 0.0) + GapSeconds(loud, rate);
      Some(RealMin(total, windowSec as real) / windowSec as real)
  }

  lemma SumOfQuotients(a: real, b: real, d: real)
    requires d > 0.0
    ensures a / d + b / d == (a + b) / d
  {
  }

  lemma {:induction false} GapSecondsInSamples(loud: seq<int>, rate: nat)
    requires rate > 0
    ensures GapSeconds(loud, rate) == GapSum(loud, rate) as real / rate as real
  {
    if |loud| >= 2 {
      var prefix := loud[..|loud| - 1];
      GapSecondsInSamples(prefix, rate);
      var dist := loud[|loud| - 1] - loud[|loud| - 2];
      var counted := dist as real > rate as real * 0.25;
      assert counted <==> IsSilentGap(dist, rate);
      var prev := GapSum(prefix, rate);
      var step := if IsSilentGap(dist, rate) then dist else 0;
      assert GapSum(loud, rate) == prev + step;
      assert GapSeconds(loud, rate) == prev as real / rate as real + step as real / rate as real;
      SumOfQuotients(prev as real, step as real, rate as real);
    }
  }

  /**
   * Counting in samples gives the same fraction as the source's computation in
   * seconds: the guard, the quarter-second gap test, the clamp and the division agree.
   */
  lemma SilentFractionMatchesSeconds(pcm: seq<int>, windowSec: nat, rate: nat, threshold: int)
    requires windowSec > 0 && rate > 0
    ensures SilentFraction(pcm, windowSec, rate, threshold) == SecondsSilentFraction(pcm, windowSec, rate, threshold)
  {
    WindowInSeconds(|pcm|, windowSec, rate);
    if !Oversized(|pcm|, windowSec, rate) {
      var loud := LoudIndexes(pcm, threshold);
      GapSecondsInSamples(loud, rate);
      var silence := GapSum(loud, rate);
      ClampInSeconds(silence, windowSec, rate);
      assert TotalSilence(loud, rate, windowSec * rate) == silence;
      assert SilentFraction(pcm, windowSec, rate, threshold) ==
        Some(Min(silence, windowSec * rate) as real / (windowSec * rate) as real);
      assert SecondsSilentFraction(pcm, windowSec, rate, threshold) ==
        Some(RealMin(silence as real / rate as real, windowSec as real) / windowSec as real);
    }
  }

  lemma WindowInSeconds(n: nat, windowSec: nat, rate: nat)
    requires windowSec > 0 && rate > 0
    ensures (windowSec * rate) as real == windowSec as real * rate as real
    ensures windowSec * rate > 0
    ensures Oversized(n, windowSec, rate) <==> n as real > windowSec as real * rate as real * 1.2
  {
  }

  lemma QuotientAtMost(a: real, b: real, d: real)
    requires d > 0.0
    ensures a / d <= b <==> a <= b * d
  {
    assert a / d * d == a;
    if a / d <= b {
      assert a / d * d <= b * d;
    } else {
      assert a / d * d > b * d;
    }
  }

  lemma QuotientOfQuotient(a: real, d: real, e: real)
    requires d > 0.0 && e > 0.0
    ensures a / d / e == a / (e * d)
  {
  }

  lemma RealClamp(silence: real, w: real, r: real)
    requires w > 0.0 && r > 0.0
    ensures (if silence <= w * r then silence else w * r) / (w * r) == RealMin(silence / r, w) / w
  {
    QuotientAtMost(silence, w, r);
    if silence <= w * r {
      QuotientOfQuotient(silence, r, w);
    } else {
      assert w * r / (w * r) == 1.0;
      assert w / w == 1.0;
    }
  }

  /** `Math.min(silence / rate, window) / window` equals the clamped sample count over the window's samples. */
  lemma ClampInSeconds(silence: int, windowSec: nat, rate: nat)
    requires windowSec > 0 && rate > 0
    ensures Min(silence, windowSec * rate) as real / (windowSec * rate) as real ==
      RealMin(silence as real / rate as real, windowSec as real) / windowSec as real
  {
    var w := windowSec as real;
    var r := rate as real;
    WindowInSeconds(0, windowSec, rate);
    assert Min(silence, windowSec * rate) as real == if silence as real <= w * r then silence as real else w * r;
    RealClamp(silence as real, w, r);
  }


}
