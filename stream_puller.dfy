/**
 * The analysis of src/puller.ts: ten-second windows decoded at 16000 samples
 * per second, a loudness threshold of 3000, and the ACTIVE fraction of each
 * window published under a key derived from the stream's description.
 */
module StreamPuller {
  import opened Wrappers
  import opened Pcm
  import opened Silence
  import SilenceProperties
  import Naming
  import WindowBuffer

  const WindowLengthMs: nat := 10000
  const WindowSeconds: nat := WindowLengthMs / 1000
  const SampleRate: nat := 16000
  const LoudThreshold: int := 3000

  /** The call `writer.set(key, active_percent)`. */
  datatype Publication = Publication(key: string, activeFraction: real)

  /**
   * `1.0 - percent_silent`, or None when the size guard returns early: one
   * minus the source's own formula in seconds with this file's constants.
   */
  function ActiveFraction(pcm: seq<int>): (r: Option<real>)
    ensures var seconds := SilenceProperties.SecondsSilentFraction(pcm, WindowSeconds, SampleRate, LoudThreshold);
      && (r.Some? <==> seconds.Some?)
      && (r.Some? ==> r.value == 1.0 - seconds.value)
  {
    SilenceProperties.SilentFractionMatchesSeconds(pcm, WindowSeconds, SampleRate, LoudThreshold);
    match SilentFraction(pcm, WindowSeconds, SampleRate, LoudThreshold)
    case None => None
    case Some(silent) => Some(1.0 - silent)
  }

  /**
   * What one window's decoded output leads to: nothing, or a value in [0, 1]
   * published under the stream's metric key.
   */
  function WindowPublication(stdout: Bytes, description: string): (r: Option<Publication>)
    requires |stdout| % 2 == 0
    ensures r.Some? ==> r.value.key == Naming.MetricKey(description)
    ensures r.Some? ==> 0.0 <= r.value.activeFraction <= 1.0
  {
    match ActiveFraction(AbsSamples(stdout))
    case None => None
    case Some(active) => Some(Publication(Naming.MetricKey(description), active))
  }

  /** The decoder callback of `analyze_data`, given the decoder's standard output. */
  method AnalyzeData(stdout: Bytes, description: string) returns (published: Option<Publication>)
    requires |stdout| % 2 == 0
    ensures published == WindowPublication(stdout, description)
  {
    var pcm := DecodeSamples(stdout);
    var silent := ClassifySilence(pcm, WindowSeconds, SampleRate, LoudThreshold);
    if silent.None? {
      return None;
    }
    var activePercent := 1.0 - silent.value;
    published := Some(Publication(Naming.MetricKey(description), activePercent));
  }

  /**
   * `timeout_handler`: take the window out of the connection's buffer and
   * analyse what the decoder makes of it. The decoder is a parameter.
   */
  method OnTimer(buffer: WindowBuffer.ChunkBuffer, decode: Bytes -> Bytes, description: string)
    returns (published: Option<Publication>)
    requires buffer.Valid()
    requires forall window :: |decode(window)| % 2 == 0
    modifies buffer
    ensures buffer.Valid() && buffer.chunks == [] && buffer.Contents() == []
    ensures buffer.received == old(buffer.received)
    ensures buffer.delivered == old(buffer.delivered) + old(buffer.Contents())
    ensures published == WindowPublication(decode(old(buffer.Contents())), description)
  {
    var finalData := buffer.Snapshot();
    published := AnalyzeData(decode(finalData), description);
  }

  /** More than 192000 samples (1.2 windows) and nothing is published. */
  lemma OversizedWindowNotPublished(pcm: seq<int>)
    ensures ActiveFraction(pcm).None? <==> |pcm| > 192000
  {
  }

  /** The same guard seen from the decoder's output: more than 384000 bytes. */
  lemma OversizedOutputNotPublished(stdout: Bytes, description: string)
    requires |stdout| % 2 == 0
    ensures WindowPublication(stdout, description).None? <==> |stdout| > 384000
    ensures WindowPublication(stdout, description).Some? ==>
      WindowPublication(stdout, description).value.key == "scanner-audio-" + Naming.Slug(description) + ".json"
  {
    OversizedWindowNotPublished(AbsSamples(stdout));
  }

  /** A gap counts as silence when it is longer than a quarter second, 4000 samples. */
  lemma GapThreshold(gap: int)
    ensures IsSilentGap(gap, SampleRate) <==> gap > 4000
  {
  }

  /** The published value lies in [0, 1]. */
  lemma ActiveFractionBounds(pcm: seq<int>)
    ensures ActiveFraction(pcm).Some? ==> 0.0 <= ActiveFraction(pcm).value <= 1.0
  {
  }

  /** An empty window counts as fully active, not as silent. */
  lemma EmptyWindowFullyActive()
    ensures ActiveFraction([]) == Some(1.0)
  {
    SilenceProperties.EmptyWindowHasNoSilence(WindowSeconds, SampleRate, LoudThreshold);
  }

  /** A window in which every sample is loud is fully active. */
  lemma AllLoudWindowFullyActive(pcm: seq<int>)
    requires 1 <= |pcm| <= 192000
    requires forall i :: 0 <= i < |pcm| ==> pcm[i] > LoudThreshold
    ensures ActiveFraction(pcm) == Some(1.0)
  {
    SilenceProperties.AllLoudWindowHasNoSilence(pcm, WindowSeconds, SampleRate, LoudThreshold);
  }

  /**
   * A window with no loud sample: the single gap between the sentinels is
   * silence when it exceeds 4000 samples, clamped to ten seconds. Such a
   * window is therefore never reported as exactly 0 active unless it spans
   * at least 160001 samples.
   */
  lemma AllQuietWindowActive(pcm: seq<int>)
    requires |pcm| <= 192000
    requires forall i :: 0 <= i < |pcm| ==> pcm[i] <= LoudThreshold
    ensures |pcm| - 1 > 4000 ==>
      ActiveFraction(pcm) == Some(1.0 - Min(|pcm| - 1, 160000) as real / 160000.0)
    ensures |pcm| - 1 <= 4000 ==> ActiveFraction(pcm) == Some(1.0)
  {
    SilenceProperties.AllQuietWindowSilence(pcm, LoudThreshold, SampleRate, WindowSeconds * SampleRate);
  }

  /**
   * Ten seconds of zeros with one loud sample in the middle: both gaps to the
   * sentinels count, so the window is 159999/160000 silent and only
   * 1/160000 active.
   */
  lemma MidWindowSpikeScenario()
    ensures ActiveFraction(seq(160000, i => if i == 80000 then 4000 else 0)) == Some(1.0 / 160000.0)
  {
    var pcm := seq(160000, i => if i == 80000 then 4000 else 0);
    SilenceProperties.SingleLoudSampleSilence(pcm, LoudThreshold, 80000, SampleRate, WindowSeconds * SampleRate);
  }
}
