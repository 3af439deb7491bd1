/**
 * The analysis of puller.ts, the single-stream prototype: one-minute windows
 * at an assumed 22050 samples per second, a loudness threshold of 3000, and
 * the SILENT fraction of each window as its result.
 */
module PrototypePuller {
  import opened Wrappers
  import opened Pcm
  import opened Silence
  import SilenceProperties
  import WindowBuffer

  const WindowLengthMs: nat := 60000
  const WindowSeconds: nat := WindowLengthMs / 1000
  const SampleRate: nat := 22050
  const LoudThreshold: int := 3000

  /**
   * `percent_silent`, or None when the size guard returns early: the source's
   * own formula in seconds with this file's constants.
   */
  function PercentSilent(pcm: seq<int>): (r: Option<real>)
    ensures r == SilenceProperties.SecondsSilentFraction(pcm, WindowSeconds, SampleRate, LoudThreshold)
  {
    SilenceProperties.SilentFractionMatchesSeconds(pcm, WindowSeconds, SampleRate, LoudThreshold);
    SilentFraction(pcm, WindowSeconds, SampleRate, LoudThreshold)
  }

  /** The decoder callback of `analyze_data`, given the decoder's standard output. */
  method AnalyzeData(stdout: Bytes) returns (percentSilent: Option<real>)
    requires |stdout| % 2 == 0
    ensures percentSilent == PercentSilent(AbsSamples(stdout))
  {
    var pcm := DecodeSamples(stdout);
    percentSilent := ClassifySilence(pcm, WindowSeconds, SampleRate, LoudThreshold);
  }

  /**
   * `timeout_handler` over the module-level `interval_data`: take the window
   * out of the buffer and analyse what the decoder makes of it.
   */
  method OnTimer(buffer: WindowBuffer.ChunkBuffer, decode: Bytes -> Bytes) returns (percentSilent: Option<real>)
    requires buffer.Valid()
    requires forall window :: |decode(window)| % 2 == 0
    modifies buffer
    ensures buffer.Valid() && buffer.chunks == [] && buffer.Contents() == []
    ensures buffer.received == old(buffer.received)
    ensures buffer.delivered == old(buffer.delivered) + old(buffer.Contents())
    ensures percentSilent == PercentSilent(AbsSamples(decode(old(buffer.Contents()))))
  {
    var finalData := buffer.Snapshot();
    percentSilent := AnalyzeData(decode(finalData));
  }

  /** More than 1587600 samples (1.2 minutes' worth) and the callback returns with no result. */
  lemma OversizedWindowDropped(pcm: seq<int>)
    ensures PercentSilent(pcm).None? <==> |pcm| > 1587600
  {
  }

  /** A gap counts as silence when it exceeds 5512.5 samples, that is, from 5513 samples on. */
  lemma GapThreshold(gap: int)
    ensures IsSilentGap(gap, SampleRate) <==> gap >= 5513
  {
  }

  /** The silent fraction lies in [0, 1]. */
  lemma PercentSilentBounds(pcm: seq<int>)
    ensures PercentSilent(pcm).Some? ==> 0.0 <= PercentSilent(pcm).value <= 1.0
  {
  }

  /** An empty window, or one where every sample is loud, is reported as 0 silent. */
  lemma AllLoudOrEmptyWindowNotSilent(pcm: seq<int>)
    requires |pcm| <= 1587600
    requires forall i :: 0 <= i < |pcm| ==> pcm[i] > LoudThreshold
    ensures PercentSilent(pcm) == Some(0.0)
  {
    if |pcm| == 0 {
      SilenceProperties.EmptyWindowHasNoSilence(WindowSeconds, SampleRate, LoudThreshold);
    } else {
      SilenceProperties.AllLoudWindowHasNoSilence(pcm, WindowSeconds, SampleRate, LoudThreshold);
    }
  }
}
