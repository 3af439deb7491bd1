# Radio scanner silence analysis, modelled in Dafny

The repository samples live radio-scanner audio streams. For each stream it
collects the bytes received during a fixed window. When a timer fires, the
window is decoded to signed 16-bit PCM. The analysis then measures how much
of the window is silence, using gaps between "loud" samples, and reports a
fraction.

Two files hold the same analysis with different constants:

- `src/puller.ts` is the multi-stream puller. It uses 10-second windows at
  16000 samples per second and a loudness threshold of 3000. It publishes the
  **active** fraction, `1 - silent`, under the key
  `scanner-audio-<slug>.json`.
- `puller.ts` is a single-stream prototype. It uses 60-second windows at
  22050 samples per second and a threshold of 3000. It computes the
  **silent** fraction.

The model covers:

- turning the decoder's output into an `Int16Array` of magnitudes (`pcm.dfy`);
- the silence classifier, written once with the window length, sample rate
  and threshold as parameters (`silence.dfy`);
- the per-connection `interval_data` chunk buffer (`window_buffer.dfy`);
- the metric-name slug and the title cleanup (`naming.dfy`);
- how each source file instantiates and uses these pieces
  (`stream_puller.dfy` for `src/puller.ts`, `prototype_puller.dfy` for
  `puller.ts`).

The PCM conversion, the index-list construction, the gap accumulation and the
buffer are imperative in the source. They are methods with loops, or a class
whose methods update its fields. Each is proved against a pure
function, and the properties are lemmas about those functions.

## Counting in samples instead of seconds

The source works in floating-point seconds. The model counts samples, which
gives exact integers:

- The size guard `n > window * rate * 1.2` becomes `5 * n > 6 * window * rate`.
  For both files' constants the floating-point product is exactly 192000 or
  1587600, so the comparison is exact.
- A gap qualifies when `gap > rate * .25`. In the model that is
  `4 * gap > rate`.
- The total silence is clamped with `min(silence, window * rate)` and divided
  by `window * rate` as a `real`.

`SilenceProperties.SilentFractionMatchesSeconds` proves that this equals the
source's own formula evaluated in exact reals: `total += dist / rate`, then
`Math.min(total, window)`, then `/ window`.

## Behaviour modelled as written

- **The -32768 sample.** `Math.abs(-32768)` is 32768. Storing that into an
  `Int16Array` wraps it to -32768, so this sample is never loud
  (`Pcm.MinSampleNeverLoud`).
- **The dead branch.** The loud-index list always starts with the sentinel
  `0` and ends with the sentinel `n - 1`, so it has at least two entries. The
  "whole window silent" branch (`loud_indexes.length < 2`) therefore never
  runs. The model keeps the branch and proves it unreachable.
- **Empty input.** Zero samples give the index list `[0, -1]`. Its one gap is
  `-1`, which does not count, so the silence is 0. A window that decodes to
  zero samples is reported as fully active (`src/puller.ts`) or 0 silent
  (`puller.ts`).

One might expect an empty or an all-quiet window to count as fully silent.
The code does otherwise:

- A window that decodes to zero samples has active fraction 1
  (`StreamPuller.EmptyWindowFullyActive`).
- An all-quiet window of `n` samples has the index list `[0, n - 1]`. Its
  silence is that single gap `n - 1` only when the gap qualifies, that is
  when `n - 1 > 4000` in `src/puller.ts` (line 82) or `n - 1 >= 5513` in
  `puller.ts` (line 91). The silence is then clamped to the window. A
  shorter all-quiet window has no silence at all and is fully active.
- So an all-quiet window of exactly ten seconds at 16000 samples per second
  has active fraction 1/160000, not 0 (`StreamPuller.AllQuietWindowActive`).

## Model

| member | source | states |
|---|---|---|
| `Pcm.ReadInt16LE` | src/puller.ts:55 | `readInt16LE` agrees with the unsigned little-endian value modulo 2^16 and is negative exactly when the high byte's sign bit is set |
| `Pcm.ReadAfterWrite` | src/puller.ts:55 | reading back the two little-endian bytes of a 16-bit value gives the value |
| `Pcm.WriteAfterRead` | src/puller.ts:55 | `readInt16LE` loses nothing: re-encoding the value it reads gives the same two bytes |
| `Pcm.ToInt16` | src/puller.ts:53-55 | storing into an `Int16Array` keeps a value that is already in range and otherwise wraps it modulo 2^16 |
| `Pcm.StoredAbsValue` | src/puller.ts:55 | the stored value is the sample's magnitude, except that -32768 stays -32768. That happens exactly for the bytes 0x00 0x80. Every stored value is in [0, 32767] or is -32768 |
| `Pcm.StoredAbs` | src/puller.ts:55 | the value stored for one byte pair has the same magnitude as the sample read from it |
| `Pcm.AbsSamples` | src/puller.ts:53-56 | the conversion gives one value per byte pair, each with the magnitude of the sample at that pair |
| `Pcm.AbsSamplesRange` | puller.ts:56-59 | the conversion gives `byteLen / 2` values, each in [0, 32767] or -32768. Value k is -32768 exactly when bytes 2k and 2k+1 are 0x00 0x80 |
| `Pcm.MinSampleNeverLoud` | src/puller.ts:53-65 | the byte pair 0x00 0x80 converts to -32768, which exceeds no nonnegative loudness threshold, so that sample is never loud |
| `Pcm.DecodeSamples` | src/puller.ts:53-56 | the loop fills a fresh array whose contents are exactly the specified conversion of the byte pairs, in order |
| `Silence.LoudPositions` | src/puller.ts:63-67 | among the first n samples, `forEach` pushes at most n positions |
| `Silence.LoudPositionsExact` | src/puller.ts:63-67 | the positions `forEach` pushes are exactly the samples above the threshold, each once, in increasing order |
| `Silence.LoudIndexes` | src/puller.ts:62-68 | `loud_indexes` has at least two entries, starts with 0 and ends with n - 1 |
| `Silence.GapSum` | src/puller.ts:80-87 | only positive gaps qualify, so the accumulated silence is never negative |
| `Silence.TotalSilence` | src/puller.ts:75-87 | `total_silence_seconds` before the clamp, in samples, is never negative |
| `Silence.SilentFraction` | src/puller.ts:58-91 | no fraction exactly when `5n > 6 * window * rate`. Otherwise the silence is clamped to the window, so the fraction lies in [0, 1] |
| `Silence.CollectLoudIndexes` | src/puller.ts:62-68 | the list built by pushes is sentinel 0, then the loud positions, then sentinel n - 1 |
| `Silence.ClassifySilence` | src/puller.ts:58-91 | the guard, index list, gap loop (including the `< 2` branch), clamp and division give exactly the specified silent fraction, or None when the guard rejects the window |
| `SilenceProperties.LoudIndexesShape` | src/puller.ts:62-79 | the index list has length at least 2 and starts with 0 and ends with n - 1. Between the sentinels it holds every loud position, only loud positions, in strictly increasing order. It is nondecreasing when n >= 1. Hence the `< 2` branch adds nothing |
| `SilenceProperties.GapSumTelescopes` | src/puller.ts:80-87 | for a nondecreasing index list, the qualifying gaps add up to at most last index minus first index |
| `SilenceProperties.SilenceWithinSpan` | src/puller.ts:62-87 | silence before the clamp is between 0 and n - 1 samples, and is 0 for empty input |
| `SilenceProperties.EmptyWindowHasNoSilence` | src/puller.ts:62-91 | empty input gives indexes `[0, -1]` and silent fraction 0 |
| `SilenceProperties.AllLoudWindowHasNoSilence` | src/puller.ts:62-91 | if every sample is loud, every gap is at most one sample, so with a rate of at least 4 the silent fraction is 0 |
| `SilenceProperties.AllQuietWindowSilence` | src/puller.ts:62-87 | with no loud sample the list is `[0, n - 1]`. The silence is `n - 1` when that gap qualifies, and 0 otherwise |
| `SilenceProperties.SingleLoudSampleSilence` | src/puller.ts:62-87 | with exactly one loud sample at p the list is `[0, p, n - 1]`. The silence is the qualifying ones among the gaps p and n - 1 - p |
| `SilenceProperties.GapSeconds` | src/puller.ts:75-87 | `total_silence_seconds += sample_dist / sample_rate` over the qualifying gaps, in exact reals, is never negative |
| `SilenceProperties.SecondsSilentFraction` | src/puller.ts:58-91 | the source's formula in seconds: guard against `window * rate * 1.2`, then `Math.min(total, window) / window`, which lies in [0, 1] |
| `SilenceProperties.GapSecondsInSamples` | src/puller.ts:80-87 | accumulating `dist / rate` over gaps longer than `rate * .25` equals the integer gap sum divided by the rate |
| `SilenceProperties.ClampInSeconds` | src/puller.ts:89-91 | `Math.min(seconds, window) / window` equals the clamped sample count over the window's samples |
| `SilenceProperties.SilentFractionMatchesSeconds` | src/puller.ts:58-91 | the sample-count classifier equals the source's formula in seconds, evaluated in exact reals |
| `WindowBuffer.Concat` | src/puller.ts:165 | `Buffer.concat` holds as many bytes as all the chunks together. `ConcatAppend` gives their order |
| `WindowBuffer.ConcatAppend` | src/puller.ts:165 | concatenating chunks after one more chunk arrives gives the old concatenation followed by that chunk |
| `WindowBuffer.ChunkBuffer.constructor` | src/puller.ts:152 | a new buffer holds no chunks and has received and delivered nothing |
| `WindowBuffer.ChunkBuffer.Append` | src/puller.ts:176-179 | a data event adds the chunk at the end and keeps the invariant that delivered + buffered == received (the same push is at puller.ts:123-126) |
| `WindowBuffer.ChunkBuffer.Snapshot` | src/puller.ts:165-167 | returns the concatenation of the buffered chunks in arrival order, empties the buffer and appends what it returned to the delivered bytes |
| `WindowBuffer.SnapshotTwice` | src/puller.ts:162-174 | a second tick with no data event in between yields an empty window; afterwards the buffer holds no chunks and nothing received is lost or added |
| `Naming.ReplaceSeparators` | src/puller.ts:110 | same length; each separator becomes `_` and every other character stays in its place, so no separator is left |
| `Naming.CollapseUnderscores` | src/puller.ts:111 | collapsing `_+` never lengthens, keeps the first character and the set of characters, and leaves no two adjacent underscores |
| `Naming.CollapseKeepsContent` | src/puller.ts:111 | every character other than `_` survives collapsing, in order, and the result has as many underscores as the input has runs of them |
| `Naming.CollapseSplits` | src/puller.ts:111 | a character other than `_` stays in place, and the text on either side of it is collapsed on its own |
| `Naming.CollapseRun` | src/puller.ts:111 | a run of underscores of any length becomes exactly one underscore |
| `Naming.CollapseWithoutRuns` | src/puller.ts:111 | a string without adjacent underscores is unchanged by collapsing |
| `Naming.Slug` | src/puller.ts:110-112 | with underscores taken out, the slug is the lower-cased description with its separators taken out. It has as many underscores as the description has runs of separators and underscores |
| `Naming.SlugSplits` | src/puller.ts:110-112 | a character that is neither a separator nor `_` is lower-cased in place, and the text on either side of it is slugged on its own |
| `Naming.SlugRun` | src/puller.ts:110-112 | a non-empty run of separators and underscores becomes exactly one `_`. With `SlugSplits` this fixes where every underscore of the slug sits |
| `Naming.MetricKey` | src/puller.ts:115 | the key is `scanner-audio-`, the slug, then `.json`, so the slug can be read back from the key |
| `Naming.SlugProperties` | src/puller.ts:110-112 | the slug is no longer than the description. It has no separator, no `__` and no upper-case ASCII letter. Every non-underscore character is the lower-cased form of a character of the description |
| `Naming.SlugIdempotent` | src/puller.ts:110-112 | slugging a slug changes nothing |
| `Naming.MetricKeySameSlug` | src/puller.ts:115 | two descriptions get the same `scanner-audio-<slug>.json` key exactly when their slugs agree |
| `NamingExamples.SharedMetricKey` | src/puller.ts:110-115 | the descriptions "A.B" and "a b" are published under the same key, `scanner-audio-a_b.json` |
| `Naming.TrimStart` | src/puller.ts:214 | removes exactly the longest whitespace prefix: all removed characters are whitespace and the result does not start with whitespace |
| `Naming.TrimEnd` | src/puller.ts:214 | removes exactly the longest whitespace suffix |
| `Naming.Trim` | src/puller.ts:214 | `trim` never lengthens, and gives the empty string exactly when its input is all whitespace |
| `Naming.TrimProperties` | src/puller.ts:214 | `trim` keeps one contiguous piece of its input, removes only whitespace around it, and leaves no whitespace at either end |
| `Naming.TrimIdempotent` | src/puller.ts:214 | trimming twice is trimming once |
| `Naming.StripFeedSuffix` | src/puller.ts:214 | when the title ends with " Live Audio Feed", putting the suffix back gives the title. Otherwise the title is unchanged |
| `Naming.CleanTitle` | src/puller.ts:214 | the cleaned title is no longer than the scraped one, and is empty exactly when the title without its suffix is all whitespace |
| `Naming.CleanTitleProperties` | src/puller.ts:214 | the cleaned title is a contiguous piece of the scraped title with no whitespace at either end |
| `Naming.CleanTitleWithoutSuffix` | src/puller.ts:214 | a title that does not end with " Live Audio Feed" is only trimmed |
| `Naming.CleanTitleStripsOnce` | src/puller.ts:214 | exactly one trailing " Live Audio Feed" is removed: `name + suffix` cleans to `trim(name)` even if `name` itself ends with the suffix |
| `StreamPuller.ActiveFraction` | src/puller.ts:58-94 | `active_percent` is `1.0 - percent_silent`, with `percent_silent` computed by the source's formula in seconds with 10 s, 16000 Hz and threshold 3000 |
| `StreamPuller.WindowPublication` | src/puller.ts:53-115 | a window either publishes nothing, or publishes a value in [0, 1] under `scanner-audio-<slug>.json` |
| `StreamPuller.AnalyzeData` | src/puller.ts:53-115 | conversion, classification and `1 - silent` give exactly the specified publication: key `scanner-audio-<slug>.json` and the active fraction, or nothing |
| `StreamPuller.OnTimer` | src/puller.ts:162-173 | a tick empties the connection's buffer, delivers its bytes in order and publishes what the decoded window yields |
| `StreamPuller.OversizedWindowNotPublished` | src/puller.ts:58-60 | no fraction is produced exactly when there are more than 192000 samples |
| `StreamPuller.OversizedOutputNotPublished` | src/puller.ts:53-115 | nothing is published exactly when the decoder output exceeds 384000 bytes. Otherwise the key is `scanner-audio-<slug>.json` |
| `StreamPuller.GapThreshold` | src/puller.ts:82 | a gap counts as silence exactly when it exceeds 4000 samples |
| `StreamPuller.ActiveFractionBounds` | src/puller.ts:89-94 | the published active fraction lies in [0, 1] |
| `StreamPuller.EmptyWindowFullyActive` | src/puller.ts:62-94 | a window that decodes to zero samples is reported as active fraction 1 |
| `StreamPuller.AllLoudWindowFullyActive` | src/puller.ts:62-94 | a window of 1 to 192000 samples, all loud, has active fraction exactly 1 |
| `StreamPuller.AllQuietWindowActive` | src/puller.ts:62-94 | with no loud sample, the active fraction is `1 - min(n - 1, 160000) / 160000` when n - 1 > 4000, and 1 otherwise |
| `StreamPuller.MidWindowSpikeScenario` | src/puller.ts:62-94 | 160000 zero samples except one loud sample at 80000 give active fraction 1/160000 |
| `PrototypePuller.PercentSilent` | puller.ts:61-100 | `percent_silent` is the source's formula in seconds with 60 s, 22050 Hz and threshold 3000 |
| `PrototypePuller.AnalyzeData` | puller.ts:56-100 | conversion and classification with 60 s, 22050 Hz and threshold 3000 give exactly the specified `percent_silent`, or nothing |
| `PrototypePuller.OnTimer` | puller.ts:112-120 | a tick empties the module-level buffer, delivers its bytes in order and yields the decoded window's silent fraction |
| `PrototypePuller.OversizedWindowDropped` | puller.ts:61-63 | no result exactly when there are more than 1587600 samples |
| `PrototypePuller.GapThreshold` | puller.ts:91 | a gap counts as silence exactly when it is at least 5513 samples (more than 5512.5) |
| `PrototypePuller.PercentSilentBounds` | puller.ts:98-100 | `percent_silent` lies in [0, 1] |
| `PrototypePuller.AllLoudOrEmptyWindowNotSilent` | puller.ts:71-100 | an empty window, or one in which every sample is loud, is 0 silent |

## Left out

- HTTPS connection setup, response and error callbacks, and reconnection (src/puller.ts:130-194, puller.ts:4-22 and 108-132): network I/O driven by event callbacks. As written, the retries call `setTimeout(listenToStream, ...)` with no arguments, and every non-200 status is retried the same way.
- Timer scheduling (src/puller.ts:170-174, puller.ts:116-121): asynchronous. A tick is modelled as one call of `OnTimer`. Timers are never cancelled on reconnect, and that is not modelled.
- The ffmpeg invocation, its shell escaping and the temporary file (src/puller.ts:34-48, puller.ts:34-47): an external process and the filesystem. The decoder is a function parameter of `OnTimer`, and its standard output is the input of `AnalyzeData`.
- The decoder failure path: an error from ffmpeg ends the process with `process.exit(1)` (src/puller.ts:49-51, puller.ts:48-50). The model has no error result for the decoder.
- exec's `maxBuffer: 1024 * 1024 * 5` (src/puller.ts:44, puller.ts:44): output over 5242880 bytes makes exec report an error, and the process exits before the conversion. `AnalyzeData` and `WindowPublication` accept output of any length. For such output they report the size guard's early return (nothing published) where the source ends the process. Output that long is far over the guard's 384000 bytes (src/puller.ts) and 3175200 bytes (puller.ts), so no output the model publishes is lost to this.
- Pcm.DecodeSamples: requires an even byte count. With an odd count, `readInt16LE` at the last offset throws out of range. The decoder's s16le output always comes in byte pairs.
- puller.ts does not pass `-ar` to ffmpeg, so its output is at the stream's own rate. The model takes the 22050 that the code assumes.
- The metrics writer, its lazily created global configuration and the environment-variable lookup (src/puller.ts:96-108, 116): a foreign library and process state. A publication is modelled as the key and value passed to `writer.set`.
- Appending the result to `one-mins.txt` (puller.ts:102): file I/O. The model returns `percent_silent`.
- The HTML fetch and the `<title>` regular-expression match (src/puller.ts:204-212): network access. Only the cleanup of the matched title (line 214) is modelled.
- Double-precision rounding in `total_silence_seconds += sample_dist / sample_rate` (src/puller.ts:85, puller.ts:94): the model uses exact integers and reals.
- Naming.ToLowerAscii: lower-cases ASCII letters only. `toLowerCase` also maps non-ASCII letters, which full Unicode case mapping would be needed to model.
- `diff_indexes` (src/puller.ts:73 and 83, puller.ts:82 and 92): the list is filled but never read.
- Logging with `console.log` and `console.error`: no effect on results.
