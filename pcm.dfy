/**
 * The decoder's output, signed 16-bit little-endian PCM, read back sample by
 * sample: each sample's absolute value is stored into an Int16Array.
 */
module Pcm {

  type byte = x: int | 0 <= x < 0x100
  type Bytes = seq<byte>

  /** The values an Int16Array element can hold. */
  type int16 = x: int | -0x8000 <= x < 0x8000

  /**
   * Buffer.readInt16LE: low byte first, two's complement. The value agrees
   * with the unsigned reading modulo 2^16 and is negative exactly when the
   * sign bit of the high byte is set.
   */
  function ReadInt16LE(lo: byte, hi: byte): (r: int16)
    ensures (r - (lo + 0x100 * hi)) % 0x10000 == 0
    ensures r < 0 <==> hi >= 0x80
  {
    var u := lo + 0x100 * hi;
    if u < 0x8000 then u else u - 0x10000
  }

  /** The two bytes, low byte first, that encode a 16-bit value. */
  function WriteInt16LE(v: int16): (byte, byte)
  {
    var u := if v < 0 then v + 0x10000 else v;
    (u % 0x100, u / 0x100)
  }

  lemma ReadAfterWrite(v: int16)
    ensures ReadInt16LE(WriteInt16LE(v).0, WriteInt16LE(v).1) == v
  {
  }

  lemma WriteAfterRead(lo: byte, hi: byte)
    ensures WriteInt16LE(ReadInt16LE(lo, hi)) == (lo, hi)
  {
  }

  /** The ToInt16 conversion applied when a number is stored into an Int16Array: wrap modulo 2^16. */
  function ToInt16(x: int): (r: int16)
    ensures (r - x) % 0x10000 == 0
    ensures -0x8000 <= x < 0x8000 ==> r == x
  {
    (x + 0x8000) % 0x10000 - 0x8000
  }

  function Abs(x: int): nat
  {
    if x < 0 then -x else x
  }

  /** What `pcm_values[i / 2] = Math.abs(stdout.readInt16LE(i))` stores for one byte pair. */
  function StoredAbs(lo: byte, hi: byte): (r: int16)
    ensures Abs(r) == Abs(ReadInt16LE(lo, hi))
  {
    ToInt16(Abs(ReadInt16LE(lo, hi)))
  }

  /**
   * The stored value is the sample's magnitude, except for the one sample
   * -32768 (bytes 0x00 0x80), whose magnitude 32768 wraps back to -32768.
   */
  lemma StoredAbsValue(lo: byte, hi: byte)
    ensures ReadInt16LE(lo, hi) != -0x8000 ==> StoredAbs(lo, hi) == Abs(ReadInt16LE(lo, hi))
    ensures ReadInt16LE(lo, hi) == -0x8000 ==> StoredAbs(lo, hi) == -0x8000
    ensures StoredAbs(lo, hi) == -0x8000 <==> lo == 0 && hi == 0x80
    ensures 0 <= StoredAbs(lo, hi) < 0x8000 || StoredAbs(lo, hi) == -0x8000
  {
    var v := ReadInt16LE(lo, hi);
    if v == -0x8000 {
      assert ToInt16(0x8000) == -0x8000;
    } else {
      assert 0 <= Abs(v) < 0x8000;
    }
  }

  /** The Int16Array the conversion loop fills: one entry per byte pair. */
  function AbsSamples(stdout: Bytes): (pcm: seq<int16>)
    requires |stdout| % 2 == 0
    ensures |pcm| == |stdout| / 2
    ensures forall k :: 0 <= k < |pcm| ==> Abs(pcm[k]) == Abs(ReadInt16LE(stdout[2 * k], stdout[2 * k + 1]))
  {
    seq(|stdout| / 2, k requires 0 <= k < |stdout| / 2 => StoredAbs(stdout[2 * k], stdout[2 * k + 1]))
  }

  /**
   * Every converted value is a magnitude in [0, 32767] or the wrapped -32768,
   * and there is exactly one converted value per two bytes.
   */
  lemma AbsSamplesRange(stdout: Bytes)
    requires |stdout| % 2 == 0
    ensures |AbsSamples(stdout)| == |stdout| / 2
    ensures forall k :: 0 <= k < |stdout| / 2 ==>
      (0 <= AbsSamples(stdout)[k] < 0x8000 || AbsSamples(stdout)[k] == -0x8000)
    ensures forall k :: 0 <= k < |stdout| / 2 ==>
      (AbsSamples(stdout)[k] == -0x8000 <==> stdout[2 * k] == 0 && stdout[2 * k + 1] == 0x80)
  {
    forall k | 0 <= k < |stdout| / 2
      ensures 0 <= AbsSamples(stdout)[k] < 0x8000 || AbsSamples(stdout)[k] == -0x8000
      ensures AbsSamples(stdout)[k] == -0x8000 <==> stdout[2 * k] == 0 && stdout[2 * k + 1] == 0x80
    {
      StoredAbsValue(stdout[2 * k], stdout[2 * k + 1]);
    }
  }

  /** The pair 0x00 0x80 (-32768) converts to the wrapped -32768, which no nonnegative threshold counts as loud. */
  lemma MinSampleNeverLoud(stdout: Bytes, k: nat, threshold: int)
    requires |stdout| % 2 == 0 && k < |stdout| / 2
    requires stdout[2 * k] == 0 && stdout[2 * k + 1] == 0x80
    requires threshold >= 0
    ensures AbsSamples(stdout)[k] == -0x8000
    ensures !(AbsSamples(stdout)[k] > threshold)
  {
    AbsSamplesRange(stdout);
  }

  /** The conversion loop: reads the byte pairs in order and fills a new Int16Array. */
  method DecodeSamples(stdout: Bytes) returns (pcm: array<int16>)
    requires |stdout| % 2 == 0
    ensures fresh(pcm)
    ensures pcm[..] == AbsSamples(stdout)
  {
    pcm := new int16[|stdout| / 2];
    var i := 0;
    while i < |stdout|
      invariant 0 <= i <= |stdout| && i % 2 == 0
      invariant forall k :: 0 <= k < i / 2 ==> pcm[k] == StoredAbs(stdout[2 * k], stdout[2 * k + 1])
    {
      pcm[i / 2] := ToInt16(Abs(ReadInt16LE(stdout[i], stdout[i + 1])));
      i := i + 2;
    }
  }
}
