/** The timing windows against which the decoder classifies the time between
    two edges, in seconds, as exact reals. */
module Timing {

  // TE / half-bit of a logical 1: 280 to 580 microseconds (TE_Timing[0], [1])
  const TeMin: real := 0.00028
  const TeMax: real := 0.00058
  // half-bit of a logical 0: 700 to 1000 microseconds (TE_Timing[2], [3])
  const Bit0Min: real := 0.0007
  const Bit0Max: real := 0.001
  // header gap: 3 to 6 milliseconds (TE_Timing[4], [5])
  const HeaderMin: real := 0.003
  const HeaderMax: real := 0.006
  // short-preamble TE: half of the standard window, 140 to 290 microseconds
  const ShortTeMin: real := TeMin / 2.0
  const ShortTeMax: real := TeMax / 2.0

  // number of TE pulses of each preamble variant
  const PreambleCountStd: nat := 23
  const PreambleCountShort: nat := 45

  // samples added after the last bit's edge to close its annotation
  const LastBitPad: int := 8

  predicate InWindow(t: real, lo: real, hi: real) {
    lo <= t && t <= hi
  }

  /** Standard TE, and also the half-bit of a logical 1: shorter than any
      logical-0 half-bit and than the header gap. */
  predicate InStdTe(t: real)
    ensures InStdTe(t) ==> t < Bit0Min && t < HeaderMin
  {
    InWindow(t, TeMin, TeMax)
  }

  /** Short-preamble TE: below the logical-0 window, and overlapping the
      standard TE window from its lower bound up. */
  predicate InShortTe(t: real)
    ensures InShortTe(t) ==> t < Bit0Min && t < HeaderMin
    ensures InShortTe(t) && TeMin <= t ==> InWindow(t, TeMin, TeMax)
  {
    InWindow(t, ShortTeMin, ShortTeMax)
  }

  /** Half-bit of a logical 0: between the TE windows and the header gap. */
  predicate InBit0(t: real)
    ensures InBit0(t) ==> TeMax < t && ShortTeMax < t && t < HeaderMin
  {
    InWindow(t, Bit0Min, Bit0Max)
  }

  /** Header gap: longer than every other window. */
  predicate InHeader(t: real)
    ensures InHeader(t) ==> TeMax < t && ShortTeMax < t && Bit0Max < t
  {
    InWindow(t, HeaderMin, HeaderMax)
  }

  /** How the windows relate: a logical-1 and a logical-0 half-bit never
      coincide, the header is none of the others, 580-700 us is no half-bit,
      and the short and standard TE windows share 280-290 us. */
  lemma WindowsClassify(t: real)
    ensures !(InStdTe(t) && InBit0(t))
    ensures InHeader(t) ==> !InStdTe(t) && !InShortTe(t) && !InBit0(t)
    ensures TeMax < t < Bit0Min ==> !InStdTe(t) && !InBit0(t) && !InShortTe(t)
    ensures InShortTe(t) && InStdTe(t) <==> TeMin <= t <= ShortTeMax
    ensures ShortTeMin == 0.00014 && ShortTeMax == 0.00029
  {
  }

  /** Seconds between the previous and the current edge. */
  function Duration(n: int, prevN: int, samplerate: nat): (t: real)
    requires samplerate > 0
    ensures t * samplerate as real == (n - prevN) as real
    ensures n >= prevN ==> t >= 0.0
  {
    (n - prevN) as real / samplerate as real
  }
}
