/**
 * Conversions from a delay to a number of CPU cycles (bcc_wait.h).
 * The macros compute in 32-bit unsigned arithmetic, so the product wraps modulo 2^32.
 */
module Wait {
  import opened Arith

  const U32: int := 0x1_0000_0000

  predicate IsU32(x: int) { 0 <= x < U32 }

  /** BCC_GET_CYCLES_FOR_MS: the frequency is divided by 1000 first, then multiplied. */
  function CyclesForMs(ms: int, freq: int): (c: int)
    requires IsU32(ms) && IsU32(freq)
    ensures IsU32(c)
    ensures ms == 0 || freq < 1000 ==> c == 0
    ensures (freq / 1000) * ms < U32 ==> c == (freq / 1000) * ms && c * 1000 <= freq * ms
  {
    ExactMsBelowFreq(ms, freq);
    ((freq / 1000) * ms) % U32
  }

  /** BCC_GET_CYCLES_FOR_US: divided by 1000, multiplied, wrapped, divided by 1000 again. */
  function CyclesForUs(us: int, freq: int): (c: int)
    requires IsU32(us) && IsU32(freq)
    ensures IsU32(c)
    ensures us == 0 || freq < 1000 ==> c == 0
    ensures (freq / 1000) * us < U32 ==> c == (freq / 1000) * us / 1000 && c * 1000000 <= freq * us
  {
    ExactUsBelowFreq(us, freq);
    ((freq / 1000) * us) % U32 / 1000
  }

  lemma ExactMsBelowFreq(ms: int, freq: int)
    requires 0 <= ms && 0 <= freq
    ensures ((freq / 1000) * ms) * 1000 <= freq * ms
  {
    var q := freq / 1000;
    assert q * 1000 <= freq;
    MulMono(q * 1000, freq, ms);
    assert (q * ms) * 1000 == (q * 1000) * ms;
  }

  lemma ExactUsBelowFreq(us: int, freq: int)
    requires 0 <= us && 0 <= freq
    ensures ((freq / 1000) * us / 1000) * 1000000 <= freq * us
  {
    var p := (freq / 1000) * us;
    assert (p / 1000) * 1000 <= p;
    ExactMsBelowFreq(us, freq);
    assert (p / 1000) * 1000000 == ((p / 1000) * 1000) * 1000;
  }

  /** A delay of 1000*ms microseconds costs as many cycles as ms milliseconds (no wrap-around). */
  lemma UsMatchesMs(ms: int, freq: int)
    requires IsU32(freq) && IsU32(1000 * ms) && (freq / 1000) * 1000 * ms < U32
    ensures CyclesForUs(1000 * ms, freq) == CyclesForMs(ms, freq)
  {
    var q := freq / 1000;
    var p := q * ms;
    assert q * (1000 * ms) == p * 1000 by { MulAssoc(q, ms, 1000); }
    assert 0 <= p <= p * 1000;
    assert CyclesForMs(ms, freq) == p;
    assert CyclesForUs(1000 * ms, freq) == (p * 1000) / 1000;
  }

  lemma MulAssoc(a: int, b: int, c: int)
    ensures a * (c * b) == (a * b) * c
  {
  }

  /** Longer millisecond delays never need fewer cycles, as long as the product does not wrap. */
  lemma MsMonotone(ms1: int, ms2: int, freq: int)
    requires IsU32(freq) && 0 <= ms1 <= ms2 < U32 && (freq / 1000) * ms2 < U32
    ensures CyclesForMs(ms1, freq) <= CyclesForMs(ms2, freq)
  {
    var q := freq / 1000;
    MulMono(ms1, ms2, q);
    assert 0 <= q * ms1 <= q * ms2;
  }

  /** Longer microsecond delays never need fewer cycles, as long as the product does not wrap. */
  lemma UsMonotone(us1: int, us2: int, freq: int)
    requires IsU32(freq) && 0 <= us1 <= us2 < U32 && (freq / 1000) * us2 < U32
    ensures CyclesForUs(us1, freq) <= CyclesForUs(us2, freq)
  {
    var q := freq / 1000;
    MulMono(us1, us2, q);
    assert 0 <= q * us1 <= q * us2;
    DivMono(q * us1, q * us2, 1000);
  }

  /**
   * Without the no-wrap hypothesis monotonicity fails: at a 4.294 GHz clock one more
   * millisecond wraps the 32-bit product around to a handful of cycles.
   */
  lemma MsWrapAround()
    ensures CyclesForMs(1001, 4294000000) < CyclesForMs(1000, 4294000000)
  {
    assert (4294000000 / 1000) * 1000 == 4294000000;
    assert (4294000000 / 1000) * 1001 == 4298294000;
  }

  /** The TPL wait budget, freq/1000 * 10 cycles, never wraps for a 32-bit frequency. */
  lemma TenMsNeverWraps(freq: int)
    requires IsU32(freq)
    ensures CyclesForMs(10, freq) == (freq / 1000) * 10
  {
  }
}
