/**
 * The two 64-bit halves of a version-1 style UUID, built from a time value and a
 * random word. The clock and the random generator are parameters: `seconds` and
 * `nanos` are the two parts of the duration since 1582-10-15T00:00:00, and
 * `random` is the word the random generator would have returned.
 */
module Version1 {
  import opened Words

  const TicksPerSecond := 10_000_000
  const NanosPerSecond := 1_000_000_000

  /** Keeps bits 16..63 of the tick count. */
  const TimeHighMask: Long := 0xFFFF_FFFF_FFFF_0000
  /** The version marker `0001` in bits 12..15 (`1 << 12`). */
  const VersionFlag: Long := 0x1000
  /** Clears bits 62 and 63 of the random word. */
  const RandomMask: Long := 0x3FFF_FFFF_FFFF_FFFF
  /** Sets bit 63: with bit 62 cleared this is the variant `10`. */
  const VariantFlag: Long := 0x8000_0000_0000_0000

  /**
   * The largest number of seconds for which the tick count does not leave the
   * non-negative range of a Java `long`, whatever the nanosecond part.
   */
  const MaxSeconds := 922_337_193_685

  /**
   * The tick count as an unsigned 64-bit value: `seconds * 10000000 + nanos * 100`
   * in Java's wrap-around `long` arithmetic. The nanosecond part is MULTIPLIED by
   * 100, as written.
   */
  function TickCount(seconds: JLong, nanos: int): (t: nat)
    requires 0 <= nanos < NanosPerSecond
    ensures t < TwoTo64
  {
    Wrap(seconds * TicksPerSecond + nanos * 100)
  }

  /** The tick count's bit pattern. */
  function Ticks(seconds: JLong, nanos: int): Long
    requires 0 <= nanos < NanosPerSecond
  {
    TickCount(seconds, nanos) as Long
  }

  /**
   * Within the stated bound on `seconds` no wrap-around happens: the tick count
   * is the exact value and a non-negative `long`.
   */
  lemma {:induction false} TicksExact(seconds: JLong, nanos: int)
    requires 0 <= seconds <= MaxSeconds && 0 <= nanos < NanosPerSecond
    ensures TickCount(seconds, nanos) == seconds * TicksPerSecond + nanos * 100
    ensures TickCount(seconds, nanos) < TwoTo63
  {
    var x := seconds * TicksPerSecond + nanos * 100;
    assert 0 <= x < TwoTo63;
    var k :| x == Wrap(x) + k * TwoTo64;
    assert k == 0;
  }

  /**
   * Because the nanosecond part is multiplied rather than divided, the tick count
   * is not ordered like time: the last nanosecond of second 0 gets a larger count
   * than the first instant of second 1.
   */
  lemma {:induction false} TicksNotTimeOrdered()
    ensures TickCount(0, NanosPerSecond - 1) > TickCount(1, 0)
  {
    TicksExact(0, NanosPerSecond - 1);
    TicksExact(1, 0);
  }

  /**
   * The layout of the most significant half: bits 16..63 of the tick count, the
   * version marker in bits 12..15, and bits 4..15 of the tick count in bits 0..11,
   * joined by `+`.
   */
  function TimeLayout(ticks: Long): (msb: Long)
    ensures (msb >> 12) & 0xF == 1
    ensures msb & TimeHighMask == ticks & TimeHighMask
    ensures msb & 0xFFF == (ticks >> 4) & 0xFFF
  {
    (ticks & TimeHighMask) + VersionFlag + ((ticks & 0x0000_0000_0000_FFFF) >> 4)
  }

  /** The additions never carry: the three parts occupy disjoint bits. */
  lemma {:induction false} TimeLayoutNoCarry(ticks: Long)
    ensures TimeLayout(ticks) == (ticks & TimeHighMask) | VersionFlag | ((ticks & 0xFFFF) >> 4)
  {
  }

  /** Bits 4..63 of the tick count can be read back from the most significant half. */
  lemma {:induction false} TimeLayoutRecoversTicks(ticks: Long)
    ensures ticks >> 4 == ((TimeLayout(ticks) & TimeHighMask) >> 4) | (TimeLayout(ticks) & 0xFFF)
  {
  }

  /**
   * The layout loses only the low four bits of the tick count: two tick counts
   * give the same half exactly when they agree on bits 4..63.
   */
  lemma {:induction false} TimeLayoutKeepsTicks(t1: Long, t2: Long)
    ensures TimeLayout(t1) == TimeLayout(t2) <==> t1 >> 4 == t2 >> 4
  {
    TimeLayoutAgrees(t1, t2);
    TimeLayoutDetermines(t1, t2);
  }

  lemma {:induction false} TimeLayoutAgrees(t1: Long, t2: Long)
    ensures t1 >> 4 == t2 >> 4 ==> TimeLayout(t1) == TimeLayout(t2)
  {
    TimeLayoutNoCarry(t1);
    TimeLayoutNoCarry(t2);
  }

  lemma {:induction false} TimeLayoutDetermines(t1: Long, t2: Long)
    ensures TimeLayout(t1) == TimeLayout(t2) ==> t1 >> 4 == t2 >> 4
  {
    TimeLayoutRecoversTicks(t1);
    TimeLayoutRecoversTicks(t2);
  }

  /** The most significant half for the duration `seconds`, `nanos` since the epoch. */
  function MostSignificantBits(seconds: JLong, nanos: int): (msb: Long)
    requires 0 <= nanos < NanosPerSecond
    ensures (msb >> 12) & 0xF == 1
    ensures msb & TimeHighMask == Ticks(seconds, nanos) & TimeHighMask
    ensures msb & 0xFFF == (Ticks(seconds, nanos) >> 4) & 0xFFF
  {
    TimeLayout(Ticks(seconds, nanos))
  }

  /**
   * The least significant half: the random word with bits 62 and 63 cleared, plus
   * the variant flag.
   */
  function LeastSignificantBits(random: Long): (lsb: Long)
    ensures lsb >> 62 == 0x2
    ensures lsb & RandomMask == random & RandomMask
  {
    (random & RandomMask) + VariantFlag
  }

  /** The addition never carries: the masked word has bit 63 clear. */
  lemma {:induction false} LeastSignificantBitsNoCarry(random: Long)
    ensures LeastSignificantBits(random) == (random & RandomMask) | VariantFlag
  {
  }

  /** Two random words give the same half exactly when they agree on bits 0..61. */
  lemma {:induction false} LeastSignificantBitsKeepsRandom(r1: Long, r2: Long)
    ensures LeastSignificantBits(r1) == LeastSignificantBits(r2)
        <==> r1 & RandomMask == r2 & RandomMask
  {
    LeastSignificantBitsAgree(r1, r2);
  }

  lemma {:induction false} LeastSignificantBitsAgree(r1: Long, r2: Long)
    ensures r1 & RandomMask == r2 & RandomMask ==> LeastSignificantBits(r1) == LeastSignificantBits(r2)
  {
    LeastSignificantBitsNoCarry(r1);
    LeastSignificantBitsNoCarry(r2);
  }
}
