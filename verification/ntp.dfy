/**
  Conversion between instants and the 64-bit NTP timestamp format of section 6
  of RFC 5905: 32 bits of whole seconds since 1900-01-01 followed by a 32-bit
  binary fraction of a second.
 */
module Ntp {
  import opened GoInt

  /** Seconds between the NTP epoch (1900) and the Unix epoch (1970). */
  const NTP_EPOCH_OFFSET: int := 2208988800

  const NANOS_PER_SECOND: int := 1_000_000_000

  type Nanosecond = n: int | 0 <= n < 1_000_000_000

  /**
    A Go `time.Time` as the codec sees it: `t.Unix()` and `t.Nanosecond()`.
    The nanosecond is always within its second.
   */
  datatype Instant = Instant(sec: int64, nsec: Nanosecond)

  /** Nanoseconds since the Unix epoch. */
  function UnixNanos(t: Instant): int
  {
    t.sec * NANOS_PER_SECOND + t.nsec
  }

  /** Go's `t.Sub(u)` in nanoseconds, without the saturation of `time.Duration`. */
  function Sub(t: Instant, u: Instant): (d: int)
    ensures d == 0 <==> t == u
    ensures d > 0 <==> t.sec > u.sec || (t.sec == u.sec && t.nsec > u.nsec)
  {
    UnixNanos(t) - UnixNanos(u)
  }

  /**
    `(nanos << 32) / 1e9`: the nanosecond count as a binary fraction of a second,
    rounded down.  The shift cannot overflow and the quotient fits in 32 bits.
   */
  function NanosToFraction(nsec: Nanosecond): (f: uint32)
    ensures f * NANOS_PER_SECOND <= nsec * TWO_32 < (f + 1) * NANOS_PER_SECOND
  {
    assert Shl32(nsec) == nsec * TWO_32;
    Shl32(nsec) / NANOS_PER_SECOND
  }

  /**
    `(fraction * 1e9) >> 32`: a 32-bit binary fraction as nanoseconds, rounded
    down.  The product stays below 2^62, so the `uint64` multiplication does not wrap.
   */
  function FractionToNanos(fraction: uint32): (n: Nanosecond)
    ensures n * TWO_32 <= fraction * NANOS_PER_SECOND < (n + 1) * TWO_32
  {
    assert fraction * NANOS_PER_SECOND < 0x4000_0000_0000_0000;
    Shr32(Wrap64(fraction * NANOS_PER_SECOND))
  }

  /**
    `ToNTP`: the high word is the Unix second moved to the NTP epoch, reduced
    modulo 2^32 (the era wraps), and the low word is the rounded-down fraction.
   */
  function ToNTP(t: Instant): (x: uint64)
    ensures x / TWO_32 == (t.sec + NTP_EPOCH_OFFSET) % TWO_32
    ensures x % TWO_32 == (t.nsec * TWO_32) / NANOS_PER_SECOND
  {
    var secs := Wrap64(Wrap64(t.sec) + NTP_EPOCH_OFFSET);
    var fraction := NanosToFraction(t.nsec);
    NtpWords(t, secs, fraction);
    BitOr(Shl32(secs), fraction)
  }

  /** The two words `(secs << 32) | fraction` is built from, as `ToNTP` computes them. */
  lemma NtpWords(t: Instant, secs: uint64, fraction: uint32)
    requires secs == Wrap64(Wrap64(t.sec) + NTP_EPOCH_OFFSET)
    requires fraction == NanosToFraction(t.nsec)
    ensures BitOr(Shl32(secs), fraction) < TWO_64
    ensures BitOr(Shl32(secs), fraction) / TWO_32 == (t.sec + NTP_EPOCH_OFFSET) % TWO_32
    ensures BitOr(Shl32(secs), fraction) % TWO_32 == (t.nsec * TWO_32) / NANOS_PER_SECOND
  {
    var hi := Shl32(secs);
    OrIntoLowWord(hi, fraction);
    AlignedPlusLowFits(hi, fraction);
    SplitWords(hi, fraction);
    assert hi / TWO_32 == secs % TWO_32;
    LowWordOfWrappedSum(t.sec, NTP_EPOCH_OFFSET);
    QuotientOfFloor(fraction, t.nsec * TWO_32);
  }

  /**
    `FromNTP`: the second is the high word minus the epoch offset, read as a
    signed value (negative before 1970), and the nanosecond is the low word
    scaled down to nanoseconds, rounded down.
   */
  function FromNTP(x: uint64): (t: Instant)
    ensures t.sec == x / TWO_32 - NTP_EPOCH_OFFSET
    ensures t.nsec * TWO_32 <= (x % TWO_32) * NANOS_PER_SECOND < (t.nsec + 1) * TWO_32
  {
    var secs := Wrap64(Shr32(x) - NTP_EPOCH_OFFSET);
    SignedEraSecond(Shr32(x));
    AndLowWord(x);
    var fraction := BitAnd(x, 0xFFFF_FFFF);
    // time.Unix only normalises a nanosecond outside [0, 1e9), which the type rules out
    Instant(ToInt64(secs), FractionToNanos(fraction))
  }

  /**
    `int64((h - ntpEpochOffset) mod 2^64)` for a seconds word h is the exact,
    possibly negative, difference.
   */
  lemma SignedEraSecond(h: uint32)
    ensures ToInt64(Wrap64(h - NTP_EPOCH_OFFSET)) == h - NTP_EPOCH_OFFSET
  {
    if h < NTP_EPOCH_OFFSET {
      assert Wrap64(h - NTP_EPOCH_OFFSET) == h - NTP_EPOCH_OFFSET + TWO_64;
    }
  }

  /** A rounded-down quotient by 1e9, characterised by its bounds, is the quotient. */
  lemma QuotientOfFloor(f: int, v: int)
    requires f * NANOS_PER_SECOND <= v < (f + 1) * NANOS_PER_SECOND
    ensures f == v / NANOS_PER_SECOND
  {
  }

  /** The Unix epoch is NTP second 2208988800 with a zero fraction. */
  lemma UnixEpochVector()
    ensures ToNTP(Instant(0, 0)) == NTP_EPOCH_OFFSET * TWO_32
  {
    var x := ToNTP(Instant(0, 0));
    assert (0 + NTP_EPOCH_OFFSET) % TWO_32 == NTP_EPOCH_OFFSET;
    assert x == (x / TWO_32) * TWO_32 + x % TWO_32;
  }

  /**
    An instant in the first second after the Unix epoch whose nanosecond n
    comes back from NTP as n': used for worked examples.
   */
  lemma SubSecondVector(t: Instant, n': Nanosecond)
    requires t.sec == 0
    requires n' * TWO_32 <= ((t.nsec * TWO_32) / NANOS_PER_SECOND) * NANOS_PER_SECOND < (n' + 1) * TWO_32
    ensures FromNTP(ToNTP(t)) == Instant(0, n')
  {
    var x := ToNTP(t);
    assert (0 + NTP_EPOCH_OFFSET) % TWO_32 == NTP_EPOCH_OFFSET;
    assert x / TWO_32 == NTP_EPOCH_OFFSET;
    var u := FromNTP(x);
    FloorUnique(u.nsec, n', (x % TWO_32) * NANOS_PER_SECOND);
  }

  /** Two rounded-down quotients by 2^32 of the same value are equal. */
  lemma FloorUnique(a: int, b: int, v: int)
    requires a * TWO_32 <= v < (a + 1) * TWO_32
    requires b * TWO_32 <= v < (b + 1) * TWO_32
    ensures a == b
  {
  }

  /**
    Within the current NTP era, converting an instant to NTP and back keeps the
    second and loses at most one nanosecond to the two truncations.
   */
  lemma RoundTrip(t: Instant)
    requires 0 <= t.sec + NTP_EPOCH_OFFSET < TWO_32
    ensures FromNTP(ToNTP(t)).sec == t.sec
    ensures t.nsec - 1 <= FromNTP(ToNTP(t)).nsec <= t.nsec
  {
    var x := ToNTP(t);
    var t' := FromNTP(x);
    LowWordOfSmall(t.sec + NTP_EPOCH_OFFSET);
    TruncationLoss(t.nsec, x % TWO_32, t'.nsec);
  }

  /**
    The arithmetic behind the round trip: with f = floor(n·2^32/1e9) and
    n' = floor(f·1e9/2^32), n' is n or n - 1.
   */
  lemma TruncationLoss(n: int, f: int, n': int)
    requires f == (n * TWO_32) / NANOS_PER_SECOND
    requires n' * TWO_32 <= f * NANOS_PER_SECOND < (n' + 1) * TWO_32
    ensures n - 1 <= n' <= n
  {
    assert f * NANOS_PER_SECOND <= n * TWO_32 < (f + 1) * NANOS_PER_SECOND;
  }

  /**
    Converting an NTP timestamp to an instant and back keeps the seconds word and
    lowers the fraction by at most 5 units (about 1.2 ns).
   */
  lemma ReverseRoundTrip(x: uint64)
    ensures ToNTP(FromNTP(x)) / TWO_32 == x / TWO_32
    ensures x % TWO_32 - 5 <= ToNTP(FromNTP(x)) % TWO_32 <= x % TWO_32
  {
    var t := FromNTP(x);
    var x' := ToNTP(t);
    LowWordOfSmall(x / TWO_32);
    FractionLoss(x % TWO_32, t.nsec, x' % TWO_32);
  }

  /**
    The arithmetic behind the reverse round trip: with n = floor(f·1e9/2^32) and
    f' = floor(n·2^32/1e9), f' is between f - 5 and f.
   */
  lemma FractionLoss(f: int, n: int, f': int)
    requires n * TWO_32 <= f * NANOS_PER_SECOND < (n + 1) * TWO_32
    requires f' == (n * TWO_32) / NANOS_PER_SECOND
    ensures f - 5 <= f' <= f
  {
    assert f' * NANOS_PER_SECOND <= n * TWO_32 < (f' + 1) * NANOS_PER_SECOND;
  }

  /** Adding k whole seconds to the seconds word shifts the decoded instant by k seconds. */
  lemma ShiftSeconds(x: uint64, k: int)
    requires 0 <= x + k * TWO_32 < TWO_64
    ensures FromNTP(x + k * TWO_32).sec == FromNTP(x).sec + k
    ensures FromNTP(x + k * TWO_32).nsec == FromNTP(x).nsec
    ensures UnixNanos(FromNTP(x + k * TWO_32)) == UnixNanos(FromNTP(x)) + k * NANOS_PER_SECOND
  {
    var y := x + k * TWO_32;
    LowWordOfShift(x, k);
    FloorUnique(FromNTP(x).nsec, FromNTP(y).nsec, (x % TWO_32) * NANOS_PER_SECOND);
  }
}
