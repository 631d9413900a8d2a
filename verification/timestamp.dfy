/** `SpanBuilderImpl.withStartTimestamp`: microseconds since the epoch, as a
    Java `long`, turned into an `Instant` through `TimeUnit` conversions.
    Java's truncating division, `TimeUnit`'s saturating multiplication and
    `long` wrap-around are written out, since Dafny's integers are unbounded
    and its division is Euclidean. */
module Timestamp {

  const MinLong: int := -0x8000_0000_0000_0000
  const MaxLong: int := 0x7FFF_FFFF_FFFF_FFFF

  /** Java's `long`. */
  type Long = x: int | MinLong <= x <= MaxLong

  const NanosPerMicro: int := 1000
  const MicrosPerSecond: int := 1_000_000
  const NanosPerSecond: int := 1_000_000_000

  /** Java's `/` on a positive divisor: the quotient rounded toward zero. */
  function TruncDiv(a: int, d: int): (q: int)
    requires d > 0
    ensures a >= 0 ==> 0 <= a - q * d < d
    ensures a < 0 ==> -d < a - q * d <= 0
  {
    if a >= 0 then a / d else -((-a) / d)
  }

  /** Java `long` arithmetic: reduce an exact result into the `long` range. */
  function WrapLong(x: int): (r: Long)
    ensures MinLong <= x <= MaxLong ==> r == x
    ensures (r - x) % 0x1_0000_0000_0000_0000 == 0
  {
    (x - MinLong) % 0x1_0000_0000_0000_0000 + MinLong
  }

  /** `TimeUnit`'s private `x(d, m, over)`: `d * m`, saturated at the `long`
      bounds when `|d| > over`. */
  function SaturatingMul(d: Long, m: int, over: int): (r: Long)
    requires 0 < m && over == MaxLong / m
    ensures -over <= d <= over ==> r == d * m
    ensures d > over ==> r == MaxLong && d * m > MaxLong
    ensures d < -over ==> r == MinLong && d * m < -MaxLong
  {
    BelowOverFits(d, m, over);
    if d > over then MaxLong
    else if d < -over then MinLong
    else d * m
  }

  /** Within `[-over, over]` the product fits a `long`; beyond it, it exceeds
      the greatest `long` in magnitude. */
  lemma BelowOverFits(d: int, m: int, over: int)
    requires 0 < m && over == MaxLong / m
    ensures -over <= d <= over ==> -MaxLong <= d * m <= MaxLong
    ensures d > over ==> d * m > MaxLong
    ensures d < -over ==> d * m < -MaxLong
  {
    assert over * m <= MaxLong < (over + 1) * m;
    if d > over {
      MulMonotone(over + 1, d, m);
    } else if d < -over {
      MulMonotone(d, -over - 1, m);
      assert (-over - 1) * m == -((over + 1) * m);
    } else {
      MulMonotone(d, over, m);
      MulMonotone(-over, d, m);
      assert (-over) * m == -(over * m);
    }
  }

  lemma MulMonotone(a: int, b: int, m: int)
    requires a <= b && 0 < m
    ensures a * m <= b * m
  {
  }

  /** `TimeUnit.MICROSECONDS.toSeconds(d)`. */
  function MicrosToSeconds(d: Long): (r: Long)
    ensures d >= 0 ==> 0 <= d - r * MicrosPerSecond < MicrosPerSecond
    ensures d < 0 ==> -MicrosPerSecond < d - r * MicrosPerSecond <= 0
  {
    TruncDiv(d, MicrosPerSecond)
  }

  /** `TimeUnit.MICROSECONDS.toNanos(d)`. */
  function MicrosToNanos(d: Long): (r: Long)
    ensures NanosFitLong(d) ==> r == d * NanosPerMicro
    ensures !NanosFitLong(d) ==> r == if d > 0 then MaxLong else MinLong
  {
    SaturatingMul(d, NanosPerMicro, MaxLong / NanosPerMicro)
  }

  /** `TimeUnit.SECONDS.toNanos(d)`. */
  function SecondsToNanos(d: Long): (r: Long)
    ensures MinLong <= d * NanosPerSecond <= MaxLong ==> r == d * NanosPerSecond
  {
    SaturatingMul(d, NanosPerSecond, MaxLong / NanosPerSecond)
  }

  /** The `(epochSeconds, nanos)` pair computed before the `Instant` is made. */
  datatype EpochPair = EpochPair(seconds: Long, nanos: Long)

  function ToEpochPair(micros: Long): EpochPair {
    var seconds := MicrosToSeconds(micros);
    EpochPair(seconds, WrapLong(MicrosToNanos(micros) - SecondsToNanos(seconds)))
  }

  /** The micros for which `micros * 1000` stays inside the `long` range, so
      that no conversion saturates. */
  predicate NanosFitLong(micros: int) {
    MinLong <= micros * NanosPerMicro <= MaxLong
  }

  /** The pair splits `micros` exactly: whole seconds by truncation, and a
      remainder in nanoseconds that is a whole number of microseconds, below
      one second in magnitude and carrying the sign of `micros`. */
  lemma EpochPairExact(micros: Long)
    requires NanosFitLong(micros)
    ensures ToEpochPair(micros).seconds == TruncDiv(micros, MicrosPerSecond)
    ensures ToEpochPair(micros).seconds * NanosPerSecond + ToEpochPair(micros).nanos == micros * NanosPerMicro
    ensures -NanosPerSecond < ToEpochPair(micros).nanos < NanosPerSecond
    ensures ToEpochPair(micros).nanos % NanosPerMicro == 0
    ensures micros >= 0 ==> ToEpochPair(micros).nanos >= 0
    ensures micros <= 0 ==> ToEpochPair(micros).nanos <= 0
  {
  }

  /** A `java.time.Instant`: seconds since the epoch and a nano-of-second in
      `[0, 10^9)`. */
  datatype Instant = Instant(epochSecond: int, nano: int)

  /** `Instant.ofEpochSecond(seconds, nanoAdjustment)`, which carries the
      adjustment into the seconds with floor division so that the stored
      nano-of-second is never negative. The range check it performs cannot
      fail for seconds derived from a `long` count of microseconds. */
  function OfEpochSecond(seconds: int, nanoAdjustment: int): (r: Instant)
    ensures 0 <= r.nano < NanosPerSecond
    ensures r.epochSecond * NanosPerSecond + r.nano == seconds * NanosPerSecond + nanoAdjustment
  {
    Instant(seconds + nanoAdjustment / NanosPerSecond, nanoAdjustment % NanosPerSecond)
  }

  /** The start instant that `withStartTimestamp(micros)` stores. */
  function StartInstant(micros: Long): Instant {
    var p := ToEpochPair(micros);
    OfEpochSecond(p.seconds, p.nanos)
  }

  /** Microseconds since the epoch of an instant, rounded down. */
  function EpochMicros(i: Instant): int {
    i.epochSecond * MicrosPerSecond + i.nano / NanosPerMicro
  }

  /** The stored start instant is exactly `micros` microseconds after the
      epoch: nothing at or above microsecond granularity is lost. */
  lemma StartInstantRoundTrip(micros: Long)
    requires NanosFitLong(micros)
    ensures StartInstant(micros).epochSecond * NanosPerSecond + StartInstant(micros).nano == micros * NanosPerMicro
    ensures StartInstant(micros).nano % NanosPerMicro == 0
    ensures EpochMicros(StartInstant(micros)) == micros
  {
    EpochPairExact(micros);
    var p := ToEpochPair(micros);
    var i := StartInstant(micros);
    var a := p.nanos / NanosPerSecond;
    assert p.nanos == a * NanosPerSecond + i.nano;
    var k := p.nanos / NanosPerMicro;
    assert p.nanos == k * NanosPerMicro;
    assert i.nano == (k - a * MicrosPerSecond) * NanosPerMicro;
    assert i.nano / NanosPerMicro == k - a * MicrosPerSecond;
  }

  /** The example start time 1_500_000_123 microseconds. */
  lemma StartInstantExample()
    ensures StartInstant(1_500_000_123) == Instant(1500, 123_000)
    ensures EpochMicros(StartInstant(1_500_000_123)) == 1_500_000_123
  {
  }

  /** A negative timestamp is carried into the previous second. */
  lemma StartInstantNegativeExample()
    ensures ToEpochPair(-1) == EpochPair(0, -1000)
    ensures StartInstant(-1) == Instant(-1, 999_999_000)
  {
  }
}
