/** The clock of a streamed IVF file: ticks of the 90 kHz clock per frame, in binary64 as the streamer counts them. */
module VideoClock {
  import opened Binary64

  const NANOS_PER_SECOND := 1_000_000_000
  const GIGA: real := 1_000_000_000.0
  const TICKS: real := 90_000.0

  /** The seconds a frame lasts. */
  function Duration(denominator: nat, numerator: nat): (x: real)
    requires denominator > 0
    ensures x * denominator as real == numerator as real && x >= 0.0
  {
    assert numerator as real / denominator as real * denominator as real == numerator as real;
    numerator as real / denominator as real
  }

  /** The product of the rounded quotient and a second, cut off. */
  function NanosOf(x: real): nat
    requires x >= 0.0
  {
    Round(Round(x) * GIGA).Floor
  }

  /** Whole seconds and the fraction apart, then summed. */
  function Seconds(nanos: nat): (s: real)
    ensures s >= 0.0
  {
    Round((nanos / NANOS_PER_SECOND) as real + Round((nanos % NANOS_PER_SECOND) as real / GIGA))
  }

  function TicksOf(nanos: nat): nat {
    Round(TICKS * Seconds(nanos)).Floor
  }

  /** The frame duration, one thirtieth of a second where it would be none, in ticks. */
  function StepOf(x: real): nat
    requires x >= 0.0
  {
    TicksOf(if NanosOf(x) == 0 then NANOS_PER_SECOND / 30 else NanosOf(x))
  }

  /** What the streamer counts per frame under a header's timebase. */
  function TickStep(denominator: nat, numerator: nat): nat
    requires denominator > 0
  {
    StepOf(Duration(denominator, numerator))
  }

  // ---- how far rounding takes it ---------------------------------------

  /** Off by no more than one part in 2^53, or three, or five. */
  predicate Near(z: real, y: real) {
    -y <= TWO_53 * (z - y) <= y
  }

  predicate Near3(z: real, y: real) {
    -3.0 * y <= TWO_53 * (z - y) <= 3.0 * y
  }

  predicate Near5(z: real, y: real) {
    -5.0 * y <= TWO_53 * (z - y) <= 5.0 * y
  }

  lemma NanosNear(x: real)
    requires 0.0000000002 <= x
    ensures Near3(Round(Round(x) * GIGA), x * GIGA)
  {
    RelativeError(x);
    RelativeError(Round(x) * GIGA);
  }

  lemma NearSum(f: real, part: real, sec: real)
    requires Near(f, part) && part >= 0.0 && sec >= 0.0
    ensures Near(sec + f, sec + part)
    ensures f >= part / 2.0
  {
  }

  lemma NearChain(z: real, y: real, x: real)
    requires x >= 0.0 && Near(z, y) && Near(y, x)
    ensures Near3(z, x)
  {
  }

  lemma RoundedNear(y: real, x: real)
    requires x >= 0.0 && Near(y, x) && y >= 0.0000000001
    ensures Near3(Round(y), x)
  {
    RelativeError(y);
    NearChain(Round(y), y, x);
  }

  lemma SumNear(sec: real, part: real)
    requires sec == 0.0 || sec >= 1.0
    requires part == 0.0 || part >= 0.000000001
    requires sec > 0.0 || part > 0.0
    ensures Near3(Round(sec + Round(part)), sec + part)
  {
    RelativeError(part);
    NearSum(Round(part), part, sec);
    RoundedNear(sec + Round(part), sec + part);
  }

  lemma SplitNanos(nanos: nat)
    ensures nanos as real == GIGA * (nanos / NANOS_PER_SECOND) as real + (nanos % NANOS_PER_SECOND) as real
  {
    assert nanos == NANOS_PER_SECOND * (nanos / NANOS_PER_SECOND) + nanos % NANOS_PER_SECOND;
  }

  lemma SecondsNear(nanos: nat)
    requires nanos > 0
    ensures Near3(Seconds(nanos), nanos as real / GIGA)
  {
    SplitNanos(nanos);
    SumNear((nanos / NANOS_PER_SECOND) as real, (nanos % NANOS_PER_SECOND) as real / GIGA);
  }

  lemma TicksNear(nanos: nat)
    requires nanos > 0
    ensures Near5(Round(TICKS * Seconds(nanos)), TICKS * (nanos as real / GIGA))
  {
    SecondsNear(nanos);
    RelativeError(TICKS * Seconds(nanos));
  }

  // ---- the header's timebase -------------------------------------------

  /** What an IVF header can hold. */
  predicate IsTimebase(denominator: nat, numerator: nat) {
    0 < denominator < 0x1_0000_0000 && 0 < numerator < 0x1_0000_0000
  }

  lemma Cancels(a: real, b: real, d: real)
    requires d > 0.0
    ensures a * d <= b * d <==> a <= b
  {
  }

  lemma ScaledUp(c: real, x: real, d: real)
    ensures (c * x) * d == c * (x * d)
  {
  }

  lemma DurationRange(denominator: nat, numerator: nat)
    requires IsTimebase(denominator, numerator)
    ensures 0.0000000002 <= Duration(denominator, numerator) <= 4294967295.0
  {
    var d := denominator as real;
    assert 0.0000000002 * d <= numerator as real <= 4294967295.0 * d;
    Cancels(0.0000000002, Duration(denominator, numerator), d);
    Cancels(Duration(denominator, numerator), 4294967295.0, d);
  }

  /** A frame of t ticks lasts t parts in 90000 of a second. */
  lemma DurationOfTicks(denominator: nat, numerator: nat, ticks: nat)
    requires denominator > 0 && 90_000 * numerator == ticks * denominator
    ensures TICKS * Duration(denominator, numerator) == ticks as real
  {
    var d, x := denominator as real, Duration(denominator, numerator);
    ScaledUp(TICKS, x, d);
    WholeProduct(ticks, denominator);
    Cancels(TICKS * x, ticks as real, d);
    Cancels(ticks as real, TICKS * x, d);
  }

  // ---- when there is no duration ---------------------------------------

  /** One part in 10^9 is rounded up. */
  lemma NanosecondRoundsUp()
    ensures Round(0.000000001) >= 0.000000001
  {
    var k := LEAST;
    FineBy8(0.000000001, k);
    FineBy8(0.000000256, k - 8);
    FineBy8(0.000065536, k - 16);
    FineBy8(0.016777216, k - 24);
    FineBy8(4.294967296, k - 32);
    FineBy8(1099.511627776, k - 40);
    FineBy8(281474.976710656, k - 48);
    FineBy8(72057594.037927936, k - 56);
    FineBy8(18446744073.709551616, k - 64);
    FineBy8(4722366482869.645213696, k - 72);
    assert Fine(1208925819614629.174706176, k - 80) == Fine(4835703278458516.698824704, k - 82) / 4.0;
  }

  /** The default duration steps in exactly where a frame is shorter than a nanosecond. */
  lemma FallsBackIff(denominator: nat, numerator: nat)
    requires IsTimebase(denominator, numerator)
    ensures NanosOf(Duration(denominator, numerator)) == 0 <==> NANOS_PER_SECOND * numerator < denominator
  {
    var x := Duration(denominator, numerator);
    DurationRange(denominator, numerator);
    NanosNear(x);
    NanosApart(denominator, numerator);
    if NANOS_PER_SECOND * numerator == denominator {
      NanosecondRoundsUp();
      NoLess(Round(x) * GIGA, 1);
    }
  }

  lemma NanosApart(denominator: nat, numerator: nat)
    requires IsTimebase(denominator, numerator)
    ensures var y, n := GIGA * Duration(denominator, numerator), NANOS_PER_SECOND * numerator;
            if n < denominator then y <= 0.9999999998 else if n > denominator then y >= 1.0000000002 else y == 1.0
  {
    var d, x := denominator as real, Duration(denominator, numerator);
    var y := GIGA * x;
    ScaledUp(GIGA, x, d);
    var n := NANOS_PER_SECOND * numerator;
    assert y * d == n as real;
    if n < denominator {
      JustBelow(y, d);
    } else if n > denominator {
      JustAbove(y, d);
    } else {
      Cancels(y, 1.0, d);
      Cancels(1.0, y, d);
    }
  }

  lemma Gap(g: real, d: real, c: real, e: real)
    requires 0.0 < d <= c && g > 0.0 && g * d >= 1.0 && e > 0.0 && e * c <= 1.0
    ensures g >= e
  {
    Cancels(d, c, e);
    assert e * d <= 1.0;
    Cancels(e, g, d);
    Cancels(g, e, d);
  }

  lemma JustBelow(y: real, d: real)
    requires 0.0 < d <= 4294967295.0 && y * d <= d - 1.0
    ensures y <= 0.9999999998
  {
    assert (1.0 - y) * d == d - y * d;
    Cancels(1.0, y, d);
    Gap(1.0 - y, d, 4294967295.0, 0.0000000002);
  }

  lemma JustAbove(y: real, d: real)
    requires 0.0 < d <= 4294967295.0 && y * d >= d + 1.0
    ensures y >= 1.0000000002
  {
    assert (y - 1.0) * d == y * d - d;
    Cancels(y, 1.0, d);
    Gap(y - 1.0, d, 4294967295.0, 0.0000000002);
  }

  /** And then a frame counts one tick short of a thirtieth of a second. */
  lemma FallbackStep(denominator: nat, numerator: nat)
    requires IsTimebase(denominator, numerator) && NANOS_PER_SECOND * numerator < denominator
    ensures TickStep(denominator, numerator) == 2999
  {
    FallsBackIff(denominator, numerator);
    TicksNear(33_333_333);
  }

  // ---- the step --------------------------------------------------------

  lemma CutOffTwice(x: real, nanos: nat)
    requires 0.0000000002 <= x <= 4294967295.0 && nanos == NanosOf(x) > 0
    ensures -1.5 < TicksOf(nanos) as real - TICKS * x < 0.5
  {
    NanosNear(x);
    TicksNear(nanos);
  }

  /** The step of every other timebase is within three halves of a tick, and no more than half a tick too long. */
  lemma StepIsNear(denominator: nat, numerator: nat)
    requires IsTimebase(denominator, numerator) && NANOS_PER_SECOND * numerator >= denominator
    ensures -1.5 < TickStep(denominator, numerator) as real - TICKS * Duration(denominator, numerator) < 0.5
  {
    DurationRange(denominator, numerator);
    FallsBackIff(denominator, numerator);
    CutOffTwice(Duration(denominator, numerator), NanosOf(Duration(denominator, numerator)));
  }

  /** A frame that lasts whole ticks: as many, or one fewer. */
  lemma WholeTicks(denominator: nat, numerator: nat, ticks: nat)
    requires IsTimebase(denominator, numerator) && ticks > 0 && 90_000 * numerator == ticks * denominator
    ensures ticks - 1 <= TickStep(denominator, numerator) <= ticks
  {
    TicksAreNanos(denominator, numerator, ticks);
    DurationOfTicks(denominator, numerator, ticks);
    StepIsNear(denominator, numerator);
  }

  lemma TicksAreNanos(denominator: nat, numerator: nat, ticks: nat)
    requires denominator > 0 && ticks > 0 && 90_000 * numerator == ticks * denominator
    ensures NANOS_PER_SECOND * numerator >= denominator
  {
    AtLeastOnce(ticks, denominator);
  }

  lemma AtLeastOnce(k: nat, d: nat)
    requires k > 0
    ensures k * d >= d
  {
  }

  /** Nine ticks are 100000 nanoseconds: a nanosecond is cut off wherever the frame does not last whole ones. */
  lemma NanosCutOff(x: real, ticks: nat)
    requires 0.0000000002 <= x && TICKS * x == ticks as real && ticks < 0x1_0000_0000 && ticks % 9 != 0
    ensures 100_000 * ticks - 9 < 9 * NanosOf(x) < 100_000 * ticks
  {
    NanosNear(x);
    var q, r := ticks / 9, ticks % 9;
    assert ticks == 9 * q + r;
    assert 9.0 * (x * GIGA) == 100_000.0 * ticks as real;
  }

  /** A frame of whole ticks and whole nanoseconds. */
  predicate LastsWhole(denominator: nat, numerator: nat, ticks: nat, nanos: nat) {
    && IsTimebase(denominator, numerator) && 90_000 * numerator == ticks * denominator
    && 9 * nanos == 100_000 * ticks && ticks < 0x1_0000_0000
  }

  lemma WholeDuration(denominator: nat, numerator: nat, ticks: nat, nanos: nat)
    requires LastsWhole(denominator, numerator, ticks, nanos)
    ensures var x := Duration(denominator, numerator);
            && TICKS * x == ticks as real && GIGA * x == nanos as real && x == nanos as real / GIGA
            && 0.0000000002 <= x && ticks > 1 && nanos > 1
  {
    DurationOfTicks(denominator, numerator, ticks);
    DurationRange(denominator, numerator);
  }

  lemma NanosOfWhole(x: real, nanos: nat)
    requires 0.0000000002 <= x && GIGA * x == nanos as real && nanos < 0x1_0000_0000_0000
    ensures NanosOf(x) == if Round(Round(x) * GIGA) >= nanos as real then nanos else nanos - 1
  {
    NanosNear(x);
  }

  /** Whatever is cut off there costs the tick. */
  lemma ShortOfNanos(nanos: nat, ticks: nat)
    requires 0 < ticks < 0x1_0000_0000 && nanos > 0
    requires 100_000 * ticks - 9 <= 9 * nanos < 100_000 * ticks
    ensures TicksOf(nanos) == ticks - 1
  {
    TicksNear(nanos);
  }

  lemma EnoughNanos(nanos: nat, ticks: nat)
    requires 0 < ticks < 0x1_0000_0000 && 9 * nanos == 100_000 * ticks
    ensures TicksOf(nanos) == ticks <==> Round(TICKS * Seconds(nanos)) >= ticks as real
  {
    TicksNear(nanos);
  }

  /** Where nine does not divide the ticks, one is always lost. */
  lemma OneTickShort(denominator: nat, numerator: nat, ticks: nat)
    requires IsTimebase(denominator, numerator) && 90_000 * numerator == ticks * denominator
    requires ticks % 9 != 0 && ticks < 0x1_0000_0000
    ensures TickStep(denominator, numerator) == ticks - 1
  {
    var x := Duration(denominator, numerator);
    DurationOfTicks(denominator, numerator, ticks);
    DurationRange(denominator, numerator);
    NanosCutOff(x, ticks);
    ShortOfNanos(NanosOf(x), ticks);
  }

  lemma ProductsDecide(x: real, ticks: nat, nanos: nat)
    requires 0.0000000002 <= x && GIGA * x == nanos as real && 9 * nanos == 100_000 * ticks && 1 < ticks < 0x1_0000_0000
    ensures StepOf(x) == ticks <==> Round(Round(x) * GIGA) >= nanos as real && Round(TICKS * Seconds(nanos)) >= ticks as real
  {
    NanosOfWhole(x, nanos);
    if NanosOf(x) == nanos {
      EnoughNanos(nanos, ticks);
    } else {
      ShortOfNanos(NanosOf(x), ticks);
    }
  }

  lemma NanosReachIff(x: real, nanos: nat)
    requires 0.0000000002 <= x && GIGA * x == nanos as real && 1 < nanos < 0x1_0000_0000_0000
    ensures Round(Round(x) * GIGA) >= nanos as real <==> GIGA * (x - Round(x)) <= HalfBelow(nanos)
  {
    RelativeError(x);
    RoundReachesIff(Round(x) * GIGA, nanos);
  }

  lemma TicksReachIff(x: real, nanos: nat, ticks: nat)
    requires 1 < ticks < 0x1_0000_0000 && TICKS * x == ticks as real && x == nanos as real / GIGA
    ensures Round(TICKS * Seconds(nanos)) >= ticks as real <==> TICKS * (x - Seconds(nanos)) <= HalfBelow(ticks)
  {
    SecondsNear(nanos);
    RoundReachesIff(TICKS * Seconds(nanos), ticks);
  }

  lemma ShortfallsDecide(x: real, ticks: nat, nanos: nat)
    requires 0.0000000002 <= x && GIGA * x == nanos as real && TICKS * x == ticks as real
    requires 9 * nanos == 100_000 * ticks && 1 < ticks < 0x1_0000_0000
    ensures StepOf(x) == ticks
            <==> GIGA * (x - Round(x)) <= HalfBelow(nanos) && TICKS * (x - Seconds(nanos)) <= HalfBelow(ticks)
  {
    ProductsDecide(x, ticks, nanos);
    NanosReachIff(x, nanos);
    TicksReachIff(x, nanos, ticks);
  }

  /**
    Where nine does, none is lost exactly if the quotient of the header's fields, and the seconds of
    the nanoseconds, fall short of the duration by no more than the products round up again.
   */
  lemma MultipleOfNineIff(denominator: nat, numerator: nat, ticks: nat, nanos: nat)
    requires LastsWhole(denominator, numerator, ticks, nanos)
    ensures var x := Duration(denominator, numerator);
            TickStep(denominator, numerator) == ticks
            <==> GIGA * (x - Round(x)) <= HalfBelow(nanos) && TICKS * (x - Seconds(nanos)) <= HalfBelow(ticks)
  {
    WholeDuration(denominator, numerator, ticks, nanos);
    ShortfallsDecide(Duration(denominator, numerator), ticks, nanos);
  }

  /** Below a second the seconds of the nanoseconds are the quotient of the header's fields again. */
  lemma SecondsOfShort(denominator: nat, numerator: nat, ticks: nat, nanos: nat)
    requires LastsWhole(denominator, numerator, ticks, nanos) && numerator < denominator
    ensures Seconds(nanos) == Round(Duration(denominator, numerator))
  {
    var x := Duration(denominator, numerator);
    WholeDuration(denominator, numerator, ticks, nanos);
    ShortIsFew(denominator, numerator, ticks);
    RoundIsRepresentable(x);
    KeepsRepresentable(Round(x));
  }

  /** So frames shorter than a second count every tick where the quotient is rounded up, or is a binary fraction. */
  lemma RoundedUpIsExact(denominator: nat, numerator: nat, ticks: nat, nanos: nat)
    requires LastsWhole(denominator, numerator, ticks, nanos) && numerator < denominator
    requires Round(Duration(denominator, numerator)) >= Duration(denominator, numerator)
    ensures TickStep(denominator, numerator) == ticks
  {
    WholeDuration(denominator, numerator, ticks, nanos);
    MultipleOfNineIff(denominator, numerator, ticks, nanos);
    SecondsOfShort(denominator, numerator, ticks, nanos);
  }

  lemma ShortIsFew(denominator: nat, numerator: nat, ticks: nat)
    requires 0 < numerator < denominator && 90_000 * numerator == ticks * denominator
    ensures 0 < ticks < 90_000
  {
    CancelsWhole(ticks, 90_000, denominator);
  }

  lemma CancelsWhole(a: nat, b: nat, d: nat)
    requires a * d < b * d
    ensures a < b
  {
  }

  lemma RoundOf11()
    ensures Round(0.011) == 6341068275337658.0 / 576460752303423488.0
  {
    var k := LEAST;
    FineBy8(0.011, k);
    FineBy8(2.816, k - 8);
    FineBy8(720.896, k - 16);
    FineBy8(184549.376, k - 24);
    FineBy8(47244640.256, k - 32);
    FineBy8(12094627905.536, k - 40);
    FineBy8(3096224743817.216, k - 48);
    assert Fine(792633534417207.296, k - 56) == Fine(3170534137668829.184, k - 58) / 4.0;
    assert Fine(3170534137668829.184, k - 58) == Fine(6341068275337658.368, k - 59) / 2.0;
  }

  /** Eleven thousandths of a second are 990 ticks, a multiple of nine, and count as 989. */
  lemma MultipleOfNineCanLoseOne()
    ensures TickStep(1000, 11) == 989
  {
    assert Duration(1000, 11) == 0.011;
    RoundOf11();
    ProductsDecide(0.011, 990, 11_000_000);
    SecondsOfShort(1000, 11, 990, 11_000_000);
    FallsShort(TICKS * Round(0.011));
    WholeTicks(1000, 11, 990);
  }

  lemma FallsShort(z: real)
    requires z == TICKS * (6341068275337658.0 / 576460752303423488.0)
    ensures Round(z) < 990.0
  {
    var y := 8708132091985919.0 / 8796093022208.0;
    Raised8(-43);
    Raised8(-35);
    Raised8(-27);
    Raised8(-19);
    Raised8(-11);
    assert Pow2(-3) == 0.125;
    assert IsScaled(y, 8708132091985919, -43);
    RoundIsNearest(z, y);
  }

  lemma RoundOf25th()
    ensures Round(0.04) >= 0.04
  {
    var k := LEAST;
    FineBy8(0.04, k);
    FineBy8(10.24, k - 8);
    FineBy8(2621.44, k - 16);
    FineBy8(671088.64, k - 24);
    FineBy8(171798691.84, k - 32);
    FineBy8(43980465111.04, k - 40);
    FineBy8(11258999068426.24, k - 48);
    assert Fine(2882303761517117.44, k - 56) == Fine(5764607523034234.88, k - 57) / 2.0;
  }

  /** Twenty-five frames a second are 3600 ticks apiece, and count as that. */
  lemma MultipleOfNineCanBeExact()
    ensures TickStep(25, 1) == 3600
  {
    assert Duration(25, 1) == 0.04;
    RoundOf25th();
    RoundedUpIsExact(25, 1, 3600, 40_000_000);
  }

  /** A recording has a timebase of one tick, which comes out as none. */
  lemma RecordingStepIsZero()
    ensures TickStep(90_000, 1) == 0
  {
    OneTickShort(90_000, 1, 1);
  }
}
