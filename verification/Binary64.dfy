/** Rounding to binary64: to the nearest value, ties to the even one (IEEE 754, section 4.3.1).
    Non-negative finite values only; whatever is rounded here stays far below the largest. */
module Binary64 {

  const TWO_52: real := 4503599627370496.0
  const TWO_53: real := 9007199254740992.0

  /** The least distance between two values is two to the minus this. */
  const LEAST := 1074

  /** The whole number nearest to x, the even one of two. */
  function ToEven(x: real): int {
    var n := x.Floor;
    var part := x - n as real;
    if part < 0.5 || (part == 0.5 && n % 2 == 0) then n else n + 1
  }

  /** Rounding below 2^53: doubled until it has 53 whole bits, k times at the most. */
  function Fine(x: real, k: nat): (y: real)
    requires x >= 0.0
    ensures y >= 0.0
    decreases k, x.Floor
  {
    if x < TWO_52 && k > 0 then Fine(2.0 * x, k - 1) / 2.0 else ToEven(x) as real
  }

  function Round(x: real): (y: real)
    requires x >= 0.0
    ensures y >= 0.0
    decreases x.Floor
  {
    if x >= TWO_53 then 2.0 * Round(x / 2.0) else Fine(x, LEAST)
  }

  // ---- rounding is to the nearest --------------------------------------

  function Pow2(e: int): (p: real)
    ensures p > 0.0
    decreases if e < 0 then -e else e
  {
    if e == 0 then 1.0 else if e > 0 then 2.0 * Pow2(e - 1) else Pow2(e + 1) / 2.0
  }

  lemma Doubles(e: int)
    ensures Pow2(e + 1) == 2.0 * Pow2(e)
  {
  }

  lemma Raised8(e: int)
    ensures Pow2(e + 8) == 256.0 * Pow2(e)
  {
    Doubles(e);
    Doubles(e + 1);
    Doubles(e + 2);
    Doubles(e + 3);
    Doubles(e + 4);
    Doubles(e + 5);
    Doubles(e + 6);
    Doubles(e + 7);
  }

  /** m steps of two to the e, for an m of 53 bits. */
  predicate IsScaled(y: real, m: int, e: int) {
    0 <= m && m as real <= TWO_53 && y == m as real * Pow2(e)
  }

  /** The binary64 values. */
  ghost predicate Representable(y: real) {
    exists m, e :: -LEAST <= e && IsScaled(y, m, e)
  }

  lemma Doubled(y: real, m: int, e: int)
    ensures IsScaled(y, m, e) <==> IsScaled(2.0 * y, m, e + 1)
  {
    Doubles(e);
    assert m as real * (2.0 * Pow2(e)) == 2.0 * (m as real * Pow2(e));
  }

  function Distance(a: real, b: real): real {
    if a <= b then b - a else a - b
  }

  lemma NearestWhole(x: real, k: int)
    ensures Distance(ToEven(x) as real, x) <= Distance(k as real, x)
  {
    var n := x.Floor;
    if k <= n {
      assert k as real <= n as real <= x;
    } else {
      assert n as real + 1.0 <= k as real;
    }
  }

  lemma {:induction false} WholeFrom(e: nat) returns (w: nat)
    ensures Pow2(e) == w as real
  {
    if e == 0 {
      w := 1;
    } else {
      w := WholeFrom(e - 1);
      w := 2 * w;
    }
  }

  lemma {:induction false} SmallBelow(e: int)
    requires e < 0
    ensures Pow2(e) <= 0.5
    decreases -e
  {
    Doubles(e);
    if e < -1 {
      SmallBelow(e + 1);
    }
  }

  lemma ScaledIsWhole(y: real, m: int, e: int) returns (k: int)
    requires IsScaled(y, m, e) && e >= 0
    ensures y == k as real
  {
    var w := WholeFrom(e);
    WholeProduct(m, w);
    k := m * w;
  }

  lemma ScaledIsLow(y: real, m: int, e: int)
    requires IsScaled(y, m, e) && e < 0
    ensures y <= TWO_52
  {
    SmallBelow(e);
    AtMostHalf(m as real, Pow2(e));
  }

  /** From 2^52 to 2^53 the values are the whole numbers, and no finer one is above 2^52. */
  lemma NearestAtScale(x: real, y: real, m: int, e: int)
    requires 0.0 <= x < TWO_53 && IsScaled(y, m, e) && (e >= 0 || x >= TWO_52)
    ensures Distance(ToEven(x) as real, x) <= Distance(y, x)
  {
    if e >= 0 {
      var k := ScaledIsWhole(y, m, e);
      NearestWhole(x, k);
    } else {
      ScaledIsLow(y, m, e);
      NearestWhole(x, 4503599627370496);
    }
  }

  lemma WholeProduct(m: int, w: int)
    ensures (m * w) as real == m as real * w as real
  {
  }

  lemma AtMostHalf(m: real, p: real)
    requires 0.0 <= m <= TWO_53 && 0.0 < p <= 0.5
    ensures m * p <= TWO_52
  {
    assert m * p <= m * 0.5;
  }

  lemma {:induction false} FineIsNearest(x: real, k: nat, y: real, m: int, e: int)
    requires 0.0 <= x < TWO_53 && IsScaled(y, m, e) && 0 <= e + k
    ensures Distance(Fine(x, k), x) <= Distance(y, x)
    decreases k
  {
    if x < TWO_52 && k > 0 {
      Doubled(y, m, e);
      FineIsNearest(2.0 * x, k - 1, 2.0 * y, m, e + 1);
    } else {
      NearestAtScale(x, y, m, e);
    }
  }

  lemma {:induction false} CoarseIsNearest(x: real, y: real, m: int, e: int)
    requires x >= TWO_52 && IsScaled(y, m, e)
    ensures Distance(Round(x), x) <= Distance(y, x)
    decreases x.Floor
  {
    if x >= TWO_53 {
      Doubled(y / 2.0, m, e - 1);
      CoarseIsNearest(x / 2.0, y / 2.0, m, e - 1);
    } else {
      NearestAtScale(x, y, m, e);
    }
  }

  /** No binary64 value lies nearer. */
  lemma RoundIsNearest(x: real, y: real)
    requires x >= 0.0 && Representable(y)
    ensures Distance(Round(x), x) <= Distance(y, x)
  {
    var m, e :| -LEAST <= e && IsScaled(y, m, e);
    if x >= TWO_52 {
      CoarseIsNearest(x, y, m, e);
    } else {
      FineIsNearest(x, LEAST, y, m, e);
    }
  }

  lemma {:induction false} FineIsScaled(x: real, k: nat) returns (m: int, e: int)
    requires 0.0 <= x < TWO_53
    ensures IsScaled(Fine(x, k), m, e) && 0 <= e + k
    decreases k
  {
    if x < TWO_52 && k > 0 {
      m, e := FineIsScaled(2.0 * x, k - 1);
      e := e - 1;
      Doubled(Fine(x, k), m, e);
    } else {
      m, e := ToEven(x), 0;
    }
  }

  lemma {:induction false} RoundIsScaled(x: real) returns (m: int, e: int)
    requires x >= 0.0
    ensures IsScaled(Round(x), m, e) && -LEAST <= e
    decreases x.Floor
  {
    if x >= TWO_53 {
      m, e := RoundIsScaled(x / 2.0);
      Doubled(Round(x / 2.0), m, e);
      e := e + 1;
    } else {
      m, e := FineIsScaled(x, LEAST);
    }
  }

  lemma RoundIsRepresentable(x: real)
    requires x >= 0.0
    ensures Representable(Round(x))
  {
    var m, e := RoundIsScaled(x);
  }

  lemma KeepsRepresentable(x: real)
    requires x >= 0.0 && Representable(x)
    ensures Round(x) == x
  {
    RoundIsNearest(x, x);
  }

  // ---- the error -------------------------------------------------------

  /** The least value that k doublings bring to 2^52. */
  function Normal(k: nat): real {
    if k == 0 then TWO_52 else Normal(k - 1) / 2.0
  }

  lemma {:induction false} FineError(x: real, k: nat)
    requires Normal(k) <= x < TWO_53
    ensures x >= 0.0 && -x <= TWO_53 * (Fine(x, k) - x) <= x
    decreases k
  {
    NormalIsPositive(k);
    if x < TWO_52 && k > 0 {
      FineError(2.0 * x, k - 1);
    }
  }

  lemma {:induction false} NormalIsPositive(k: nat)
    ensures Normal(k) > 0.0
  {
    if k > 0 {
      NormalIsPositive(k - 1);
    }
  }

  lemma {:induction false} NormalFalls(j: nat, k: nat)
    requires j <= k
    ensures 0.0 < Normal(k) <= Normal(j)
    decreases k - j
  {
    if j < k {
      NormalFalls(j, k - 1);
    } else {
      NormalIsPositive(k);
    }
  }

  lemma NormalBy8(k: nat)
    ensures Normal(k + 8) == Normal(k) / 256.0
  {
    assert Normal(k + 4) == Normal(k) / 16.0 by {
      assert Normal(k + 2) == Normal(k) / 4.0;
    }
    assert Normal(k + 6) == Normal(k) / 64.0;
  }

  lemma NanosAreNormal()
    ensures Normal(LEAST) <= 0.0000000001
  {
    NormalBy8(0);
    NormalBy8(8);
    NormalBy8(16);
    NormalBy8(24);
    NormalBy8(32);
    NormalBy8(40);
    NormalBy8(48);
    NormalBy8(56);
    NormalBy8(64);
    NormalBy8(72);
    NormalBy8(80);
    NormalFalls(88, LEAST);
  }

  /** The relative error of nought and of all that is not tiny. */
  lemma {:induction false} RelativeError(x: real)
    requires x == 0.0 || x >= 0.0000000001
    ensures -x <= TWO_53 * (Round(x) - x) <= x
    decreases x.Floor
  {
    if x == 0.0 {
      assert IsScaled(0.0, 0, 0);
      KeepsRepresentable(0.0);
    } else if x >= TWO_53 {
      RelativeError(x / 2.0);
    } else {
      NanosAreNormal();
      FineError(x, LEAST);
    }
  }

  // ---- what is rounded up to a whole number ----------------------------

  /** The greatest power of two below n, from w on. */
  function PowerBelow(n: nat, w: nat): (p: nat)
    requires 0 < w < n
    ensures w <= p < n <= 2 * p
    decreases n - w
  {
    if 2 * w < n then PowerBelow(n, 2 * w) else w
  }

  /** Half the distance from n down to the next binary64 value. */
  function HalfBelow(n: nat): real
    requires n > 1
  {
    PowerBelow(n, 1) as real / TWO_53
  }

  lemma {:induction false} PowerIsNormal(n: nat, w: nat, j: nat) returns (i: nat)
    requires 0 < w < n <= 0x10_0000_0000_0000 && Normal(j) == w as real
    ensures i <= j && Normal(i) == PowerBelow(n, w) as real
    decreases n - w
  {
    if 2 * w < n {
      assert j > 0;
      i := PowerIsNormal(n, 2 * w, j - 1);
    } else {
      i := j;
    }
  }

  lemma NormalIsOne()
    ensures Normal(52) == 1.0
  {
    NormalBy8(0);
    NormalBy8(8);
    NormalBy8(16);
    NormalBy8(24);
    NormalBy8(32);
    NormalBy8(40);
    assert Normal(50) == 4.0;
  }

  lemma EvenReaches(x: real, n: nat)
    requires 0.0 <= x < n as real && n % 2 == 0
    ensures ToEven(x) as real >= n as real <==> n as real - x <= 0.5
  {
    var whole := x.Floor;
    assert whole <= n - 1;
    if whole == n - 1 {
      assert whole % 2 == 1;
    } else {
      assert x < n as real - 1.0 && ToEven(x) <= n - 1;
    }
  }

  lemma {:induction false} FineReaches(x: real, k: nat, j: nat, n: nat)
    requires j <= k && Normal(j) <= x < n as real <= 2.0 * Normal(j) && (j > 0 || n % 2 == 0)
    ensures x >= 0.0 && (Fine(x, k) >= n as real <==> n as real - x <= Normal(j) / TWO_53)
    decreases j
  {
    NormalIsPositive(j);
    if j > 0 {
      NormalFalls(1, j);
      assert Normal(1) == TWO_52 / 2.0 && Normal(j - 1) == 2.0 * Normal(j);
      FineReaches(2.0 * x, k - 1, j - 1, 2 * n);
      assert Fine(x, k) == Fine(2.0 * x, k - 1) / 2.0;
    } else {
      EvenReaches(x, n);
    }
  }

  /** A value just below n is rounded up to it exactly from half the distance on; ties go to n, which is even. */
  lemma RoundReachesIff(z: real, n: nat)
    requires 1 < n < 0x10_0000_0000_0000 && z > n as real - 1.0
    ensures Round(z) >= n as real <==> n as real - z <= HalfBelow(n)
  {
    if z >= n as real {
      NoLess(z, n);
    } else {
      NormalIsOne();
      var j := PowerIsNormal(n, 1, 52);
      FineReaches(z, LEAST, j, n);
    }
  }

  lemma NoLess(x: real, n: nat)
    requires x >= n as real && n < 0x20_0000_0000_0000
    ensures Round(x) >= n as real
  {
    assert Pow2(0) == 1.0;
    assert IsScaled(n as real, n, 0);
    RoundIsNearest(x, n as real);
  }

  // ---- rounding a given value ------------------------------------------

  lemma FineBy8(x: real, k: nat)
    requires 0.0 <= 128.0 * x < TWO_52 && k >= 8
    ensures Fine(x, k) == Fine(256.0 * x, k - 8) / 256.0
  {
    assert Fine(x, k) == Fine(4.0 * x, k - 2) / 4.0;
    assert Fine(4.0 * x, k - 2) == Fine(16.0 * x, k - 4) / 4.0;
    assert Fine(16.0 * x, k - 4) == Fine(64.0 * x, k - 6) / 4.0;
    assert Fine(64.0 * x, k - 6) == Fine(256.0 * x, k - 8) / 4.0;
  }
}
