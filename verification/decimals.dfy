/** Fixed-point decimal arithmetic as Python's `decimal` module performs it for
    this application: values carry their own number of fractional digits, and
    `quantize(Decimal('0.01'), rounding=...)` rounds to whole cents with either
    ROUND_HALF_UP (ties away from zero) or the context default ROUND_HALF_EVEN. */
module Decimals {

  function Abs(x: int): nat {
    if x < 0 then -x else x
  }

  function Pow10(n: nat): (r: nat)
    ensures r >= 1
  {
    if n == 0 then 1 else 10 * Pow10(n - 1)
  }

  /** A decimal number `coef / 10^scale`. Like Python's Decimal it keeps its
      trailing zeros: Dec(150, 2) is 1.50, Dec(15, 1) is 1.5. */
  datatype Dec = Dec(coef: int, scale: nat) {
    predicate IsZero() { coef == 0 }
    predicate IsPositive() { coef > 0 }
  }

  /** Python's `Decimal` rounding modes used by the application. */
  datatype Rounding = HalfUp | HalfEven

  /** Reference definition of rounding n/d (d > 0) to an integer k: k*d is
      within half a unit of n, and on an exact tie the mode decides —
      HalfUp moves away from zero, HalfEven picks the even integer. */
  predicate IsRounding(mode: Rounding, n: int, d: int, k: int)
    requires d > 0
  {
    var e := Abs(n - k * d);
    2 * e < d ||
    (2 * e == d &&
      match mode
      case HalfUp => Abs(k * d) > Abs(n)
      case HalfEven => k % 2 == 0)
  }

  /** Rounds n/d to an integer in the given mode, symmetrically in the sign of n. */
  function Round(mode: Rounding, n: int, d: int): (k: int)
    requires d > 0
    ensures IsRounding(mode, n, d, k)
  {
    var q := Abs(n) / d;
    var rem := Abs(n) % d;
    var up := 2 * rem > d || (2 * rem == d && (mode.HalfUp? || q % 2 == 1));
    var m := if up then q + 1 else q;
    RoundMagnitude(mode, Abs(n), d, q, rem, up, m);
    if n < 0 then -m else m
  }

  /** The magnitude step of Round: m is q or q + 1 and is a rounding of a/d. */
  lemma RoundMagnitude(mode: Rounding, a: int, d: int, q: int, rem: int, up: bool, m: int)
    requires a >= 0 && d > 0 && q == a / d && rem == a % d
    requires up == (2 * rem > d || (2 * rem == d && (mode.HalfUp? || q % 2 == 1)))
    requires m == if up then q + 1 else q
    ensures IsRounding(mode, a, d, m) && IsRounding(mode, -a, d, -m)
  {
    var md := m * d;
    assert (-m) * d == -md;
    assert q * d + rem == a;
    if up {
      assert md == q * d + d;
      RoundingFromError(mode, a, d, m, d - rem);
    } else {
      assert md == q * d;
      RoundingFromError(mode, a, d, m, rem);
    }
  }

  /** Both signs at once: if m*d is e away from a >= 0, the roundings of a/d and
      -a/d are m and -m under the same tie rule. */
  lemma RoundingFromError(mode: Rounding, a: int, d: int, m: int, e: int)
    requires a >= 0 && d > 0 && m >= 0 && 0 <= e
    requires a - m * d == e || m * d - a == e
    requires 2 * e < d || (2 * e == d && match mode
                                         case HalfUp => m * d > a
                                         case HalfEven => m % 2 == 0)
    ensures IsRounding(mode, a, d, m) && IsRounding(mode, -a, d, -m)
  {
    var md := m * d;
    assert md >= 0;
    assert (-m) * d == -md;
    assert Abs(a - md) == e;
    assert Abs(-a - (-m) * d) == e;
    assert Abs(md) == md && Abs(a) == a;
    assert Abs((-m) * d) == md && Abs(-a) == a;
    assert (-m) % 2 == 0 <==> m % 2 == 0;
  }

  /** Two roundings of the same quotient in the same mode are equal: IsRounding
      pins down exactly one integer. */
  lemma RoundingUnique(mode: Rounding, n: int, d: int, k1: int, k2: int)
    requires d > 0
    requires IsRounding(mode, n, d, k1) && IsRounding(mode, n, d, k2)
    ensures k1 == k2
  {
    if k1 > k2 {
      NearbyRoundings(n, d, k1, k2);
      assert false;
    } else if k2 > k1 {
      NearbyRoundings(n, d, k2, k1);
      assert false;
    }
  }

  /** Two distinct integers within half a unit of n/d are adjacent and sit
      exactly on both sides of a tie. */
  lemma NearbyRoundings(n: int, d: int, hi: int, lo: int)
    requires d > 0 && hi > lo
    requires 2 * Abs(n - hi * d) <= d && 2 * Abs(n - lo * d) <= d
    ensures hi == lo + 1
    ensures 2 * (hi * d - n) == d && 2 * (n - lo * d) == d
  {
    var hd := hi * d;
    var ld := lo * d;
    assert -d <= 2 * (hd - n) <= d;
    assert -d <= 2 * (ld - n) <= d;
    var gap := GapProduct(hi, lo, d);
    assert hd - ld == gap;
    if hi - lo >= 2 {
      assert false;
    }
  }

  /** The distance between hi·d and lo·d is at least d, and exactly d only
      for neighbours. */
  lemma GapProduct(hi: int, lo: int, d: int) returns (gap: int)
    requires d > 0 && hi > lo
    ensures gap == hi * d - lo * d
    ensures gap >= d
    ensures hi - lo >= 2 ==> gap >= 2 * d
  {
    gap := hi * d - lo * d;
    var p := hi - lo;
    assert gap == p * d;
    if p >= 2 {
      assert p * d == (p - 2) * d + 2 * d;
      assert (p - 2) * d >= 0;
    } else {
      assert p == 1;
    }
  }

  /** The cents value of d, rounded to 0.01 in the given mode — Python's
      `d.quantize(Decimal('0.01'), rounding=mode)`. */
  function QuantizeCents(mode: Rounding, d: Dec): (cents: int)
    ensures IsRounding(mode, d.coef * 100, Pow10(d.scale), cents)
  {
    if d.scale >= 2 then
      var k := Round(mode, d.coef, Pow10(d.scale - 2));
      QuantizeFiner(mode, d.coef, d.scale, k);
      k
    else
      var k := d.coef * Pow10(2 - d.scale);
      QuantizeCoarser(mode, d.coef, d.scale);
      k
  }

  /** With two or more decimals, rounding to cents rounds away the extra
      digits. */
  lemma QuantizeFiner(mode: Rounding, coef: int, scale: nat, k: int)
    requires scale >= 2 && IsRounding(mode, coef, Pow10(scale - 2), k)
    ensures IsRounding(mode, coef * 100, Pow10(scale), k)
  {
    ScaleRounding(mode, coef, Pow10(scale - 2), k);
    Pow10Add(scale);
  }

  /** With fewer than two decimals, quantizing to cents only pads zeros. */
  lemma QuantizeCoarser(mode: Rounding, coef: int, scale: nat)
    requires scale < 2
    ensures IsRounding(mode, coef * 100, Pow10(scale), coef * Pow10(2 - scale))
  {
    if scale == 0 {
      assert Pow10(0) == 1 && Pow10(2) == 100;
      ExactRounding(mode, coef * 100, 1);
    } else {
      assert Pow10(1) == 10;
      assert coef * 100 == coef * 10 * 10;
      ExactRounding(mode, coef * 10, 10);
    }
  }

  /** An exact quotient is its own rounding in every mode. */
  lemma ExactRounding(mode: Rounding, k: int, d: int)
    requires d > 0
    ensures IsRounding(mode, k * d, d, k)
  {
    assert k * d - k * d == 0;
  }

  lemma Pow10Add(s: nat)
    requires s >= 2
    ensures Pow10(s) == 100 * Pow10(s - 2)
  {
    if s > 2 {
      Pow10Add(s - 1);
    }
  }

  /** Rounding is invariant under scaling numerator and denominator by 100. */
  lemma ScaleRounding(mode: Rounding, n: int, d: int, k: int)
    requires d > 0 && IsRounding(mode, n, d, k)
    ensures IsRounding(mode, n * 100, d * 100, k)
  {
    var kd := ScaledProduct(k, d);
    var e := n - kd;
    assert n * 100 - kd * 100 == e * 100;
    assert Abs(e * 100) == Abs(e) * 100;
    assert Abs(kd * 100) == Abs(kd) * 100;
    assert Abs(n * 100) == Abs(n) * 100;
  }

  /** For a non-negative n and an even divisor, adding half the divisor and
      dividing is the half-up rounding of n/d. */
  lemma HalfUpByOffset(n: int, d: int)
    requires n >= 0 && d > 0 && d % 2 == 0
    ensures IsRounding(HalfUp, n, d, (n + d / 2) / d)
  {
    var h := d / 2;
    var k := (n + h) / d;
    var rem := (n + h) % d;
    var kd := k * d;
    assert n + h == kd + rem;
    assert n - kd == rem - h;
    assert k >= 0 && kd >= 0;
    if 2 * Abs(n - kd) == d {
      assert rem == 0;
      assert Abs(kd) == n + h;
    }
  }

  /** Rounding is invariant under dividing numerator and denominator by 100. */
  lemma UnscaleRounding(mode: Rounding, n: int, d: int, k: int)
    requires d > 0 && IsRounding(mode, n * 100, d * 100, k)
    ensures IsRounding(mode, n, d, k)
  {
    var kd := ScaledProduct(k, d);
    var e := n - kd;
    assert n * 100 - kd * 100 == e * 100;
    assert Abs(e * 100) == Abs(e) * 100;
    assert Abs(kd * 100) == Abs(kd) * 100;
    assert Abs(n * 100) == Abs(n) * 100;
  }

  lemma ScaledProduct(k: int, d: int) returns (kd: int)
    ensures kd == k * d && k * (d * 100) == kd * 100
  {
    kd := k * d;
  }

  /** Python's `int(x / y)` on a non-zero y: division truncating toward zero. */
  function TruncDiv(x: int, y: int): (q: int)
    requires y > 0
    ensures Abs(q) * y <= Abs(x) < (Abs(q) + 1) * y
    ensures x >= 0 ==> q >= 0
    ensures x <= 0 ==> q <= 0
  {
    var a := Abs(x);
    var m := a / y;
    DivBounds(a, y, m);
    if x >= 0 then m else -m
  }

  /** The quotient of Euclidean division brackets the dividend. */
  lemma DivBounds(a: nat, y: int, m: int)
    requires y > 0 && m == a / y
    ensures m >= 0 && m * y <= a < (m + 1) * y
  {
    assert a == m * y + a % y;
    assert (m + 1) * y == m * y + y;
  }
}
