/**
 * The part of IEEE 754 binary64 (Java's `double`) that the integer arm of
 * the dispatch layer depends on: how an int becomes a double (JLS 5.1.2),
 * how a double becomes an int again (JLS 5.1.3), and what correct rounding
 * lets one conclude about `Math.sqrt`, `1.0 / x` and `Math.atan2` when
 * their arguments are int values.
 *
 * A double is seen by its value: NaN, the two infinities, negative zero,
 * or a finite value (positive zero is `Finite(0.0)`). The arithmetic
 * itself is not defined here; the dispatch layer takes it as a parameter,
 * and the predicates named `...Law` below state, one argument at a time,
 * the guarantees Java gives for it.
 */
module JavaDouble {
  import opened JavaInt

  datatype Ieee = NaN | PosInf | NegInf | NegZero | Finite(v: real)

  /** Unit roundoff of binary64, 2^-53: round-to-nearest is off by at most this relative amount. */
  const U: real := 1.0 / 9007199254740992.0
  /** Bounds on the square of a correctly rounded result divided by the square of the exact one. */
  const LOW: real := (1.0 - U) * (1.0 - U)
  const HIGH: real := (1.0 + U) * (1.0 + U)
  /** Math.PI, the double nearest to pi, written out exactly. */
  const PI: real := 884279719003555.0 / 281474976710656.0
  /** The distance from Math.PI to the next larger double, 2^-51. */
  const PI_ULP: real := 1.0 / 2251799813685248.0
  /** 2^32 and 2^-32: reciprocals of magnitudes in between are normal doubles. */
  const TWO32: real := 4294967296.0
  const INV_TWO32: real := 1.0 / 4294967296.0

  /** Widening an int to double (JLS 5.1.2) is exact; 0 becomes positive zero. */
  function FromInt(i: Int32): (d: Ieee)
    ensures d.Finite? && d.v == i as real
  {
    Finite(i as real)
  }

  /** The real x rounded toward zero to an integer. */
  function Trunc(x: real): (t: int)
    ensures x >= 0.0 ==> 0 <= t && t as real <= x < t as real + 1.0
    ensures x < 0.0 ==> t <= 0 && t as real - 1.0 < x <= t as real
  {
    if x >= 0.0 then x.Floor else -((-x).Floor)
  }

  /**
   * Narrowing a double to int (JLS 5.1.3): NaN becomes 0; otherwise the value
   * is rounded toward zero, and a result outside int range becomes
   * MIN_VALUE or MAX_VALUE, the infinities included.
   */
  function Narrow(d: Ieee): (r: Int32)
    ensures d.NaN? || d.NegZero? ==> r == 0
    ensures d.PosInf? ==> r == MAX_VALUE
    ensures d.NegInf? ==> r == MIN_VALUE
    ensures d.Finite? && MIN_VALUE as real <= d.v < MAX_VALUE as real + 1.0 ==> r == Trunc(d.v)
    ensures d.Finite? && d.v >= MAX_VALUE as real + 1.0 ==> r == MAX_VALUE
    ensures d.Finite? && d.v < MIN_VALUE as real ==> r == MIN_VALUE
  {
    match d
    case NaN => 0
    case NegZero => 0
    case PosInf => MAX_VALUE
    case NegInf => MIN_VALUE
    case Finite(v) =>
      var t := Trunc(v);
      if t < MIN_VALUE then MIN_VALUE else if t > MAX_VALUE then MAX_VALUE else t
  }

  /** The integer square root: the largest r with r * r <= n. */
  function Isqrt(n: nat): (r: nat)
    ensures r * r <= n < (r + 1) * (r + 1)
  {
    if n < 4 then (if n == 0 then 0 else 1)
    else
      var s := Isqrt(n / 4);
      IsqrtStep(n, s);
      if (2 * s + 1) * (2 * s + 1) <= n then 2 * s + 1 else 2 * s
  }

  /** Doubling the root of n / 4 brackets the root of n. */
  lemma IsqrtStep(n: nat, s: nat)
    requires s * s <= n / 4 < (s + 1) * (s + 1)
    ensures (2 * s) * (2 * s) <= n < (2 * s + 2) * (2 * s + 2)
  {
    var m := n / 4;
    assert 4 * m <= n < 4 * m + 4;
    assert (2 * s) * (2 * s) == 4 * (s * s);
    assert (2 * s + 2) * (2 * s + 2) == 4 * ((s + 1) * (s + 1));
    assert m + 1 <= (s + 1) * (s + 1);
  }

  /**
   * What Math.sqrt guarantees at the int value n: NaN for a negative
   * argument, positive zero for zero, and otherwise the correctly rounded
   * root. Correct rounding keeps the result within a relative distance U
   * of the exact root, which is stated on squares so that no real square
   * root is needed, and returns an exactly representable root (the root of a
   * perfect square) exactly.
   */
  predicate SqrtLaw(n: int, r: Ieee) {
    if n < 0 then r == NaN
    else if n == 0 then r == Finite(0.0)
    else
      && r.Finite? && r.v > 0.0
      && n as real * LOW <= r.v * r.v <= n as real * HIGH
      && (Isqrt(n) * Isqrt(n) == n ==> r.v == Isqrt(n) as real)
  }

  /**
   * What IEEE division guarantees for 1.0 / s (JLS 15.17.2): NaN stays NaN,
   * the reciprocal of a zero is an infinity of the same sign and that of an
   * infinity a zero, 1.0 / 1.0 is exact, and where the quotient is a normal
   * double it is within a relative distance U of the exact one. Outside
   * that range (underflow, overflow) it promises nothing here.
   */
  predicate ReciprocalLaw(s: Ieee, r: Ieee) {
    match s
    case NaN => r == NaN
    case PosInf => r == Finite(0.0)
    case NegInf => r == NegZero
    case NegZero => r == NegInf
    case Finite(t) =>
      if t == 0.0 then r == PosInf
      else if t == 1.0 then r == Finite(1.0)
      else if INV_TWO32 <= t <= TWO32 || -TWO32 <= t <= -INV_TWO32 then
        r.Finite? && 1.0 - U <= r.v * t <= 1.0 + U
      else true
  }

  /**
   * What Math.atan2 guarantees for finite arguments: a result that is not
   * NaN and lies within 2 ulps of an angle in the range -pi to pi.
   */
  predicate Atan2RangeLaw(r: Ieee) {
    r == NegZero || (r.Finite? && -(PI + 2.0 * PI_ULP) <= r.v <= PI + 2.0 * PI_ULP)
  }

  /**
   * Math.atan2's special cases for a first argument of positive zero: a
   * positive second argument gives positive zero, a negative one Math.PI.
   */
  predicate Atan2AxisLaw(x: int, r: Ieee) {
    (x > 0 ==> r == Finite(0.0)) && (x < 0 ==> r == Finite(PI))
  }

  lemma RealSquareMonotone(a: real, b: real)
    requires 0.0 <= a <= b
    ensures a * a <= b * b
  {
    assert a * a <= a * b;
    assert a * b <= b * b;
  }

  /** A nonnegative real whose square lies strictly between p*p and (p+1)*(p+1) lies between p and p + 1. */
  lemma RealBetweenSquares(t: real, pr: real)
    requires t >= 0.0 && pr >= 0.0
    requires pr * pr < t * t < (pr + 1.0) * (pr + 1.0)
    ensures pr < t < pr + 1.0
  {
    if t <= pr {
      RealSquareMonotone(t, pr);
    }
    if t >= pr + 1.0 {
      RealSquareMonotone(pr + 1.0, t);
    }
  }

  /** A nonnegative real whose square lies strictly between p*p and (p+1)*(p+1) truncates to p. */
  lemma TruncBetweenSquares(t: real, p: nat)
    requires t >= 0.0
    requires (p * p) as real < t * t < ((p + 1) * (p + 1)) as real
    ensures Trunc(t) == p
  {
    var pr := p as real;
    assert (p * p) as real == pr * pr;
    assert ((p + 1) * (p + 1)) as real == (pr + 1.0) * (pr + 1.0);
    RealBetweenSquares(t, pr);
    var f := Trunc(t);
    assert f as real <= t < f as real + 1.0;
  }

  /** Every root of an int is below 46341, the least integer whose square exceeds Integer.MAX_VALUE. */
  lemma RootBound(n: Int32)
    requires n >= 0
    ensures Isqrt(n) <= 46340
  {
    var q := Isqrt(n);
    if q >= 46341 {
      MulMonotone(q, 46341, q);
      MulMonotone(46341, 46341, q);
    }
  }

  /** The integer square root as an int: 0 for a negative int, as `(int) Math.sqrt` gives. */
  function IntRoot(n: Int32): (r: Int32)
    ensures n < 0 ==> r == 0
    ensures n >= 0 ==> 0 <= r && r * r <= n < (r + 1) * (r + 1)
  {
    if n < 0 then 0 else RootBound(n); Isqrt(n)
  }

  /** The relative error U moves the square of an int root by less than one. */
  lemma LowBound(sq: real)
    requires 0.0 <= sq <= MAX_VALUE as real
    ensures (sq + 1.0) * LOW > sq
  {
  }

  lemma HighBound(next: real)
    requires 0.0 <= next <= 2147488281.0
    ensures (next - 1.0) * HIGH < next
  {
  }

  lemma ScaleMonotone(a: real, b: real, c: real)
    requires a <= b && c >= 0.0
    ensures a * c <= b * c
  {
    assert b * c - a * c == (b - a) * c;
  }

  /** Integer bounds on n around its root q, as reals. */
  lemma NonSquareBounds(n: int, q: nat)
    requires q * q < n < (q + 1) * (q + 1) && n <= MAX_VALUE && q <= 46340
    ensures 0.0 <= (q * q) as real
    ensures ((q + 1) * (q + 1)) as real <= 2147488281.0
    ensures (q * q) as real + 1.0 <= n as real <= ((q + 1) * (q + 1)) as real - 1.0
  {
    MulMonotone(q + 1, q + 1, 46341);
    MulMonotone(46341, q + 1, 46341);
  }

  /** A square correct to within U of an int strictly between sq and next lies strictly between them too. */
  lemma SquareBetween(sq: real, nr: real, tt: real, next: real)
    requires 0.0 <= sq && sq + 1.0 <= nr <= next - 1.0 && nr <= MAX_VALUE as real && next <= 2147488281.0
    requires nr * LOW <= tt <= nr * HIGH
    ensures sq < tt < next
  {
    ScaleMonotone(sq + 1.0, nr, LOW);
    ScaleMonotone(nr, next - 1.0, HIGH);
    LowBound(sq);
    HighBound(next);
  }

  /** Between two consecutive squares, a root correct to within U truncates to the lower root. */
  lemma RootOfNonSquare(n: int, q: nat, t: real)
    requires q * q < n < (q + 1) * (q + 1) && n <= MAX_VALUE && q <= 46340
    requires t >= 0.0 && n as real * LOW <= t * t <= n as real * HIGH
    ensures Trunc(t) == q
  {
    NonSquareBounds(n, q);
    SquareBetween((q * q) as real, n as real, t * t, ((q + 1) * (q + 1)) as real);
    TruncBetweenSquares(t, q);
  }

  /**
   * Narrowing Math.sqrt of an int to int gives 0 for a negative argument
   * (NaN narrows to 0) and the integer square root otherwise.
   */
  lemma NarrowSqrt(n: Int32, r: Ieee)
    requires SqrtLaw(n, r)
    ensures Narrow(r) == if n < 0 then 0 else Isqrt(n)
  {
    if n > 0 {
      NarrowSqrtPositive(n, r);
    }
  }

  lemma NarrowSqrtPositive(n: Int32, r: Ieee)
    requires n > 0 && SqrtLaw(n, r)
    ensures Narrow(r) == Isqrt(n)
  {
    var q := Isqrt(n);
    RootBound(n);
    TruncOfRoot(n, q, r.v);
    NarrowOfRoot(r, q);
  }

  /** A root of n within the rounding bounds, exact when n is a square, truncates to the integer root q. */
  lemma TruncOfRoot(n: int, q: nat, t: real)
    requires 0 < n <= MAX_VALUE && q <= 46340 && q * q <= n < (q + 1) * (q + 1)
    requires t > 0.0 && n as real * LOW <= t * t <= n as real * HIGH
    requires q * q == n ==> t == q as real
    ensures Trunc(t) == q
  {
    if q * q != n {
      RootOfNonSquare(n, q, t);
    }
  }

  lemma NarrowOfRoot(r: Ieee, q: nat)
    requires r.Finite? && r.v >= 0.0 && Trunc(r.v) == q && q <= 46340
    ensures Narrow(r) == q
  {
  }

  /**
   * Narrowing 1.0 / Math.sqrt(n) of an int n to int: +infinity for 0
   * narrows to MAX_VALUE, 1 gives 1, a negative n gives NaN and so 0, and
   * every n >= 2 has a reciprocal root strictly between 0 and 1, so 0.
   */
  lemma NarrowReciprocalSqrt(n: Int32, s: Ieee, r: Ieee)
    requires SqrtLaw(n, s) && ReciprocalLaw(s, r)
    ensures Narrow(r) == if n == 0 then MAX_VALUE else if n == 1 then 1 else 0
  {
    if n == 1 {
      ReciprocalSqrtOfOne(s, r);
    } else if n >= 2 {
      ReciprocalSqrtAtLeastTwo(n, s, r);
    } else if n == 0 {
      assert s == Finite(0.0) && r == PosInf;
    } else {
      assert s == NaN && r == NaN;
    }
  }

  /** Math.sqrt(1) is exactly 1, and so is its reciprocal. */
  lemma ReciprocalSqrtOfOne(s: Ieee, r: Ieee)
    requires SqrtLaw(1, s) && ReciprocalLaw(s, r)
    ensures Narrow(r) == 1
  {
    assert Isqrt(1) == 1;
    assert s == Finite(1.0);
  }

  /** For an int n >= 2, 1.0 / Math.sqrt(n) narrows to 0. */
  lemma ReciprocalSqrtAtLeastTwo(n: Int32, s: Ieee, r: Ieee)
    requires n >= 2 && SqrtLaw(n, s) && ReciprocalLaw(s, r)
    ensures Narrow(r) == 0
  {
    assert s.Finite? && s.v > 0.0 && n as real * LOW <= s.v * s.v <= n as real * HIGH;
    RootOfAtLeastTwo(n, s.v);
    ReciprocalBelowOne(s.v, r);
  }

  /** The root of an int n >= 2, correct to within U, lies between 1.3 and 2^16. */
  lemma RootOfAtLeastTwo(n: Int32, t: real)
    requires n >= 2 && t > 0.0 && n as real * LOW <= t * t <= n as real * HIGH
    ensures 1.3 < t <= 65536.0
  {
    ScaleMonotone(2.0, n as real, LOW);
    ScaleMonotone(n as real, MAX_VALUE as real, HIGH);
    if t <= 1.3 {
      RealSquareMonotone(t, 1.3);
    }
    if t > 65536.0 {
      RealSquareMonotone(65536.0, t);
    }
  }

  /** The reciprocal of a value between 1.3 and 2^16, correct to within U, narrows to 0. */
  lemma ReciprocalBelowOne(t: real, r: Ieee)
    requires 1.3 < t <= 65536.0 && ReciprocalLaw(Finite(t), r)
    ensures Narrow(r) == 0
  {
    assert INV_TWO32 <= t <= TWO32 && t != 1.0;
    var w := r.v;
    assert 1.0 - U <= w * t <= 1.0 + U;
    if w <= 0.0 {
      ScaleMonotone(w, 0.0, t);
    }
    if w >= 1.0 {
      ScaleMonotone(1.0, w, t);
    }
    assert 0.0 < w < 1.0;
  }

  /** An angle within the promised range narrows to an int between -3 and 3. */
  lemma NarrowAtan2(r: Ieee)
    requires Atan2RangeLaw(r)
    ensures -3 <= Narrow(r) <= 3
  {
  }

  /** Math.PI narrows to 3. */
  lemma NarrowPi()
    ensures Narrow(Finite(PI)) == 3
  {
  }
}
