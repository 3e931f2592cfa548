/**
 * Java's `int`: 32-bit two's-complement integers with the wrap-around
 * arithmetic of the Java Language Specification (sections 15.15.4,
 * 15.17.1, 15.17.2 and 15.18.2). Dafny's `int` is unbounded, so every
 * operation here takes the mathematical result and keeps its low-order
 * 32 bits, read as a signed number.
 */
module JavaInt {

  /** Integer.MIN_VALUE, Integer.MAX_VALUE and the number of distinct ints. */
  const MIN_VALUE: int := -0x8000_0000
  const MAX_VALUE: int := 0x7fff_ffff
  const MODULUS: int := 0x1_0000_0000

  /** The values a Java `int` can hold. */
  type Int32 = x: int | -0x8000_0000 <= x <= 0x7fff_ffff

  predicate InRange(x: int) {
    MIN_VALUE <= x <= MAX_VALUE
  }

  /** The int whose 32 low-order bits are those of the mathematical integer x. */
  function Wrap(x: int): (r: Int32)
    ensures (r - x) % MODULUS == 0
  {
    (x - MIN_VALUE) % MODULUS + MIN_VALUE
  }

  /** Adding a multiple of 2^32 does not change the low-order bits. */
  lemma WrapShift(x: int, k: int)
    ensures Wrap(x + k * MODULUS) == Wrap(x)
  {
    var d := x - MIN_VALUE;
    var q, r := d / MODULUS, d % MODULUS;
    assert d + k * MODULUS == (q + k) * MODULUS + r;
    DivModUnique(d + k * MODULUS, q + k, r);
  }

  /** Division by 2^32 is determined by `n == q * 2^32 + r` and `0 <= r < 2^32`. */
  lemma DivModUnique(n: int, q: int, r: int)
    requires 0 <= r < MODULUS && n == q * MODULUS + r
    ensures n % MODULUS == r && n / MODULUS == q
  {
  }

  /** A value in int range that is congruent to x modulo 2^32 is Wrap(x). */
  lemma WrapUnique(x: int, r: int)
    requires InRange(r) && (r - x) % MODULUS == 0
    ensures r == Wrap(x)
  {
    var k := (r - x) / MODULUS;
    assert r - x == k * MODULUS;
    assert x == r + (-k) * MODULUS;
    WrapShift(r, -k);
    DivModUnique(r - MIN_VALUE, 0, r - MIN_VALUE);
  }

  /** Wrap leaves every value already in int range unchanged. */
  lemma WrapOfInRange(x: int)
    requires InRange(x)
    ensures Wrap(x) == x
  {
    WrapUnique(x, x);
  }

  /** Wrapping an operand of a sum first gives the same low-order bits. */
  lemma WrapAdd(a: int, b: int)
    ensures Wrap(a + Wrap(b)) == Wrap(a + b)
  {
    var k := (Wrap(b) - b) / MODULUS;
    assert Wrap(b) == b + k * MODULUS;
    assert a + Wrap(b) == (a + b) + k * MODULUS;
    WrapShift(a + b, k);
  }

  /** Wrapping an operand of a product first gives the same low-order bits. */
  lemma WrapMul(a: int, b: int)
    ensures Wrap(a * Wrap(b)) == Wrap(a * b)
  {
    var k := (Wrap(b) - b) / MODULUS;
    assert Wrap(b) == b + k * MODULUS;
    assert a * Wrap(b) == a * b + (a * k) * MODULUS;
    WrapShift(a * b, a * k);
  }

  /** Sums, differences and products of wrapped values wrap like the exact ones. */
  lemma WrapSum(p: int, q: int)
    ensures Wrap(Wrap(p) + Wrap(q)) == Wrap(p + q)
  {
    WrapAdd(Wrap(p), q);
    WrapAdd(q, p);
  }

  lemma WrapDiff(p: int, q: int)
    ensures Wrap(Wrap(p) - Wrap(q)) == Wrap(p - q)
  {
    var k := (Wrap(q) - q) / MODULUS;
    assert Wrap(p) - Wrap(q) == (Wrap(p) - q) + (-k) * MODULUS;
    WrapShift(Wrap(p) - q, -k);
    WrapAdd(-q, p);
  }

  lemma WrapProd(p: int, q: int)
    ensures Wrap(Wrap(p) * Wrap(q)) == Wrap(p * q)
  {
    WrapMul(Wrap(p), q);
    WrapMul(q, p);
  }

  /** Unary minus on an int (JLS 15.15.4): -MIN_VALUE overflows back to MIN_VALUE. */
  function Neg(a: Int32): (r: Int32)
    ensures (r + a) % MODULUS == 0
  {
    Wrap(-(a as int))
  }

  /** int addition (JLS 15.18.2). */
  function Add(a: Int32, b: Int32): (r: Int32)
    ensures (r - (a + b)) % MODULUS == 0
  {
    Wrap(a + b)
  }

  /** int subtraction (JLS 15.18.2). */
  function Sub(a: Int32, b: Int32): (r: Int32)
    ensures (r - (a - b)) % MODULUS == 0
  {
    Wrap(a - b)
  }

  /** int multiplication (JLS 15.17.1). */
  function Mul(a: Int32, b: Int32): (r: Int32)
    ensures (r - a * b) % MODULUS == 0
  {
    Wrap(a * b)
  }

  function Abs(x: int): nat {
    if x < 0 then -x else x
  }

  /** The mathematical quotient of a by b rounded toward zero. */
  function TruncDiv(a: int, b: int): int
    requires b != 0
  {
    if (a < 0) == (b < 0) then Abs(a) / Abs(b) else -(Abs(a) / Abs(b))
  }

  /**
   * int division (JLS 15.17.2): the quotient rounds toward zero, and the one
   * overflowing case, MIN_VALUE / -1, yields MIN_VALUE. Division by zero
   * throws; the caller checks for it, so it is excluded here.
   */
  function Div(a: Int32, b: Int32): (r: Int32)
    requires b != 0
    ensures a == MIN_VALUE && b == -1 ==> r == MIN_VALUE
  {
    Wrap(TruncDiv(a, b))
  }

  lemma MulMonotone(q: int, e: int, d: int)
    requires q >= 0 && e <= d
    ensures q * e <= q * d
  {
    assert q * d - q * e == q * (d - e);
  }

  /** The floor quotient of n >= 0 by d >= 1 is at most n, and at most n / 2 when d >= 2. */
  lemma QuotientBound(n: nat, d: nat)
    requires d >= 1
    ensures 0 <= n / d <= n
    ensures d >= 2 ==> n / d <= n / 2
  {
    var q := n / d;
    assert n == q * d + n % d;
    MulMonotone(q, 1, d);
    if d >= 2 {
      MulMonotone(q, 2, d);
    }
  }

  lemma MulSigns(x: int, y: int)
    ensures (-x) * y == -(x * y) && x * (-y) == -(x * y)
  {
  }

  /** The remainder left by the truncating quotient (JLS 15.17.2 and 15.17.3). */
  lemma TruncDivRemainder(a: int, b: int)
    requires b != 0
    ensures var t := TruncDiv(a, b); var r := a - t * b;
      Abs(r) < Abs(b) && (r == 0 || (r < 0) == (a < 0))
  {
    var n: int, d: int := Abs(a), Abs(b);
    var q0: int, m: int := n / d, n % d;
    assert n == q0 * d + m && 0 <= m < d;
    MulSigns(q0, d);
    var t := TruncDiv(a, b);
    assert a - t * b == (if a >= 0 then m else -m) by {
      if (a < 0) == (b < 0) {
        assert t == q0;
      } else {
        assert t == -q0;
      }
    }
  }

  /**
   * Outside the overflow case the quotient is the one JLS 15.17.2 describes:
   * the remainder a - q * b is smaller than b in magnitude and is zero or
   * has the sign of the dividend.
   */
  lemma DivTruncates(a: Int32, b: Int32)
    requires b != 0 && !(a == MIN_VALUE && b == -1)
    ensures var q := Div(a, b); var r := a - q * b;
      Abs(r) < Abs(b) && (r == 0 || (r < 0) == (a < 0))
  {
    var t := TruncDiv(a, b);
    QuotientBound(Abs(a), Abs(b));
    assert Abs(t) == Abs(a) / Abs(b);
    if a == MIN_VALUE && Abs(b) == 1 {
      assert b == 1;
      assert t == a;
    }
    assert InRange(t);
    WrapOfInRange(t);
    TruncDivRemainder(a, b);
  }

  /** Negation is an involution on int, including MIN_VALUE. */
  lemma NegInvolutive(a: Int32)
    ensures Neg(Neg(a)) == a
  {
    WrapMul(-1, -(a as int));
    WrapOfInRange(a);
  }

  /** The single int that negation leaves unchanged besides zero. */
  lemma NegMinValue()
    ensures Neg(MIN_VALUE) == MIN_VALUE
  {
  }

  /** a - b is the negation of b - a, with wrap-around on both sides. */
  lemma SubAntiCommutes(a: Int32, b: Int32)
    ensures Sub(a, b) == Neg(Sub(b, a))
  {
    WrapMul(-1, b - a);
  }

  /** Subtraction is addition of the negation. */
  lemma SubIsAddNeg(a: Int32, b: Int32)
    ensures Sub(a, b) == Add(a, Neg(b))
  {
    WrapAdd(a, -(b as int));
  }

  /** Multiplying by a negated factor negates the product. */
  lemma MulNeg(a: Int32, b: Int32)
    ensures Mul(a, Neg(b)) == Neg(Mul(a, b))
  {
    WrapMul(a, -(b as int));
    WrapMul(-1, a * b);
    assert a * -(b as int) == -1 * (a * b);
    assert -(Mul(a, b) as int) == -1 * Mul(a, b);
  }

  /** A value plus its negation is zero. */
  lemma AddNeg(a: Int32)
    ensures Add(a, Neg(a)) == 0
  {
    WrapAdd(a, -(a as int));
  }

  /** int addition and multiplication are commutative, wrap-around included. */
  lemma AddMulCommute(a: Int32, b: Int32)
    ensures Add(a, b) == Add(b, a) && Mul(a, b) == Mul(b, a)
  {
  }

  /** Negation distributes over wrapping addition. */
  lemma NegAdd(a: Int32, b: Int32)
    ensures Add(Neg(a), Neg(b)) == Neg(Add(a, b))
  {
    var s: int := a as int + b;
    var w: int := Wrap(s);
    assert Add(Neg(a), Neg(b)) == Wrap(-s) by {
      WrapSum(-(a as int), -(b as int));
    }
    assert Neg(Add(a, b)) == Wrap(-1 * w);
    assert Wrap(-1 * w) == Wrap(-1 * s) by {
      WrapMul(-1, s);
    }
  }

  /** a - a is 0. */
  lemma SubSelf(a: Int32)
    ensures Sub(a, a) == 0
  {
    WrapOfInRange(0);
  }

  /** a * c + b * d computed with int operators is the exact value wrapped once. */
  lemma SumOfProducts(a: Int32, b: Int32, c: Int32, d: Int32)
    ensures Add(Mul(a, c), Mul(b, d)) == Wrap(a * c + b * d)
  {
    WrapSum(a * c, b * d);
  }

  /** a * d - b * c computed with int operators is the exact value wrapped once. */
  lemma DifferenceOfProducts(a: Int32, b: Int32, c: Int32, d: Int32)
    ensures Sub(Mul(a, d), Mul(b, c)) == Wrap(a * d - b * c)
  {
    WrapDiff(a * d, b * c);
  }

  /**
   * (a - c)^2 + (b - d)^2 computed with int operators, differences
   * included, is the exact value wrapped once.
   */
  lemma SumOfSquaredDifferences(a: Int32, b: Int32, c: Int32, d: Int32)
    ensures var p, q := Sub(a, c), Sub(b, d);
      Add(Mul(p, p), Mul(q, q)) == Wrap((a - c) * (a - c) + (b - d) * (b - d))
  {
    var p, q := Sub(a, c), Sub(b, d);
    var x1: int, x2: int := (a - c) * (a - c), (b - d) * (b - d);
    assert Mul(p, p) == Wrap(x1) by { WrapProd(a - c, a - c); }
    assert Mul(q, q) == Wrap(x2) by { WrapProd(b - d, b - d); }
    WrapSum(x1, x2);
  }

  /**
   * Against (-a, -b), the determinant of (a, b) cancels to 0 and the dot
   * product is the negated a*a + b*b, all with int operators.
   */
  lemma NegatedProducts(a: Int32, b: Int32)
    ensures Sub(Mul(a, Neg(b)), Mul(b, Neg(a))) == 0
    ensures Add(Mul(a, Neg(a)), Mul(b, Neg(b))) == Neg(Add(Mul(a, a), Mul(b, b)))
  {
    MulNeg(a, b);
    MulNeg(b, a);
    AddMulCommute(a, b);
    SubSelf(Neg(Mul(a, b)));
    MulNeg(a, a);
    MulNeg(b, b);
    NegAdd(Mul(a, a), Mul(b, b));
  }
}
