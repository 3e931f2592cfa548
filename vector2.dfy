/**
 * Vector2 (Vector2.java): an immutable pair of boxed numbers whose every
 * operation is a composition of TypeHelper primitives. Constructors and
 * vector-valued operations go through the two-component constructor,
 * which runs checkType on both components but does not require them to be
 * of the same class. Java evaluates arguments left to right, so the first
 * primitive that throws decides the error.
 */
module Vectors {
  import JavaInt
  import opened JavaDouble
  import opened TypeHelper

  datatype Vector2 = Vector2(x: Num, y: Num) {

    /** Both components are Integers: the case whose arithmetic is written out. */
    predicate IsInt() {
      x.IntV? && y.IntV?
    }

    /** get(component): 0 is x, 1 is y, anything else throws. */
    function Get(component: JavaInt.Int32): (r: Result<Num>)
      ensures component == 0 ==> r == Ok(x)
      ensures component == 1 ==> r == Ok(y)
      ensures component != 0 && component != 1 ==> r == Err(UnexpectedComponent(component))
    {
      if component == 0 then Ok(x)
      else if component == 1 then Ok(y)
      else Err(UnexpectedComponent(component))
    }

    /** perpendicular(): (y, negative(x)). */
    function Perpendicular(ops: Ops): (r: Result<Vector2>)
      ensures Componentwise(r, Ok(y), Negative(ops, x))
    {
      var nx :- Negative(ops, x);
      Of(y, nx)
    }

    /** sub(v) */
    function Sub(ops: Ops, v: Vector2): Result<Vector2> {
      SubXY(ops, v.x, v.y)
    }

    /** sub(x, y) */
    function SubXY(ops: Ops, x': Num, y': Num): (r: Result<Vector2>)
      ensures Componentwise(r, TypeHelper.Sub(ops, x, x'), TypeHelper.Sub(ops, y, y'))
    {
      var a :- TypeHelper.Sub(ops, x, x');
      var b :- TypeHelper.Sub(ops, y, y');
      Of(a, b)
    }

    /** mul(scalar) */
    function MulScalar(ops: Ops, s: Num): Result<Vector2> {
      MulXY(ops, s, s)
    }

    /** mul(x, y) */
    function MulXY(ops: Ops, x': Num, y': Num): (r: Result<Vector2>)
      ensures Componentwise(r, TypeHelper.Mul(ops, x, x'), TypeHelper.Mul(ops, y, y'))
    {
      var a :- TypeHelper.Mul(ops, x, x');
      var b :- TypeHelper.Mul(ops, y, y');
      Of(a, b)
    }

    /** mul(v) */
    function Mul(ops: Ops, v: Vector2): Result<Vector2> {
      MulXY(ops, v.x, v.y)
    }

    /** div(scalar) */
    function DivScalar(ops: Ops, s: Num): Result<Vector2> {
      DivXY(ops, s, s)
    }

    /** div(x, y) */
    function DivXY(ops: Ops, x': Num, y': Num): (r: Result<Vector2>)
      ensures Componentwise(r, TypeHelper.Div(ops, x, x'), TypeHelper.Div(ops, y, y'))
    {
      var a :- TypeHelper.Div(ops, x, x');
      var b :- TypeHelper.Div(ops, y, y');
      Of(a, b)
    }

    /** div(v) */
    function Div(ops: Ops, v: Vector2): Result<Vector2> {
      DivXY(ops, v.x, v.y)
    }

    /** dot(v): x * v.x + y * v.y */
    function Dot(ops: Ops, v: Vector2): Result<Num> {
      var a :- TypeHelper.Mul(ops, x, v.x);
      var b :- TypeHelper.Mul(ops, y, v.y);
      TypeHelper.Add(ops, a, b)
    }

    /** angle(v): atan2(x * v.y - y * v.x, x * v.x + y * v.y) */
    function Angle(ops: Ops, v: Vector2): Result<Num> {
      var d1 :- TypeHelper.Mul(ops, x, v.x);
      var d2 :- TypeHelper.Mul(ops, y, v.y);
      var dot :- TypeHelper.Add(ops, d1, d2);
      var e1 :- TypeHelper.Mul(ops, x, v.y);
      var e2 :- TypeHelper.Mul(ops, y, v.x);
      var det :- TypeHelper.Sub(ops, e1, e2);
      Atan2(ops, det, dot)
    }

    /** lengthSquared(): x * x + y * y */
    function LengthSquared(ops: Ops): Result<Num> {
      var a :- TypeHelper.Mul(ops, x, x);
      var b :- TypeHelper.Mul(ops, y, y);
      TypeHelper.Add(ops, a, b)
    }

    /** length(): sqrt(lengthSquared()) */
    function Length(ops: Ops): Result<Num> {
      var ls :- LengthSquared(ops);
      Sqrt(ops, ls)
    }

    /** distance(v) */
    function Distance(ops: Ops, v: Vector2): Result<Num> {
      DistanceXY(ops, v.x, v.y)
    }

    /** distanceSquared(v) */
    function DistanceSquared(ops: Ops, v: Vector2): Result<Num> {
      DistanceSquaredXY(ops, v.x, v.y)
    }

    /** distance(x, y) */
    function DistanceXY(ops: Ops, x': Num, y': Num): Result<Num> {
      var ds :- DistanceSquaredXY(ops, x', y');
      Sqrt(ops, ds)
    }

    /** distanceSquared(x, y) */
    function DistanceSquaredXY(ops: Ops, x': Num, y': Num): Result<Num> {
      var tx :- TypeHelper.Sub(ops, x, x');
      var ty :- TypeHelper.Sub(ops, y, y');
      var a :- TypeHelper.Mul(ops, tx, tx);
      var b :- TypeHelper.Mul(ops, ty, ty);
      TypeHelper.Add(ops, a, b)
    }

    /** normalize(): both components times invSqrt(lengthSquared()). */
    function Normalize(ops: Ops): Result<Vector2> {
      var ls :- LengthSquared(ops);
      var inv :- InvSqrt(ops, ls);
      var a :- TypeHelper.Mul(ops, x, inv);
      var b :- TypeHelper.Mul(ops, y, inv);
      Of(a, b)
    }

    /** normalize(length): both components times invSqrt(lengthSquared()) * length. */
    function NormalizeTo(ops: Ops, length: Num): Result<Vector2> {
      var ls :- LengthSquared(ops);
      var s :- InvSqrt(ops, ls);
      var inv :- TypeHelper.Mul(ops, s, length);
      var a :- TypeHelper.Mul(ops, x, inv);
      var b :- TypeHelper.Mul(ops, y, inv);
      Of(a, b)
    }

    /** add(v) */
    function Add(ops: Ops, v: Vector2): Result<Vector2> {
      AddXY(ops, v.x, v.y)
    }

    /** add(x, y) */
    function AddXY(ops: Ops, x': Num, y': Num): (r: Result<Vector2>)
      ensures Componentwise(r, TypeHelper.Add(ops, x, x'), TypeHelper.Add(ops, y, y'))
    {
      var a :- TypeHelper.Add(ops, x, x');
      var b :- TypeHelper.Add(ops, y, y');
      Of(a, b)
    }

    /** negate(): (negative(x), negative(y)). */
    function Negate(ops: Ops): (r: Result<Vector2>)
      ensures Componentwise(r, Negative(ops, x), Negative(ops, y))
    {
      var a :- Negative(ops, x);
      var b :- Negative(ops, y);
      Of(a, b)
    }
  }

  /**
   * What `new Vector2<>(p, q)` gives when its arguments evaluate, left to
   * right, to p and q: the first exception, or else the vector built by the
   * two-component constructor.
   */
  predicate Componentwise(r: Result<Vector2>, p: Result<Num>, q: Result<Num>) {
    if p.Err? then r == Err(p.error)
    else if q.Err? then r == Err(q.error)
    else r == Of(p.value, q.value)
  }

  /** Vector2(x, y): checkType on x, then on y; components of different classes are accepted. */
  function Of(x: Num, y: Num): (r: Result<Vector2>)
    ensures r.Ok? <==> Supported(x) && Supported(y)
    ensures r.Ok? ==> r.value == Vector2(x, y)
    ensures !Supported(x) ==> r == Err(UnexpectedType(x.cls))
    ensures Supported(x) && !Supported(y) ==> r == Err(UnexpectedType(y.cls))
  {
    var _ :- CheckType(x);
    var _ :- CheckType(y);
    Ok(Vector2(x, y))
  }

  /** Vector2(t): both components t. */
  function OfScalar(t: Num): (r: Result<Vector2>)
    ensures r.Ok? <==> Supported(t)
    ensures r.Ok? ==> r.value.x == t && r.value.y == t
    ensures !Supported(t) ==> r == Err(UnexpectedType(t.cls))
  {
    Of(t, t)
  }

  /** Vector2(v): the copy reproduces v's components. */
  function OfVector(v: Vector2): (r: Result<Vector2>)
    ensures r.Ok? <==> Supported(v.x) && Supported(v.y)
    ensures r.Ok? ==> r.value == v
  {
    Of(v.x, v.y)
  }

  /**
   * Vector2(T[] xy): elements 0 and 1, read in that order, so a shorter
   * array throws at the first missing index; further elements are ignored.
   */
  function OfArray(xy: seq<Num>): (r: Result<Vector2>)
    ensures |xy| == 0 ==> r == Err(IndexOutOfBounds(0, 0))
    ensures |xy| == 1 ==> r == Err(IndexOutOfBounds(1, 1))
    ensures |xy| >= 2 ==> (r.Ok? <==> Supported(xy[0]) && Supported(xy[1]))
    ensures |xy| >= 2 && r.Ok? ==> r.value == Vector2(xy[0], xy[1])
    ensures |xy| >= 2 && !Supported(xy[0]) ==> r == Err(UnexpectedType(xy[0].cls))
    ensures |xy| >= 2 && Supported(xy[0]) && !Supported(xy[1]) ==> r == Err(UnexpectedType(xy[1].cls))
  {
    if |xy| < 1 then Err(IndexOutOfBounds(0, |xy|))
    else if |xy| < 2 then Err(IndexOutOfBounds(1, |xy|))
    else Of(xy[0], xy[1])
  }

  /** Static length(x, y): sqrt(x * x + y * y), without building a vector. */
  function LengthOf(ops: Ops, x: Num, y: Num): Result<Num> {
    var a :- TypeHelper.Mul(ops, x, x);
    var b :- TypeHelper.Mul(ops, y, y);
    var s :- TypeHelper.Add(ops, a, b);
    Sqrt(ops, s)
  }

  /** Static distance(x1, y1, x2, y2) */
  function DistanceOf(ops: Ops, x1: Num, y1: Num, x2: Num, y2: Num): Result<Num> {
    var ds :- DistanceSquaredOf(ops, x1, y1, x2, y2);
    Sqrt(ops, ds)
  }

  /** Static distanceSquared(x1, y1, x2, y2) */
  function DistanceSquaredOf(ops: Ops, x1: Num, y1: Num, x2: Num, y2: Num): Result<Num> {
    var tx :- TypeHelper.Sub(ops, x1, x2);
    var ty :- TypeHelper.Sub(ops, y1, y2);
    var a :- TypeHelper.Mul(ops, tx, tx);
    var b :- TypeHelper.Mul(ops, ty, ty);
    TypeHelper.Add(ops, a, b)
  }

  /** An int vector: the components as a pair of mathematical integers. */
  function IntVec(a: JavaInt.Int32, b: JavaInt.Int32): Vector2 {
    Vector2(IntV(a), IntV(b))
  }

  // ---------------------------------------------------------------------
  // Construction and access
  // ---------------------------------------------------------------------

  /** get(0) and get(1) read back what the constructor stored. */
  lemma GetAfterOf(x: Num, y: Num, component: JavaInt.Int32)
    requires Of(x, y).Ok?
    ensures Of(x, y).value.Get(component) ==
      if component == 0 then Ok(x)
      else if component == 1 then Ok(y)
      else Err(UnexpectedComponent(component))
  {
  }

  /**
   * The two-component constructor checks each component on its own and
   * does not compare their classes: an (Integer, Double) vector is built,
   * and the mismatch surfaces only when an operation combines the two
   * components, as dot does.
   */
  lemma MixedKindsAccepted(ops: Ops)
    ensures Of(IntV(1), F64(Finite(2.0))) == Ok(Vector2(IntV(1), F64(Finite(2.0))))
    ensures Vector2(IntV(1), F64(Finite(2.0))).Dot(ops, Vector2(IntV(1), F64(Finite(2.0))))
      == Err(ClassCast(DoubleKind, IntegerKind))
  {
  }

  // ---------------------------------------------------------------------
  // Overloads
  // ---------------------------------------------------------------------

  /**
   * The vector overloads are the two-scalar forms applied to the argument's
   * components, and the one-scalar forms of mul and div are the vector forms
   * with the scalar in both places.
   */
  lemma OverloadsAgree(ops: Ops, u: Vector2, v: Vector2, s: Num)
    ensures u.Add(ops, v) == u.AddXY(ops, v.x, v.y)
    ensures u.Sub(ops, v) == u.SubXY(ops, v.x, v.y)
    ensures u.Mul(ops, v) == u.MulXY(ops, v.x, v.y)
    ensures u.Div(ops, v) == u.DivXY(ops, v.x, v.y)
    ensures u.MulScalar(ops, s) == u.MulXY(ops, s, s) == u.Mul(ops, Vector2(s, s))
    ensures u.DivScalar(ops, s) == u.DivXY(ops, s, s) == u.Div(ops, Vector2(s, s))
  {
  }

  /** The three distance forms, and the three distanceSquared forms, give the same result or the same exception. */
  lemma DistanceFormsAgree(ops: Ops, u: Vector2, v: Vector2)
    ensures u.DistanceSquared(ops, v) == u.DistanceSquaredXY(ops, v.x, v.y)
                                      == DistanceSquaredOf(ops, u.x, u.y, v.x, v.y)
    ensures u.Distance(ops, v) == u.DistanceXY(ops, v.x, v.y)
                               == DistanceOf(ops, u.x, u.y, v.x, v.y)
  {
  }

  /** A distance is sqrt of the matching distanceSquared, and fails exactly when that fails. */
  lemma DistanceIsSqrtOfDistanceSquared(ops: Ops, u: Vector2, v: Vector2)
    ensures var ds := u.DistanceSquared(ops, v);
      (ds.Ok? ==> u.Distance(ops, v) == Sqrt(ops, ds.value)) &&
      (ds.Err? ==> u.Distance(ops, v) == Err(ds.error))
  {
  }

  /** lengthSquared is the dot product with itself; length is its sqrt, and fails exactly when it fails. */
  lemma LengthIsSqrtOfSelfDot(ops: Ops, v: Vector2)
    ensures v.LengthSquared(ops) == v.Dot(ops, v)
    ensures var ls := v.LengthSquared(ops);
      (ls.Ok? ==> v.Length(ops) == Sqrt(ops, ls.value)) &&
      (ls.Err? ==> v.Length(ops) == Err(ls.error))
  {
  }

  /** The static length(x, y) agrees with the instance form, without building a vector. */
  lemma LengthOfAgrees(ops: Ops, x: Num, y: Num)
    ensures LengthOf(ops, x, y) == Vector2(x, y).Length(ops)
  {
  }

  /**
   * When the difference vector can be built, distanceSquared and distance
   * are its lengthSquared and length.
   */
  lemma DistanceIsLengthOfDifference(ops: Ops, u: Vector2, v: Vector2)
    requires u.Sub(ops, v).Ok?
    ensures u.DistanceSquared(ops, v) == u.Sub(ops, v).value.LengthSquared(ops)
    ensures u.Distance(ops, v) == u.Sub(ops, v).value.Length(ops)
  {
  }

  /**
   * An int vector combined with a double vector fails at the first cast,
   * whichever operation combines them.
   */
  lemma NoCoercionBetweenVectors(ops: Ops, u: Vector2, v: Vector2)
    requires u.IsInt() && v.x.F64? && v.y.F64?
    ensures var e := ClassCast(DoubleKind, IntegerKind);
      u.Add(ops, v) == Err(e) && u.Sub(ops, v) == Err(e) && u.Mul(ops, v) == Err(e) && u.Div(ops, v) == Err(e)
    ensures var e := ClassCast(DoubleKind, IntegerKind);
      u.Dot(ops, v) == Err(e) && u.Angle(ops, v) == Err(e) && u.DistanceSquared(ops, v) == Err(e)
  {
  }

  // ---------------------------------------------------------------------
  // Integer vectors: componentwise arithmetic
  // ---------------------------------------------------------------------

  /** Integer add, sub and mul act on each component with 32-bit wrap-around; add commutes. */
  lemma IntComponentwise(ops: Ops, a: JavaInt.Int32, b: JavaInt.Int32, c: JavaInt.Int32, d: JavaInt.Int32)
    ensures IntVec(a, b).Add(ops, IntVec(c, d)) == Ok(IntVec(JavaInt.Wrap(a + c), JavaInt.Wrap(b + d)))
    ensures IntVec(a, b).Sub(ops, IntVec(c, d)) == Ok(IntVec(JavaInt.Wrap(a - c), JavaInt.Wrap(b - d)))
    ensures IntVec(a, b).Mul(ops, IntVec(c, d)) == Ok(IntVec(JavaInt.Wrap(a * c), JavaInt.Wrap(b * d)))
    ensures IntVec(a, b).Add(ops, IntVec(c, d)) == IntVec(c, d).Add(ops, IntVec(a, b))
  {
    JavaInt.AddMulCommute(a, c);
    JavaInt.AddMulCommute(b, d);
  }

  /** Integer division of vectors throws when either divisor component is 0, and otherwise divides each component. */
  lemma IntDivide(ops: Ops, a: JavaInt.Int32, b: JavaInt.Int32, c: JavaInt.Int32, d: JavaInt.Int32)
    ensures c == 0 || d == 0 ==> IntVec(a, b).Div(ops, IntVec(c, d)) == Err(DivideByZero)
    ensures c != 0 && d != 0 ==>
      IntVec(a, b).Div(ops, IntVec(c, d)) == Ok(IntVec(JavaInt.Div(a, c), JavaInt.Div(b, d)))
  {
  }

  /** For ints, u - v is the negation of v - u. */
  lemma IntSubAntiCommutes(ops: Ops, u: Vector2, v: Vector2)
    requires u.IsInt() && v.IsInt()
    ensures u.Sub(ops, v) == v.Sub(ops, u).value.Negate(ops)
  {
    JavaInt.SubAntiCommutes(u.x.i, v.x.i);
    JavaInt.SubAntiCommutes(u.y.i, v.y.i);
  }

  /** For ints, u - v is u + (-v): subtracting a vector adds its negation. */
  lemma IntSubIsAddNegate(ops: Ops, u: Vector2, v: Vector2)
    requires u.IsInt() && v.IsInt()
    ensures u.Sub(ops, v) == u.Add(ops, v.Negate(ops).value)
  {
    NegateInvolutive(ops, v);
    JavaInt.SubIsAddNeg(u.x.i, v.x.i);
    JavaInt.SubIsAddNeg(u.y.i, v.y.i);
  }

  /** negate maps an int vector to (negative(x), negative(y)) and is an involution. */
  lemma NegateInvolutive(ops: Ops, v: Vector2)
    requires v.IsInt()
    ensures v.Negate(ops) == Ok(IntVec(JavaInt.Neg(v.x.i), JavaInt.Neg(v.y.i)))
    ensures v.Negate(ops).value.Negate(ops) == Ok(v)
  {
    JavaInt.NegInvolutive(v.x.i);
    JavaInt.NegInvolutive(v.y.i);
  }

  /**
   * perpendicular maps an int vector (x, y) to (y, negative(x)), is
   * orthogonal to it even when the products wrap, and applied twice is negate.
   */
  lemma DotPerpendicular(ops: Ops, v: Vector2)
    requires v.IsInt()
    ensures v.Perpendicular(ops) == Ok(IntVec(v.y.i, JavaInt.Neg(v.x.i)))
    ensures v.Dot(ops, v.Perpendicular(ops).value) == Ok(IntV(0))
    ensures v.Perpendicular(ops).value.Perpendicular(ops) == v.Negate(ops)
  {
    var a, b := v.x.i, v.y.i;
    JavaInt.MulNeg(b, a);
    JavaInt.AddMulCommute(a, b);
    JavaInt.AddNeg(JavaInt.Mul(a, b));
  }

  // ---------------------------------------------------------------------
  // Integer vectors: products, lengths and distances
  // ---------------------------------------------------------------------

  /** The int dot product is the exact sum of products, wrapped once to 32 bits; it is symmetric. */
  lemma IntDot(ops: Ops, u: Vector2, v: Vector2)
    requires u.IsInt() && v.IsInt()
    ensures u.Dot(ops, v) == Ok(IntV(JavaInt.Wrap(u.x.i * v.x.i + u.y.i * v.y.i)))
    ensures u.Dot(ops, v) == v.Dot(ops, u)
  {
    var a, b, c, d := u.x.i, u.y.i, v.x.i, v.y.i;
    assert u == IntVec(a, b) && v == IntVec(c, d);
    IntDotSteps(ops, a, b, c, d);
    IntDotSteps(ops, c, d, a, b);
    JavaInt.SumOfProducts(a, b, c, d);
    JavaInt.AddMulCommute(a, c);
    JavaInt.AddMulCommute(b, d);
  }

  /** dot of int vectors, as the composition of the int operators. */
  lemma IntDotSteps(ops: Ops, a: JavaInt.Int32, b: JavaInt.Int32, c: JavaInt.Int32, d: JavaInt.Int32)
    ensures IntVec(a, b).Dot(ops, IntVec(c, d)) == Ok(IntV(JavaInt.Add(JavaInt.Mul(a, c), JavaInt.Mul(b, d))))
  {
  }

  /** The int lengthSquared is x * x + y * y wrapped once to 32 bits. */
  lemma IntLengthSquared(ops: Ops, v: Vector2)
    requires v.IsInt()
    ensures v.LengthSquared(ops) == Ok(IntV(JavaInt.Wrap(SquaredLength(v.x.i, v.y.i))))
  {
    var a, b := v.x.i, v.y.i;
    assert v == IntVec(a, b);
    IntDotSteps(ops, a, b, a, b);
    LengthIsSqrtOfSelfDot(ops, v);
    SquaredLengthWraps(a, b);
  }

  lemma SquareNonnegative(a: int)
    ensures a * a >= 0
  {
  }

  /** The exact squared length of the integer vector (a, b). */
  function SquaredLength(a: int, b: int): nat {
    SquareNonnegative(a);
    SquareNonnegative(b);
    a * a + b * b
  }

  /** lengthSquared evaluated with int operators is the exact squared length wrapped once. */
  lemma SquaredLengthWraps(a: JavaInt.Int32, b: JavaInt.Int32)
    ensures JavaInt.Add(JavaInt.Mul(a, a), JavaInt.Mul(b, b)) == JavaInt.Wrap(SquaredLength(a, b))
  {
    JavaInt.SumOfProducts(a, b, a, b);
  }

  /** The exact squared distance of two integer points. */
  function SquaredDistance(a: int, b: int, c: int, d: int): nat {
    SquaredLength(a - c, b - d)
  }

  /**
   * The int distanceSquared is the exact squared distance wrapped once to
   * 32 bits, even though the differences wrap first; it is symmetric.
   */
  lemma IntDistanceSquared(ops: Ops, u: Vector2, v: Vector2)
    requires u.IsInt() && v.IsInt()
    ensures u.DistanceSquared(ops, v) == Ok(IntV(JavaInt.Wrap(SquaredDistance(u.x.i, u.y.i, v.x.i, v.y.i))))
    ensures u.DistanceSquared(ops, v) == v.DistanceSquared(ops, u)
  {
    var a, b, c, d := u.x.i, u.y.i, v.x.i, v.y.i;
    IntDistanceSquaredSteps(ops, a, b, c, d);
    IntDistanceSquaredSteps(ops, c, d, a, b);
    JavaInt.SumOfSquaredDifferences(a, b, c, d);
    JavaInt.SumOfSquaredDifferences(c, d, a, b);
    SquaredDistanceSymmetric(a, b, c, d);
  }

  /** distanceSquared of int vectors, as the composition of the int operators. */
  lemma IntDistanceSquaredSteps(ops: Ops, a: JavaInt.Int32, b: JavaInt.Int32, c: JavaInt.Int32, d: JavaInt.Int32)
    ensures var p, q := JavaInt.Sub(a, c), JavaInt.Sub(b, d);
      IntVec(a, b).DistanceSquared(ops, IntVec(c, d)) == Ok(IntV(JavaInt.Add(JavaInt.Mul(p, p), JavaInt.Mul(q, q))))
  {
  }

  lemma SquaredDistanceSymmetric(a: int, b: int, c: int, d: int)
    ensures SquaredDistance(a, b, c, d) == SquaredDistance(c, d, a, b)
  {
    assert (c - a) * (c - a) == (a - c) * (a - c);
    assert (d - b) * (d - b) == (b - d) * (b - d);
  }

  /** An int vector is at distanceSquared 0 from itself. */
  lemma DistanceSquaredSelf(ops: Ops, v: Vector2)
    requires v.IsInt()
    ensures v.DistanceSquared(ops, v) == Ok(IntV(0))
  {
    var a, b := v.x.i, v.y.i;
    assert v == IntVec(a, b);
    IntDistanceSquaredSteps(ops, a, b, a, b);
    assert JavaInt.Sub(a, a) == 0 && JavaInt.Sub(b, b) == 0 by {
      JavaInt.WrapOfInRange(0);
    }
    assert JavaInt.Add(JavaInt.Mul(0, 0), JavaInt.Mul(0, 0)) == 0 by {
      JavaInt.WrapOfInRange(0);
    }
  }

  /**
   * The int length is the integer square root of lengthSquared, given that
   * Math.sqrt rounds correctly there, and 0 when lengthSquared wrapped
   * negative.
   */
  lemma IntLength(ops: Ops, v: Vector2, ls: JavaInt.Int32)
    requires v.IsInt() && ls == JavaInt.Wrap(SquaredLength(v.x.i, v.y.i))
    requires SqrtLaw(ls, ops.sqrt(FromInt(ls)))
    ensures v.Length(ops) == Ok(IntV(IntRoot(ls)))
  {
    var a, b := v.x.i, v.y.i;
    assert v.Length(ops) == Sqrt(ops, IntV(ls)) by {
      assert v == IntVec(a, b);
      IntLengthSteps(ops, a, b);
      SquaredLengthWraps(a, b);
    }
    IntSqrt(ops, ls);
  }

  /** Without overflow, the int length is the integer square root of x * x + y * y. */
  lemma IntLengthExact(ops: Ops, v: Vector2, n: nat)
    requires v.IsInt() && n == SquaredLength(v.x.i, v.y.i) && n <= JavaInt.MAX_VALUE
    requires SqrtLaw(n, ops.sqrt(FromInt(n)))
    ensures v.Length(ops) == Ok(IntV(IntRoot(n)))
  {
    JavaInt.WrapOfInRange(n);
    IntLength(ops, v, n);
  }

  /** length of an int vector, as the composition of the int operators. */
  lemma IntLengthSteps(ops: Ops, a: JavaInt.Int32, b: JavaInt.Int32)
    ensures IntVec(a, b).Length(ops) == Sqrt(ops, IntV(JavaInt.Add(JavaInt.Mul(a, a), JavaInt.Mul(b, b))))
  {
  }

  /** The int distance is the integer square root of distanceSquared, given that Math.sqrt rounds correctly there. */
  lemma IntDistance(ops: Ops, u: Vector2, v: Vector2)
    requires u.IsInt() && v.IsInt()
    requires var ds := JavaInt.Wrap(SquaredDistance(u.x.i, u.y.i, v.x.i, v.y.i));
      SqrtLaw(ds, ops.sqrt(FromInt(ds)))
    ensures var ds := JavaInt.Wrap(SquaredDistance(u.x.i, u.y.i, v.x.i, v.y.i));
      u.Distance(ops, v) == Ok(IntV(IntRoot(ds)))
  {
    IntDistanceSquared(ops, u, v);
    IntSqrt(ops, JavaInt.Wrap(SquaredDistance(u.x.i, u.y.i, v.x.i, v.y.i)));
  }

  // ---------------------------------------------------------------------
  // Integer vectors: normalize
  // ---------------------------------------------------------------------

  /**
   * For every class, normalize() is mul by the scalar invSqrt(lengthSquared()),
   * normalize(length) is mul by invSqrt(lengthSquared()) * length; both
   * fail when lengthSquared or invSqrt fails, and otherwise exactly as the
   * scaling does.
   */
  lemma NormalizeIsScaling(ops: Ops, v: Vector2, length: Num)
    ensures var ls := v.LengthSquared(ops);
      ls.Err? ==> v.Normalize(ops) == Err(ls.error) && v.NormalizeTo(ops, length) == Err(ls.error)
    ensures var ls := v.LengthSquared(ops);
      ls.Ok? && InvSqrt(ops, ls.value).Err? ==>
        v.Normalize(ops) == Err(InvSqrt(ops, ls.value).error) &&
        v.NormalizeTo(ops, length) == Err(InvSqrt(ops, ls.value).error)
    ensures var ls := v.LengthSquared(ops);
      ls.Ok? && InvSqrt(ops, ls.value).Ok? ==>
        var k := InvSqrt(ops, ls.value).value;
        v.Normalize(ops) == v.MulScalar(ops, k) &&
        (TypeHelper.Mul(ops, k, length).Ok? ==> v.NormalizeTo(ops, length) == v.MulScalar(ops, TypeHelper.Mul(ops, k, length).value)) &&
        (TypeHelper.Mul(ops, k, length).Err? ==> v.NormalizeTo(ops, length) == Err(TypeHelper.Mul(ops, k, length).error))
  {
  }

  /** The integer invSqrt of an int lengthSquared: MAX_VALUE for 0, 1 for 1, 0 otherwise. */
  function IntInvLength(ls: JavaInt.Int32): JavaInt.Int32 {
    if ls == 0 then JavaInt.MAX_VALUE else if ls == 1 then 1 else 0
  }

  /** The laws of Math.sqrt and double division that the integer invSqrt of lengthSquared relies on. */
  predicate InvSqrtLaws(ops: Ops, ls: JavaInt.Int32) {
    && SqrtLaw(ls, ops.sqrt(FromInt(ls)))
    && ReciprocalLaw(ops.sqrt(FromInt(ls)), ops.dDiv(ONE, ops.sqrt(FromInt(ls))))
  }

  /**
   * normalize of an int vector multiplies both components by the integer
   * invSqrt of lengthSquared: the vector is kept when lengthSquared is 1,
   * scaled by MAX_VALUE (with wrap-around) when it is 0, and sent to
   * (0, 0) otherwise.
   */
  lemma IntNormalize(ops: Ops, v: Vector2)
    requires v.IsInt()
    requires InvSqrtLaws(ops, JavaInt.Wrap(SquaredLength(v.x.i, v.y.i)))
    ensures var k := IntInvLength(JavaInt.Wrap(SquaredLength(v.x.i, v.y.i)));
      v.Normalize(ops) == Ok(IntVec(JavaInt.Mul(v.x.i, k), JavaInt.Mul(v.y.i, k)))
  {
    IntLengthSquared(ops, v);
    IntInvSqrt(ops, JavaInt.Wrap(SquaredLength(v.x.i, v.y.i)));
  }

  /** normalize(length) of an int vector scales both components by invSqrt(lengthSquared) * length. */
  lemma IntNormalizeTo(ops: Ops, v: Vector2, length: JavaInt.Int32)
    requires v.IsInt()
    requires InvSqrtLaws(ops, JavaInt.Wrap(SquaredLength(v.x.i, v.y.i)))
    ensures var k := JavaInt.Mul(IntInvLength(JavaInt.Wrap(SquaredLength(v.x.i, v.y.i))), length);
      v.NormalizeTo(ops, IntV(length)) == Ok(IntVec(JavaInt.Mul(v.x.i, k), JavaInt.Mul(v.y.i, k)))
  {
    IntLengthSquared(ops, v);
    IntInvSqrt(ops, JavaInt.Wrap(SquaredLength(v.x.i, v.y.i)));
  }

  /** The int zero vector normalizes to (0, 0) rather than throwing. */
  lemma IntNormalizeZero(ops: Ops)
    requires InvSqrtLaws(ops, 0)
    ensures IntVec(0, 0).Normalize(ops) == Ok(IntVec(0, 0))
  {
    var z := IntVec(0, 0);
    assert JavaInt.Add(JavaInt.Mul(0, 0), JavaInt.Mul(0, 0)) == 0 by {
      JavaInt.WrapOfInRange(0);
    }
    assert z.LengthSquared(ops) == Ok(IntV(0));
    IntInvSqrt(ops, 0);
    assert JavaInt.Mul(0, JavaInt.MAX_VALUE) == 0 by {
      JavaInt.WrapOfInRange(0);
    }
  }

  /** A unit int vector on an axis normalizes to itself. */
  lemma IntNormalizeUnit(ops: Ops, v: Vector2)
    requires v in {IntVec(1, 0), IntVec(-1, 0), IntVec(0, 1), IntVec(0, -1)}
    requires InvSqrtLaws(ops, 1)
    ensures v.Normalize(ops) == Ok(v)
  {
    assert SquaredLength(v.x.i, v.y.i) == 1;
    assert JavaInt.Wrap(1) == 1 by {
      JavaInt.WrapOfInRange(1);
    }
    IntNormalize(ops, v);
    JavaInt.WrapOfInRange(v.x.i);
    JavaInt.WrapOfInRange(v.y.i);
  }

  /**
   * An int vector whose lengthSquared wraps to 0 is scaled by MAX_VALUE:
   * (65536, 0) normalizes to (-65536, 0).
   */
  lemma IntNormalizeOverflow(ops: Ops)
    requires InvSqrtLaws(ops, 0)
    ensures IntVec(65536, 0).Normalize(ops) == Ok(IntVec(-65536, 0))
  {
    var v := IntVec(65536, 0);
    assert JavaInt.Mul(65536, 65536) == 0 by {
      JavaInt.WrapShift(0, 1);
      JavaInt.WrapOfInRange(0);
    }
    assert JavaInt.Add(JavaInt.Mul(0, 0), 0) == 0 by {
      JavaInt.WrapOfInRange(0);
    }
    assert v.LengthSquared(ops) == Ok(IntV(0));
    IntInvSqrt(ops, 0);
    assert JavaInt.Mul(65536, JavaInt.MAX_VALUE) == -65536 by {
      JavaInt.WrapShift(-65536, 32768);
      JavaInt.WrapOfInRange(-65536);
    }
    assert JavaInt.Mul(0, JavaInt.MAX_VALUE) == 0 by {
      JavaInt.WrapOfInRange(0);
    }
  }

  // ---------------------------------------------------------------------
  // Integer vectors: angle
  // ---------------------------------------------------------------------

  /**
   * The int angle is the integer atan2 of the wrapped determinant and the
   * wrapped dot product, and lies in -3..3 when Math.atan2 keeps to its range.
   */
  lemma IntAngle(ops: Ops, u: Vector2, v: Vector2)
    requires u.IsInt() && v.IsInt()
    ensures var det := JavaInt.Wrap(u.x.i * v.y.i - u.y.i * v.x.i);
      var dot := JavaInt.Wrap(u.x.i * v.x.i + u.y.i * v.y.i);
      u.Angle(ops, v) == Atan2(ops, IntV(det), IntV(dot))
      && (Atan2RangeLaw(ops.atan2(FromInt(det), FromInt(dot))) ==> -3 <= u.Angle(ops, v).value.i <= 3)
  {
    var a, b, c, d := u.x.i, u.y.i, v.x.i, v.y.i;
    assert u == IntVec(a, b) && v == IntVec(c, d);
    IntAngleSteps(ops, a, b, c, d);
    JavaInt.SumOfProducts(a, b, c, d);
    JavaInt.DifferenceOfProducts(a, b, c, d);
    var det := JavaInt.Wrap(a as int * d - b as int * c);
    var dot := JavaInt.Wrap(a as int * c + b as int * d);
    assert u.Angle(ops, v) == Atan2(ops, IntV(det), IntV(dot));
    if Atan2RangeLaw(ops.atan2(FromInt(det), FromInt(dot))) {
      IntAtan2Range(ops, det, dot);
    }
  }

  /** angle of int vectors, as the composition of the int operators. */
  lemma IntAngleSteps(ops: Ops, a: JavaInt.Int32, b: JavaInt.Int32, c: JavaInt.Int32, d: JavaInt.Int32)
    ensures IntVec(a, b).Angle(ops, IntVec(c, d)) ==
      Atan2(ops, IntV(JavaInt.Sub(JavaInt.Mul(a, d), JavaInt.Mul(b, c))),
                 IntV(JavaInt.Add(JavaInt.Mul(a, c), JavaInt.Mul(b, d))))
  {
  }

  /**
   * The int angle of a vector with itself is atan2(0, lengthSquared): 0 when
   * lengthSquared is positive, but 3 when it wrapped negative.
   */
  lemma IntAngleSelf(ops: Ops, v: Vector2)
    requires v.IsInt()
    requires var ls := JavaInt.Wrap(SquaredLength(v.x.i, v.y.i));
      ls != 0 && Atan2AxisLaw(ls, ops.atan2(FromInt(0), FromInt(ls)))
    ensures var ls := JavaInt.Wrap(SquaredLength(v.x.i, v.y.i));
      v.Angle(ops, v) == Ok(IntV(if ls > 0 then 0 else 3))
  {
    var a: int, b: int := v.x.i, v.y.i;
    IntAngle(ops, v, v);
    var ls := JavaInt.Wrap(SquaredLength(a, b));
    assert a * b - b * a == 0;
    JavaInt.WrapOfInRange(0);
    assert v.Angle(ops, v) == Atan2(ops, IntV(0), IntV(ls));
    IntAtan2OnAxis(ops, ls);
  }

  /**
   * The int angle between a vector and its negation: the determinant cancels
   * to 0 and the dot product is the negated lengthSquared, with wrap-around.
   * So it is 3 (pi truncated) when lengthSquared is positive, but 0 when
   * lengthSquared has wrapped negative, except at MIN_VALUE, whose negation
   * is MIN_VALUE again.
   */
  lemma IntAngleOpposite(ops: Ops, v: Vector2)
    requires v.IsInt()
    requires var ls := JavaInt.Wrap(SquaredLength(v.x.i, v.y.i));
      ls != 0 && Atan2AxisLaw(JavaInt.Neg(ls), ops.atan2(FromInt(0), FromInt(JavaInt.Neg(ls))))
    ensures var ls := JavaInt.Wrap(SquaredLength(v.x.i, v.y.i));
      v.Angle(ops, v.Negate(ops).value) == Ok(IntV(if ls > 0 || ls == JavaInt.MIN_VALUE then 3 else 0))
  {
    var a, b := v.x.i, v.y.i;
    var na, nb := JavaInt.Neg(a), JavaInt.Neg(b);
    NegateInvolutive(ops, v);
    assert v == IntVec(a, b) && v.Negate(ops).value == IntVec(na, nb);
    IntAngleSteps(ops, a, b, na, nb);
    JavaInt.NegatedProducts(a, b);
    var ls := JavaInt.Add(JavaInt.Mul(a, a), JavaInt.Mul(b, b));
    SquaredLengthWraps(a, b);
    IntAtan2OnNegatedAxis(ops, ls);
  }

  /** For (46341, 0) lengthSquared wraps negative, so its angle with its own negation is 0 rather than 3. */
  lemma AngleOppositeOverflow(ops: Ops)
    requires Atan2AxisLaw(2147479015, ops.atan2(FromInt(0), FromInt(2147479015)))
    ensures IntVec(46341, 0).Angle(ops, IntVec(46341, 0).Negate(ops).value) == Ok(IntV(0))
  {
    assert JavaInt.Wrap(SquaredLength(46341, 0)) == -2147479015 by {
      JavaInt.WrapShift(-2147479015, 1);
    }
    assert JavaInt.Neg(-2147479015) == 2147479015 by {
      JavaInt.WrapOfInRange(2147479015);
    }
    IntAngleOpposite(ops, IntVec(46341, 0));
  }

  /**
   * For (32768, 32768) lengthSquared wraps to exactly MIN_VALUE, whose
   * negation is MIN_VALUE again, so the angle with the negation stays 3.
   */
  lemma AngleOppositeAtMinValue(ops: Ops)
    requires Atan2AxisLaw(JavaInt.MIN_VALUE, ops.atan2(FromInt(0), FromInt(JavaInt.MIN_VALUE)))
    ensures IntVec(32768, 32768).Angle(ops, IntVec(32768, 32768).Negate(ops).value) == Ok(IntV(3))
  {
    assert JavaInt.Wrap(SquaredLength(32768, 32768)) == JavaInt.MIN_VALUE by {
      JavaInt.WrapShift(JavaInt.MIN_VALUE, 1);
    }
    JavaInt.NegMinValue();
    IntAngleOpposite(ops, IntVec(32768, 32768));
  }

  /**
   * When lengthSquared wraps to exactly 0 (the zero vector, but also (65536, 0)),
   * both the dot product with v and that with its negation are 0, as is the
   * determinant; given Math.atan2's special case atan2(+0.0, +0.0) == +0.0,
   * the angle of v with itself and with its negation are both 0.
   */
  lemma IntAngleWrappedZero(ops: Ops, v: Vector2)
    requires v.IsInt() && JavaInt.Wrap(SquaredLength(v.x.i, v.y.i)) == 0
    requires ops.atan2(FromInt(0), FromInt(0)) == Finite(0.0)
    ensures v.Angle(ops, v) == Ok(IntV(0))
    ensures v.Angle(ops, v.Negate(ops).value) == Ok(IntV(0))
  {
    var a, b := v.x.i, v.y.i;
    var na, nb := JavaInt.Neg(a), JavaInt.Neg(b);
    NegateInvolutive(ops, v);
    assert v == IntVec(a, b) && v.Negate(ops).value == IntVec(na, nb);
    IntAngleSteps(ops, a, b, a, b);
    IntAngleSteps(ops, a, b, na, nb);
    JavaInt.NegatedProducts(a, b);
    JavaInt.AddMulCommute(a, b);
    JavaInt.SubSelf(JavaInt.Mul(a, b));
    SquaredLengthWraps(a, b);
    assert JavaInt.Neg(0) == 0 by {
      JavaInt.WrapOfInRange(0);
    }
  }

  /** (65536, 0) is a nonzero vector whose angle with its negation is 0, because lengthSquared wraps to 0. */
  lemma AngleOppositeWrapsToZero(ops: Ops)
    requires ops.atan2(FromInt(0), FromInt(0)) == Finite(0.0)
    ensures IntVec(65536, 0).Angle(ops, IntVec(65536, 0).Negate(ops).value) == Ok(IntV(0))
  {
    assert JavaInt.Wrap(SquaredLength(65536, 0)) == 0 by {
      JavaInt.WrapShift(0, 1);
    }
    IntAngleWrappedZero(ops, IntVec(65536, 0));
  }

  /** (46341, 0) is the shortest int axis vector whose angle with itself is 3 rather than 0. */
  lemma AngleSelfOverflow(ops: Ops)
    requires Atan2AxisLaw(-2147479015, ops.atan2(FromInt(0), FromInt(-2147479015)))
    ensures IntVec(46341, 0).Angle(ops, IntVec(46341, 0)) == Ok(IntV(3))
  {
    assert JavaInt.Wrap(SquaredLength(46341, 0)) == -2147479015 by {
      JavaInt.WrapShift(-2147479015, 1);
    }
    IntAngleSelf(ops, IntVec(46341, 0));
  }
}
