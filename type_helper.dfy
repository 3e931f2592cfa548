/**
 * The numeric dispatch layer (TypeHelper.java): a closed case analysis on
 * the runtime class of a boxed number. Integer, Float, Double and any
 * ValuedNumber are accepted; every other Number is rejected by checkType.
 * Binary primitives dispatch on the first operand and cast the second to
 * the same built-in class, so a mismatched pair fails at the cast.
 *
 * The integer arm is Java `int` arithmetic (module JavaInt) with the
 * detours through `double` that the source takes for sqrt, invSqrt and
 * atan2 (module JavaDouble). Float and double arithmetic, Math.sqrt,
 * Math.atan2 and the methods of user-defined ValuedNumber objects are
 * not written out: they are the fields of an `Ops` value that every
 * primitive takes as a parameter, with no laws assumed of them.
 */
module TypeHelper {
  import JavaInt
  import opened JavaDouble

  /** A boxed operand, by runtime class. Float and double values are seen by value. */
  datatype Num =
    | IntV(i: JavaInt.Int32)   // java.lang.Integer
    | F32(f: Ieee)             // java.lang.Float
    | F64(d: Ieee)             // java.lang.Double
    | Custom(obj: nat)         // an object implementing ValuedNumber, by identity
    | Other(cls: string)       // any other subclass of Number, by class name

  datatype Kind = IntegerKind | FloatKind | DoubleKind | ValuedKind | OtherKind(name: string)

  function KindOf(n: Num): Kind {
    match n
    case IntV(_) => IntegerKind
    case F32(_) => FloatKind
    case F64(_) => DoubleKind
    case Custom(_) => ValuedKind
    case Other(c) => OtherKind(c)
  }

  /** The exceptions the core throws, one constructor per cause. */
  datatype Error =
    | UnexpectedType(cls: string)              // IllegalStateException from checkType
    | ClassCast(actual: Kind, target: Kind)    // ClassCastException from `(Integer) b` and the like
    | DivideByZero                             // ArithmeticException from int division
    | UnexpectedComponent(component: int)      // IllegalStateException from Vector2.get
    | IndexOutOfBounds(index: int, length: int) // ArrayIndexOutOfBoundsException

  /** A value, or the exception that was thrown instead. */
  datatype Result<T> = Ok(value: T) | Err(error: Error) {
    predicate IsFailure() {
      Err?
    }

    function PropagateFailure<U>(): Result<U>
      requires Err?
    {
      Err(error)
    }

    function Extract(): T
      requires Ok?
    {
      value
    }
  }

  /**
   * The operations the dispatch layer calls but does not define: Java's
   * float and double operators, the (float) narrowing of a double,
   * Math.sqrt and Math.atan2, and the eight methods of a ValuedNumber,
   * which receive the second operand as it is and may return anything or
   * throw.
   */
  datatype Ops = Ops(
    fAdd: (Ieee, Ieee) -> Ieee,
    fSub: (Ieee, Ieee) -> Ieee,
    fMul: (Ieee, Ieee) -> Ieee,
    fDiv: (Ieee, Ieee) -> Ieee,
    dAdd: (Ieee, Ieee) -> Ieee,
    dSub: (Ieee, Ieee) -> Ieee,
    dMul: (Ieee, Ieee) -> Ieee,
    dDiv: (Ieee, Ieee) -> Ieee,
    toFloat: Ieee -> Ieee,
    sqrt: Ieee -> Ieee,
    atan2: (Ieee, Ieee) -> Ieee,
    vNegative: nat -> Result<Num>,
    vAdd: (nat, Num) -> Result<Num>,
    vSub: (nat, Num) -> Result<Num>,
    vMul: (nat, Num) -> Result<Num>,
    vDiv: (nat, Num) -> Result<Num>,
    vAtan2: (nat, Num) -> Result<Num>,
    vSqrt: nat -> Result<Num>,
    vInvSqrt: nat -> Result<Num>)

  const ONE: Ieee := Finite(1.0)
  const MINUS_ONE: Ieee := Finite(-1.0)

  /** The classes checkType accepts. */
  predicate Supported(n: Num) {
    n.IntV? || n.F32? || n.F64? || n.Custom?
  }

  /** The classes the primitives compute on themselves rather than delegate. */
  predicate Builtin(n: Num) {
    n.IntV? || n.F32? || n.F64?
  }

  /** checkType: passes exactly Integer, Float, Double and ValuedNumber, and names the class it rejects. */
  function CheckType(n: Num): (r: Result<()>)
    ensures r.Ok? <==> (n.IntV? || n.F32? || n.F64? || n.Custom?)
    ensures r.Err? ==> r.error == UnexpectedType(n.cls)
  {
    if n.Other? then Err(UnexpectedType(n.cls)) else Ok(())
  }

  /** The casts `(Integer) b`, `(Float) b` and `(Double) b`. */
  function AsInt(b: Num): (r: Result<JavaInt.Int32>)
    ensures r.Ok? <==> b.IntV?
    ensures r.Ok? ==> r.value == b.i
    ensures r.Err? ==> r.error == ClassCast(KindOf(b), IntegerKind)
  {
    if b.IntV? then Ok(b.i) else Err(ClassCast(KindOf(b), IntegerKind))
  }

  function AsFloat(b: Num): (r: Result<Ieee>)
    ensures r.Ok? <==> b.F32?
    ensures r.Ok? ==> r.value == b.f
    ensures r.Err? ==> r.error == ClassCast(KindOf(b), FloatKind)
  {
    if b.F32? then Ok(b.f) else Err(ClassCast(KindOf(b), FloatKind))
  }

  function AsDouble(b: Num): (r: Result<Ieee>)
    ensures r.Ok? <==> b.F64?
    ensures r.Ok? ==> r.value == b.d
    ensures r.Err? ==> r.error == ClassCast(KindOf(b), DoubleKind)
  {
    if b.F64? then Ok(b.d) else Err(ClassCast(KindOf(b), DoubleKind))
  }

  /**
   * What every one-operand primitive promises: an unsupported operand is
   * rejected by checkType, and a built-in operand always gives a result of
   * its own class.
   */
  predicate UnaryShape(a: Num, r: Result<Num>) {
    && (!Supported(a) ==> r == Err(UnexpectedType(a.cls)))
    && (Builtin(a) ==> r.Ok? && KindOf(r.value) == KindOf(a))
  }

  /**
   * What every two-operand primitive promises: both operands are checked,
   * the first one first; a built-in first operand and a supported second
   * operand of another class fail at the cast, with no coercion; and a
   * result computed for a built-in first operand has its class.
   */
  predicate BinaryShape(a: Num, b: Num, r: Result<Num>) {
    && (!Supported(a) ==> r == Err(UnexpectedType(a.cls)))
    && (Supported(a) && !Supported(b) ==> r == Err(UnexpectedType(b.cls)))
    && (Builtin(a) && Supported(b) && KindOf(b) != KindOf(a) ==> r == Err(ClassCast(KindOf(b), KindOf(a))))
    && (Builtin(a) && r.Ok? ==> KindOf(r.value) == KindOf(a))
  }

  /** negative: int negation with wrap-around, `x * -1` for float and double, delegation otherwise. */
  function Negative(ops: Ops, n: Num): (r: Result<Num>)
    ensures UnaryShape(n, r)
    ensures n.IntV? ==> r == Ok(IntV(JavaInt.Neg(n.i)))
    ensures n.F32? ==> r == Ok(F32(ops.fMul(n.f, MINUS_ONE)))
    ensures n.F64? ==> r == Ok(F64(ops.dMul(n.d, MINUS_ONE)))
    ensures n.Custom? ==> r == ops.vNegative(n.obj)
  {
    var _ :- CheckType(n);
    match n
    case IntV(i) => Ok(IntV(JavaInt.Neg(i)))
    case F32(f) => Ok(F32(ops.fMul(f, MINUS_ONE)))
    case F64(d) => Ok(F64(ops.dMul(d, MINUS_ONE)))
    case Custom(c) => ops.vNegative(c)
  }

  /** sub */
  function Sub(ops: Ops, a: Num, b: Num): (r: Result<Num>)
    ensures BinaryShape(a, b, r)
    ensures Builtin(a) && KindOf(b) == KindOf(a) ==> r.Ok?
    ensures a.IntV? && b.IntV? ==> r == Ok(IntV(JavaInt.Sub(a.i, b.i)))
    ensures a.F32? && b.F32? ==> r == Ok(F32(ops.fSub(a.f, b.f)))
    ensures a.F64? && b.F64? ==> r == Ok(F64(ops.dSub(a.d, b.d)))
    ensures a.Custom? && Supported(b) ==> r == ops.vSub(a.obj, b)
  {
    var _ :- CheckType(a);
    var _ :- CheckType(b);
    match a
    case IntV(x) => var y :- AsInt(b); Ok(IntV(JavaInt.Sub(x, y)))
    case F32(x) => var y :- AsFloat(b); Ok(F32(ops.fSub(x, y)))
    case F64(x) => var y :- AsDouble(b); Ok(F64(ops.dSub(x, y)))
    case Custom(c) => ops.vSub(c, b)
  }

  /** mul */
  function Mul(ops: Ops, a: Num, b: Num): (r: Result<Num>)
    ensures BinaryShape(a, b, r)
    ensures Builtin(a) && KindOf(b) == KindOf(a) ==> r.Ok?
    ensures a.IntV? && b.IntV? ==> r == Ok(IntV(JavaInt.Mul(a.i, b.i)))
    ensures a.F32? && b.F32? ==> r == Ok(F32(ops.fMul(a.f, b.f)))
    ensures a.F64? && b.F64? ==> r == Ok(F64(ops.dMul(a.d, b.d)))
    ensures a.Custom? && Supported(b) ==> r == ops.vMul(a.obj, b)
  {
    var _ :- CheckType(a);
    var _ :- CheckType(b);
    match a
    case IntV(x) => var y :- AsInt(b); Ok(IntV(JavaInt.Mul(x, y)))
    case F32(x) => var y :- AsFloat(b); Ok(F32(ops.fMul(x, y)))
    case F64(x) => var y :- AsDouble(b); Ok(F64(ops.dMul(x, y)))
    case Custom(c) => ops.vMul(c, b)
  }

  /**
   * div: an int divisor of zero throws ArithmeticException; float and
   * double division never throw (a zero divisor gives an infinity or NaN).
   */
  function Div(ops: Ops, a: Num, b: Num): (r: Result<Num>)
    ensures BinaryShape(a, b, r)
    ensures (a.F32? && b.F32?) || (a.F64? && b.F64?) ==> r.Ok?
    ensures a.IntV? && b.IntV? && b.i == 0 ==> r == Err(DivideByZero)
    ensures a.IntV? && b.IntV? && b.i != 0 ==> r == Ok(IntV(JavaInt.Div(a.i, b.i)))
    ensures a.F32? && b.F32? ==> r == Ok(F32(ops.fDiv(a.f, b.f)))
    ensures a.F64? && b.F64? ==> r == Ok(F64(ops.dDiv(a.d, b.d)))
    ensures a.Custom? && Supported(b) ==> r == ops.vDiv(a.obj, b)
  {
    var _ :- CheckType(a);
    var _ :- CheckType(b);
    match a
    case IntV(x) =>
      var y :- AsInt(b);
      if y == 0 then Err(DivideByZero) else Ok(IntV(JavaInt.Div(x, y)))
    case F32(x) => var y :- AsFloat(b); Ok(F32(ops.fDiv(x, y)))
    case F64(x) => var y :- AsDouble(b); Ok(F64(ops.dDiv(x, y)))
    case Custom(c) => ops.vDiv(c, b)
  }

  /** add */
  function Add(ops: Ops, a: Num, b: Num): (r: Result<Num>)
    ensures BinaryShape(a, b, r)
    ensures Builtin(a) && KindOf(b) == KindOf(a) ==> r.Ok?
    ensures a.IntV? && b.IntV? ==> r == Ok(IntV(JavaInt.Add(a.i, b.i)))
    ensures a.F32? && b.F32? ==> r == Ok(F32(ops.fAdd(a.f, b.f)))
    ensures a.F64? && b.F64? ==> r == Ok(F64(ops.dAdd(a.d, b.d)))
    ensures a.Custom? && Supported(b) ==> r == ops.vAdd(a.obj, b)
  {
    var _ :- CheckType(a);
    var _ :- CheckType(b);
    match a
    case IntV(x) => var y :- AsInt(b); Ok(IntV(JavaInt.Add(x, y)))
    case F32(x) => var y :- AsFloat(b); Ok(F32(ops.fAdd(x, y)))
    case F64(x) => var y :- AsDouble(b); Ok(F64(ops.dAdd(x, y)))
    case Custom(c) => ops.vAdd(c, b)
  }

  /**
   * atan2: ints and floats are widened to double, Math.atan2 is applied,
   * and the result is narrowed back to the first operand's class.
   */
  function Atan2(ops: Ops, a: Num, b: Num): (r: Result<Num>)
    ensures BinaryShape(a, b, r)
    ensures Builtin(a) && KindOf(b) == KindOf(a) ==> r.Ok?
    ensures a.IntV? && b.IntV? ==> r == Ok(IntV(Narrow(ops.atan2(FromInt(a.i), FromInt(b.i)))))
    ensures a.F32? && b.F32? ==> r == Ok(F32(ops.toFloat(ops.atan2(a.f, b.f))))
    ensures a.F64? && b.F64? ==> r == Ok(F64(ops.atan2(a.d, b.d)))
    ensures a.Custom? && Supported(b) ==> r == ops.vAtan2(a.obj, b)
  {
    var _ :- CheckType(a);
    var _ :- CheckType(b);
    match a
    case IntV(x) => var y :- AsInt(b); Ok(IntV(Narrow(ops.atan2(FromInt(x), FromInt(y)))))
    case F32(x) => var y :- AsFloat(b); Ok(F32(ops.toFloat(ops.atan2(x, y))))
    case F64(x) => var y :- AsDouble(b); Ok(F64(ops.atan2(x, y)))
    case Custom(c) => ops.vAtan2(c, b)
  }

  /** sqrt: Math.sqrt in double, narrowed back to int or float. */
  function Sqrt(ops: Ops, n: Num): (r: Result<Num>)
    ensures UnaryShape(n, r)
    ensures n.IntV? ==> r == Ok(IntV(Narrow(ops.sqrt(FromInt(n.i)))))
    ensures n.F32? ==> r == Ok(F32(ops.toFloat(ops.sqrt(n.f))))
    ensures n.F64? ==> r == Ok(F64(ops.sqrt(n.d)))
    ensures n.Custom? ==> r == ops.vSqrt(n.obj)
  {
    var _ :- CheckType(n);
    match n
    case IntV(i) => Ok(IntV(Narrow(ops.sqrt(FromInt(i)))))
    case F32(f) => Ok(F32(ops.toFloat(ops.sqrt(f))))
    case F64(d) => Ok(F64(ops.sqrt(d)))
    case Custom(c) => ops.vSqrt(c)
  }

  /** invSqrt: `1.0 / Math.sqrt(n)` in double, narrowed back to int or float. */
  function InvSqrt(ops: Ops, n: Num): (r: Result<Num>)
    ensures UnaryShape(n, r)
    ensures n.IntV? ==> r == Ok(IntV(Narrow(ops.dDiv(ONE, ops.sqrt(FromInt(n.i))))))
    ensures n.F32? ==> r == Ok(F32(ops.toFloat(ops.dDiv(ONE, ops.sqrt(n.f)))))
    ensures n.F64? ==> r == Ok(F64(ops.dDiv(ONE, ops.sqrt(n.d))))
    ensures n.Custom? ==> r == ops.vInvSqrt(n.obj)
  {
    var _ :- CheckType(n);
    match n
    case IntV(i) => Ok(IntV(Narrow(ops.dDiv(ONE, ops.sqrt(FromInt(i))))))
    case F32(f) => Ok(F32(ops.toFloat(ops.dDiv(ONE, ops.sqrt(f)))))
    case F64(d) => Ok(F64(ops.dDiv(ONE, ops.sqrt(d))))
    case Custom(c) => ops.vInvSqrt(c)
  }

  /** An operand checkType rejects makes every primitive fail, and none of them returns a value. */
  lemma UnsupportedAlwaysFails(ops: Ops, a: Num, b: Num)
    requires !Supported(a) || !Supported(b)
    ensures Sub(ops, a, b).Err? && Mul(ops, a, b).Err? && Div(ops, a, b).Err?
    ensures Add(ops, a, b).Err? && Atan2(ops, a, b).Err?
    ensures !Supported(a) ==> Negative(ops, a).Err? && Sqrt(ops, a).Err? && InvSqrt(ops, a).Err?
  {
  }

  /**
   * A built-in first operand and a second operand of another supported
   * class never meet: the cast of the second operand throws.
   */
  lemma NoCoercion(ops: Ops, a: Num, b: Num)
    requires Builtin(a) && Supported(b) && KindOf(a) != KindOf(b)
    ensures var e := Err(ClassCast(KindOf(b), KindOf(a)));
      Sub(ops, a, b) == e && Mul(ops, a, b) == e && Div(ops, a, b) == e
      && Add(ops, a, b) == e && Atan2(ops, a, b) == e
  {
  }

  /** Integer add, sub and mul are the 32-bit wrapping operators; add and mul commute. */
  lemma IntArithmetic(ops: Ops, a: JavaInt.Int32, b: JavaInt.Int32)
    ensures Add(ops, IntV(a), IntV(b)) == Ok(IntV(JavaInt.Wrap(a + b)))
    ensures Sub(ops, IntV(a), IntV(b)) == Ok(IntV(JavaInt.Wrap(a - b)))
    ensures Mul(ops, IntV(a), IntV(b)) == Ok(IntV(JavaInt.Wrap(a * b)))
    ensures Add(ops, IntV(a), IntV(b)) == Add(ops, IntV(b), IntV(a))
    ensures Mul(ops, IntV(a), IntV(b)) == Mul(ops, IntV(b), IntV(a))
  {
    JavaInt.AddMulCommute(a, b);
  }

  /** Integer negation is an involution, and it maps MIN_VALUE to itself. */
  lemma IntNegativeInvolutive(ops: Ops, i: JavaInt.Int32)
    ensures Negative(ops, Negative(ops, IntV(i)).value) == Ok(IntV(i))
    ensures Negative(ops, IntV(JavaInt.MIN_VALUE)) == Ok(IntV(JavaInt.MIN_VALUE))
  {
    JavaInt.NegInvolutive(i);
    JavaInt.NegMinValue();
  }

  /** For ints, sub(a, b) == negative(sub(b, a)), wrap-around included. */
  lemma IntSubAntiCommutes(ops: Ops, a: JavaInt.Int32, b: JavaInt.Int32)
    ensures Sub(ops, IntV(a), IntV(b)) == Negative(ops, Sub(ops, IntV(b), IntV(a)).value)
  {
    JavaInt.SubAntiCommutes(a, b);
  }

  /**
   * Integer division throws on a zero divisor, gives MIN_VALUE for
   * MIN_VALUE / -1, and otherwise the quotient rounded toward zero: its
   * remainder is smaller than the divisor and has the dividend's sign.
   */
  lemma IntDivision(ops: Ops, a: JavaInt.Int32, b: JavaInt.Int32)
    ensures b == 0 ==> Div(ops, IntV(a), IntV(b)) == Err(DivideByZero)
    ensures a == JavaInt.MIN_VALUE && b == -1 ==> Div(ops, IntV(a), IntV(b)) == Ok(IntV(JavaInt.MIN_VALUE))
    ensures b != 0 && !(a == JavaInt.MIN_VALUE && b == -1) ==>
      Div(ops, IntV(a), IntV(b)).Ok? &&
      var q := Div(ops, IntV(a), IntV(b)).value.i; var r := a - q * b;
      JavaInt.Abs(r) < JavaInt.Abs(b) && (r == 0 || (r < 0) == (a < 0))
  {
    if b != 0 && !(a == JavaInt.MIN_VALUE && b == -1) {
      JavaInt.DivTruncates(a, b);
    }
  }

  /**
   * Integer sqrt, given that Math.sqrt keeps its promise at this argument:
   * 0 for a negative int (NaN narrows to 0), the integer square root otherwise.
   */
  lemma IntSqrt(ops: Ops, n: JavaInt.Int32)
    requires SqrtLaw(n, ops.sqrt(FromInt(n)))
    ensures Sqrt(ops, IntV(n)) == Ok(IntV(IntRoot(n)))
  {
    NarrowSqrt(n, ops.sqrt(FromInt(n)));
  }

  /**
   * Integer invSqrt, given that Math.sqrt and double division keep their
   * promises here: MAX_VALUE for 0 (+infinity narrows to MAX_VALUE), 1 for
   * 1, and 0 for every other int.
   */
  lemma IntInvSqrt(ops: Ops, n: JavaInt.Int32)
    requires SqrtLaw(n, ops.sqrt(FromInt(n)))
    requires ReciprocalLaw(ops.sqrt(FromInt(n)), ops.dDiv(ONE, ops.sqrt(FromInt(n))))
    ensures InvSqrt(ops, IntV(n)) == Ok(IntV(if n == 0 then JavaInt.MAX_VALUE else if n == 1 then 1 else 0))
  {
    NarrowReciprocalSqrt(n, ops.sqrt(FromInt(n)), ops.dDiv(ONE, ops.sqrt(FromInt(n))));
  }

  /** Integer atan2 lies in -3..3, the truncation of an angle in [-pi, pi]. */
  lemma IntAtan2Range(ops: Ops, a: JavaInt.Int32, b: JavaInt.Int32)
    requires Atan2RangeLaw(ops.atan2(FromInt(a), FromInt(b)))
    ensures Atan2(ops, IntV(a), IntV(b)).Ok?
    ensures -3 <= Atan2(ops, IntV(a), IntV(b)).value.i <= 3
  {
    NarrowAtan2(ops.atan2(FromInt(a), FromInt(b)));
  }

  /** Integer atan2 with a first operand of 0: 0 for a positive second operand, 3 (pi truncated) for a negative one. */
  lemma IntAtan2OnAxis(ops: Ops, x: JavaInt.Int32)
    requires x != 0
    requires Atan2AxisLaw(x, ops.atan2(FromInt(0), FromInt(x)))
    ensures Atan2(ops, IntV(0), IntV(x)) == Ok(IntV(if x > 0 then 0 else 3))
  {
    NarrowPi();
  }

  /**
   * atan2(0, -x) for an int x != 0: the negation wraps, so -MIN_VALUE is
   * MIN_VALUE again and gives 3 like a positive x, while every other
   * negative x gives 0.
   */
  lemma IntAtan2OnNegatedAxis(ops: Ops, x: JavaInt.Int32)
    requires x != 0
    requires Atan2AxisLaw(JavaInt.Neg(x), ops.atan2(FromInt(0), FromInt(JavaInt.Neg(x))))
    ensures Atan2(ops, IntV(0), IntV(JavaInt.Neg(x))) == Ok(IntV(if x > 0 || x == JavaInt.MIN_VALUE then 3 else 0))
  {
    if x == JavaInt.MIN_VALUE {
      JavaInt.NegMinValue();
    } else {
      JavaInt.WrapOfInRange(-(x as int));
    }
    IntAtan2OnAxis(ops, JavaInt.Neg(x));
  }
}
