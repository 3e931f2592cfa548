# valued-math: numeric dispatch and Vector2, in Dafny

This project models the core of valued-math, a small Java library of value-type linear algebra.
The library has two parts:

- **TypeHelper** is the numeric dispatch layer.
  - `checkType` rejects any runtime class other than `Integer`, `Float`, `Double` and a user-defined `ValuedNumber`.
  - The one-operand primitives (negative, sqrt, invSqrt) run checkType on their operand and dispatch on its class.
  - The two-operand primitives (sub, mul, div, add, atan2) run checkType on both operands, the first one first, and dispatch on the first operand's class. For `Integer`, `Float` and `Double` they cast the second operand to that same class; a `ValuedNumber` receives it uncast.
- **Vector2** is a two-component vector over any of those classes. Each of its operations is a composition of TypeHelper primitives.

The model has four modules.

| module | file | contents |
|---|---|---|
| `JavaInt` | `java_int.dfy` | Java `int` arithmetic: wrap-around to 32 bits, and truncating division with MIN_VALUE / -1 == MIN_VALUE |
| `JavaDouble` | `java_double.dfy` | doubles as values (`Ieee`), the `(int)` narrowing cast, and exact widening of an int. It also states, as predicates, the guarantees that `Math.sqrt`, `1.0 / x` and `Math.atan2` give on the values the integer paths pass to them |
| `TypeHelper` | `type_helper.dfy` | boxed operands (`Num`), the exceptions (`Error`), the `Result` of a call that may throw, and the nine primitives |
| `Vectors` | `vector2.dfy` | the `Vector2` datatype with every instance method, the four constructors, the static `length`/`distance`/`distanceSquared` forms, and the lemmas about them |

The Java code is pure, apart from the exceptions it throws. A `Vector2` is an immutable value class, and nothing in the core updates state in place. So every operation is a Dafny function returning a `Result`.

A thrown exception is an `Err`:

- `UnexpectedType`: checkType rejected an operand.
- `ClassCast`: a mismatched second operand failed its cast.
- `DivideByZero`: integer division by zero.
- `UnexpectedComponent`: `get` was given an index other than 0 or 1.
- `IndexOutOfBounds`: the array constructor was given a short array.

Java evaluates arguments left to right, and the model chains the calls in that order. So the first exception is the one returned.

Some of the operations are not defined in the core:

- float and double arithmetic;
- the `(float)` narrowing;
- `Math.sqrt` and `Math.atan2`;
- the eight `ValuedNumber` methods.

These are the fields of an `Ops` value, which is an explicit parameter of every primitive.

### How the integer paths are proved

The integer arm is written out exactly.

Integer `sqrt`, `invSqrt` and `atan2` go through `double`, as the source does. Their integer results are proved under predicates that state the Java guarantees at the arguments actually passed:

- `SqrtLaw`: `Math.sqrt` is correctly rounded.
- `ReciprocalLaw`: IEEE `1.0 / x` is correctly rounded.
- `Atan2RangeLaw`: `Math.atan2` is within 2 ulps of an angle in [-pi, pi].
- `Atan2AxisLaw`: `Math.atan2(+0.0, x)` is `+0.0` or `Math.PI`.

### Behaviour that follows the code

Three behaviours one might expect do not hold in the code. The model follows the code:

- **Normalizing the integer zero vector does not throw.** There is no integer division in `normalize`.
  - `invSqrt(0)` computes `(int) (1.0 / 0.0)`, and `(int) +Infinity` is `Integer.MAX_VALUE`. So the zero vector normalizes to `(0, 0)` (`Vectors.IntNormalizeZero`).
  - A vector whose lengthSquared wraps to 0 is scaled by MAX_VALUE instead: `(65536, 0)` normalizes to `(-65536, 0)` (`Vectors.IntNormalizeOverflow`).
- **The two-component constructor does not reject components of different classes.** It runs checkType on each component separately. The mismatch only surfaces when an operation combines the components (`Vectors.MixedKindsAccepted`).
- **`angle(v, v)` is not 0, and `angle(v, -v)` is not pi truncated, for every integer vector.** The test file's comments promise 0 and `Math.PI` (src/test/java/org/overrun/math/test/Vector2Test.java:31 and 35). The integer dot products can overflow.
  - When `x*x + y*y` overflows to a negative int, the dot product of v with itself is that negative number. Its dot product with -v is positive, unless the sum wraps to exactly MIN_VALUE, whose negation is MIN_VALUE again.
  - `(46341, 0)` is such a vector: `angle(v, v)` is 3 (`Vectors.AngleSelfOverflow`) and `angle(v, v.negate())` is 0 (`Vectors.AngleOppositeOverflow`).
  - `(32768, 32768)` wraps to exactly MIN_VALUE: `angle(v, v.negate())` stays 3 (`Vectors.AngleOppositeAtMinValue`).
  - For a nonzero vector below the overflow, `angle(v, v)` is 0 and `angle(v, -v)` is 3 (`Vectors.IntAngleSelf`, `Vectors.IntAngleOpposite`).
  - When `x*x + y*y` is 0 or overflows to exactly 0, both dot products are 0, and so is the determinant.
  - `(65536, 0)` overflows to 0: `angle(v, v.negate())` is 0, not 3 (`Vectors.AngleOppositeWrapsToZero`). This uses `Math.atan2(+0.0, +0.0) == +0.0`. The same holds for every vector whose lengthSquared wraps to 0, the zero vector included, for both `angle(v, v)` and `angle(v, v.negate())` (`Vectors.IntAngleWrappedZero`).

## Model

| member | source | states |
|---|---|---|
| JavaInt.Wrap | src/main/java/org/overrun/math/TypeHelper.java:84 | the int result of an int operator is the exact value reduced modulo 2^32 into [MIN_VALUE, MAX_VALUE] |
| JavaInt.Neg | src/main/java/org/overrun/math/TypeHelper.java:36 | `-i` on int is congruent to the exact negation modulo 2^32 |
| JavaInt.Add | src/main/java/org/overrun/math/TypeHelper.java:84 | int `+` is congruent to the exact sum modulo 2^32 |
| JavaInt.Sub | src/main/java/org/overrun/math/TypeHelper.java:48 | int `-` is congruent to the exact difference modulo 2^32 |
| JavaInt.Mul | src/main/java/org/overrun/math/TypeHelper.java:60 | int `*` is congruent to the exact product modulo 2^32 |
| JavaInt.Div | src/main/java/org/overrun/math/TypeHelper.java:72 | int `/` of MIN_VALUE by -1 overflows back to MIN_VALUE |
| JavaInt.DivTruncates | src/main/java/org/overrun/math/TypeHelper.java:72 | outside that case the quotient rounds toward zero: the remainder is smaller than the divisor in magnitude and is 0 or has the dividend's sign |
| JavaInt.NegInvolutive | src/main/java/org/overrun/math/TypeHelper.java:36 | negating twice gives the int back, MIN_VALUE included |
| JavaInt.NegMinValue | src/main/java/org/overrun/math/TypeHelper.java:36 | `-MIN_VALUE == MIN_VALUE` |
| JavaInt.SubAntiCommutes | src/main/java/org/overrun/math/TypeHelper.java:48 | `a - b == -(b - a)` with wrap-around |
| JavaInt.SubIsAddNeg | src/main/java/org/overrun/math/TypeHelper.java:48 | `a - b == a + (-b)` with wrap-around |
| JavaInt.MulNeg | src/main/java/org/overrun/math/TypeHelper.java:60 | `a * (-b) == -(a * b)` with wrap-around |
| JavaInt.AddNeg | src/main/java/org/overrun/math/TypeHelper.java:84 | `a + (-a) == 0` for every int |
| JavaInt.NegAdd | src/main/java/org/overrun/math/TypeHelper.java:84 | `(-a) + (-b) == -(a + b)` with wrap-around |
| JavaInt.SubSelf | src/main/java/org/overrun/math/TypeHelper.java:48 | `a - a == 0` |
| JavaInt.NegatedProducts | src/main/java/org/overrun/math/Vector2.java:140-144 | for v and -v the int cross product `a*(-b) - b*(-a)` is 0 and the dot product `a*(-a) + b*(-b)` is the negated squared length, with wrap-around |
| JavaInt.AddMulCommute | src/main/java/org/overrun/math/TypeHelper.java:80-90 | int `+` and int `*` commute |
| JavaInt.SumOfProducts | src/main/java/org/overrun/math/Vector2.java:137 | `a*c + b*d` evaluated with int operators is the exact value wrapped once |
| JavaInt.DifferenceOfProducts | src/main/java/org/overrun/math/Vector2.java:142 | `a*d - b*c` evaluated with int operators is the exact value wrapped once |
| JavaInt.SumOfSquaredDifferences | src/main/java/org/overrun/math/Vector2.java:171-173 | `(a-c)^2 + (b-d)^2` evaluated with int operators, the wrapped differences included, is the exact value wrapped once |
| JavaDouble.Trunc | src/main/java/org/overrun/math/TypeHelper.java:107 | rounding toward zero yields the integer within 1 of x on x's side of zero |
| JavaDouble.Narrow | src/main/java/org/overrun/math/TypeHelper.java:96 | `(int)` of a double: NaN and -0.0 give 0, the infinities and out-of-range values clamp to MIN_VALUE / MAX_VALUE, and finite in-range values truncate |
| JavaDouble.Isqrt | src/main/java/org/overrun/math/TypeHelper.java:107 | the reference integer square root: `r*r <= n < (r+1)*(r+1)` |
| JavaDouble.IntRoot | src/main/java/org/overrun/math/TypeHelper.java:107 | the int result of an int sqrt: 0 for a negative argument, otherwise the r with `r*r <= n < (r+1)*(r+1)` |
| JavaDouble.TruncOfRoot | src/main/java/org/overrun/math/TypeHelper.java:107 | a root within the rounding bounds of n, exact when n is a perfect square, truncates to the integer square root |
| JavaDouble.NarrowSqrt | src/main/java/org/overrun/math/TypeHelper.java:107 | under correct rounding, `(int) Math.sqrt(n)` is 0 for negative n and Isqrt(n) otherwise |
| JavaDouble.NarrowReciprocalSqrt | src/main/java/org/overrun/math/TypeHelper.java:118 | under correct rounding, `(int) (1.0 / Math.sqrt(n))` is MAX_VALUE for 0, 1 for 1 and 0 for every other int |
| JavaDouble.NarrowAtan2 | src/main/java/org/overrun/math/TypeHelper.java:96 | an atan2 result within Math.atan2's promised range narrows to -3..3 |
| JavaDouble.NarrowPi | src/main/java/org/overrun/math/TypeHelper.java:96 | `(int) Math.PI == 3` |
| TypeHelper.CheckType | src/main/java/org/overrun/math/TypeHelper.java:27-31 | passes if and only if the operand is an Integer, Float, Double or ValuedNumber; otherwise it fails naming the class |
| TypeHelper.AsInt | src/main/java/org/overrun/math/TypeHelper.java:48 | `(Integer) b` succeeds exactly on an Integer, and otherwise fails with a ClassCast naming both classes |
| TypeHelper.AsFloat | src/main/java/org/overrun/math/TypeHelper.java:49 | `(Float) b` succeeds exactly on a Float, and otherwise fails with a ClassCast |
| TypeHelper.AsDouble | src/main/java/org/overrun/math/TypeHelper.java:50 | `(Double) b` succeeds exactly on a Double, and otherwise fails with a ClassCast |
| TypeHelper.Negative | src/main/java/org/overrun/math/TypeHelper.java:33-42 | checks the operand; int negation wraps; a Float or Double is multiplied by -1 with the float or double `*`; a ValuedNumber delegates to `negative()` |
| TypeHelper.Sub | src/main/java/org/overrun/math/TypeHelper.java:44-54 | checks a, then b; a supported b of another class fails at the cast; same-class built-ins succeed with a's class; ints wrap; two Floats or two Doubles give the float or double `a - b`, operands in that order; a ValuedNumber delegates `sub(b)` |
| TypeHelper.Mul | src/main/java/org/overrun/math/TypeHelper.java:56-66 | the same shape as sub, for `*`: int multiplication wraps, and two Floats or two Doubles give the float or double `a * b` |
| TypeHelper.Div | src/main/java/org/overrun/math/TypeHelper.java:68-78 | the same shape; an int divisor of 0 throws ArithmeticException; two Floats or two Doubles always return the float or double `a / b` |
| TypeHelper.Add | src/main/java/org/overrun/math/TypeHelper.java:80-90 | the same shape as sub, for `+`: int addition wraps, and two Floats or two Doubles give the float or double `a + b` |
| TypeHelper.Atan2 | src/main/java/org/overrun/math/TypeHelper.java:92-102 | the same shape; ints are widened, passed to Math.atan2 and narrowed with `(int)`; floats are widened and the result narrowed with `(float)`; doubles give Math.atan2(a, b) |
| TypeHelper.Sqrt | src/main/java/org/overrun/math/TypeHelper.java:104-113 | checks the operand; int `(int) Math.sqrt(i)`; float `(float) Math.sqrt(f)`; double `Math.sqrt(d)`; a ValuedNumber delegates |
| TypeHelper.InvSqrt | src/main/java/org/overrun/math/TypeHelper.java:115-124 | checks the operand; int `(int) (1.0 / Math.sqrt(i))`; float `(float) (1.0 / Math.sqrt(f))` with a double division; double `1.0 / Math.sqrt(d)`; a ValuedNumber delegates |
| TypeHelper.UnsupportedAlwaysFails | src/main/java/org/overrun/math/TypeHelper.java:27-31 | every primitive fails when an operand is of an unsupported class |
| TypeHelper.NoCoercion | src/main/java/org/overrun/math/TypeHelper.java:44-102 | a built-in first operand with a supported second operand of another class always fails with the same ClassCast: there is no numeric promotion |
| TypeHelper.IntArithmetic | src/main/java/org/overrun/math/TypeHelper.java:44-90 | int add, sub and mul are the exact results wrapped to 32 bits, and add and mul commute |
| TypeHelper.IntNegativeInvolutive | src/main/java/org/overrun/math/TypeHelper.java:36 | negative(negative(i)) == i, and negative(MIN_VALUE) == MIN_VALUE |
| TypeHelper.IntSubAntiCommutes | src/main/java/org/overrun/math/TypeHelper.java:48 | sub(a, b) == negative(sub(b, a)) for ints |
| TypeHelper.IntDivision | src/main/java/org/overrun/math/TypeHelper.java:72 | int div throws on 0, gives MIN_VALUE for MIN_VALUE / -1, and otherwise truncates toward zero |
| TypeHelper.IntSqrt | src/main/java/org/overrun/math/TypeHelper.java:107 | int sqrt is 0 for a negative argument and the integer square root otherwise |
| TypeHelper.IntInvSqrt | src/main/java/org/overrun/math/TypeHelper.java:118 | int invSqrt is MAX_VALUE at 0, 1 at 1 and 0 elsewhere |
| TypeHelper.IntAtan2Range | src/main/java/org/overrun/math/TypeHelper.java:96 | int atan2 lies in -3..3 |
| TypeHelper.IntAtan2OnNegatedAxis | src/main/java/org/overrun/math/TypeHelper.java:96 | atan2(0, -x) for an int x != 0 is 3 when x is positive or MIN_VALUE (whose negation wraps to itself) and 0 otherwise |
| TypeHelper.IntAtan2OnAxis | src/main/java/org/overrun/math/TypeHelper.java:96 | int atan2(0, x) is 0 for x > 0 and 3 for x < 0 |
| Vectors.Vector2.Get | src/main/java/org/overrun/math/Vector2.java:90-96 | get(0) is x, get(1) is y, and any other index throws, naming the index |
| Vectors.Vector2.Perpendicular | src/main/java/org/overrun/math/Vector2.java:98-100 | the vector (y, negative(x)), with the first exception on the way |
| Vectors.Vector2.SubXY | src/main/java/org/overrun/math/Vector2.java:106-108 | (sub(x, x'), sub(y, y')) built by the checking constructor, with the first exception |
| Vectors.Vector2.MulXY | src/main/java/org/overrun/math/Vector2.java:114-116 | (mul(x, x'), mul(y, y')), with the first exception |
| Vectors.Vector2.DivXY | src/main/java/org/overrun/math/Vector2.java:126-128 | (div(x, x'), div(y, y')), with the first exception |
| Vectors.Vector2.AddXY | src/main/java/org/overrun/math/Vector2.java:200-202 | (add(x, x'), add(y, y')), with the first exception |
| Vectors.Vector2.Negate | src/main/java/org/overrun/math/Vector2.java:204-206 | (negative(x), negative(y)), with the first exception |
| Vectors.Vector2.Sub | src/main/java/org/overrun/math/Vector2.java:102-104 | sub(v) is sub(v.x, v.y): `Vectors.OverloadsAgree` states it, `Vectors.Vector2.SubXY` the componentwise result, `Vectors.IntComponentwise` the int value |
| Vectors.Vector2.MulScalar | src/main/java/org/overrun/math/Vector2.java:110-112 | mul(s) is mul(s, s) (`Vectors.OverloadsAgree`); the int value is in `Vectors.IntComponentwise` |
| Vectors.Vector2.Mul | src/main/java/org/overrun/math/Vector2.java:118-120 | mul(v) is mul(v.x, v.y) (`Vectors.OverloadsAgree`); componentwise by `Vectors.Vector2.MulXY` |
| Vectors.Vector2.DivScalar | src/main/java/org/overrun/math/Vector2.java:122-124 | div(s) is div(s, s) (`Vectors.OverloadsAgree`); the int value, with its divide-by-zero cases, is in `Vectors.IntDivide` |
| Vectors.Vector2.Div | src/main/java/org/overrun/math/Vector2.java:130-132 | div(v) is div(v.x, v.y) (`Vectors.OverloadsAgree`); componentwise by `Vectors.Vector2.DivXY` |
| Vectors.Vector2.Dot | src/main/java/org/overrun/math/Vector2.java:136-138 | `add(mul(x, v.x), mul(y, v.y))`; the int value is the wrapped exact sum of products, symmetric (`Vectors.IntDot`), and 0 against perpendicular (`Vectors.DotPerpendicular`) |
| Vectors.Vector2.Angle | src/main/java/org/overrun/math/Vector2.java:140-144 | atan2(det, dot), dot evaluated first; the int value and range are in `Vectors.IntAngle`, the angle of v with itself and with its negation in `Vectors.IntAngleSelf`, `Vectors.IntAngleOpposite` and `Vectors.IntAngleWrappedZero` |
| Vectors.Vector2.LengthSquared | src/main/java/org/overrun/math/Vector2.java:146-148 | `x*x + y*y`; equal to dot(this) (`Vectors.LengthIsSqrtOfSelfDot`); the int value is in `Vectors.IntLengthSquared` |
| Vectors.Vector2.Length | src/main/java/org/overrun/math/Vector2.java:150-152 | sqrt(lengthSquared()) (`Vectors.LengthIsSqrtOfSelfDot`); the int value is in `Vectors.IntLength` and `Vectors.IntLengthExact` |
| Vectors.Vector2.Distance | src/main/java/org/overrun/math/Vector2.java:158-160 | distance(v) equals distance(v.x, v.y) and the static form (`Vectors.DistanceFormsAgree`) and is sqrt of distanceSquared (`Vectors.DistanceIsSqrtOfDistanceSquared`); the int value is in `Vectors.IntDistance` |
| Vectors.Vector2.DistanceSquared | src/main/java/org/overrun/math/Vector2.java:162-164 | the three forms agree (`Vectors.DistanceFormsAgree`); it is lengthSquared of the difference (`Vectors.DistanceIsLengthOfDifference`); the int value is in `Vectors.IntDistanceSquared` and `Vectors.DistanceSquaredSelf` |
| Vectors.Vector2.DistanceXY | src/main/java/org/overrun/math/Vector2.java:166-168 | sqrt of distanceSquared(x, y) (`Vectors.DistanceIsSqrtOfDistanceSquared`, `Vectors.DistanceFormsAgree`) |
| Vectors.Vector2.DistanceSquaredXY | src/main/java/org/overrun/math/Vector2.java:170-174 | the squared differences summed, as `Vectors.DistanceFormsAgree` and `Vectors.IntDistanceSquared` state |
| Vectors.Vector2.Normalize | src/main/java/org/overrun/math/Vector2.java:186-189 | each component times invSqrt(lengthSquared()) (`Vectors.NormalizeIsScaling`); the int values are in `Vectors.IntNormalize`, `Vectors.IntNormalizeZero`, `Vectors.IntNormalizeUnit` and `Vectors.IntNormalizeOverflow` |
| Vectors.Vector2.NormalizeTo | src/main/java/org/overrun/math/Vector2.java:191-194 | each component times invSqrt(lengthSquared()) * length (`Vectors.NormalizeIsScaling`); the int value is in `Vectors.IntNormalizeTo` |
| Vectors.Vector2.Add | src/main/java/org/overrun/math/Vector2.java:196-198 | add(v) is add(v.x, v.y) (`Vectors.OverloadsAgree`); componentwise by `Vectors.Vector2.AddXY`; the int value, commutative, is in `Vectors.IntComponentwise` |
| Vectors.LengthOf | src/main/java/org/overrun/math/Vector2.java:154-156 | the static length(x, y) equals the length of the vector (x, y) (`Vectors.LengthOfAgrees`) |
| Vectors.DistanceOf | src/main/java/org/overrun/math/Vector2.java:176-178 | the static distance equals the instance forms (`Vectors.DistanceFormsAgree`) |
| Vectors.DistanceSquaredOf | src/main/java/org/overrun/math/Vector2.java:180-184 | the static distanceSquared equals the instance forms (`Vectors.DistanceFormsAgree`) |
| Vectors.Of | src/main/java/org/overrun/math/Vector2.java:50-55 | succeeds if and only if both components are supported, storing them unchanged; otherwise it reports the first unsupported component |
| Vectors.OfScalar | src/main/java/org/overrun/math/Vector2.java:40-42 | both components are t; fails exactly when t is unsupported |
| Vectors.OfVector | src/main/java/org/overrun/math/Vector2.java:62-64 | the copy equals the original, and succeeds exactly when both components are supported |
| Vectors.OfArray | src/main/java/org/overrun/math/Vector2.java:72-74 | arrays of length 0 and 1 throw at index 0 and 1; longer arrays build from elements 0 and 1, and throw checkType's error for an unsupported element, element 0 first |
| Vectors.GetAfterOf | src/main/java/org/overrun/math/Vector2.java:90-96 | get reads back the components the constructor stored |
| Vectors.MixedKindsAccepted | src/main/java/org/overrun/math/Vector2.java:50-55 | an (Integer, Double) vector is built, and its dot product with itself then fails at the cast |
| Vectors.OverloadsAgree | src/main/java/org/overrun/math/Vector2.java:102-131 | each vector overload equals the two-scalar form on the argument's components; mul(s) == mul(s, s) == mul(Vector2(s, s)), and the same holds for div |
| Vectors.DistanceFormsAgree | src/main/java/org/overrun/math/Vector2.java:158-184 | the instance, two-scalar and static four-scalar forms of distance, and of distanceSquared, agree, exceptions included |
| Vectors.DistanceIsSqrtOfDistanceSquared | src/main/java/org/overrun/math/Vector2.java:166-168 | distance is sqrt of distanceSquared, and fails exactly when distanceSquared fails |
| Vectors.LengthIsSqrtOfSelfDot | src/main/java/org/overrun/math/Vector2.java:146-152 | lengthSquared == dot(this), and length is sqrt of lengthSquared |
| Vectors.LengthOfAgrees | src/main/java/org/overrun/math/Vector2.java:154-156 | the static length(x, y) equals the instance length of (x, y) |
| Vectors.DistanceIsLengthOfDifference | src/main/java/org/overrun/math/Vector2.java:170-174 | when sub(v) succeeds, distanceSquared(v) and distance(v) are its lengthSquared and length |
| Vectors.NoCoercionBetweenVectors | src/main/java/org/overrun/math/Vector2.java:102-144 | combining an int vector with a double vector fails with the same ClassCast in add, sub, mul, div, dot, angle and distanceSquared |
| Vectors.IntComponentwise | src/main/java/org/overrun/math/Vector2.java:196-202 | on int vectors, add, sub and mul wrap each component, and add commutes |
| Vectors.IntDivide | src/main/java/org/overrun/math/Vector2.java:126-132 | int vector division throws if either divisor component is 0, and otherwise divides each component |
| Vectors.IntSubAntiCommutes | src/main/java/org/overrun/math/Vector2.java:106-108 | for int vectors, u.sub(v) == v.sub(u).negate() |
| Vectors.IntSubIsAddNegate | src/main/java/org/overrun/math/Vector2.java:106-108 | for int vectors, u.sub(v) == u.add(v.negate()) |
| Vectors.NegateInvolutive | src/main/java/org/overrun/math/Vector2.java:204-206 | for int vectors, negate is (negative(x), negative(y)) and negating twice gives the vector back |
| Vectors.DotPerpendicular | src/main/java/org/overrun/math/Vector2.java:98-100 | for int vectors, perpendicular is (y, negative(x)); its dot product with the vector is 0, even with overflow; applied twice it equals negate |
| Vectors.IntDot | src/main/java/org/overrun/math/Vector2.java:136-138 | the int dot product is the exact sum of products wrapped once, and is symmetric |
| Vectors.SquaredLengthWraps | src/main/java/org/overrun/math/Vector2.java:146-148 | `x*x + y*y` evaluated with int operators equals the exact squared length wrapped once |
| Vectors.IntLengthSquared | src/main/java/org/overrun/math/Vector2.java:146-148 | the int lengthSquared is x*x + y*y wrapped once |
| Vectors.IntDistanceSquared | src/main/java/org/overrun/math/Vector2.java:170-174 | the int distanceSquared is the exact squared distance wrapped once, and is symmetric |
| Vectors.DistanceSquaredSelf | src/main/java/org/overrun/math/Vector2.java:170-174 | an int vector's distanceSquared to itself is 0 |
| Vectors.IntLength | src/main/java/org/overrun/math/Vector2.java:150-152 | the int length is the integer square root of the wrapped lengthSquared, or 0 if that is negative |
| Vectors.IntLengthExact | src/main/java/org/overrun/math/Vector2.java:150-152 | without overflow, the int length is the integer square root of x*x + y*y |
| Vectors.IntDistance | src/main/java/org/overrun/math/Vector2.java:166-168 | the int distance is the integer square root of the wrapped distanceSquared, or 0 if that is negative |
| Vectors.NormalizeIsScaling | src/main/java/org/overrun/math/Vector2.java:186-194 | for every class, normalize() is mul by invSqrt(lengthSquared()), normalize(l) is mul by invSqrt(lengthSquared()) * l, and exceptions propagate |
| Vectors.IntNormalize | src/main/java/org/overrun/math/Vector2.java:186-189 | int normalize multiplies both components by MAX_VALUE, 1 or 0, as lengthSquared is 0, 1 or anything else |
| Vectors.IntNormalizeTo | src/main/java/org/overrun/math/Vector2.java:191-194 | int normalize(l) multiplies both components by that factor times l |
| Vectors.IntNormalizeZero | src/main/java/org/overrun/math/Vector2.java:186-189 | the int zero vector normalizes to (0, 0) and does not throw |
| Vectors.IntNormalizeUnit | src/main/java/org/overrun/math/Vector2.java:186-189 | a unit int vector on an axis normalizes to itself |
| Vectors.IntNormalizeOverflow | src/main/java/org/overrun/math/Vector2.java:186-189 | (65536, 0), whose lengthSquared wraps to 0, normalizes to (-65536, 0) |
| Vectors.IntAngle | src/main/java/org/overrun/math/Vector2.java:140-144 | the int angle is atan2 of the wrapped determinant and the wrapped dot product, in -3..3 |
| Vectors.IntAngleSelf | src/test/java/org/overrun/math/test/Vector2Test.java:31-33 | angle(v, v) for ints is 0 when lengthSquared is positive, and 3 when it wrapped negative |
| Vectors.IntAngleOpposite | src/test/java/org/overrun/math/test/Vector2Test.java:35-38 | angle(v, v.negate()) for ints is 3 (pi truncated) when lengthSquared is positive or MIN_VALUE, and 0 when it wrapped to any other negative value |
| Vectors.AngleOppositeOverflow | src/test/java/org/overrun/math/test/Vector2Test.java:35-38 | (46341, 0) is an int vector whose angle with its negation is 0, not 3 |
| Vectors.IntAngleWrappedZero | src/test/java/org/overrun/math/test/Vector2Test.java:31-38 | for an int vector whose lengthSquared wraps to 0, given atan2(+0.0, +0.0) == +0.0, both angle(v, v) and angle(v, v.negate()) are 0 |
| Vectors.AngleOppositeWrapsToZero | src/test/java/org/overrun/math/test/Vector2Test.java:35-38 | (65536, 0) is a nonzero int vector whose angle with its negation is 0, not 3, given atan2(+0.0, +0.0) == +0.0 |
| Vectors.AngleOppositeAtMinValue | src/test/java/org/overrun/math/test/Vector2Test.java:35-38 | (32768, 32768), whose lengthSquared wraps to exactly MIN_VALUE, has angle 3 with its negation |
| Vectors.AngleSelfOverflow | src/test/java/org/overrun/math/test/Vector2Test.java:31-33 | (46341, 0) is an int vector whose angle with itself is 3, not 0 |

## Left out

- Float and double arithmetic, the `(float)` narrowing, `Math.sqrt` and `Math.atan2` are not modelled; they are fields of `Ops`. No law is assumed of them on the float and double paths. So double results, such as `angle(v, v) == 0.0` for `(-9.37, 5.892)`, are not proved.
- The `ValuedNumber` methods are left abstract (`Ops.vNegative` … `Ops.vInvSqrt`). They receive the second operand after checkType has accepted it, but uncast, and may return any `Num` or throw. The unchecked `(T)` cast of their result is not checked at runtime, and it is not modelled either.
- `null` operands, `null` arrays and `null` vectors are not modelled. In Java they throw NullPointerException.
- Exception messages are reduced to structure: the class name, the classes of a failed cast, the component index, and the array index with the array length.
- Value-class identity and the generic parameter `T` are not modelled: a vector is a pair of `Num`.
- The demonstration `main` in the test file prints two double angles. Printing is not part of the model.
- TypeHelper.IntSqrt, TypeHelper.IntInvSqrt: proved under `SqrtLaw`, and for invSqrt also `ReciprocalLaw`, at the argument passed. These state correct rounding of `Math.sqrt` and IEEE division, and are premises because those library functions are not modelled.
- TypeHelper.IntAtan2Range, TypeHelper.IntAtan2OnAxis, TypeHelper.IntAtan2OnNegatedAxis: proved under `Atan2RangeLaw` and `Atan2AxisLaw`. These state what the `Math.atan2` documentation promises for these arguments.
- Vectors.IntLength, Vectors.IntLengthExact, Vectors.IntDistance: proved under `SqrtLaw` at the lengthSquared or distanceSquared passed to `Math.sqrt`.
- Vectors.IntNormalize, Vectors.IntNormalizeTo, Vectors.IntNormalizeZero, Vectors.IntNormalizeUnit, Vectors.IntNormalizeOverflow: proved under `SqrtLaw` and `ReciprocalLaw` at the lengthSquared passed to `invSqrt`.
- Vectors.IntAngle: its range part holds under `Atan2RangeLaw`. Vectors.IntAngleSelf, Vectors.IntAngleOpposite, Vectors.AngleSelfOverflow, Vectors.AngleOppositeOverflow, Vectors.AngleOppositeAtMinValue: proved under `Atan2AxisLaw` at the dot product passed to `Math.atan2`. Vectors.IntAngleWrappedZero, Vectors.AngleOppositeWrapsToZero: proved under `Math.atan2(+0.0, +0.0) == +0.0`, which the `Math.atan2` documentation promises.
- `ReciprocalLaw` is stated only for the arguments the integer paths pass to `1.0 / x`: zero, and magnitudes in 2^-32..2^32. It makes no promise for other magnitudes.
