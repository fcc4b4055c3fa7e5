/** btn::fixed_point: a two-dimensional point whose coordinates are `fixed`
    values. A `fixed` (fixed_t<12>) is represented by its raw integer value,
    so 1.0 is `Scale` and the operations below act on raw values. */
module FixedPoints {

  /** Number of fractional bits of btn::fixed. */
  const Precision: nat := 12

  /** Raw value of 1.0. */
  const Scale: int := 4096

  function Abs(a: int): nat {
    if a < 0 then -a else a
  }

  /** C++ integer division: the quotient is truncated toward zero, so the
      remainder takes the sign of the dividend and is smaller than the divisor. */
  function DivTrunc(a: int, b: int): (q: int)
    requires b != 0
    ensures Abs(a - q * b) < Abs(b)
    ensures a >= 0 ==> a - q * b >= 0
    ensures a <= 0 ==> a - q * b <= 0
  {
    if a >= 0 then
      if b > 0 then a / b else -(a / -b)
    else
      if b > 0 then -((-a) / b) else (-a) / (-b)
  }

  /** The quotient and remainder of a C++ division are unique: any q with a
      remainder of the dividend's sign below the divisor is DivTrunc. */
  lemma {:induction false} DivTruncUnique(a: int, b: int, q: int)
    requires b != 0
    requires Abs(a - q * b) < Abs(b)
    requires a >= 0 ==> a - q * b >= 0
    requires a <= 0 ==> a - q * b <= 0
    ensures q == DivTrunc(a, b)
  {
    var p := DivTrunc(a, b);
    var r, s := a - q * b, a - p * b;
    assert Abs(r) < Abs(b) && Abs(s) < Abs(b);
    assert (a >= 0 ==> r >= 0 && s >= 0) && (a <= 0 ==> r <= 0 && s <= 0);
    assert Abs(r - s) < Abs(b);
    if p != q {
      var d := p - q;
      assert d * b == p * b - q * b by {
        Distribute(p, q, b);
      }
      assert d * b == r - s;
      NonZeroMultipleIsLarge(d, b);
    }
  }

  lemma Distribute(p: int, q: int, b: int)
    ensures (p - q) * b == p * b - q * b
  {
  }

  /** A non-zero multiple of b is at least |b| away from zero. */
  lemma NonZeroMultipleIsLarge(d: int, b: int)
    requires d != 0
    ensures Abs(d * b) >= Abs(b)
  {
    var e, c := Abs(d) - 1, Abs(b);
    assert e * c >= 0;
    assert Abs(d) * c == c + e * c;
    if d > 0 && b >= 0 {
      assert d * b == Abs(d) * c;
    } else if d > 0 {
      assert d * b == -(Abs(d) * c);
    } else if b >= 0 {
      assert d * b == -(Abs(d) * c);
    } else {
      assert d * b == Abs(d) * c;
    }
  }

  /** A truncated quotient is at most the dividend over the divisor in
      magnitude, and dividing by 1 changes nothing. */
  lemma {:induction false} DivTruncShrinks(a: int, b: int)
    requires b != 0
    ensures Abs(DivTrunc(a, b)) * Abs(b) <= Abs(a)
    ensures Abs(DivTrunc(a, b)) <= Abs(a)
    ensures b == 1 ==> DivTrunc(a, b) == a
  {
    DivTruncMagnitude(a, b);
    QuotientBound(Abs(a), Abs(b));
  }

  /** The magnitude of a truncated quotient is the quotient of the magnitudes. */
  lemma {:induction false} DivTruncMagnitude(a: int, b: int)
    requires b != 0
    ensures Abs(DivTrunc(a, b)) == Abs(a) / Abs(b)
  {
    var m: int := Abs(a) / Abs(b);
    if a >= 0 && b > 0 {
      assert DivTrunc(a, b) == m;
    } else if a >= 0 {
      assert DivTrunc(a, b) == -m;
    } else if b > 0 {
      assert DivTrunc(a, b) == -m;
    } else {
      assert DivTrunc(a, b) == m;
    }
  }

  /** Euclidean division of naturals: (n / d) * d <= n, and n / d <= n. */
  lemma {:induction false} QuotientBound(n: nat, d: nat)
    requires d > 0
    ensures (n / d) * d <= n && n / d <= n
    ensures d == 1 ==> n / d == n
  {
    var m := n / d;
    assert n == d * m + n % d;
    ProductGrows(m, d);
  }

  /** Multiplying a natural by a positive factor does not make it smaller. */
  lemma {:induction false} ProductGrows(m: nat, d: nat)
    requires d > 0
    ensures m <= m * d
  {
    assert m * d == m * (d - 1) + m;
  }

  /** A divisor of at least 2 at least doubles a natural. */
  lemma {:induction false} HalvedAtLeast(m: nat, d: nat)
    requires d >= 2
    ensures m * 2 <= m * d
  {
    assert m * d == m * (d - 2) + m * 2;
  }

  /** fixed::integer(): the integer part of a raw value, truncated toward zero. */
  function Integer(raw: int): int {
    DivTrunc(raw, Scale)
  }

  /** The integer part of a whole number converted to fixed is that number. */
  lemma {:induction false} IntegerOfWhole(n: int)
    ensures Integer(n * Scale) == n
  {
    DivTruncUnique(n * Scale, Scale, n);
  }

  /** The raw value of a fixed is an int32. The model keeps raw values
      unbounded; this says when a value fits. */
  predicate IsInt32(v: int) {
    -0x8000_0000 <= v < 0x8000_0000
  }

  datatype FixedPoint = FixedPoint(x: int, y: int)

  predicate Representable(p: FixedPoint) {
    IsInt32(p.x) && IsInt32(p.y)
  }

  /** The default-constructed point: both coordinates are the fixed default 0. */
  const Origin: FixedPoint := FixedPoint(0, 0)

  /** Constructor from an integer point: each coordinate becomes the fixed
      value of that integer. */
  function FromPoint(px: int, py: int): (p: FixedPoint)
    ensures Integer(p.x) == px && Integer(p.y) == py
    ensures p.x % Scale == 0 && p.y % Scale == 0
    // the raw values fit an int32 exactly for integers in [-2^19, 2^19)
    ensures Representable(p) <==> -0x8_0000 <= px < 0x8_0000 && -0x8_0000 <= py < 0x8_0000
  {
    IntegerOfWhole(px);
    IntegerOfWhole(py);
    FixedPoint(px * Scale, py * Scale)
  }

  /** Unary minus. */
  function Neg(p: FixedPoint): FixedPoint {
    FixedPoint(-p.x, -p.y)
  }

  /** Binary +. */
  function Add(a: FixedPoint, b: FixedPoint): FixedPoint {
    FixedPoint(a.x + b.x, a.y + b.y)
  }

  /** Binary -. */
  function Sub(a: FixedPoint, b: FixedPoint): FixedPoint {
    FixedPoint(a.x - b.x, a.y - b.y)
  }

  /** Binary * by an integer factor (the raw value is multiplied). */
  function MulInt(a: FixedPoint, b: int): FixedPoint {
    FixedPoint(a.x * b, a.y * b)
  }

  /** Binary / by a non-zero integer divisor (the raw value is divided as C++ does). */
  function DivInt(a: FixedPoint, b: int): FixedPoint
    requires b != 0
  {
    FixedPoint(DivTrunc(a.x, b), DivTrunc(a.y, b))
  }

  lemma NegIsInvolution(p: FixedPoint)
    ensures Neg(Neg(p)) == p
    ensures Add(p, Neg(p)) == Origin
  {
  }

  lemma OriginIsIdentity(p: FixedPoint)
    ensures Add(Origin, p) == p && Add(p, Origin) == p && Sub(p, Origin) == p
    ensures Origin.x == 0 && Origin.y == 0
  {
  }

  /** Subtraction undoes addition, and is addition of the negated point. */
  lemma SubUndoesAdd(a: FixedPoint, b: FixedPoint)
    ensures Sub(Add(a, b), b) == a
    ensures Add(Sub(a, b), b) == a
    ensures Sub(a, b) == Add(a, Neg(b))
  {
  }

  /** Dividing a multiple of the divisor gives back the factor. */
  lemma {:induction false} DivUndoesMul(a: FixedPoint, b: int)
    requires b != 0
    ensures DivInt(MulInt(a, b), b) == a
  {
    DivTruncUnique(a.x * b, b, a.x);
    DivTruncUnique(a.y * b, b, a.y);
  }

  /** set_x: replaces the horizontal coordinate only. */
  method SetX(p: FixedPoint, x: int) returns (r: FixedPoint)
    ensures r.x == x && r.y == p.y
  {
    r := p.(x := x);
  }

  /** set_y: replaces the vertical coordinate only. */
  method SetY(p: FixedPoint, y: int) returns (r: FixedPoint)
    ensures r.x == p.x && r.y == y
  {
    r := p.(y := y);
  }

  /** operator+=: the point after the compound assignment. */
  method AddAssign(p: FixedPoint, other: FixedPoint) returns (r: FixedPoint)
    ensures r == Add(p, other)
    ensures Sub(r, other) == p
  {
    var x, y := p.x, p.y;
    x := x + other.x;
    y := y + other.y;
    r := FixedPoint(x, y);
  }

  /** operator-=: the point after the compound assignment. */
  method SubAssign(p: FixedPoint, other: FixedPoint) returns (r: FixedPoint)
    ensures r == Sub(p, other)
    ensures Add(r, other) == p
  {
    var x, y := p.x, p.y;
    x := x - other.x;
    y := y - other.y;
    r := FixedPoint(x, y);
  }

  /** operator*= by an integer: both coordinates are scaled. */
  method MulAssign(p: FixedPoint, value: int) returns (r: FixedPoint)
    ensures r == MulInt(p, value)
    ensures value != 0 ==> DivInt(r, value) == p
  {
    var x, y := p.x, p.y;
    x := x * value;
    y := y * value;
    r := FixedPoint(x, y);
    if value != 0 {
      DivUndoesMul(p, value);
    }
  }

  /** operator/= by a non-zero integer: both coordinates are divided. */
  method DivAssign(p: FixedPoint, value: int) returns (r: FixedPoint)
    requires value != 0
    ensures r == DivInt(p, value)
    ensures Abs(p.x - r.x * value) < Abs(value) && Abs(p.y - r.y * value) < Abs(value)
    // truncating division never grows a coordinate, so a representable point
    // stays representable unless the int32 minimum is divided by -1
    ensures Abs(r.x) <= Abs(p.x) && Abs(r.y) <= Abs(p.y)
    ensures Representable(p) && value != -1 ==> Representable(r)
  {
    DivTruncShrinks(p.x, value);
    DivTruncShrinks(p.y, value);
    if value != 1 && value != -1 {
      HalvedAtLeast(Abs(DivTrunc(p.x, value)), Abs(value));
      HalvedAtLeast(Abs(DivTrunc(p.y, value)), Abs(value));
    }
    var x, y := p.x, p.y;
    x := DivTrunc(x, value);
    y := DivTrunc(y, value);
    r := FixedPoint(x, y);
  }
}
