/** The calibration matrices that are accepted, over exact reals. */
module Affine {

  type Matrix = seq<real>

  datatype Verdict = Valid | WrongLength | UnsafeValue | WrongFinalRow | NotInvertible | OutOfBounds

  const ROW_TOLERANCE := 0.000000001
  const LEAST_DETERMINANT := 0.000001

  function Abs(x: real): real {
    if x < 0.0 then -x else x
  }

  predicate InRange(m: Matrix) {
    forall i | 0 <= i < |m| :: -4.0 <= m[i] <= 4.0
  }

  predicate FinalRow(m: Matrix)
    requires |m| == 9
  {
    Abs(m[6]) <= ROW_TOLERANCE && Abs(m[7]) <= ROW_TOLERANCE && Abs(m[8] - 1.0) <= ROW_TOLERANCE
  }

  function Determinant(m: Matrix): real
    requires |m| == 9
  {
    m[0] * m[4] - m[1] * m[3]
  }

  /** One row of the matrix applied to a point. */
  function Row(a: real, b: real, c: real, x: real, y: real): real {
    a * x + b * y + c
  }

  function Map(m: Matrix, x: real, y: real): (real, real)
    requires |m| == 9
  {
    (Row(m[0], m[1], m[2], x, y), Row(m[3], m[4], m[5], x, y))
  }

  predicate Safe(p: (real, real)) {
    -1.0 <= p.0 <= 2.0 && -1.0 <= p.1 <= 2.0
  }

  predicate Unit(v: real) {
    0.0 <= v <= 1.0
  }

  /** The whole unit square stays within safe bounds. */
  ghost predicate MapsInside(m: Matrix)
    requires |m| == 9
  {
    forall x: real, y: real | Unit(x) && Unit(y) :: Safe(Map(m, x, y))
  }

  predicate CornersInside(m: Matrix)
    requires |m| == 9
  {
    Safe(Map(m, 0.0, 0.0)) && Safe(Map(m, 1.0, 0.0)) && Safe(Map(m, 0.0, 1.0)) && Safe(Map(m, 1.0, 1.0))
  }

  function Times(a: real, x: real): real {
    a * x
  }

  lemma NonNegative(p: real, q: real)
    requires p >= 0.0 && q >= 0.0
    ensures p * q >= 0.0
  {
  }

  lemma Scaled(a: real, x: real)
    requires Unit(x)
    ensures if a < 0.0 then a <= Times(a, x) <= 0.0 else 0.0 <= Times(a, x) <= a
  {
    if a < 0.0 {
      NonNegative(-a, x);
      NonNegative(-a, 1.0 - x);
    } else {
      NonNegative(a, x);
      NonNegative(a, 1.0 - x);
    }
  }

  lemma RowIs(a: real, b: real, c: real, x: real, y: real)
    ensures Row(a, b, c, x, y) == Times(a, x) + Times(b, y) + c
  {
  }

  lemma SumBetween(a: real, b: real, c: real, ax: real, bY: real)
    requires if a < 0.0 then a <= ax <= 0.0 else 0.0 <= ax <= a
    requires if b < 0.0 then b <= bY <= 0.0 else 0.0 <= bY <= b
    requires -1.0 <= c <= 2.0 && -1.0 <= a + c <= 2.0 && -1.0 <= b + c <= 2.0 && -1.0 <= a + b + c <= 2.0
    ensures -1.0 <= ax + bY + c <= 2.0
  {
  }

  lemma RowBetween(a: real, b: real, c: real, x: real, y: real)
    requires Unit(x) && Unit(y)
    requires -1.0 <= c <= 2.0 && -1.0 <= a + c <= 2.0 && -1.0 <= b + c <= 2.0 && -1.0 <= a + b + c <= 2.0
    ensures -1.0 <= Row(a, b, c, x, y) <= 2.0
  {
    hide Row, Times;
    Scaled(a, x);
    Scaled(b, y);
    RowIs(a, b, c, x, y);
    SumBetween(a, b, c, Times(a, x), Times(b, y));
  }

  lemma RowCorners(a: real, b: real, c: real)
    ensures Row(a, b, c, 0.0, 0.0) == c && Row(a, b, c, 1.0, 0.0) == a + c
    ensures Row(a, b, c, 0.0, 1.0) == b + c && Row(a, b, c, 1.0, 1.0) == a + b + c
  {
  }

  /** Looking at four corners is looking at the whole square. */
  lemma CornersSuffice(m: Matrix)
    requires |m| == 9
    ensures CornersInside(m) <==> MapsInside(m)
  {
    hide Row;
    RowCorners(m[0], m[1], m[2]);
    RowCorners(m[3], m[4], m[5]);
    if CornersInside(m) {
      forall x: real, y: real | Unit(x) && Unit(y)
        ensures Safe(Map(m, x, y))
      {
        RowBetween(m[0], m[1], m[2], x, y);
        RowBetween(m[3], m[4], m[5], x, y);
      }
    }
  }

  /** `_validated_affine` after the conversion of each item: every refusal is for its own reason, and what is accepted
      keeps the whole unit square within bounds. */
  method ValidatedAffine(value: Matrix) returns (verdict: Verdict)
    ensures verdict == WrongLength <==> |value| != 9
    ensures verdict == UnsafeValue <==> |value| == 9 && !InRange(value)
    ensures verdict == WrongFinalRow <==> |value| == 9 && InRange(value) && !FinalRow(value)
    ensures verdict == NotInvertible <==>
            |value| == 9 && InRange(value) && FinalRow(value) && Abs(Determinant(value)) < LEAST_DETERMINANT
    ensures verdict == Valid <==>
            && |value| == 9 && InRange(value) && FinalRow(value) && Abs(Determinant(value)) >= LEAST_DETERMINANT
            && MapsInside(value)
  {
    hide Map, FinalRow, Determinant, MapsInside, Safe;
    if |value| != 9 {
      return WrongLength;
    }
    var i := 0;
    while i < |value|
      invariant i <= |value|
      invariant InRange(value[..i])
    {
      if !(-4.0 <= value[i] <= 4.0) {
        return UnsafeValue;
      }
      i := i + 1;
    }
    assert value[..i] == value;
    if !FinalRow(value) {
      return WrongFinalRow;
    }
    if Abs(Determinant(value)) < LEAST_DETERMINANT {
      return NotInvertible;
    }
    CornersSuffice(value);
    var corners := [(0.0, 0.0), (1.0, 0.0), (0.0, 1.0), (1.0, 1.0)];
    var k := 0;
    while k < |corners|
      invariant k <= |corners|
      invariant forall j | 0 <= j < k :: Safe(Map(value, corners[j].0, corners[j].1))
    {
      if !Safe(Map(value, corners[k].0, corners[k].1)) {
        return OutOfBounds;
      }
      k := k + 1;
    }
    assert Safe(Map(value, corners[0].0, corners[0].1)) && Safe(Map(value, corners[1].0, corners[1].1));
    assert Safe(Map(value, corners[2].0, corners[2].1)) && Safe(Map(value, corners[3].0, corners[3].1));
    return Valid;
  }

  /** What is accepted, spelled out: nine numbers up to 4 in magnitude, a final row of 0, 0, 1 to within 1e-9, a determinant
      of at least 1e-6 in magnitude, and every point of the unit square mapped between -1 and 2 in both coordinates. */
  lemma AcceptedIs(m: Matrix)
    requires |m| == 9
    ensures InRange(m) && FinalRow(m) && Abs(Determinant(m)) >= LEAST_DETERMINANT && MapsInside(m) <==>
              && (forall i | 0 <= i < 9 :: -4.0 <= m[i] <= 4.0)
              && -0.000000001 <= m[6] <= 0.000000001 && -0.000000001 <= m[7] <= 0.000000001
              && 0.999999999 <= m[8] <= 1.000000001
              && (m[0] * m[4] - m[1] * m[3] >= 0.000001 || m[0] * m[4] - m[1] * m[3] <= -0.000001)
              && forall x: real, y: real | InSquare(x, y) ::
                   -1.0 <= m[0] * x + m[1] * y + m[2] <= 2.0 && -1.0 <= m[3] * x + m[4] * y + m[5] <= 2.0
  {
    hide Determinant;
    DeterminantIs(m);
    forall x: real, y: real
      ensures Map(m, x, y) == (m[0] * x + m[1] * y + m[2], m[3] * x + m[4] * y + m[5])
      ensures InSquare(x, y) <==> Unit(x) && Unit(y)
    {
    }
  }

  predicate InSquare(x: real, y: real) {
    0.0 <= x <= 1.0 && 0.0 <= y <= 1.0
  }

  lemma DeterminantIs(m: Matrix)
    requires |m| == 9
    ensures Determinant(m) == m[0] * m[4] - m[1] * m[3]
  {
  }

  // What acceptance is worth

  /** The inverse of the map. */
  function Unmap(m: Matrix, u: real, v: real): (real, real)
    requires |m| == 9 && Determinant(m) != 0.0
  {
    var d := Determinant(m);
    ((m[4] * (u - m[2]) - m[1] * (v - m[5])) / d, (m[0] * (v - m[5]) - m[3] * (u - m[2])) / d)
  }

  lemma Solved(a: real, b: real, c: real, d: real, x: real, y: real)
    ensures d * (a * x + b * y) - b * (c * x + d * y) == (a * d - b * c) * x
    ensures a * (c * x + d * y) - c * (a * x + b * y) == (a * d - b * c) * y
  {
    assert d * (a * x + b * y) == a * d * x + b * d * y;
    assert b * (c * x + d * y) == b * c * x + b * d * y;
    assert a * (c * x + d * y) == a * c * x + a * d * y;
    assert c * (a * x + b * y) == a * c * x + b * c * y;
  }

  lemma Cancelled(n: real, d: real, x: real)
    requires d != 0.0 && n == d * x
    ensures n / d == x
  {
  }

  /** No two points of the plane are mapped to one: the inverse finds each point again. */
  lemma MapIsInjective(m: Matrix, x: real, y: real)
    requires |m| == 9 && Abs(Determinant(m)) >= LEAST_DETERMINANT
    ensures Unmap(m, Map(m, x, y).0, Map(m, x, y).1) == (x, y)
  {
    var d := Determinant(m);
    Solved(m[0], m[1], m[3], m[4], x, y);
    var (u, v) := Map(m, x, y);
    assert u - m[2] == m[0] * x + m[1] * y && v - m[5] == m[3] * x + m[4] * y;
    Cancelled(m[4] * (u - m[2]) - m[1] * (v - m[5]), d, x);
    Cancelled(m[0] * (v - m[5]) - m[3] * (u - m[2]), d, y);
  }

  lemma Substituted(a: real, b: real, c: real, d: real, p: real, q: real)
    requires a * d - b * c != 0.0
    ensures var e := a * d - b * c;
            a * ((d * p - b * q) / e) + b * ((a * q - c * p) / e) == p
  {
    var e := a * d - b * c;
    var x, y := (d * p - b * q) / e, (a * q - c * p) / e;
    assert e * x == d * p - b * q && e * y == a * q - c * p;
    assert e * (a * x + b * y) == a * (e * x) + b * (e * y);
    assert a * (d * p - b * q) + b * (a * q - c * p) == e * p by {
      assert a * (d * p - b * q) == a * d * p - a * b * q;
      assert b * (a * q - c * p) == a * b * q - b * c * p;
      assert e * p == a * d * p - b * c * p;
    }
    Same(e, a * x + b * y, p);
  }

  lemma Same(e: real, x: real, y: real)
    requires e != 0.0 && e * x == e * y
    ensures x == y
  {
    assert e * (x - y) == 0.0;
  }

  lemma UnmapSolves(m: Matrix, u: real, v: real)
    requires |m| == 9 && Determinant(m) != 0.0
    ensures var (x, y) := Unmap(m, u, v);
            m[0] * x + m[1] * y == u - m[2] && m[3] * x + m[4] * y == v - m[5]
  {
    var p, q := u - m[2], v - m[5];
    Substituted(m[0], m[1], m[3], m[4], p, q);
    Substituted(m[4], m[3], m[1], m[0], q, p);
    assert m[4] * m[0] - m[3] * m[1] == Determinant(m);
  }

  /** Every point of the plane is reached. */
  lemma MapIsSurjective(m: Matrix, u: real, v: real)
    requires |m| == 9 && Abs(Determinant(m)) >= LEAST_DETERMINANT
    ensures Map(m, Unmap(m, u, v).0, Unmap(m, u, v).1) == (u, v)
  {
    hide Unmap;
    UnmapSolves(m, u, v);
  }

  /** The bounds on the square leave no linear coefficient above 3 and no offset outside [-1, 2], so that the range
      check on the first six items never refuses a matrix that the corners would let pass. */
  lemma CoefficientsAreSmall(m: Matrix)
    requires |m| == 9 && MapsInside(m)
    ensures Abs(m[0]) <= 3.0 && Abs(m[1]) <= 3.0 && Abs(m[3]) <= 3.0 && Abs(m[4]) <= 3.0
    ensures -1.0 <= m[2] <= 2.0 && -1.0 <= m[5] <= 2.0
    ensures FinalRow(m) ==> InRange(m)
  {
    hide Row, MapsInside;
    CornersSuffice(m);
    RowCorners(m[0], m[1], m[2]);
    RowCorners(m[3], m[4], m[5]);
  }
}
