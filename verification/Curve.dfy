/**
 Short Weierstrass curves over a prime field, in affine coordinates: the chord-and-tangent
 addition, scalar multiplication, and what follows from the group law. Primality of the two
 moduli, associativity and the group order are the hypotheses gathered in `Lawful`; closure is proved.
 */
module Curve {
  import opened Modular

  datatype Point = Infinity | Affine(x: int, y: int)

  /** y^2 = x^3 + a*x + b over F_p, with base point (gx, gy) of order n. */
  datatype Domain = Domain(p: int, a: int, b: int, gx: int, gy: int, n: int) {
    function G(): Point {
      Affine(gx, gy)
    }
  }

  function Cubic(c: Domain, x: int): int {
    x * x * x + c.a * x + c.b
  }

  ghost predicate OnCurve(c: Domain, P: Point) {
    match P
    case Infinity => true
    case Affine(x, y) => 0 <= x < c.p && 0 <= y < c.p && Cong(y * y, Cubic(c, x), c.p)
  }

  /** The slope of the chord, or of the tangent where the two points coincide. */
  function Slope(c: Domain, x1: int, y1: int, x2: int, y2: int): int
    requires c.p > 1
  {
    if x1 == x2 then ((3 * x1 * x1 + c.a) * Inverse(2 * y1, c.p)) % c.p
    else ((y2 - y1) * Inverse(x2 - x1, c.p)) % c.p
  }

  /** The abscissa of the third point on the line of slope lam. */
  function ThirdX(c: Domain, lam: int, x1: int, x2: int): int
    requires c.p > 1
  {
    (lam * lam - x1 - x2) % c.p
  }

  /** Point addition (SEC 1 v2.0, section 2.2.1). */
  function Add(c: Domain, P: Point, Q: Point): Point
    requires c.p > 1
  {
    match (P, Q)
    case (Infinity, _) => Q
    case (_, Infinity) => P
    case (Affine(x1, y1), Affine(x2, y2)) =>
      if x1 == x2 && (y1 + y2) % c.p == 0 then Infinity
      else
        var lam := Slope(c, x1, y1, x2, y2);
        Affine(ThirdX(c, lam, x1, x2), (lam * (x1 - (lam * lam - x1 - x2)) - y1) % c.p)
  }

  function Mul(c: Domain, k: nat, P: Point): Point
    requires c.p > 1
  {
    if k == 0 then Infinity else Add(c, P, Mul(c, k - 1, P))
  }

  // ----- closure -----

  /** The line through (x1, y1) with slope lam, at x. */
  function Line(lam: int, x1: int, y1: int, x: int): int {
    lam * (x - x1) + y1
  }

  lemma CubicProduct(r: int, s: int, t: int, x: int)
    ensures (x - r) * (x - s) * (x - t)
         == x * x * x - (r + s + t) * x * x + (r * s + r * t + s * t) * x - r * s * t
  {
    var u, v := (x - r) * (x - s), r + s;
    QuadraticProduct(r, s, x);
    LinearTimesQuadratic(v, r * s, t, x);
    SumTimesSquare(v, t, x);
    SumOfPairs(r, s, t, x);
  }

  lemma QuadraticProduct(r: int, s: int, x: int)
    ensures (x - r) * (x - s) == x * x - (r + s) * x + r * s
  {
  }

  lemma LinearTimesQuadratic(v: int, w: int, t: int, x: int)
    ensures (x * x - v * x + w) * (x - t) == x * x * x - (v * x * x + t * x * x) + (w * x + v * t * x) - w * t
  {
    var q := x * x - v * x + w;
    assert q * (x - t) == q * x - q * t;
    assert q * x == x * x * x - v * x * x + w * x;
    assert q * t == x * x * t - v * x * t + w * t;
    assert x * x * t == t * x * x && v * x * t == v * t * x;
  }

  lemma SumTimesSquare(v: int, t: int, x: int)
    ensures (v + t) * x * x == v * x * x + t * x * x
  {
  }

  lemma SumOfPairs(r: int, s: int, t: int, x: int)
    ensures (r * s + r * t + s * t) * x == r * s * x + (r + s) * t * x
  {
    assert (r + s) * t == r * t + s * t;
    assert (r * s + (r + s) * t) * x == r * s * x + (r + s) * t * x;
  }

  lemma LineSquare(lam: int, x1: int, y1: int, x: int)
    ensures Line(lam, x1, y1, x) * Line(lam, x1, y1, x)
         == lam * lam * x * x + 2 * lam * (y1 - lam * x1) * x + (y1 - lam * x1) * (y1 - lam * x1)
  {
    var i := y1 - lam * x1;
    var m := lam * x;
    assert Line(lam, x1, y1, x) == m + i;
    assert (m + i) * (m + i) == m * m + 2 * m * i + i * i;
    assert m * m == lam * lam * x * x;
    assert 2 * m * i == 2 * lam * i * x;
  }

  /** Cubic minus squared line minus the monic product of the three roots, which is linear in x. */
  function Residual(c: Domain, lam: int, x1: int, y1: int, x2: int, x: int): int {
    var x3 := lam * lam - x1 - x2;
    Cubic(c, x) - Line(lam, x1, y1, x) * Line(lam, x1, y1, x) - (x - x1) * (x - x2) * (x - x3)
  }

  function ResidualSlope(c: Domain, lam: int, x1: int, y1: int, x2: int): int {
    var x3 := lam * lam - x1 - x2;
    c.a - 2 * lam * (y1 - lam * x1) - (x1 * x2 + x1 * x3 + x2 * x3)
  }

  function ResidualConst(c: Domain, lam: int, x1: int, y1: int, x2: int): int {
    var x3 := lam * lam - x1 - x2;
    c.b - (y1 - lam * x1) * (y1 - lam * x1) + x1 * x2 * x3
  }

  lemma ResidualLinear(c: Domain, lam: int, x1: int, y1: int, x2: int, x: int)
    ensures Residual(c, lam, x1, y1, x2, x)
         == ResidualSlope(c, lam, x1, y1, x2) * x + ResidualConst(c, lam, x1, y1, x2)
  {
    var x3 := lam * lam - x1 - x2;
    var i := y1 - lam * x1;
    var e2 := x1 * x2 + x1 * x3 + x2 * x3;
    CubicProduct(x1, x2, x3, x);
    LineSquare(lam, x1, y1, x);
    assert (x1 + x2 + x3) * x * x == lam * lam * x * x;
    assert (c.a - 2 * lam * i - e2) * x == c.a * x - 2 * lam * i * x - e2 * x;
  }

  /** A line that meets the cubic at x1, x2 (with both roots of the residual accounted for) meets it at x3. */
  lemma ThirdRoot(c: Domain, lam: int, x1: int, y1: int, x2: int)
    requires c.p > 1
    requires Cong(ResidualSlope(c, lam, x1, y1, x2), 0, c.p)
    requires Cong(y1 * y1, Cubic(c, x1), c.p)
    ensures var x3 := lam * lam - x1 - x2;
            Cong((lam * (x1 - x3) - y1) * (lam * (x1 - x3) - y1), Cubic(c, x3), c.p)
  {
    var p := c.p;
    var x3 := lam * lam - x1 - x2;
    var s, k := ResidualSlope(c, lam, x1, y1, x2), ResidualConst(c, lam, x1, y1, x2);
    ResidualLinear(c, lam, x1, y1, x2, x1);
    ResidualLinear(c, lam, x1, y1, x2, x3);
    assert (x1 - x1) * (x1 - x2) * (x1 - x3) == 0;
    assert (x3 - x1) * (x3 - x2) * (x3 - x3) == 0;
    assert Line(lam, x1, y1, x1) == y1;
    var l := Line(lam, x1, y1, x3);
    // the residual vanishes at x1, hence everywhere
    CongSymm(y1 * y1, Cubic(c, x1), p);
    CongRefl(y1 * y1, p);
    CongAdd(Cubic(c, x1), y1 * y1, y1 * y1, y1 * y1, p);
    CongRefl(x3 - x1, p);
    CongMul(s, 0, x3 - x1, x3 - x1, p);
    assert 0 * (x3 - x1) == 0;
    CongAdd(s * (x3 - x1), 0, s * x1 + k, 0, p);
    assert s * (x3 - x1) + (s * x1 + k) == s * x3 + k;
    assert Cong(Cubic(c, x3) - l * l, 0, p);
    CongRefl(l * l, p);
    CongAdd(Cubic(c, x3) - l * l, 0, l * l, l * l, p);
    CongSymm(Cubic(c, x3), l * l, p);
    var y3 := lam * (x1 - x3) - y1;
    assert y3 == -l;
    assert y3 * y3 == l * l;
  }

  lemma ChordResidual(c: Domain, lam: int, x1: int, y1: int, x2: int, y2: int)
    requires Prime(c.p)
    requires Cong(y1 * y1, Cubic(c, x1), c.p) && Cong(y2 * y2, Cubic(c, x2), c.p)
    requires !Cong(x2 - x1, 0, c.p) && Cong(lam * (x2 - x1), y2 - y1, c.p)
    ensures Cong(ResidualSlope(c, lam, x1, y1, x2), 0, c.p)
  {
    var p := c.p;
    var x3 := lam * lam - x1 - x2;
    var s, k := ResidualSlope(c, lam, x1, y1, x2), ResidualConst(c, lam, x1, y1, x2);
    ResidualLinear(c, lam, x1, y1, x2, x1);
    ResidualLinear(c, lam, x1, y1, x2, x2);
    assert (x1 - x1) * (x1 - x2) * (x1 - x3) == 0;
    assert (x2 - x1) * (x2 - x2) * (x2 - x3) == 0;
    assert Line(lam, x1, y1, x1) == y1;
    var l := Line(lam, x1, y1, x2);
    // the chord passes through (x2, y2)
    CongRefl(y1, p);
    CongAdd(lam * (x2 - x1), y2 - y1, y1, y1, p);
    assert Cong(l, y2, p);
    CongMul(l, y2, l, y2, p);
    CongTrans(l * l, y2 * y2, Cubic(c, x2), p);
    // so the residual vanishes at x1 and x2
    CongSymm(l * l, Cubic(c, x2), p);
    CongSymm(y1 * y1, Cubic(c, x1), p);
    CongRefl(l * l, p);
    CongRefl(y1 * y1, p);
    CongAdd(Cubic(c, x2), l * l, l * l, l * l, p);
    CongAdd(Cubic(c, x1), y1 * y1, y1 * y1, y1 * y1, p);
    assert Cong(s * x2 + k, 0, p) && Cong(s * x1 + k, 0, p);
    CongAdd(s * x2 + k, 0, s * x1 + k, 0, p);
    assert s * x2 + k - (s * x1 + k) == s * (x2 - x1);
    assert 0 * (x2 - x1) == 0;
    CongCancel(s, 0, x2 - x1, p);
  }

  lemma TangentResidual(c: Domain, lam: int, x1: int, y1: int)
    requires Cong(lam * (2 * y1), 3 * x1 * x1 + c.a, c.p)
    ensures Cong(ResidualSlope(c, lam, x1, y1, x1), 0, c.p)
  {
    var x3 := lam * lam - x1 - x1;
    calc {
      ResidualSlope(c, lam, x1, y1, x1);
      c.a - 2 * lam * (y1 - lam * x1) - (x1 * x1 + x1 * x3 + x1 * x3);
      { assert x1 * x3 == x1 * (lam * lam) - 2 * (x1 * x1); assert lam * (lam * x1) == x1 * (lam * lam);
        assert 2 * lam * (y1 - lam * x1) == 2 * lam * y1 - 2 * (lam * (lam * x1)); }
      c.a - 2 * lam * y1 + 3 * (x1 * x1);
    }
    var q := CongWitness(lam * (2 * y1), 3 * x1 * x1 + c.a, c.p);
    assert lam * (2 * y1) == 2 * lam * y1 && 3 * x1 * x1 == 3 * (x1 * x1);
    assert ResidualSlope(c, lam, x1, y1, x1) - 0 == (-q) * c.p;
    CongBy(ResidualSlope(c, lam, x1, y1, x1), 0, c.p, -q);
  }

  lemma ReducedOnCurve(c: Domain, X: int, Y: int)
    requires c.p > 1 && Cong(Y * Y, Cubic(c, X), c.p)
    ensures OnCurve(c, Affine(X % c.p, Y % c.p))
  {
    var p := c.p;
    var x, y := X % p, Y % p;
    CongMod(X, p);
    CongMod(Y, p);
    CongMul(y, Y, y, Y, p);
    CongMul(X, x, X, x, p);
    CongMul(X * X, x * x, X, x, p);
    CongRefl(c.a, p);
    CongRefl(c.b, p);
    CongMul(c.a, c.a, X, x, p);
    CongAdd(X * X * X, x * x * x, c.a * X, c.a * x, p);
    CongAdd(X * X * X + c.a * X, x * x * x + c.a * x, c.b, c.b, p);
    CongTrans(y * y, Y * Y, Cubic(c, X), p);
    CongTrans(y * y, Cubic(c, X), Cubic(c, x), p);
  }

  /** `v * Inverse(d)` reduced is a quotient: multiplying by `d` gives `v` back. */
  lemma QuotientCorrect(v: int, d: int, p: int)
    requires Prime(p) && !Cong(d, 0, p)
    ensures Cong(((v * Inverse(d, p)) % p) * d, v, p)
  {
    var w := Inverse(d, p);
    PrimeInverse(d, p);
    CongMod(v * w, p);
    CongRefl(d, p);
    CongRefl(v, p);
    CongMul((v * w) % p, v * w, d, d, p);
    CongMul(v, v, d * w, 1, p);
    MulSwap(v, w, d);
    MulAssoc(v, d, w);
    CongTrans(((v * w) % p) * d, v * w * d, v, p);
  }

  /** Two points of one abscissa are equal or opposite. */
  lemma SameAbscissa(c: Domain, x: int, y1: int, y2: int)
    requires Prime(c.p) && OnCurve(c, Affine(x, y1)) && OnCurve(c, Affine(x, y2))
    requires (y1 + y2) % c.p != 0
    ensures y1 == y2 && !Cong(2 * y1, 0, c.p)
  {
    var p := c.p;
    CongIffSameResidue(y1 + y2, 0, p);
    DivModUnique(0, p, 0, 0);
    CongSymm(y2 * y2, Cubic(c, x), p);
    CongTrans(y1 * y1, Cubic(c, x), y2 * y2, p);
    CongRefl(y2 * y2, p);
    CongAdd(y1 * y1, y2 * y2, y2 * y2, y2 * y2, p);
    assert y1 * y1 - y2 * y2 == (y1 - y2) * (y1 + y2) && 0 * (y1 + y2) == 0;
    CongCancel(y1 - y2, 0, y1 + y2, p);
    CongRefl(y2, p);
    CongAdd(y1 - y2, 0, y2, y2, p);
    CongSmall(y1, y2, p);
  }

  lemma DistinctAbscissas(x1: int, x2: int, p: int)
    requires 0 <= x1 < p && 0 <= x2 < p && x1 != x2
    ensures !Cong(x2 - x1, 0, p)
  {
    if Cong(x2 - x1, 0, p) {
      CongRefl(x1, p);
      CongAdd(x2 - x1, 0, x1, x1, p);
      CongSmall(x2, x1, p);
    }
  }

  /** The sum of two curve points is a curve point. */
  lemma AddClosed(c: Domain, P: Point, Q: Point)
    requires Prime(c.p) && OnCurve(c, P) && OnCurve(c, Q)
    ensures OnCurve(c, Add(c, P, Q))
  {
    if P.Affine? && Q.Affine? && Add(c, P, Q).Affine? {
      var x1, y1, x2, y2 := P.x, P.y, Q.x, Q.y;
      var lam := Slope(c, x1, y1, x2, y2);
      if x1 == x2 {
        SameAbscissa(c, x1, y1, y2);
        QuotientCorrect(3 * x1 * x1 + c.a, 2 * y1, c.p);
        TangentResidual(c, lam, x1, y1);
      } else {
        DistinctAbscissas(x1, x2, c.p);
        QuotientCorrect(y2 - y1, x2 - x1, c.p);
        ChordResidual(c, lam, x1, y1, x2, y2);
      }
      ThirdRoot(c, lam, x1, y1, x2);
      var x3 := lam * lam - x1 - x2;
      ReducedOnCurve(c, x3, lam * (x1 - x3) - y1);
    }
  }

  /** With slope num/den, the sum is the third point of the line, reflected. */
  lemma ThirdPoint(c: Domain, lam: int, num: int, den: int, x1: int, y1: int, x2: int)
    requires c.p > 1 && Cong(lam * den, num, c.p)
    ensures var x, y := ThirdX(c, lam, x1, x2), (lam * (x1 - (lam * lam - x1 - x2)) - y1) % c.p;
            && Cong((x + x1 + x2) * (den * den), num * num, c.p)
            && Cong((-y - y1) * den, num * (x - x1), c.p)
  {
    var p, x3 := c.p, lam * lam - x1 - x2;
    var y3 := lam * (x1 - x3) - y1;
    var x, y := x3 % p, y3 % p;
    // (x + x1 + x2) is lam^2, and (lam*den)^2 is num^2
    CongMod(x3, p);
    CongRefl(x1 + x2, p);
    CongAdd(x, x3, x1 + x2, x1 + x2, p);
    assert x3 + (x1 + x2) == lam * lam && x + (x1 + x2) == x + x1 + x2;
    CongRefl(den * den, p);
    CongMul(x + x1 + x2, lam * lam, den * den, den * den, p);
    CongMul(lam * den, num, lam * den, num, p);
    SquareOfProduct(lam, den);
    CongTrans((x + x1 + x2) * (den * den), lam * lam * (den * den), num * num, p);
    // -y - y1 is lam*(x - x1)
    CongMod(y3, p);
    CongRefl(-y1, p);
    CongAdd(-y1, -y1, y, y3, p);
    assert -y1 - y3 == lam * (x3 - x1) && -y1 - y == -y - y1;
    CongRefl(x1, p);
    CongAdd(x3, x, x1, x1, p);
    CongRefl(lam, p);
    CongMul(lam, lam, x3 - x1, x - x1, p);
    CongTrans(-y - y1, lam * (x3 - x1), lam * (x - x1), p);
    CongRefl(den, p);
    CongMul(-y - y1, lam * (x - x1), den, den, p);
    CongRefl(x - x1, p);
    CongMul(lam * den, num, x - x1, x - x1, p);
    MulSwap(lam, x - x1, den);
    CongTrans((-y - y1) * den, lam * (x - x1) * den, num * (x - x1), p);
  }

  lemma SquareOfProduct(a: int, b: int)
    ensures a * a * (b * b) == a * b * (a * b)
  {
    calc {
      a * a * (b * b);
      a * (a * (b * b));
      { assert a * (b * b) == b * (a * b); }
      a * (b * (a * b));
      a * b * (a * b);
    }
  }

  /**
   The sum is the point with which the two cancel on a line: opposite points give infinity, others the
   reflection of the chord's or the tangent's third intersection, and infinity is neutral.
   */
  lemma AddMeets(c: Domain, P: Point, Q: Point)
    requires Prime(c.p) && OnCurve(c, P) && OnCurve(c, Q)
    ensures P == Infinity ==> Add(c, P, Q) == Q
    ensures Q == Infinity ==> Add(c, P, Q) == P
    ensures P.Affine? && Q.Affine? ==>
              var R := Add(c, P, Q);
              if P.x == Q.x && (P.y + Q.y) % c.p == 0 then R == Infinity
              else
                var num := if P.x == Q.x then 3 * P.x * P.x + c.a else Q.y - P.y;
                var den := if P.x == Q.x then 2 * P.y else Q.x - P.x;
                && R.Affine?
                && !Cong(den, 0, c.p)
                && Cong((R.x + P.x + Q.x) * (den * den), num * num, c.p)
                && Cong((-R.y - P.y) * den, num * (R.x - P.x), c.p)
  {
    if P.Affine? && Q.Affine? && Add(c, P, Q).Affine? {
      var lam := Slope(c, P.x, P.y, Q.x, Q.y);
      if P.x == Q.x {
        SameAbscissa(c, P.x, P.y, Q.y);
        QuotientCorrect(3 * P.x * P.x + c.a, 2 * P.y, c.p);
        ThirdPoint(c, lam, 3 * P.x * P.x + c.a, 2 * P.y, P.x, P.y, Q.x);
      } else {
        DistinctAbscissas(P.x, Q.x, c.p);
        QuotientCorrect(Q.y - P.y, Q.x - P.x, c.p);
        ThirdPoint(c, lam, Q.y - P.y, Q.x - P.x, P.x, P.y, Q.x);
      }
    }
  }

  // ----- the group law as a hypothesis, and scalar multiplication -----

  ghost predicate Associates(c: Domain, P: Point, Q: Point, R: Point)
    requires c.p > 1
  {
    OnCurve(c, P) && OnCurve(c, Q) && OnCurve(c, R) ==>
      Add(c, Add(c, P, Q), R) == Add(c, P, Add(c, Q, R))
  }

  ghost predicate Annihilates(c: Domain, P: Point)
    requires c.p > 1 && c.n >= 0
  {
    OnCurve(c, P) ==> Mul(c, c.n, P) == Infinity
  }

  /**
   What SEC 1 asks of domain parameters with cofactor 1: both moduli are prime, addition is
   associative on the curve, and the curve group has order n and contains the base point.
   */
  ghost predicate Lawful(c: Domain) {
    && Prime(c.p) && Prime(c.n)
    && OnCurve(c, c.G())
    && (forall P, Q, R :: Associates(c, P, Q, R))
    && (forall P :: Annihilates(c, P))
  }

  lemma {:induction false} MulClosed(c: Domain, k: nat, P: Point)
    requires Prime(c.p) && OnCurve(c, P)
    ensures OnCurve(c, Mul(c, k, P))
  {
    if k == 0 {
    } else {
      MulClosed(c, k - 1, P);
      AddClosed(c, P, Mul(c, k - 1, P));
    }
  }

  /** Multiplication is repeated addition: it starts at infinity and at the point itself. */
  lemma MulStarts(c: Domain, P: Point)
    requires c.p > 1
    ensures Mul(c, 0, P) == Infinity && Mul(c, 1, P) == P
  {
    assert Mul(c, 0, P) == Infinity;
  }

  lemma {:induction false} MulAdd(c: Domain, j: nat, k: nat, P: Point)
    requires Lawful(c) && OnCurve(c, P)
    ensures Mul(c, j + k, P) == Add(c, Mul(c, j, P), Mul(c, k, P))
  {
    if j == 0 {
    } else {
      MulAdd(c, j - 1, k, P);
      MulClosed(c, j - 1, P);
      MulClosed(c, k, P);
      assert Associates(c, P, Mul(c, j - 1, P), Mul(c, k, P));
    }
  }

  lemma {:induction false} MulMul(c: Domain, j: nat, k: nat, P: Point)
    requires Lawful(c) && OnCurve(c, P)
    ensures j * k >= 0 && Mul(c, j * k, P) == Mul(c, j, Mul(c, k, P))
  {
    if j == 0 {
    } else {
      MulMul(c, j - 1, k, P);
      assert j * k == k + (j - 1) * k;
      MulAdd(c, k, (j - 1) * k, P);
    }
  }

  lemma {:induction false} MulInfinity(c: Domain, k: nat)
    requires c.p > 1
    ensures Mul(c, k, Infinity) == Infinity
  {
    if k == 0 {
    } else {
      MulInfinity(c, k - 1);
    }
  }

  lemma OrderMultiples(c: Domain, q: nat, P: Point)
    requires Lawful(c) && OnCurve(c, P)
    ensures q * c.n >= 0 && Mul(c, q * c.n, P) == Infinity
  {
    MulMul(c, q, c.n, P);
    assert Annihilates(c, P);
    MulInfinity(c, q);
  }

  lemma DropMultiple(c: Domain, m: nat, r: nat, P: Point)
    requires Lawful(c) && OnCurve(c, P) && Mul(c, m, P) == Infinity
    ensures Mul(c, m + r, P) == Mul(c, r, P)
  {
    MulAdd(c, m, r, P);
  }

  /** Scalars act modulo the group order. */
  lemma MulMod(c: Domain, k: nat, P: Point)
    requires Lawful(c) && OnCurve(c, P)
    ensures Mul(c, k, P) == Mul(c, k % c.n, P)
  {
    var q, r := k / c.n, k % c.n;
    assert k == q * c.n + r;
    OrderMultiples(c, q, P);
    DropMultiple(c, q * c.n, r, P);
  }

  lemma MulCommutes(c: Domain, j: nat, k: nat, P: Point)
    requires Lawful(c) && OnCurve(c, P)
    ensures Mul(c, j, Mul(c, k, P)) == Mul(c, k, Mul(c, j, P))
  {
    MulMul(c, j, k, P);
    MulMul(c, k, j, P);
    assert j * k == k * j;
  }

  /** A scalar in [1, n) never sends an affine curve point to infinity. */
  lemma MulAffine(c: Domain, k: nat, P: Point)
    requires Lawful(c) && OnCurve(c, P) && P.Affine? && 0 < k < c.n
    ensures Mul(c, k, P).Affine? && OnCurve(c, Mul(c, k, P))
  {
    MulClosed(c, k, P);
    DivModUnique(k, c.n, 0, k);
    DivModUnique(0, c.n, 0, 0);
    CongIffSameResidue(k, 0, c.n);
    PrimeInverse(k, c.n);
    var w := Inverse(k, c.n);
    assert w * k == k * w && w * k >= 0;
    CongIffSameResidue(w * k, 1, c.n);
    DivModUnique(1, c.n, 0, 1);
    MulMod(c, w * k, P);
    MulMul(c, w, k, P);
    MulInfinity(c, w);
    assert Mul(c, 1, P) == P by {
      assert Mul(c, 0, P) == Infinity;
    }
  }

  /** Two affine curve points share their abscissa exactly if they are equal or cancel. */
  lemma SameAbscissaIff(c: Domain, P: Point, Q: Point)
    requires Prime(c.p) && OnCurve(c, P) && OnCurve(c, Q) && P.Affine? && Q.Affine?
    ensures P.x == Q.x <==> P == Q || Add(c, P, Q) == Infinity
  {
    if P.x == Q.x && (P.y + Q.y) % c.p != 0 {
      SameAbscissa(c, P.x, P.y, Q.y);
    }
  }

  lemma MulShift(c: Domain, i: nat, j: nat, k: nat, P: Point)
    requires Lawful(c) && OnCurve(c, P) && Mul(c, j, P) == Mul(c, k, P)
    ensures Mul(c, i + j, P) == Mul(c, i + k, P)
  {
    MulAdd(c, i, j, P);
    MulAdd(c, i, k, P);
  }

  /** Distinct scalars in [1, n) give distinct points. */
  lemma MulInjective(c: Domain, j: nat, k: nat, P: Point)
    requires Lawful(c) && OnCurve(c, P) && P.Affine? && 0 < j < k < c.n
    ensures Mul(c, j, P) != Mul(c, k, P)
  {
    if Mul(c, j, P) == Mul(c, k, P) {
      MulShift(c, c.n - j, j, k, P);
      assert Annihilates(c, P);
      MulVanishesIff(c, c.n - j + k, P);
    }
  }

  lemma MulVanishesIff(c: Domain, k: nat, P: Point)
    requires Lawful(c) && OnCurve(c, P) && P.Affine? && 0 < k < 2 * c.n
    ensures Mul(c, k, P) == Infinity <==> k == c.n
  {
    assert Annihilates(c, P);
    if k < c.n {
      MulAffine(c, k, P);
    } else if k > c.n {
      MulMod(c, k, P);
      DivModUnique(k, c.n, 1, k - c.n);
      MulAffine(c, k - c.n, P);
    }
  }

  lemma MulSum(c: Domain, j: nat, k: nat, m: nat, P: Point)
    requires Lawful(c) && OnCurve(c, P) && m == j + k
    ensures Add(c, Mul(c, j, P), Mul(c, k, P)) == Mul(c, m, P)
  {
    MulAdd(c, j, k, P);
  }

  /** Two scalars in [1, n) give opposite points exactly if they add up to n. */
  lemma MulOpposite(c: Domain, j: nat, k: nat, P: Point)
    requires Lawful(c) && OnCurve(c, P) && P.Affine? && 0 < j < c.n && 0 < k < c.n
    ensures Add(c, Mul(c, j, P), Mul(c, k, P)) == Infinity <==> j + k == c.n
  {
    var sum := j + k;
    MulVanishesIff(c, sum, P);
    assert Add(c, Mul(c, j, P), Mul(c, k, P)) == Mul(c, sum, P) by {
      MulSum(c, j, k, sum, P);
    }
  }

  /** Two multiples of one point, scalars in [1, n), share their abscissa exactly if equal or opposite. */
  lemma MultiplesShareAbscissaIff(c: Domain, j: nat, k: nat, P: Point)
    requires Lawful(c) && OnCurve(c, P) && P.Affine? && 0 < j < c.n && 0 < k < c.n
    ensures Mul(c, j, P).Affine? && Mul(c, k, P).Affine?
    ensures Mul(c, j, P).x == Mul(c, k, P).x <==> j == k || j + k == c.n
  {
    MulAffine(c, j, P);
    MulAffine(c, k, P);
    SameAbscissaIff(c, Mul(c, j, P), Mul(c, k, P));
    MulOpposite(c, j, k, P);
    if j < k {
      MulInjective(c, j, k, P);
    } else if k < j {
      MulInjective(c, k, j, P);
    }
  }
}
