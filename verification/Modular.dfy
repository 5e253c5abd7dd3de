/** Residues: congruence, the extended Euclidean inverse, and prime moduli. */
module Modular {

  /** `a` and `b` have the same residue; stated with a witness so that proofs never need to divide. */
  ghost predicate Cong(a: int, b: int, m: int) {
    exists q: int :: Differ(a, b, m, q)
  }

  ghost predicate Differ(a: int, b: int, m: int, q: int) {
    a - b == q * m
  }

  lemma CongBy(a: int, b: int, m: int, q: int)
    requires a - b == q * m
    ensures Cong(a, b, m)
  {
    assert Differ(a, b, m, q);
  }

  lemma CongWitness(a: int, b: int, m: int) returns (q: int)
    requires Cong(a, b, m)
    ensures a - b == q * m
  {
    q :| Differ(a, b, m, q);
  }

  lemma CongRefl(a: int, m: int)
    ensures Cong(a, a, m)
  {
    CongBy(a, a, m, 0);
  }

  lemma CongSymm(a: int, b: int, m: int)
    requires Cong(a, b, m)
    ensures Cong(b, a, m)
  {
    var q := CongWitness(a, b, m);
    assert b - a == (-q) * m;
    CongBy(b, a, m, -q);
  }

  lemma CongTrans(a: int, b: int, c: int, m: int)
    requires Cong(a, b, m) && Cong(b, c, m)
    ensures Cong(a, c, m)
  {
    var q := CongWitness(a, b, m);
    var r := CongWitness(b, c, m);
    assert a - c == (q + r) * m;
    CongBy(a, c, m, q + r);
  }

  lemma CongAdd(a: int, b: int, c: int, d: int, m: int)
    requires Cong(a, b, m) && Cong(c, d, m)
    ensures Cong(a + c, b + d, m) && Cong(a - c, b - d, m)
  {
    var q := CongWitness(a, b, m);
    var r := CongWitness(c, d, m);
    assert (a + c) - (b + d) == (q + r) * m;
    CongBy(a + c, b + d, m, q + r);
    assert (a - c) - (b - d) == (q - r) * m;
    CongBy(a - c, b - d, m, q - r);
  }

  lemma CongMul(a: int, b: int, c: int, d: int, m: int)
    requires Cong(a, b, m) && Cong(c, d, m)
    ensures Cong(a * c, b * d, m)
  {
    var q := CongWitness(a, b, m);
    var r := CongWitness(c, d, m);
    calc {
      a * c - b * d;
      (a - b) * c + b * (c - d);
      q * m * c + b * (r * m);
      (q * c + b * r) * m;
    }
    CongBy(a * c, b * d, m, q * c + b * r);
  }

  /** A quotient and an in-range remainder are the ones `/` and `%` compute. */
  lemma DivModUnique(a: int, m: int, q: int, r: int)
    requires m > 0 && a == q * m + r && 0 <= r < m
    ensures a / m == q && a % m == r
  {
    var q', r' := a / m, a % m;
    assert a == q' * m + r';
    assert (q - q') * m == r' - r;
    assert q - q' >= 1 ==> (q - q') * m >= m;
    assert q - q' <= -1 ==> (q - q') * m <= -m;
  }

  lemma CongIffSameResidue(a: int, b: int, m: int)
    requires m > 0
    ensures Cong(a, b, m) <==> a % m == b % m
  {
    if Cong(a, b, m) {
      var q := CongWitness(a, b, m);
      assert b == (b / m) * m + b % m;
      assert a == (b / m + q) * m + b % m;
      DivModUnique(a, m, b / m + q, b % m);
    }
    if a % m == b % m {
      assert a == (a / m) * m + a % m && b == (b / m) * m + b % m;
      assert a - b == (a / m - b / m) * m;
      CongBy(a, b, m, a / m - b / m);
    }
  }

  lemma CongMod(a: int, m: int)
    requires m > 0
    ensures Cong(a, a % m, m) && Cong(a % m, a, m)
  {
    assert a == (a / m) * m + a % m;
    CongBy(a, a % m, m, a / m);
    CongSymm(a, a % m, m);
  }

  /** Two in-range representatives of one class are equal. */
  lemma CongSmall(a: int, b: int, m: int)
    requires 0 <= a < m && 0 <= b < m && Cong(a, b, m)
    ensures a == b
  {
    CongIffSameResidue(a, b, m);
    DivModUnique(a, m, 0, a);
    DivModUnique(b, m, 0, b);
  }

  // ----- the extended Euclidean algorithm -----

  /** The greatest common divisor with Bezout coefficients. */
  function ExtGcd(a: nat, b: nat): (r: (nat, int, int))
    ensures a + b > 0 ==> r.0 > 0
    decreases b
  {
    if b == 0 then (a, 1, 0)
    else
      var (g, x, y) := ExtGcd(b, a % b);
      (g, y, x - (a / b) * y)
  }

  lemma {:induction false} ExtGcdBezout(a: nat, b: nat)
    ensures a * ExtGcd(a, b).1 + b * ExtGcd(a, b).2 == ExtGcd(a, b).0
    decreases b
  {
    if b == 0 {
    } else {
      ExtGcdBezout(b, a % b);
      var (g, x, y) := ExtGcd(b, a % b);
      var q := a / b;
      assert a == q * b + a % b;
      BezoutStep(a, b, q, a % b, x, y);
    }
  }

  lemma BezoutStep(a: int, b: int, q: int, r: int, x: int, y: int)
    requires a == q * b + r
    ensures a * y + b * (x - q * y) == b * x + r * y
  {
    assert a * y == q * b * y + r * y;
    assert b * (x - q * y) == b * x - q * b * y;
  }

  ghost predicate Divides(d: int, a: int) {
    Cong(a, 0, d)
  }

  lemma {:induction false} ExtGcdDivides(a: nat, b: nat)
    ensures Divides(ExtGcd(a, b).0, a) && Divides(ExtGcd(a, b).0, b)
    decreases b
  {
    var g := ExtGcd(a, b).0;
    if b == 0 {
      CongBy(a, 0, g, 1);
      CongBy(b, 0, g, 0);
    } else {
      ExtGcdDivides(b, a % b);
      var q := CongWitness(b, 0, g);
      var r := CongWitness(a % b, 0, g);
      assert a == (a / b) * b + a % b;
      assert a == ((a / b) * q + r) * g;
      CongBy(a, 0, g, (a / b) * q + r);
    }
  }

  /** The representative of the inverse of `a` in [0, m), when there is one. */
  function Inverse(a: int, m: int): (x: int)
    requires m > 1
    ensures 0 <= x < m
  {
    ExtGcd(a % m, m).1 % m
  }

  function Gcd(a: int, m: int): nat
    requires m > 1
  {
    ExtGcd(a % m, m).0
  }

  lemma InverseCorrect(a: int, m: int)
    requires m > 1 && Gcd(a, m) == 1
    ensures Cong(a * Inverse(a, m), 1, m)
    ensures Inverse(a, m) != 0
  {
    var (g, x, y) := ExtGcd(a % m, m);
    ExtGcdBezout(a % m, m);
    assert (a % m) * x - 1 == (-y) * m;
    CongBy((a % m) * x, 1, m, -y);
    CongMod(x, m);
    CongMod(a, m);
    CongMul(a, a % m, x % m, x, m);
    CongTrans(a * (x % m), (a % m) * x, 1, m);
    if Inverse(a, m) == 0 {
      assert a * Inverse(a, m) == 0;
      CongSmall(0, 1, m);
    }
  }

  // ----- prime moduli -----

  ghost predicate Prime(m: int) {
    m > 1 && forall d: int :: 1 < d < m ==> !Divides(d, m)
  }

  lemma PrimeGcd(a: int, m: int)
    requires Prime(m) && a % m != 0
    ensures Gcd(a, m) == 1
  {
    var g := Gcd(a, m);
    ExtGcdDivides(a % m, m);
    var q := CongWitness(a % m, 0, g);
    assert q >= 1 ==> (q - 1) * g >= 0;
    assert q <= 0 ==> q * g <= 0;
  }

  lemma PrimeInverse(a: int, m: int)
    requires Prime(m) && !Cong(a, 0, m)
    ensures Cong(a * Inverse(a, m), 1, m)
    ensures 0 < Inverse(a, m) < m
  {
    CongIffSameResidue(a, 0, m);
    DivModUnique(0, m, 0, 0);
    PrimeGcd(a, m);
    InverseCorrect(a, m);
  }

  lemma MulAssoc(a: int, b: int, c: int)
    ensures a * b * c == a * (b * c)
  {
  }

  lemma MulSwap(a: int, b: int, c: int)
    ensures a * b * c == a * c * b
  {
  }

  /** Nonzero factors cancel modulo a prime. */
  lemma CongCancel(a: int, b: int, c: int, m: int)
    requires Prime(m) && !Cong(c, 0, m) && Cong(a * c, b * c, m)
    ensures Cong(a, b, m)
  {
    var w := Inverse(c, m);
    PrimeInverse(c, m);
    CongRefl(w, m);
    CongMul(a * c, b * c, w, w, m);
    MulAssoc(a, c, w);
    MulAssoc(b, c, w);
    CongRefl(a, m);
    CongRefl(b, m);
    CongMul(a, a, c * w, 1, m);
    CongMul(b, b, c * w, 1, m);
    CongSymm(a * (c * w), a, m);
    CongTrans(a, a * (c * w), b * (c * w), m);
    CongTrans(a, b * (c * w), b, m);
  }

  lemma CongProductNonzero(a: int, b: int, m: int)
    requires Prime(m) && !Cong(a, 0, m) && !Cong(b, 0, m)
    ensures !Cong(a * b, 0, m)
  {
    if Cong(a * b, 0, m) {
      assert 0 * b == 0;
      CongCancel(a, 0, b, m);
    }
  }
}
