/**
 The libc `rand` replacement: a 32-bit linear congruential generator. It is proved to have full
 period, first for every power-of-two modulus with a multiplier of 1 modulo 4 and an odd increment.
 */
module RandShim {
  import opened Modular

  const WORD: int := 0x1_0000_0000
  const MULTIPLIER: int := 1103515245
  const INCREMENT: int := 12345
  /** RAND_MAX of the C library the firmware links (picolibc). */
  const RAND_MAX: int := 0x7fff_ffff

  // ----- powers of two and repeated steps -----

  function Pow(b: int, e: nat): int {
    if e == 0 then 1 else b * Pow(b, e - 1)
  }

  /** One step of the generator with modulus m. */
  function Next(a: int, c: int, m: int, x: int): (y: int)
    requires m > 0
    ensures 0 <= y < m
  {
    (x * a + c) % m
  }

  /** The state after n steps. */
  function Iterate(a: int, c: int, m: int, n: nat, x: int): (y: int)
    requires m > 0 && 0 <= x < m
    ensures 0 <= y < m
  {
    if n == 0 then x else Next(a, c, m, Iterate(a, c, m, n - 1, x))
  }

  lemma {:induction false} IterateSplit(a: int, c: int, m: int, i: nat, j: nat, x: int)
    requires m > 0 && 0 <= x < m
    ensures Iterate(a, c, m, i + j, x) == Iterate(a, c, m, j, Iterate(a, c, m, i, x))
  {
    if j == 0 {
    } else {
      IterateSplit(a, c, m, i, j - 1, x);
    }
  }

  /** 1 + a + ... + a^(n-1). */
  function Geometric(a: int, n: nat): int {
    if n == 0 then 0 else 1 + a * Geometric(a, n - 1)
  }

  /** How far n steps move a state, modulo m. */
  lemma {:induction false} Displacement(a: int, c: int, m: int, n: nat, x: int)
    requires m > 0 && 0 <= x < m
    ensures Cong(Iterate(a, c, m, n, x) - x, ((a - 1) * x + c) * Geometric(a, n), m)
  {
    var k := (a - 1) * x + c;
    if n == 0 {
      assert k * 0 == 0;
      CongRefl(0, m);
    } else {
      var s, g := Iterate(a, c, m, n - 1, x), Geometric(a, n - 1);
      Displacement(a, c, m, n - 1, x);
      CongRefl(a, m);
      CongMul(s - x, k * g, a, a, m);
      CongRefl(k, m);
      CongAdd((s - x) * a, k * g * a, k, k, m);
      assert (s - x) * a + k == s * a + c - x;
      assert k * g * a + k == k * (1 + a * g) by {
        assert k * (1 + a * g) == k + k * (a * g);
        assert k * (a * g) == k * g * a;
      }
      CongMod(s * a + c, m);
      CongRefl(x, m);
      CongAdd(Next(a, c, m, s), s * a + c, x, x, m);
      CongTrans(Next(a, c, m, s) - x, s * a + c - x, k * Geometric(a, n), m);
    }
  }

  // ----- divisibility by powers of two -----

  predicate DivisibleByPow2(k: nat, v: int) {
    k == 0 || (v % 2 == 0 && DivisibleByPow2(k - 1, v / 2))
  }

  lemma {:induction false} Pow2Positive(k: nat)
    ensures Pow(2, k) >= 1
  {
    if k > 0 {
      Pow2Positive(k - 1);
    }
  }

  lemma {:induction false} DivisibleIffCong(k: nat, v: int)
    ensures DivisibleByPow2(k, v) <==> Cong(v, 0, Pow(2, k))
  {
    if k == 0 {
      CongBy(v, 0, 1, v);
    } else {
      DivisibleIffCong(k - 1, v / 2);
      var h := Pow(2, k - 1);
      if DivisibleByPow2(k, v) {
        var q := CongWitness(v / 2, 0, h);
        assert v == 2 * (v / 2) == 2 * (q * h) == q * (2 * h);
        CongBy(v, 0, 2 * h, q);
      }
      if Cong(v, 0, 2 * h) {
        var q := CongWitness(v, 0, 2 * h);
        assert v == q * (2 * h) == 2 * (q * h);
        assert v / 2 == q * h;
        CongBy(v / 2, 0, h, q);
      }
    }
  }

  lemma {:induction false} ZeroDivisible(k: nat)
    ensures DivisibleByPow2(k, 0)
  {
    if k > 0 {
      ZeroDivisible(k - 1);
    }
  }

  lemma DoubleTimes(t: int, v: int)
    ensures 2 * t * v == 2 * (t * v) && (2 * t + 1) * v == 2 * (t * v) + v && v * (2 * t) == 2 * (v * t)
  {
  }

  lemma OddTimes(u: int, v: int)
    requires u % 2 == 1
    ensures (u * v) % 2 == v % 2
    ensures v % 2 == 0 ==> (u * v) / 2 == u * (v / 2)
  {
    DoubleTimes(u / 2, v);
    DoubleTimes(v / 2, u);
  }

  /** An odd factor carries no power of two. */
  lemma {:induction false} OddFactor(k: nat, u: int, v: int)
    requires u % 2 == 1
    ensures DivisibleByPow2(k, u * v) <==> DivisibleByPow2(k, v)
  {
    if k == 0 {
    } else {
      OddTimes(u, v);
      if v % 2 == 0 {
        OddFactor(k - 1, u, v / 2);
      }
    }
  }

  lemma {:induction false} GeometricSplit(a: int, i: nat, j: nat)
    ensures Geometric(a, i + j) == Geometric(a, i) + Pow(a, i) * Geometric(a, j)
  {
    if i == 0 {
    } else {
      GeometricSplit(a, i - 1, j);
      var p, g := Pow(a, i - 1), Geometric(a, j);
      assert a * (Geometric(a, i - 1) + p * g) == a * Geometric(a, i - 1) + (a * p) * g;
    }
  }

  lemma OneModTimes(a: int, g: int, m: int)
    requires m > 1 && a % m == 1
    ensures (a * g) % m == g % m
  {
    DivModUnique(1, m, 0, 1);
    CongIffSameResidue(a, 1, m);
    CongRefl(g, m);
    CongMul(a, 1, g, g, m);
    CongIffSameResidue(a * g, g, m);
  }

  lemma {:induction false} PowOneMod4(a: int, n: nat)
    requires a % 4 == 1
    ensures Pow(a, n) % 4 == 1
  {
    if n > 0 {
      PowOneMod4(a, n - 1);
      OneModTimes(a, Pow(a, n - 1), 4);
    }
  }

  lemma ParityStep(a: int, g: int, n: nat)
    requires a % 4 == 1 && n > 0 && g % 2 == (n - 1) % 2
    ensures (1 + a * g) % 2 == n % 2
  {
    OddTimes(a, g);
  }

  lemma {:induction false} GeometricParity(a: int, n: nat)
    requires a % 4 == 1
    ensures Geometric(a, n) % 2 == n % 2
  {
    if n > 0 {
      GeometricParity(a, n - 1);
      ParityStep(a, Geometric(a, n - 1), n);
    }
  }

  lemma HalveSum(k: nat, g: int, p: int)
    requires k > 0 && p % 4 == 1
    ensures ((1 + p) / 2) % 2 == 1
    ensures DivisibleByPow2(k, g + p * g) <==> DivisibleByPow2(k - 1, ((1 + p) / 2) * g)
  {
    var u := (1 + p) / 2;
    assert 1 + p == 2 * u;
    assert g + p * g == (1 + p) * g == 2 * (u * g);
  }

  /** The geometric sum carries exactly the power of two its length carries. */
  lemma {:induction false} GeometricValuation(k: nat, a: int, n: nat)
    requires a % 4 == 1
    ensures DivisibleByPow2(k, Geometric(a, n)) <==> DivisibleByPow2(k, n)
    decreases n
  {
    GeometricParity(a, n);
    if n == 0 || k == 0 || n % 2 == 1 {
    } else {
      var j := n / 2;
      GeometricSplit(a, j, j);
      PowOneMod4(a, j);
      var g, p := Geometric(a, j), Pow(a, j);
      HalveSum(k, g, p);
      OddFactor(k - 1, (1 + p) / 2, g);
      GeometricValuation(k - 1, a, j);
    }
  }

  // ----- full period -----

  lemma OddStride(a: int, c: int, x: int)
    requires a % 4 == 1 && c % 2 == 1
    ensures ((a - 1) * x + c) % 2 == 1
  {
    var q := a / 4;
    assert (a - 1) * x == 2 * (2 * q * x) by {
      assert a - 1 == 4 * q;
    }
  }

  /** The state recurs after exactly the multiples of 2^k steps. */
  lemma FullPeriod(k: nat, a: int, c: int, n: nat, x: int)
    requires k > 0 && a % 4 == 1 && c % 2 == 1
    requires 0 <= x < Pow(2, k)
    ensures Iterate(a, c, Pow(2, k), n, x) == x <==> Cong(n, 0, Pow(2, k))
  {
    var m := Pow(2, k);
    var y, g := Iterate(a, c, m, n, x), Geometric(a, n);
    var u := (a - 1) * x + c;
    OddStride(a, c, x);
    Displacement(a, c, m, n, x);
    OddFactor(k, u, g);
    GeometricValuation(k, a, n);
    DivisibleIffCong(k, u * g);
    DivisibleIffCong(k, n);
    if Cong(n, 0, m) {
      CongTrans(y - x, u * g, 0, m);
      CongRefl(x, m);
      CongAdd(y - x, 0, x, x, m);
      CongSmall(y, x, m);
    }
    if y == x {
      CongSymm(y - x, u * g, m);
    }
  }

  /** Within one period no state recurs. */
  lemma StatesDistinct(k: nat, a: int, c: int, i: nat, j: nat, x: int)
    requires k > 0 && a % 4 == 1 && c % 2 == 1
    requires 0 <= x < Pow(2, k)
    requires i < j < i + Pow(2, k)
    ensures Iterate(a, c, Pow(2, k), i, x) != Iterate(a, c, Pow(2, k), j, x)
  {
    var m := Pow(2, k);
    IterateSplit(a, c, m, i, j - i, x);
    FullPeriod(k, a, c, j - i, Iterate(a, c, m, i, x));
    if Cong(j - i, 0, m) {
      CongSmall(j - i, 0, m);
    }
  }

  ghost function Interval(lo: int, n: nat): (s: set<int>)
    ensures forall i :: i in s <==> lo <= i < lo + n
    ensures |s| == n
  {
    if n == 0 then {} else Interval(lo, n - 1) + {lo + n - 1}
  }

  // ----- a sequence that never repeats fills the range it lives in -----

  /** The values st(1), ..., st(n). */
  ghost function Image(st: nat -> int, n: nat): set<int> {
    if n == 0 then {} else Image(st, n - 1) + {st(n)}
  }

  /** How many of st(1), ..., st(n) satisfy `hit`. */
  ghost function Hits(st: nat -> int, n: nat, hit: int -> bool): nat {
    if n == 0 then 0 else Hits(st, n - 1, hit) + if hit(st(n)) then 1 else 0
  }

  ghost predicate Distinct(st: nat -> int, n: nat) {
    forall i: nat, j: nat :: 1 <= i < j <= n ==> st(i) != st(j)
  }

  lemma {:induction false} ImageAt(st: nat -> int, n: nat, y: int) returns (i: nat)
    requires y in Image(st, n)
    ensures 1 <= i <= n && st(i) == y
  {
    if y == st(n) {
      i := n;
    } else {
      i := ImageAt(st, n - 1, y);
    }
  }

  ghost function Matching(s: set<int>, hit: int -> bool): set<int> {
    set y | y in s && hit(y)
  }

  lemma MatchingInsert(s: set<int>, e: int, hit: int -> bool)
    requires e !in s
    ensures |Matching(s + {e}, hit)| == |Matching(s, hit)| + if hit(e) then 1 else 0
  {
    assert Matching(s + {e}, hit) == if hit(e) then Matching(s, hit) + {e} else Matching(s, hit);
  }

  lemma {:induction false} ImageSizes(st: nat -> int, n: nat, hit: int -> bool)
    requires Distinct(st, n)
    ensures |Image(st, n)| == n && |Matching(Image(st, n), hit)| == Hits(st, n, hit)
  {
    if n == 0 {
      assert Matching({}, hit) == {};
    } else {
      ImageSizes(st, n - 1, hit);
      if st(n) in Image(st, n - 1) {
        var i := ImageAt(st, n - 1, st(n));
      }
      MatchingInsert(Image(st, n - 1), st(n), hit);
    }
  }

  lemma {:induction false} ImageBounded(st: nat -> int, n: nat, m: nat)
    requires forall i: nat :: 0 <= st(i) < m
    ensures Image(st, n) <= Interval(0, m)
  {
    if n > 0 {
      ImageBounded(st, n - 1, m);
    }
  }

  lemma SubsetOfSameSize<T>(s: set<T>, t: set<T>)
    requires s <= t && |s| == |t|
    ensures s == t
  {
    assert |t - s| == 0;
  }

  /** m distinct values below m are all of them. */
  lemma ImageIsEverything(st: nat -> int, m: nat)
    requires Distinct(st, m) && forall i: nat :: 0 <= st(i) < m
    ensures Image(st, m) == Interval(0, m)
  {
    ImageSizes(st, m, y => true);
    ImageBounded(st, m, m);
    SubsetOfSameSize(Image(st, m), Interval(0, m));
  }

  /** So each of them is reached at exactly one index. */
  lemma ReachedOnce(st: nat -> int, m: nat, y: int) returns (n: nat)
    requires Distinct(st, m) && (forall i: nat :: 0 <= st(i) < m) && 0 <= y < m
    ensures 1 <= n <= m && st(n) == y
    ensures forall j: nat :: 1 <= j <= m && st(j) == y ==> j == n
  {
    ImageIsEverything(st, m);
    n := ImageAt(st, m, y);
  }

  // ----- rand and srand -----

  lemma WordIsPow2()
    ensures Pow(2, 32) == WORD
  {
    assert Pow(2, 8) == 256;
    assert Pow(2, 16) == 0x1_0000;
    assert Pow(2, 24) == 0x100_0000;
  }

  /** What `rand` returns from a state; the mask is all ones, so `&` is a remainder. */
  function Output(state: int): int {
    (state / 0x1_0000) % (RAND_MAX + 1)
  }

  /** The state after n calls of `rand`. */
  function StateAfter(n: nat, seed: int): (s: int)
    requires 0 <= seed < WORD
    ensures 0 <= s < WORD
  {
    Iterate(MULTIPLIER, INCREMENT, WORD, n, seed)
  }

  /** The recurrence, in the numbers the shim uses; the output is the upper half of the state. */
  lemma RandRecurs(n: nat, seed: int)
    requires 0 <= seed < 0x1_0000_0000
    ensures StateAfter(0, seed) == seed
    ensures StateAfter(n + 1, seed) == (StateAfter(n, seed) * 1103515245 + 12345) % 0x1_0000_0000
    ensures Output(StateAfter(n, seed)) == StateAfter(n, seed) / 0x1_0000
  {
    OutputIs(StateAfter(n, seed), 0);
  }

  /** The successive states from a seed. */
  function States(seed: int): nat -> int
    requires 0 <= seed < WORD
  {
    (i: nat) => StateAfter(i, seed)
  }

  /** From every state, `rand` comes back to it after 2^32 calls and no sooner. */
  lemma RandPeriod(n: nat, seed: int)
    requires 0 <= seed < WORD
    ensures StateAfter(n, seed) == seed <==> n % WORD == 0
  {
    WordIsPow2();
    FullPeriod(32, MULTIPLIER, INCREMENT, n, seed);
    CongIffSameResidue(n, 0, WORD);
  }

  lemma StatesAreDistinct(seed: int)
    requires 0 <= seed < WORD
    ensures Distinct(States(seed), WORD)
  {
    WordIsPow2();
    forall i: nat, j: nat | 1 <= i < j <= WORD
      ensures StateAfter(i, seed) != StateAfter(j, seed)
    {
      StatesDistinct(32, MULTIPLIER, INCREMENT, i, j, seed);
    }
  }

  /** Every 32-bit state is reached by exactly one of the first 2^32 calls. */
  lemma RandVisitsOnce(state: int, seed: int) returns (n: nat)
    requires 0 <= seed < WORD && 0 <= state < WORD
    ensures 1 <= n <= WORD && StateAfter(n, seed) == state
    ensures forall j: nat :: 1 <= j <= WORD && StateAfter(j, seed) == state ==> j == n
  {
    StatesAreDistinct(seed);
    n := ReachedOnce(States(seed), WORD, state);
    assert forall j: nat :: StateAfter(j, seed) == States(seed)(j);
  }

  /** How many of the first n calls return v. */
  ghost function Occurrences(n: nat, v: int, seed: int): nat
    requires 0 <= seed < WORD
  {
    Hits(States(seed), n, s => Output(s) == v)
  }

  lemma OutputIs(y: int, v: int)
    requires 0 <= y < WORD
    ensures Output(y) == y / 0x1_0000
    ensures Output(y) == v <==> v * 0x1_0000 <= y < v * 0x1_0000 + 0x1_0000
  {
    var h := y / 0x1_0000;
    assert 0 <= h < 0x1_0000;
    DivModUnique(h, RAND_MAX + 1, 0, h);
  }

  lemma MatchingStates(v: int)
    ensures |Matching(Interval(0, WORD), s => Output(s) == v)| == if 0 <= v < 0x1_0000 then 0x1_0000 else 0
  {
    var size := if 0 <= v < 0x1_0000 then 0x1_0000 else 0;
    MatchingAre(s => Output(s) == v, v, v * 0x1_0000, size);
  }

  lemma MatchingAre(hit: int -> bool, v: int, lo: int, size: nat)
    requires forall s :: hit(s) <==> Output(s) == v
    requires lo == v * 0x1_0000 && size == if 0 <= v < 0x1_0000 then 0x1_0000 else 0
    ensures Matching(Interval(0, WORD), hit) == Interval(lo, size)
  {
    forall y
      ensures y in Matching(Interval(0, WORD), hit) <==> y in Interval(lo, size)
    {
      if 0 <= y < WORD {
        OutputIs(y, v);
      }
    }
  }

  /** Over one period each 16-bit value is returned exactly 2^16 times, and nothing else is. */
  lemma RandEquidistributed(v: int, seed: int)
    requires 0 <= seed < WORD
    ensures Occurrences(WORD, v, seed) == if 0 <= v < 0x1_0000 then 0x1_0000 else 0
  {
    var st := States(seed);
    var hit := s => Output(s) == v;
    StatesAreDistinct(seed);
    ImageSizes(st, WORD, hit);
    ImageIsEverything(st, WORD);
    MatchingStates(v);
  }

  class Rand {
    /** `unsigned long`, 32 bits on this target. */
    var state: int

    ghost predicate Valid()
      reads this
    {
      0 <= state < WORD
    }

    constructor ()
      ensures Valid() && state == 1
    {
      state := 1;
    }

    method Srand(seed: int)
      requires 0 <= seed < WORD
      modifies this
      ensures Valid() && state == seed
    {
      state := seed;
    }

    method Next() returns (r: int)
      requires Valid()
      modifies this
      ensures Valid() && state == StateAfter(1, old(state))
      ensures state == (old(state) * 1103515245 + 12345) % 0x1_0000_0000
      ensures r == state / 0x1_0000 && 0 <= r < 0x1_0000
    {
      state := (state * MULTIPLIER + INCREMENT) % WORD;
      r := (state / 0x1_0000) % (RAND_MAX + 1);
      assert StateAfter(0, old(state)) == old(state);
    }
  }
}
