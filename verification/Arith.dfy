/** Integer facts shared by the whole project: powers, congruence modulo m,
    divisibility, coprimality and primality. */
module Arith {

  /** b to the power e. */
  function Pow(b: int, e: nat): int
    decreases e
  {
    if e == 0 then 1 else b * Pow(b, e - 1)
  }

  /** The definition of Pow, for use where the recursion is hidden. */
  lemma PowDef(b: int, e: nat)
    ensures Pow(b, 0) == 1 && Pow(b, e + 1) == b * Pow(b, e)
  {}

  lemma {:induction false} PowAdd(b: int, m: nat, n: nat)
    ensures Pow(b, m + n) == Pow(b, m) * Pow(b, n)
    decreases m
  {
    if m > 0 {
      PowAdd(b, m - 1, n);
      assert m + n - 1 == (m - 1) + n;
      var x, y := Pow(b, m - 1), Pow(b, n);
      assert b * (x * y) == (b * x) * y;
    }
  }

  lemma {:induction false} PowMul(b: int, m: nat, n: nat)
    ensures m * n >= 0 && Pow(b, m * n) == Pow(Pow(b, m), n)
    decreases n
  {
    if n == 0 {
      assert m * n == 0;
    } else {
      PowMul(b, m, n - 1);
      assert m * n == m + m * (n - 1);
      PowAdd(b, m, m * (n - 1));
    }
  }

  lemma {:induction false} PowPositive(b: int, e: nat)
    requires b > 0
    ensures Pow(b, e) > 0
    decreases e
  {
    if e > 0 { PowPositive(b, e - 1); MulPositive(b, Pow(b, e - 1)); }
  }

  lemma MulPositive(a: int, b: int)
    requires a > 0 && b > 0
    ensures a * b > 0
  {}

  lemma MulLe(a: int, b: int, c: int)
    requires a <= b && c >= 0
    ensures a * c <= b * c
  {}

  lemma MulLt(a: int, b: int, c: int)
    requires a < b && c > 0
    ensures a * c < b * c
  {}

  lemma {:induction false} PowMonotoneExp(b: int, m: nat, n: nat)
    requires b >= 1 && m <= n
    ensures 1 <= Pow(b, m) <= Pow(b, n)
    decreases n
  {
    if m == n {
      PowPositive(b, m);
    } else {
      PowMonotoneExp(b, m, n - 1);
      MulLe(1, b, Pow(b, n - 1));
    }
  }

  lemma {:induction false} PowMonotoneBase(a: int, b: int, n: nat)
    requires 0 <= a <= b
    ensures 0 <= Pow(a, n) <= Pow(b, n)
    decreases n
  {
    if n > 0 {
      PowMonotoneBase(a, b, n - 1);
      MulLe(a, b, Pow(a, n - 1));
      MulLe(Pow(a, n - 1), Pow(b, n - 1), b);
      MulLe(0, a, Pow(a, n - 1));
    }
  }

  // ---------------------------------------------------------------- congruence

  /** a and b differ by a multiple of m. */
  ghost predicate Cong(a: int, b: int, m: int) {
    exists k: int :: a == b + k * m
  }

  lemma CongBy(a: int, b: int, m: int, k: int)
    requires a == b + k * m
    ensures Cong(a, b, m)
  {}

  lemma CongRefl(a: int, m: int)
    ensures Cong(a, a, m)
  {
    CongBy(a, a, m, 0);
  }

  lemma CongSym(a: int, b: int, m: int)
    requires Cong(a, b, m)
    ensures Cong(b, a, m)
  {
    var k: int :| a == b + k * m;
    assert (-k) * m == -(k * m);
    CongBy(b, a, m, -k);
  }

  lemma CongTrans(a: int, b: int, c: int, m: int)
    requires Cong(a, b, m) && Cong(b, c, m)
    ensures Cong(a, c, m)
  {
    var k: int :| a == b + k * m;
    var l: int :| b == c + l * m;
    assert (k + l) * m == k * m + l * m;
    CongBy(a, c, m, k + l);
  }

  lemma CongAdd(a: int, a': int, b: int, b': int, m: int)
    requires Cong(a, a', m) && Cong(b, b', m)
    ensures Cong(a + b, a' + b', m)
  {
    var k: int :| a == a' + k * m;
    var l: int :| b == b' + l * m;
    assert (k + l) * m == k * m + l * m;
    CongBy(a + b, a' + b', m, k + l);
  }

  lemma CongSub(a: int, a': int, b: int, b': int, m: int)
    requires Cong(a, a', m) && Cong(b, b', m)
    ensures Cong(a - b, a' - b', m)
  {
    var k: int :| a == a' + k * m;
    var l: int :| b == b' + l * m;
    assert (k - l) * m == k * m - l * m;
    CongBy(a - b, a' - b', m, k - l);
  }

  lemma CongMulInts(a: int, b: int, k: int, l: int, m: int)
    ensures (a + k * m) * (b + l * m) == a * b + (a * l + k * b + k * l * m) * m
  {}

  lemma CongMul(a: int, a': int, b: int, b': int, m: int)
    requires Cong(a, a', m) && Cong(b, b', m)
    ensures Cong(a * b, a' * b', m)
  {
    var k: int :| a == a' + k * m;
    var l: int :| b == b' + l * m;
    CongMulInts(a', b', k, l, m);
    CongBy(a * b, a' * b', m, a' * l + k * b' + k * l * m);
  }

  /** Congruent numbers have the same remainder, and conversely. */
  lemma CongMod(a: int, b: int, m: int)
    requires m > 0
    ensures Cong(a, b, m) <==> a % m == b % m
  {
    if Cong(a, b, m) {
      var k: int :| a == b + k * m;
      ModUnique(a, b / m + k, b % m, m);
    }
    if a % m == b % m {
      var q, r := a / m, b / m;
      assert a == q * m + a % m && b == r * m + b % m;
      assert q * m - r * m == (q - r) * m;
      CongBy(a, b, m, q - r);
    }
  }

  lemma CongModSelf(a: int, m: int)
    requires m > 0
    ensures Cong(a % m, a, m)
  {
    assert a == (a / m) * m + a % m;
    assert (-(a / m)) * m == -((a / m) * m);
    CongBy(a % m, a, m, -(a / m));
  }

  /** Quotient and remainder are determined by the equation and the range. */
  lemma ModUnique(a: int, q: int, r: int, m: int)
    requires m > 0 && 0 <= r < m && a == q * m + r
    ensures a / m == q && a % m == r
  {
    var q', r' := a / m, a % m;
    assert a == q' * m + r';
    assert (q' - q) * m == r - r' by { assert (q' - q) * m == q' * m - q * m; }
    if q' - q >= 1 { MulLe(1, q' - q, m); }
    if q' - q <= -1 { MulLe(q' - q, -1, m); }
  }

  /** Congruent residues in [0, m) are equal. */
  lemma CongSmallEqual(a: int, b: int, m: int)
    requires m > 0 && 0 <= a < m && 0 <= b < m && Cong(a, b, m)
    ensures a == b
  {
    CongMod(a, b, m);
    ModUnique(a, 0, a, m);
    ModUnique(b, 0, b, m);
  }

  /** Modulo an odd number a factor of two cancels. */
  lemma CancelTwo(a: int, b: int, p: int)
    requires p % 2 == 1 && Cong(2 * a, 2 * b, p)
    ensures Cong(a, b, p)
  {
    var k: int :| 2 * a == 2 * b + k * p;
    var h := p / 2;
    assert k * (2 * h + 1) == 2 * (k * h) + k;
    var m := a - b - k * h;
    assert (2 * m) * p == 2 * (m * p);
    CongBy(a, b, p, m);
  }

  // ------------------------------------------------------ divisors and primes

  ghost predicate Divides(d: int, a: int) {
    exists k: int :: a == k * d
  }

  lemma DividesBy(d: int, a: int, k: int)
    requires a == k * d
    ensures Divides(d, a)
  {}

  lemma DividesLinear(d: int, a: int, b: int, s: int, t: int)
    requires Divides(d, a) && Divides(d, b)
    ensures Divides(d, s * a + t * b)
  {
    var k: int :| a == k * d;
    var l: int :| b == l * d;
    assert s * (k * d) == (s * k) * d;
    assert t * (l * d) == (t * l) * d;
    assert (s * k) * d + (t * l) * d == (s * k + t * l) * d;
    DividesBy(d, s * a + t * b, s * k + t * l);
  }

  lemma DividesCong(a: int, m: int)
    ensures Divides(m, a) <==> Cong(a, 0, m)
  {
    if Divides(m, a) { var k: int :| a == k * m; CongBy(a, 0, m, k); }
    if Cong(a, 0, m) { var k: int :| a == 0 + k * m; DividesBy(m, a, k); }
  }

  /** No common divisor above one. */
  ghost predicate Coprime(a: int, b: int) {
    forall d: int :: d >= 1 && Divides(d, a) && Divides(d, b) ==> d == 1
  }

  ghost predicate Prime(p: int) {
    p > 1 && forall d: int :: d >= 1 && Divides(d, p) ==> d == 1 || d == p
  }

  lemma PrimeCoprime(x: int, p: int)
    requires Prime(p) && !Cong(x, 0, p)
    ensures Coprime(x, p)
  {
    DividesCong(x, p);
  }

  /** Dividing twice is dividing by the product. */
  lemma DivDiv(a: int, b: int, c: int)
    requires b > 0 && c > 0
    ensures b * c > 0 && a / (b * c) == (a / b) / c
  {
    MulPositive(b, c);
    var q, r := a / b, a % b;
    var q2, r2 := q / c, q % c;
    assert a == q * b + r && q == q2 * c + r2;
    MulLe(r2, c - 1, b);
    MulLe(0, r2, b);
    DivDivInts(q2, c, r2, b, r);
    ModUnique(a, q2, r2 * b + r, b * c);
  }

  lemma DivDivInts(q2: int, c: int, r2: int, b: int, r: int)
    ensures (q2 * c + r2) * b + r == q2 * (b * c) + (r2 * b + r)
    ensures (c - 1) * b == b * c - b
  {}

  lemma CoprimeSym(a: int, b: int)
    requires Coprime(a, b)
    ensures Coprime(b, a)
  {}

  lemma TwoTo8()
    ensures Pow(2, 4) == 16 && Pow(2, 8) == 256
  {
    assert Pow(2, 4) == 16;
    PowAdd(2, 4, 4);
  }
}
