/** Modular inversion of libs/crypto/bignum.c: division by powers of two modulo
    an odd p, and the almost-Montgomery inverse with a fixed number of rounds. */
module Inverse {
  import opened Arith
  import opened Limbs
  import opened Bignum

  // ------------------------------------------------ inverse modulo 2^n

  lemma CongFactor(a: int, b: int, u: int, w: int)
    requires Cong(a, b, u * w)
    ensures Cong(a, b, w)
  {
    var k: int :| a == b + k * (u * w);
    assert k * (u * w) == (k * u) * w;
    CongBy(a, b, w, k * u);
  }

  lemma CongWeaken(a: int, b: int, m: nat, n: nat)
    requires n <= m && Cong(a, b, Pow(2, m))
    ensures Cong(a, b, Pow(2, n))
  {
    hide Pow;
    PowAdd(2, m - n, n);
    CongFactor(a, b, Pow(2, m - n), Pow(2, n));
  }

  lemma Wrap32Cong(x: int, n: nat)
    requires n <= 32
    ensures Cong(Wrap32(x), x, Pow(2, n))
  {
    TwoTo29();
    TwoTo32();
    CongModSelf(x, 0x1_0000_0000);
    CongWeaken(Wrap32(x), x, 32, n);
  }

  /** `(uint32_t) x & ((1 << n) - 1)`. */
  function Low(x: int, n: nat): uint32
    requires n <= 32
  {
    PowPositive(2, n);
    TwoTo29();
    TwoTo32();
    PowMonotoneExp(2, n, 32);
    Wrap32(x) % Pow(2, n)
  }

  lemma LowCong(x: int, n: nat)
    requires n <= 32
    ensures Cong(Low(x, n), x, Pow(2, n)) && Low(x, n) < Pow(2, n)
  {
    PowPositive(2, n);
    Wrap32Cong(x, n);
    CongModSelf(Wrap32(x), Pow(2, n));
    CongTrans(Low(x, n), Wrap32(x), x, Pow(2, n));
  }

  /** a * acc = 1 - f^2 modulo w survives f := f^2, acc := acc * (1 + f^2). */
  lemma NewtonStep(a: int, acc: int, f: int, acc': int, f': int, w: int)
    requires Cong(a * acc, 1 - f * f, w) && Cong(f', f * f, w) && Cong(acc', acc * (1 + f'), w)
    ensures Cong(a * acc', 1 - f' * f', w)
  {
    hide Cong;
    CongRefl(a, w);
    CongRefl(1, w);
    CongRefl(1 + f', w);
    CongMul(a, a, acc', acc * (1 + f'), w);
    assert a * (acc * (1 + f')) == (a * acc) * (1 + f');
    CongSym(f', f * f, w);
    CongSub(1, 1, f * f, f', w);
    CongTrans(a * acc, 1 - f * f, 1 - f', w);
    CongMul(a * acc, 1 - f', 1 + f', 1 + f', w);
    assert (1 - f') * (1 + f') == 1 - f' * f';
    CongTrans(a * acc', (a * acc) * (1 + f'), 1 - f' * f', w);
  }

  /** Squaring doubles the number of factors of two, up to the modulus. */
  lemma SquareDivides(f: int, f': int, i: nat, n: nat, m: nat)
    requires Divides(Pow(2, i), f) && Cong(f', f * f, Pow(2, n)) && m <= 2 * i && m <= n
    ensures Divides(Pow(2, m), f')
  {
    hide Pow;
    var k: int :| f == k * Pow(2, i);
    var l: int :| f' == f * f + l * Pow(2, n);
    PowAdd(2, i, i);
    PowAdd(2, 2 * i - m, m);
    PowAdd(2, n - m, m);
    var w := Pow(2, m);
    var b, c := Pow(2, 2 * i - m), Pow(2, n - m);
    assert Pow(2, i) * Pow(2, i) == b * w;
    SquareInts(k, Pow(2, i), b, w, l, c);
    DividesBy(w, f', k * k * b + l * c);
  }

  lemma SquareInts(k: int, h: int, b: int, w: int, l: int, c: int)
    requires h * h == b * w
    ensures (k * h) * (k * h) + l * (c * w) == (k * k * b + l * c) * w
  {
    assert (k * h) * (k * h) == (k * k) * (h * h);
    assert (k * k) * (b * w) == (k * k * b) * w;
  }

  /** 1 / a modulo 2^n for an odd a.  It is reduced unless n is 1, when the loop that
      masks does not run. */
  method InverseModPowerTwo(a: uint32, n: nat) returns (acc: uint32)
    requires a % 2 == 1 && 1 <= n <= 32
    ensures Cong(a * (acc as int), 1, Pow(2, n))
    ensures acc < Pow(2, n) <==> n > 1 || a == 1
    ensures n == 1 ==> acc == Wrap32(2 - a)
  {
    hide Cong, Pow, Low, Divides, Wrap32;
    acc := Wrap32(2 - (a as int));
    var f: uint32 := a - 1;
    NewtonStart(a, acc, n);
    var i := 1;
    while i < n
      invariant 1 <= i <= 64 && (n == 1 ==> i == 1) && (i > 1 ==> acc < Pow(2, n)) && (i == 1 ==> acc == Wrap32(2 - a))
      invariant Cong(a * (acc as int), 1 - f * (f as int), Pow(2, n))
      invariant Divides(Pow(2, if i < n then i else n), f)
      decreases 64 - i
    {
      LowCong(f * (f as int), n);
      var f': uint32 := Low(f * (f as int), n);
      LowCong(acc * (1 + (f' as int)), n);
      var acc': uint32 := Low(acc * (1 + (f' as int)), n);
      NewtonStep(a, acc, f, acc', f', Pow(2, n));
      SquareDivides(f, f', i, n, if 2 * i < n then 2 * i else n);
      f, acc, i := f', acc', 2 * i;
    }
    NewtonEnd(a, acc, f, n);
    if n == 1 { UnmaskedRange(a); }
  }

  lemma UnmaskedRange(a: uint32)
    requires a % 2 == 1
    ensures Wrap32(2 - a) < Pow(2, 1) <==> a == 1
  {
    assert Pow(2, 1) == 2;
  }

  lemma NewtonStart(a: int, acc: int, n: nat)
    requires a % 2 == 1 && 1 <= n <= 32 && acc == Wrap32(2 - a)
    ensures Cong(a * acc, 1 - (a - 1) * (a - 1), Pow(2, n)) && Divides(Pow(2, 1), a - 1)
  {
    hide Cong, Wrap32;
    Wrap32Cong(2 - a, n);
    CongRefl(a, Pow(2, n));
    CongMul(a, a, acc, 2 - a, Pow(2, n));
    NewtonInts(a);
    assert Pow(2, 1) == 2;
    DividesBy(2, a - 1, a / 2);
  }

  lemma NewtonInts(a: int)
    ensures a * (2 - a) == 1 - (a - 1) * (a - 1)
  {}

  lemma NewtonEnd(a: int, acc: int, f: int, n: nat)
    requires Cong(a * acc, 1 - f * f, Pow(2, n)) && Divides(Pow(2, n), f)
    ensures Cong(a * acc, 1, Pow(2, n))
  {
    var k: int :| f == k * Pow(2, n);
    assert 1 - f * f == 1 + (-(f * k)) * Pow(2, n) by { assert f * (k * Pow(2, n)) == (f * k) * Pow(2, n); }
    CongBy(1 - f * f, 1, Pow(2, n), -(f * k));
    CongTrans(a * acc, 1 - f * f, 1, Pow(2, n));
  }

  // ---------------------------------------------------- dividing by 2^29

  lemma DivideStep(out: seq<int>, i: nat, acc: int, m: int, xs: seq<int>, ps: seq<int>)
    requires |out| == |xs| == |ps| == 9 && 1 <= i < 9
    requires BASE * (Lo(out, i - 1) + acc * PowB(i - 1)) == Lo(xs, i) + m * Lo(ps, i)
    ensures var t := acc + xs[i] + m * ps[i];
            BASE * (Lo(out[i - 1 := Mask(t)], i) + Shift(t) * PowB(i)) == Lo(xs, i + 1) + m * Lo(ps, i + 1)
  {
    var x, y := xs[i], m * ps[i];
    Carry(out, i - 1, acc + x + y);
    DivideSpread(Lo(out, i - 1), acc, x, y, PowB(i - 1));
    LinTerm(m, Lo(ps, i), ps[i], PowB(i));
  }

  lemma DivideSpread(lo: int, acc: int, x: int, y: int, w: int)
    ensures BASE * (lo + (acc + x + y) * w) == BASE * (lo + acc * w) + x * (BASE * w) + y * (BASE * w)
  {}

  /** m = -x / p modulo 2^29 makes x + m p divisible by 2^29. */
  lemma DivideStart(x0: int, p0: int, inv: int, m: int)
    requires Cong(p0 * inv, 1, BASE) && Cong(m, x0 * (BASE - inv), BASE)
    ensures Mask(x0 + m * p0) == 0
  {
    hide Cong;
    CongRefl(p0, BASE);
    CongRefl(x0, BASE);
    CongMul(m, x0 * (BASE - inv), p0, p0, BASE);
    CongMul(x0, x0, p0 * inv, 1, BASE);
    CongBy(x0 * (BASE - inv) * p0, -(x0 * (p0 * inv)), BASE, x0 * p0);
    CongTrans(m * p0, x0 * (BASE - inv) * p0, -(x0 * (p0 * inv)), BASE);
    CongRefl(0, BASE);
    CongSub(0, 0, x0 * (p0 * inv), x0 * 1, BASE);
    CongTrans(m * p0, -(x0 * (p0 * inv)), -x0, BASE);
    CongAdd(x0, x0, m * p0, -x0, BASE);
    CongMod(x0 + m * p0, 0, BASE);
  }

  /** m = -x / p modulo 2^29, from the lowest limbs. */
  method DivideFactor(x0: uint32, p0: uint32) returns (m: uint32)
    requires x0 < BASE && p0 < BASE && p0 % 2 == 1
    ensures m < BASE && Mask(x0 + m * (p0 as int)) == 0
  {
    hide Cong, Low, Pow, Mask;
    TwoTo29();
    TwoTo32();
    var inv := InverseModPowerTwo(p0, 29);
    var q: uint32 := BASE - inv;
    LowCong(x0 * (q as int), 29);
    m := Low(x0 * (q as int), 29);
    DivideStart(x0, p0, inv, m);
  }

  /** x = x / 2^29 modulo p. */
  method DivideBase(x: Num, prime: Num)
    requires Norm(x.val) && Norm(prime.val) && x != prime && Val(prime.val) % 2 == 1
    modifies x
    ensures Norm(x.val)
    ensures Cong(BASE * Val(x.val), old(Val(x.val)), Val(prime.val))
    ensures old(Val(x.val)) < Val(prime.val) ==> Val(x.val) < Val(prime.val)
    ensures old(Val(x.val)) < 2 * Val(prime.val) ==> Val(x.val) < 2 * Val(prime.val)
  {
    hide Lo, PowB, Val, Mask, Shift, Cong;
    ghost var xs, ps := x.val, prime.val;
    ValSum(ps);
    var factor := DivideFactor(x.val[0], prime.val[0]);
    var m: uint64 := factor;
    ProductRange(m, ps[0]);
    var acc: uint64 := x.val[0] + m * (prime.val[0] as uint64);
    DivideInit(xs, ps, m, acc);
    acc := Shift(acc);
    var i := 1;
    while i < 9
      invariant 1 <= i <= 9 && acc < 0x8_0000_0000 && prime.val == ps
      invariant NormTo(x.val, i - 1) && forall j :: i <= j < 9 ==> x.val[j] == xs[j]
      invariant BASE * (Lo(x.val, i - 1) + acc * PowB(i - 1)) == Lo(xs, i) + m * Lo(ps, i)
    {
      DivideStep(x.val, i, acc, m, xs, ps);
      ProductRange(m, ps[i]);
      acc := acc + x.val[i] + m * (prime.val[i] as uint64);
      x.val := x.val[i - 1 := Mask(acc)];
      acc := Shift(acc);
      i := i + 1;
    }
    DivideEnd(x.val, xs, ps, m, acc);
    x.val := x.val[8 := acc];
  }

  lemma ProductRange(m: int, p: int)
    requires 0 <= m < BASE && 0 <= p < BASE
    ensures 0 <= m * p < 0x400_0000_0000_0000
  {
    MulLe(m, BASE, p);
    MulLe(0, m, p);
  }

  lemma DivideInit(xs: seq<int>, ps: seq<int>, m: int, acc: int)
    requires |xs| == |ps| == 9 && acc == xs[0] + m * ps[0] && Mask(acc) == 0
    ensures BASE * (Lo(xs, 0) + Shift(acc) * PowB(0)) == Lo(xs, 1) + m * Lo(ps, 1)
  {
    LoDef(xs, 0);
    LoDef(ps, 0);
    assert acc == Shift(acc) * BASE + Mask(acc);
  }

  lemma DivideEnd(out: seq<int>, xs: seq<int>, ps: seq<int>, m: int, acc: int)
    requires |out| == 9 && NormTo(out, 8) && Norm(xs) && Norm(ps) && 0 <= m < BASE && acc >= 0
    requires BASE * (Lo(out, 8) + acc * PowB(8)) == Lo(xs, 9) + m * Lo(ps, 9)
    ensures var s := out[8 := acc];
            && acc < BASE && Norm(s) && Cong(BASE * Val(s), Val(xs), Val(ps))
            && (Val(xs) < Val(ps) ==> Val(s) < Val(ps))
            && (Val(xs) < 2 * Val(ps) ==> Val(s) < 2 * Val(ps))
  {
    hide PowB, Lo;
    var s := out[8 := acc];
    LoAgree(out, s, 8);
    LoDef(s, 8);
    var p := Val(ps);
    CongBy(BASE * Val(s), Val(xs), p, m);
    ValBound(xs);
    ValBound(ps);
    MulLe(m, BASE - 1, p);
    MulLe(0, m, p);
    PowB9();
    LoBound(out, 8);
  }

  // ------------------------------------------- almost-Montgomery inverse

  /** The four numbers the inversion works on. */
  datatype Quad = Quad(u: int, v: int, r: int, s: int)

  /** One round of the algorithm while v has not reached one. */
  function Round(q: Quad): Quad {
    if q.u % 2 == 0 then Quad(q.u / 2, q.v, q.r, 2 * q.s)
    else if q.v % 2 == 0 then Quad(q.u, q.v / 2, 2 * q.r, q.s)
    else if q.v < q.u then Quad((q.u - q.v) / 2, q.v, q.r + q.s, 2 * q.s)
    else Quad(q.u, (q.v - q.u) / 2, 2 * q.r, q.r + q.s)
  }

  /** What every round keeps, for the inverse of x modulo p after k rounds. */
  ghost predicate Live(q: Quad, k: nat, x: int, p: int) {
    && q.u >= 1 && q.v >= 1 && q.r >= 0 && q.s >= 1
    && q.u * q.s + q.v * q.r == p
    && (q.r >= 1 || (q.s == 1 && q.u == p && q.v < p && p % 2 == 1))
    && (q.u % 2 == 1 || q.v % 2 == 1)
    && Cong(x * q.s, q.v * Pow(2, k), p)
    && Cong(x * q.r, -(q.u * Pow(2, k)), p)
    && Coprime(q.u, q.v)
    && q.u * q.v * Pow(2, k) <= p * x
  }

  lemma LiveStart(x: int, p: int)
    requires 0 < x < p && p % 2 == 1 && Coprime(x, p)
    ensures Live(Quad(p, x, 0, 1), 0, x, p)
  {
    assert Pow(2, 0) == 1;
    CongRefl(x, p);
    CongBy(0, -p, p, 1);
    CoprimeSym(x, p);
    assert p * x * 1 == p * x;
  }

  /** Halving u, or the difference u - v, adds no common divisor with v. */
  lemma HalveCoprime(u: int, v: int, h: int)
    requires Coprime(u, v) && (2 * h == u || 2 * h == u - v)
    ensures Coprime(h, v)
  {
    forall d: int | d >= 1 && Divides(d, h) && Divides(d, v) ensures d == 1 {
      DividesLinear(d, h, v, 2, if 2 * h == u then 0 else 1);
      assert Divides(d, u) && Divides(d, v);
    }
  }

  lemma RoundCoprime(q: Quad)
    requires Coprime(q.u, q.v)
    ensures Coprime(Round(q).u, Round(q).v)
  {
    hide Coprime;
    var n := Round(q);
    if n.v == q.v && (q.u % 2 == 0 || q.v % 2 == 1) && (q.u % 2 == 0 || q.v < q.u) {
      HalveCoprime(q.u, q.v, n.u);
    } else {
      CoprimeSym(q.u, q.v);
      HalveCoprime(q.v, q.u, n.v);
      CoprimeSym(n.v, n.u);
    }
  }

  /** Both numbers stay positive: they could only meet at one. */
  lemma RoundPositive(q: Quad)
    requires q.u >= 1 && q.v >= 1 && q.v != 1 && Coprime(q.u, q.v)
    ensures Round(q).u >= 1 && Round(q).v >= 1
  {
    DividesBy(q.u, q.u, 1);
  }

  lemma RoundSum(q: Quad)
    ensures Round(q).u * Round(q).s + Round(q).v * Round(q).r == q.u * q.s + q.v * q.r
  {
    if q.u % 2 == 0 {
      HalfDouble(q.u, q.s);
    } else if q.v % 2 == 0 {
      HalfDouble(q.v, q.r);
    } else if q.v < q.u {
      HalfDouble(q.u - q.v, q.s);
      SumParts(q.u, q.v, q.s, q.r);
    } else {
      HalfDouble(q.v - q.u, q.r);
      SumParts(q.v, q.u, q.r, q.s);
    }
  }

  lemma HalfDouble(a: int, b: int)
    requires a % 2 == 0
    ensures (a / 2) * (2 * b) == a * b
  {}

  lemma SumParts(u: int, v: int, s: int, r: int)
    ensures (u - v) * s + v * (r + s) == u * s + v * r
  {}

  lemma RoundProduct(q: Quad)
    requires q.u >= 1 && q.v >= 1 && (q.u % 2 == 1 || q.v % 2 == 1)
    ensures 2 * (Round(q).u * Round(q).v) <= q.u * q.v
  {
    var n := Round(q);
    if q.u % 2 == 0 || (q.v % 2 == 1 && q.v < q.u) {
      HalfProduct(n.u, q.u, q.v);
    } else {
      HalfProduct(n.v, q.v, q.u);
    }
  }

  lemma HalfProduct(h: int, a: int, b: int)
    requires 2 * h <= a && b >= 0
    ensures 2 * (h * b) <= a * b && 2 * (b * h) <= b * a
  {
    MulLe(2 * h, a, b);
  }

  /** Halving on the u side: s doubles, and r follows u. */
  lemma HalveUCong(x: int, s: int, r: int, u: int, v: int, w: int, p: int, h: int, r': int)
    requires Cong(x * s, v * w, p) && Cong(x * r, -(u * w), p)
    requires (2 * h == u && r' == r) || (2 * h == u - v && r' == r + s)
    ensures Cong(x * (2 * s), v * (2 * w), p) && Cong(x * r', -(h * (2 * w)), p)
  {
    hide Cong;
    CongAdd(x * s, v * w, x * s, v * w, p);
    CongAdd(x * r, -(u * w), x * s, v * w, p);
    assert x * (2 * s) == x * s + x * s && v * (2 * w) == v * w + v * w;
    assert h * (2 * w) == (2 * h) * w;
    DiffTerm(u, v, w);
    assert x * (r + s) == x * r + x * s;
  }

  /** Halving on the v side: r doubles, and s follows v. */
  lemma HalveVCong(x: int, s: int, r: int, u: int, v: int, w: int, p: int, h: int, s': int)
    requires Cong(x * s, v * w, p) && Cong(x * r, -(u * w), p)
    requires (2 * h == v && s' == s) || (2 * h == v - u && s' == r + s)
    ensures Cong(x * (2 * r), -(u * (2 * w)), p) && Cong(x * s', h * (2 * w), p)
  {
    hide Cong;
    CongAdd(x * r, -(u * w), x * r, -(u * w), p);
    CongAdd(x * r, -(u * w), x * s, v * w, p);
    assert x * (2 * r) == x * r + x * r && u * (2 * w) == u * w + u * w;
    assert h * (2 * w) == (2 * h) * w;
    DiffTerm(v, u, w);
    assert x * (r + s) == x * r + x * s;
  }

  lemma DiffTerm(a: int, b: int, w: int)
    ensures (a - b) * w == a * w - b * w
  {}

  /** x * s = v * 2^k and x * r = -u * 2^k, with w = 2^k and 2^(k+1) = 2 w. */
  lemma RoundCong(q: Quad, x: int, w: int, p: int)
    requires Cong(x * q.s, q.v * w, p) && Cong(x * q.r, -(q.u * w), p)
    ensures Cong(x * Round(q).s, Round(q).v * (2 * w), p)
    ensures Cong(x * Round(q).r, -(Round(q).u * (2 * w)), p)
  {
    hide Cong;
    var n := Round(q);
    if q.u % 2 == 0 || (q.v % 2 == 1 && q.v < q.u) {
      HalveUCong(x, q.s, q.r, q.u, q.v, w, p, n.u, n.r);
    } else {
      HalveVCong(x, q.s, q.r, q.u, q.v, w, p, n.v, n.s);
    }
  }

  /** Every live round keeps the invariant. */
  lemma LiveRound(q: Quad, k: nat, x: int, p: int)
    requires Live(q, k, x, p) && q.v != 1
    ensures Live(Round(q), k + 1, x, p)
  {
    hide Cong, Coprime, Pow;
    RoundPositive(q);
    RoundCoprime(q);
    RoundSum(q);
    RoundProduct(q);
    RoundParts(q, p);
    RoundCong(q, x, Pow(2, k), p);
    PowPositive(2, k);
    PowStep(k);
    RoundBound(Round(q).u * Round(q).v, q.u * q.v, Pow(2, k), p * x);
  }

  lemma PowStep(k: nat)
    ensures Pow(2, k + 1) == 2 * Pow(2, k)
  {}

  lemma RoundParts(q: Quad, p: int)
    requires q.u >= 1 && q.v >= 1 && q.r >= 0 && q.s >= 1
    requires (q.r >= 1 || (q.s == 1 && q.u == p && p % 2 == 1 && q.v < q.u)) && (q.u % 2 == 1 || q.v % 2 == 1)
    ensures var n := Round(q);
            && n.r >= 0 && n.s >= 1 && (n.r >= 1 || (n.s == 1 && n.u == p && n.v < p && p % 2 == 1))
            && (n.u % 2 == 1 || n.v % 2 == 1)
  {}

  lemma RoundBound(a: int, b: int, w: int, m: int)
    requires 2 * a <= b && b * w <= m && w >= 0
    ensures a * (2 * w) <= m
  {
    MulLe(2 * a, b, w);
  }

  // ------------------------------------------------------- the method

  /** Once v has reached one: s is the inverse of x times 2^k. */
  ghost predicate Frozen(s: int, k: nat, x: int, p: int) {
    0 < s < p && k <= 512 && Cong(x * s, Pow(2, k), p)
  }

  lemma Pow256()
    ensures Pow(2, 256) == P256
  {
    TwoTo29();
    TwoTo32();
    PowAdd(2, 32, 32);
    PowAdd(2, 64, 64);
    PowAdd(2, 128, 128);
  }

  /** The product u v 2^k never exceeds p x, so fewer than 512 rounds are live. */
  lemma LiveBound(q: Quad, k: nat, x: int, p: int)
    requires Live(q, k, x, p) && 0 < x < p <= P256
    ensures k < 512
  {
    hide Cong, Coprime, Pow;
    Pow256();
    PowAdd(2, 256, 256);
    MulPositive(q.u, q.v);
    PowPositive(2, k);
    MulLe(1, q.u * q.v, Pow(2, k));
    MulLe(x, P256 - 1, p);
    MulLe(p, P256, P256 - 1);
    if k >= 512 { PowMonotoneExp(2, 512, k); }
  }

  lemma LiveSmall(q: Quad, k: nat, x: int, p: int)
    requires Live(q, k, x, p)
    ensures q.s <= p && q.r <= p && q.u <= p && q.u >= 1 && q.v >= 1
  {
    hide Cong, Coprime, Pow;
    MulLe(1, q.u, q.s);
    MulLe(1, q.s, q.u);
    MulLe(1, q.v, q.r);
    MulLe(0, q.r, q.v);
  }

  lemma LiveEnds(q: Quad, k: nat, x: int, p: int)
    requires Live(q, k, x, p) && q.v == 1 && 0 < x < p <= P256
    ensures Frozen(q.s, k, x, p)
  {
    hide Cong, Coprime, Pow;
    LiveBound(q, k, x, p);
    MulLe(1, q.u, q.s);
  }

  ghost function QuadOf(u: Num, v: Num, r: Num, s: Num): Quad
    reads u, v, r, s
  {
    Quad(Val(u.val), Val(v.val), Val(r.val), Val(s.val))
  }

  /** One pass of the fixed-length loop.  The branch conditions choose which
      numbers the four operations work on; once finished they only scramble
      v and r. */
  method Pass(u: Num, v: Num, r: Num, s: Num, zero: Num, finished0: bool) returns (finished: bool)
    requires u != v && u != r && u != s && u != zero && v != r && v != s && v != zero
    requires r != s && r != zero && s != zero
    requires Norm(u.val) && Norm(v.val) && Norm(r.val) && Norm(s.val) && Norm(zero.val)
    requires Val(zero.val) == 0
    requires !finished0 ==> Val(r.val) <= P256 && Val(s.val) <= P256
    modifies u, v, r, s
    ensures Norm(u.val) && Norm(v.val) && Norm(r.val) && Norm(s.val)
    ensures finished == (finished0 || old(Val(v.val)) == 1)
    ensures finished ==> Val(s.val) == old(Val(s.val))
    ensures !finished ==> QuadOf(u, v, r, s) == Round(old(QuadOf(u, v, r, s)))
  {
    hide Val, Norm;
    ValBound(u.val);
    ValBound(v.val);
    ValBound(r.val);
    ValBound(s.val);
    var vOne := IsOne(v);
    finished := finished0 || vOne;
    var uEven := IsEven(u);
    var vEven := IsEven(v);
    var vLess := IsLess(v, u);
    var b1 := !finished && uEven;
    var b2 := !finished && !b1 && vEven;
    var b3 := !finished && !b1 && !b2 && vLess;
    var b4 := !finished && !b1 && !b2 && !b3;
    Subtract(if b3 then u else v, if b3 || b4 then (if b3 then v else u) else zero, if b3 then u else v);
    Add(if b3 then r else s, if b3 || b4 then (if b3 then s else r) else zero);
    Rshift(if b1 || b3 then u else v);
    Lshift(if b1 || b3 then s else r);
  }

  lemma DivideMore(n: int, s: int, e: nat, d: nat, s0: int, p: int)
    requires Cong(Pow(2, d) * n, s, p) && Cong(s * Pow(2, e), s0, p)
    ensures Cong(n * Pow(2, e + d), s0, p)
  {
    hide Cong, Pow;
    PowAdd(2, d, e);
    var a, b := Pow(2, d), Pow(2, e);
    CongRefl(b, p);
    CongMul(a * n, s, b, b, p);
    assert n * (a * b) == (a * n) * b;
    CongTrans(n * Pow(2, e + d), s * b, s0, p);
  }

  /** Modulo an odd number, factors of two cancel. */
  lemma {:induction false} CancelPow2(a: int, b: int, k: nat, p: int)
    requires p % 2 == 1 && Cong(a * Pow(2, k), b * Pow(2, k), p)
    ensures Cong(a, b, p)
    decreases k
  {
    if k > 0 {
      PowStep(k - 1);
      var w := Pow(2, k - 1);
      assert a * (2 * w) == 2 * (a * w) && b * (2 * w) == 2 * (b * w);
      CancelTwo(a * w, b * w, p);
      CancelPow2(a, b, k - 1, p);
    }
  }

  lemma InverseEnd(x: int, s: int, s0: int, k: nat, p: int)
    requires p % 2 == 1 && Cong(x * s0, Pow(2, k), p) && Cong(s * Pow(2, k), s0, p)
    ensures Cong(x * s, 1, p)
  {
    hide Cong, Pow;
    var w := Pow(2, k);
    CongRefl(x, p);
    CongMul(x, x, s * w, s0, p);
    assert x * (s * w) == (x * s) * w;
    CongTrans((x * s) * w, x * s0, 1 * w, p);
    CancelPow2(x * s, 1, k, p);
  }

  /** The loop invariant: live, frozen, or inverting zero. */
  ghost predicate LoopInv(q: Quad, i: nat, k: nat, finished: bool, x: int, p: int) {
    if x == 0 then !finished && k == i && q == Quad(p, 0, 0, 1)
    else if finished then Frozen(q.s, k, x, p)
    else k == i && Live(q, i, x, p)
  }

  lemma LoopStep(q: Quad, q': Quad, i: nat, k: nat, before: bool, after: bool, x: int, p: int)
    requires LoopInv(q, i, k, before, x, p) && 0 <= x < p <= P256 && p % 2 == 1
    requires after == (before || q.v == 1)
    requires after ==> q'.s == q.s
    requires !after ==> q' == Round(q)
    ensures LoopInv(q', i + 1, if after then k else k + 1, after, x, p)
  {
    hide Cong, Coprime, Pow, Live;
    if x != 0 && !before {
      if q.v == 1 { LiveEnds(q, i, x, p); } else { LiveRound(q, i, x, p); }
    }
  }

  lemma LoopSmall(q: Quad, i: nat, k: nat, x: int, p: int)
    requires LoopInv(q, i, k, false, x, p) && 0 <= x < p <= P256
    ensures q.r <= P256 && q.s <= P256
  {
    if x != 0 { LiveSmall(q, i, x, p); }
  }

  /** After 522 passes the loop is done, unless zero is being inverted. */
  lemma LoopEnd(q: Quad, k: nat, finished: bool, x: int, p: int)
    requires LoopInv(q, 522, k, finished, x, p) && 0 <= x < p <= P256 && p > 1
    ensures 0 < q.s < p && k <= 522 && (x != 0 ==> Cong(x * q.s, Pow(2, k), p))
  {
    hide Cong, Coprime, Pow;
    if x != 0 && !finished { LiveBound(q, 522, x, p); }
  }

  /** Runs the 522 passes: s becomes x^-1 2^k, for the k it returns. */
  method AlmostInverse(x: Num, s: Num, prime: Num) returns (k: nat)
    requires Norm(x.val) && Modulus(prime.val) && x != prime && s != x && s != prime
    requires Val(prime.val) % 2 == 1 && 0 <= Val(x.val) < Val(prime.val)
    requires Val(x.val) == 0 || Coprime(Val(x.val), Val(prime.val))
    modifies s
    ensures Norm(s.val) && 0 < Val(s.val) < Val(prime.val) && k <= 522
    ensures Val(x.val) != 0 ==> Cong(Val(x.val) * Val(s.val), Pow(2, k), Val(prime.val))
  {
    hide Val, Norm, Coprime, Cong, Pow, Live;
    ghost var xv, p := Val(x.val), Val(prime.val);
    var u := new Num();
    var v := new Num();
    var r := new Num();
    var zero := new Num();
    u.val := prime.val;
    v.val := x.val;
    SetOne(s);
    k := 0;
    var finished := false;
    if xv != 0 { LiveStart(xv, p); }
    var i := 0;
    while i < 522
      invariant 0 <= i <= 522
      invariant Norm(u.val) && Norm(v.val) && Norm(r.val) && Norm(s.val) && Norm(zero.val)
      invariant Val(zero.val) == 0 && prime.val == old(prime.val) && x.val == old(x.val)
      invariant LoopInv(QuadOf(u, v, r, s), i, k, finished, xv, p)
    {
      ghost var q, before := QuadOf(u, v, r, s), finished;
      if !finished { LoopSmall(q, i, k, xv, p); }
      finished := Pass(u, v, r, s, zero, finished);
      LoopStep(q, QuadOf(u, v, r, s), i, k, before, finished, xv, p);
      if !finished { k := k + 1; }
      i := i + 1;
    }
    LoopEnd(QuadOf(u, v, r, s), k, finished, xv, p);
  }

  /** s = s / 2^k modulo p, in steps of 29 bits and then of one. */
  method DividePow2(s: Num, prime: Num, k: nat)
    requires Norm(s.val) && Modulus(prime.val) && s != prime && Val(prime.val) % 2 == 1
    requires 0 <= Val(s.val) < Val(prime.val) && k <= 522
    modifies s
    ensures Norm(s.val) && 0 <= Val(s.val) < Val(prime.val)
    ensures Cong(Val(s.val) * Pow(2, k), old(Val(s.val)), Val(prime.val))
  {
    hide Val, Norm, Cong, Pow;
    ghost var s0, p := Val(s.val), Val(prime.val);
    var r := new Num();
    DivideNone(s0, p);
    TwoTo29();
    TwoTo32();
    var i := 0;
    while i < 18
      invariant 0 <= i <= 18 && Norm(s.val) && Val(s.val) < p && prime.val == old(prime.val)
      invariant Cong(Val(s.val) * Pow(2, 29 * (if i < k / 29 then i else k / 29)), s0, p)
    {
      r.val := s.val;
      DivideBase(r, prime);
      if i < k / 29 { DivideMore(Val(r.val), Val(s.val), 29 * i, 29, s0, p); }
      Cmov(s, i < k / 29, r, s);
      i := i + 1;
    }
    i := 0;
    while i < 29
      invariant 0 <= i <= 29 && Norm(s.val) && Val(s.val) < p && prime.val == old(prime.val)
      invariant Cong(Val(s.val) * Pow(2, 29 * (k / 29) + (if i < k % 29 then i else k % 29)), s0, p)
    {
      r.val := s.val;
      MultHalf(r, prime);
      HalfCong(Val(r.val), Val(s.val), p);
      if i < k % 29 { DivideMore(Val(r.val), Val(s.val), 29 * (k / 29) + i, 1, s0, p); }
      Cmov(s, i < k % 29, r, s);
      i := i + 1;
    }
    ValBound(s.val);
  }

  lemma DivideNone(s: int, p: int)
    ensures Cong(s * Pow(2, 0), s, p)
  {
    CongRefl(s, p);
  }

  lemma HalfCong(n: int, s: int, p: int)
    requires 2 * n == s || 2 * n == s + p
    ensures Cong(Pow(2, 1) * n, s, p)
  {
    assert Pow(2, 1) == 2;
    CongBy(2 * n, s, p, if 2 * n == s then 0 else 1);
  }

  /** x = 1/x modulo p, and 0 for a multiple of p. */
  method InverseFast(x: Num, prime: Num)
    requires Norm(x.val) && Modulus(prime.val) && x != prime && Val(prime.val) % 2 == 1
    requires Cong(Val(x.val), 0, Val(prime.val)) || Coprime(Val(x.val), Val(prime.val))
    modifies x
    ensures Norm(x.val) && 0 <= Val(x.val) < Val(prime.val)
    ensures Cong(old(Val(x.val)), 0, Val(prime.val)) ==> Val(x.val) == 0
    ensures Coprime(old(Val(x.val)), Val(prime.val)) ==> Cong(old(Val(x.val)) * Val(x.val), 1, Val(prime.val))
  {
    hide Val, Norm, Coprime, Cong, Pow, FastReduced;
    ghost var x0, p := Val(x.val), Val(prime.val);
    FastMod(x, prime);
    ghost var x1 := Val(x.val);
    Mod(x, prime);
    ghost var xv := Val(x.val);
    ValBound(x.val);
    Reduced(x0, x1, xv, p);
    var s := new Num();
    var k := AlmostInverse(x, s, prime);
    ghost var s0 := Val(s.val);
    DividePow2(s, prime, k);
    if xv != 0 { InverseEnd(xv, Val(s.val), s0, k, p); }
    ReducedInverse(x0, xv, Val(s.val), p);
    var isZero := IsZero(x);
    Cmov(x, isZero, x, s);
  }

  lemma Reduced(x0: int, x1: int, x2: int, p: int)
    requires p > 1 && Cong(x1, x0, p) && x2 == (if x1 < p then x1 else x1 - p) && 0 <= x2 < p
    ensures Cong(x0, x2, p)
    ensures Cong(x0, 0, p) ==> x2 == 0
    ensures Coprime(x0, p) ==> Coprime(x2, p) && x2 != 0
  {
    CongBy(x2, x1, p, if x1 < p then 0 else -1);
    CongTrans(x2, x1, x0, p);
    CongSym(x2, x0, p);
    if Cong(x0, 0, p) { CongTrans(x2, x0, 0, p); CongSmallEqual(x2, 0, p); }
    if Coprime(x0, p) { CongCoprime(x0, x2, p); }
  }

  lemma CongCoprime(a: int, b: int, p: int)
    requires Cong(a, b, p) && Coprime(a, p) && p > 1
    ensures Coprime(b, p) && b != 0
  {
    var k: int :| a == b + k * p;
    forall d: int | d >= 1 && Divides(d, b) && Divides(d, p) ensures d == 1 {
      DividesLinear(d, b, p, 1, k);
    }
    DividesBy(p, p, 1);
    DividesBy(p, 0, 0);
  }

  lemma ReducedInverse(x0: int, x2: int, s: int, p: int)
    requires Cong(x0, x2, p)
    ensures Cong(x2 * s, 1, p) ==> Cong(x0 * s, 1, p)
  {
    CongRefl(s, p);
    CongMul(x0, x2, s, s, p);
    if Cong(x2 * s, 1, p) { CongTrans(x0 * s, x2 * s, 1, p); }
  }
}
