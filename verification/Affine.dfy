/** Short Weierstrass curves y^2 = x^3 + a x + b over the integers modulo p, in
    affine and Jacobian coordinates, with the chord-and-tangent law as the
    reference definition of addition. */
module Affine {
  import opened Arith

  /** A point of the curve; coordinates are residues in [0, p). */
  datatype Aff = Inf | Pt(x: int, y: int)

  ghost predicate InField(P: Aff, p: int) {
    P.Pt? ==> 0 <= P.x < p && 0 <= P.y < p
  }

  ghost predicate OnCurve(P: Aff, a: int, b: int, p: int) {
    P.Pt? ==> Cong(P.y * P.y, P.x * P.x * P.x + a * P.x + b, p)
  }

  /** lam is the slope of the line through P and Q (the tangent when P = Q). */
  ghost predicate Slope(P: Aff, Q: Aff, lam: int, a: int, p: int)
    requires P.Pt? && Q.Pt?
  {
    if P.x != Q.x then Cong(lam * (P.x - Q.x), P.y - Q.y, p)
    else Cong(lam * (2 * P.y), 3 * (P.x * P.x) + a, p)
  }

  /** The third point of the line with slope lam, mirrored. */
  ghost predicate ThirdPoint(P: Aff, Q: Aff, lam: int, R: Aff, p: int)
    requires P.Pt? && Q.Pt? && R.Pt?
  {
    Cong(R.x, lam * lam - P.x - Q.x, p) && Cong(R.y, lam * (P.x - R.x) - P.y, p)
  }

  ghost predicate Opposite(P: Aff, Q: Aff, p: int)
    requires P.Pt? && Q.Pt?
  {
    P.x == Q.x && Cong(P.y + Q.y, 0, p)
  }

  /** R = P + Q by the chord-and-tangent law. */
  ghost predicate IsSum(P: Aff, Q: Aff, R: Aff, a: int, p: int) {
    if P.Inf? then R == Q
    else if Q.Inf? then R == P
    else if Opposite(P, Q, p) then R == Inf
    else (P.x == Q.x ==> P.y == Q.y) && R.Pt? && exists lam: int :: Slope(P, Q, lam, a, p) && ThirdPoint(P, Q, lam, R, p)
  }

  // ---------------------------------------------------- field consequences

  /** A prime modulus has no zero divisors. */
  lemma NoZeroDivisors(a: int, b: int, p: int)
    requires Prime(p) && Cong(a * b, 0, p) && !Cong(a, 0, p)
    ensures Cong(b, 0, p)
  {
    hide Cong, Coprime;
    PrimeCoprime(a, p);
    var s, t := Bezout(a, p);
    assert b == b * (s * a + t * p);
    assert b * (s * a + t * p) == s * (a * b) + (b * t) * p;
    CongRefl(s, p);
    CongMul(s, s, a * b, 0, p);
    CongBy(b, s * (a * b), p, b * t);
    CongTrans(b, s * (a * b), s * 0, p);
  }

  /** Coprime numbers combine to one. */
  lemma Bezout(a: int, b: int) returns (s: int, t: int)
    requires Coprime(a, b) && b > 1
    ensures s * a + t * b == 1
  {
    hide Cong;
    var k := a / b;
    var r := a % b;
    assert a == k * b + r;
    CongBy(a, r, b, k);
    CoprimeResidue(a, r, b, k);
    var u, v := BezoutNat(r, b);
    s, t := u, v - u * k;
    assert u * (k * b + r) + (v - u * k) * b == u * r + v * b;
  }

  lemma CoprimeResidue(a: int, r: int, b: int, k: int)
    requires Coprime(a, b) && a == k * b + r
    ensures Coprime(r, b)
  {
    forall d: int | d >= 1 && Divides(d, r) && Divides(d, b) ensures d == 1 {
      DividesLinear(d, r, b, 1, k);
      assert 1 * r + k * b == a;
      assert Divides(d, a) && Divides(d, b);
    }
  }

  lemma BezoutNat(a: nat, b: nat) returns (s: int, t: int)
    requires Coprime(a, b) && b >= 1
    ensures s * a + t * b == 1
    decreases a
  {
    if a == 0 {
      DividesBy(b, 0, 0);
      DividesBy(b, b, 1);
      assert Divides(b, a) && Divides(b, b);
      s, t := 0, 1;
    } else {
      var k, r := b / a, b % a;
      assert b == k * a + r;
      CoprimeSym(a, b);
      CoprimeResidue(b, r, a, k);
      var u, v := BezoutNat(r, a);
      s, t := v - u * k, u;
      assert (v - u * k) * a + u * (k * a + r) == v * a + u * r;
    }
  }

  lemma NonZeroProduct(a: int, b: int, p: int)
    requires Prime(p) && !Cong(a, 0, p) && !Cong(b, 0, p)
    ensures !Cong(a * b, 0, p)
  {
    if Cong(a * b, 0, p) { NoZeroDivisors(a, b, p); }
  }

  /** Different residues differ by something that is not 0 modulo p. */
  lemma DifferentResidues(a: int, b: int, p: int)
    requires p > 0 && 0 <= a < p && 0 <= b < p && a != b
    ensures !Cong(a - b, 0, p)
  {
    if Cong(a - b, 0, p) {
      CongRefl(b, p);
      CongAdd(a - b, 0, b, b, p);
      CongSmallEqual(a, b, p);
    }
  }

  lemma CongMul3(a: int, a': int, b: int, b': int, c: int, c': int, m: int)
    requires Cong(a, a', m) && Cong(b, b', m) && Cong(c, c', m)
    ensures Cong(a * b * c, a' * b' * c', m)
  {
    hide Cong;
    CongMul(a, a', b, b', m);
    CongMul(a * b, a' * b', c, c', m);
  }

  // ----------------------------------------------------- Jacobian coordinates

  /** (X : Y : Z) stands for the point Q: x = X / Z^2, y = Y / Z^3. */
  ghost predicate Jac(X: int, Y: int, Z: int, Q: Aff, p: int) {
    if Q.Inf? then Cong(Z, 0, p)
    else !Cong(Z, 0, p) && Cong(X, Q.x * (Z * Z), p) && Cong(Y, Q.y * (Z * Z * Z), p)
  }

  /** X3 and Y3 follow from the slope: with r = lam W, W = h Z the new
      denominator, both formulas of the mixed addition come out right. */
  lemma SlopeForm(x: int, y: int, lam: int, h: int, Z: int, W: int, r: int, sx: int, sy: int,
                  X3: int, Y3: int, Rx: int, Ry: int, p: int)
    requires p % 2 == 1
    requires Cong(W, h * Z, p) && Cong(r, lam * W, p)
    requires Cong(sx, x * (Z * Z), p) && Cong(sy, y * (Z * Z * Z), p)
    requires Cong(X3, r * r - h * h * sx, p)
    requires Cong(2 * Y3, r * (h * h * sx - 2 * X3) - h * h * h * sy, p)
    requires Cong(Rx, lam * lam - x, p) && Cong(2 * Ry, lam * (x - 2 * Rx) - y, p)
    ensures Cong(X3, Rx * (W * W), p) && Cong(Y3, Ry * (W * W * W), p)
  {
    hide Cong;
    SquareForm(x, h, Z, W, sx, p);
    CubeForm(y, h, Z, W, sy, p);
    XForm(lam, x, W, r, h * h * sx, X3, Rx, p);
    YForm(lam, x, y, W, r, h * h * sx, h * h * h * sy, X3, Y3, Rx, Ry, p);
  }

  /** h^2 sx = x W^2. */
  lemma SquareForm(x: int, h: int, Z: int, W: int, sx: int, p: int)
    requires Cong(W, h * Z, p) && Cong(sx, x * (Z * Z), p)
    ensures Cong(h * h * sx, x * (W * W), p)
  {
    hide Cong;
    CongRefl(h * h, p);
    CongRefl(x, p);
    CongMul(h * h, h * h, sx, x * (Z * Z), p);
    CongMul(W, h * Z, W, h * Z, p);
    CongMul(x, x, W * W, (h * Z) * (h * Z), p);
    assert (h * h) * (x * (Z * Z)) == x * ((h * Z) * (h * Z));
    CongSym(x * (W * W), x * ((h * Z) * (h * Z)), p);
    CongTrans(h * h * sx, x * ((h * Z) * (h * Z)), x * (W * W), p);
  }

  /** h^3 sy = y W^3. */
  lemma CubeForm(y: int, h: int, Z: int, W: int, sy: int, p: int)
    requires Cong(W, h * Z, p) && Cong(sy, y * (Z * Z * Z), p)
    ensures Cong(h * h * h * sy, y * (W * W * W), p)
  {
    hide Cong;
    CongRefl(h * h * h, p);
    CongRefl(y, p);
    CongMul(h * h * h, h * h * h, sy, y * (Z * Z * Z), p);
    CongMul3(W, h * Z, W, h * Z, W, h * Z, p);
    CongMul(y, y, W * W * W, (h * Z) * (h * Z) * (h * Z), p);
    CubeInts(y, h, Z);
    CongSym(y * (W * W * W), y * ((h * Z) * (h * Z) * (h * Z)), p);
    CongTrans(h * h * h * sy, y * ((h * Z) * (h * Z) * (h * Z)), y * (W * W * W), p);
  }

  lemma CubeInts(y: int, h: int, Z: int)
    ensures (h * h * h) * (y * (Z * Z * Z)) == y * ((h * Z) * (h * Z) * (h * Z))
  {}

  lemma XForm(lam: int, x: int, W: int, r: int, q: int, X3: int, Rx: int, p: int)
    requires Cong(r, lam * W, p) && Cong(q, x * (W * W), p)
    requires Cong(X3, r * r - q, p) && Cong(Rx, lam * lam - x, p)
    ensures Cong(X3, Rx * (W * W), p)
  {
    hide Cong;
    CongMul(r, lam * W, r, lam * W, p);
    CongSub(r * r, (lam * W) * (lam * W), q, x * (W * W), p);
    assert (lam * W) * (lam * W) - x * (W * W) == (lam * lam - x) * (W * W);
    CongRefl(W * W, p);
    CongMul(Rx, lam * lam - x, W * W, W * W, p);
    CongSym(Rx * (W * W), (lam * lam - x) * (W * W), p);
    CongTrans(X3, r * r - q, (lam * lam - x) * (W * W), p);
    CongTrans(X3, (lam * lam - x) * (W * W), Rx * (W * W), p);
  }

  lemma YForm(lam: int, x: int, y: int, W: int, r: int, q: int, c: int, X3: int, Y3: int, Rx: int, Ry: int, p: int)
    requires p % 2 == 1
    requires Cong(r, lam * W, p) && Cong(q, x * (W * W), p) && Cong(c, y * (W * W * W), p)
    requires Cong(X3, Rx * (W * W), p) && Cong(2 * Y3, r * (q - 2 * X3) - c, p)
    requires Cong(2 * Ry, lam * (x - 2 * Rx) - y, p)
    ensures Cong(Y3, Ry * (W * W * W), p)
  {
    hide Cong;
    var w3 := W * W * W;
    CongRefl(2, p);
    CongRefl(w3, p);
    CongMul(2, 2, X3, Rx * (W * W), p);
    CongSub(q, x * (W * W), 2 * X3, 2 * (Rx * (W * W)), p);
    CongMul(r, lam * W, q - 2 * X3, x * (W * W) - 2 * (Rx * (W * W)), p);
    CongSub(r * (q - 2 * X3), (lam * W) * (x * (W * W) - 2 * (Rx * (W * W))), c, y * w3, p);
    YInts(lam, x, y, W, Rx);
    CongTrans(2 * Y3, r * (q - 2 * X3) - c, (lam * (x - 2 * Rx) - y) * w3, p);
    CongMul(2 * Ry, lam * (x - 2 * Rx) - y, w3, w3, p);
    CongSym((2 * Ry) * w3, (lam * (x - 2 * Rx) - y) * w3, p);
    CongTrans(2 * Y3, (lam * (x - 2 * Rx) - y) * w3, (2 * Ry) * w3, p);
    assert (2 * Ry) * w3 == 2 * (Ry * w3);
    CancelTwo(Y3, Ry * w3, p);
  }

  lemma YInts(lam: int, x: int, y: int, W: int, Rx: int)
    ensures (lam * W) * (x * (W * W) - 2 * (Rx * (W * W))) - y * (W * W * W) == (lam * (x - 2 * Rx) - y) * (W * W * W)
  {
    var w3 := W * W * W;
    assert (lam * W) * (x * (W * W)) == (lam * x) * w3;
    assert (lam * W) * (2 * (Rx * (W * W))) == (2 * (lam * Rx)) * w3;
  }

  /** The formulas of the mixed addition: an affine (x1, y1) added to
      (X : Y : Z), doubling when both have the same x coordinate. */
  ghost predicate AddFormula(x1: int, y1: int, X: int, Y: int, Z: int, a: int, X3: int, Y3: int, Z3: int, p: int) {
    var z2, z3 := Z * Z, Z * Z * Z;
    var same := Cong(x1 * z2, X, p);
    var sx, sy := x1 * z2 + X, y1 * z3 + Y;
    var h := if same then sy else x1 * z2 - X;
    var r := if same then 3 * (X * X) + a * (z2 * z2) else y1 * z3 - Y;
    && Cong(Z3, h * Z, p)
    && Cong(X3, r * r - h * h * sx, p)
    && Cong(2 * Y3, r * (h * h * sx - 2 * X3) - h * h * h * sy, p)
  }

  /** The mixed addition computes the chord-and-tangent sum: the chord case, the
      tangent case, and the case where the sum is the point at infinity. */
  lemma AddFormulaCorrect(P: Aff, Q: Aff, R: Aff, X: int, Y: int, Z: int, a: int, X3: int, Y3: int, Z3: int, p: int)
    requires Prime(p) && p % 2 == 1 && P.Pt? && Q.Pt? && InField(P, p) && InField(Q, p)
    requires Jac(X, Y, Z, Q, p) && IsSum(P, Q, R, a, p)
    requires AddFormula(P.x, P.y, X, Y, Z, a, X3, Y3, Z3, p)
    ensures Jac(X3, Y3, Z3, R, p)
  {
    hide Cong, Prime;
    var z2, z3 := Z * Z, Z * Z * Z;
    SameX(P, Q, X, Z, p);
    SumForm(P.x, Q.x, X, z2, p);
    SumForm(P.y, Q.y, Y, z3, p);
    var sx, sy := P.x * z2 + X, P.y * z3 + Y;
    if R.Inf? {
      AddToInfinity(P.y, Q.y, sy, z3, Z, Z3, p);
    } else {
      var lam: int :| Slope(P, Q, lam, a, p) && ThirdPoint(P, Q, lam, R, p);
      MirrorForm(P, Q, lam, R, a, p);
      if P.x != Q.x {
        var h, r := P.x * z2 - X, P.y * z3 - Y;
        ChordForm(P, Q, lam, X, Y, Z, Z3, h, r, p);
        SlopeForm(P.x + Q.x, P.y + Q.y, lam, h, Z, Z3, r, sx, sy, X3, Y3, R.x, R.y, p);
      } else {
        var r := 3 * (X * X) + a * (z2 * z2);
        TangentForm(P, Q, lam, X, Z, Z3, a, sy, r, p);
        SlopeForm(P.x + Q.x, P.y + Q.y, lam, sy, Z, Z3, r, sx, sy, X3, Y3, R.x, R.y, p);
      }
    }
  }

  /** The code's test x1 Z^2 = X decides whether the x coordinates agree. */
  lemma SameX(P: Aff, Q: Aff, X: int, Z: int, p: int)
    requires Prime(p) && P.Pt? && Q.Pt? && InField(P, p) && InField(Q, p)
    requires !Cong(Z, 0, p) && Cong(X, Q.x * (Z * Z), p)
    ensures Cong(P.x * (Z * Z), X, p) <==> P.x == Q.x
  {
    hide Cong;
    CongSym(X, Q.x * (Z * Z), p);
    if Cong(P.x * (Z * Z), X, p) {
      CongTrans(P.x * (Z * Z), X, Q.x * (Z * Z), p);
      CongRefl(Q.x * (Z * Z), p);
      CongSub(P.x * (Z * Z), Q.x * (Z * Z), Q.x * (Z * Z), Q.x * (Z * Z), p);
      assert P.x * (Z * Z) - Q.x * (Z * Z) == (P.x - Q.x) * (Z * Z);
      if P.x != Q.x {
        DifferentResidues(P.x, Q.x, p);
        NonZeroProduct(Z, Z, p);
        NonZeroProduct(P.x - Q.x, Z * Z, p);
      }
    }
  }

  lemma SumForm(u: int, v: int, X: int, z: int, p: int)
    requires Cong(X, v * z, p)
    ensures Cong(u * z + X, (u + v) * z, p) && Cong(u * z - X, (u - v) * z, p)
  {
    hide Cong;
    CongRefl(u * z, p);
    CongAdd(u * z, u * z, X, v * z, p);
    CongSub(u * z, u * z, X, v * z, p);
    assert u * z + v * z == (u + v) * z && u * z - v * z == (u - v) * z;
  }

  lemma AddToInfinity(y1: int, y2: int, sy: int, z3: int, Z: int, Z3: int, p: int)
    requires Cong(y1 + y2, 0, p) && Cong(sy, (y1 + y2) * z3, p) && Cong(Z3, sy * Z, p)
    ensures Cong(Z3, 0, p)
  {
    hide Cong;
    CongRefl(z3, p);
    CongRefl(Z, p);
    CongMul(y1 + y2, 0, z3, z3, p);
    CongTrans(sy, (y1 + y2) * z3, 0 * z3, p);
    CongMul(sy, 0, Z, Z, p);
    CongTrans(Z3, sy * Z, 0 * Z, p);
  }

  /** Twice the new y coordinate, symmetrically in both points. */
  lemma MirrorForm(P: Aff, Q: Aff, lam: int, R: Aff, a: int, p: int)
    requires P.Pt? && Q.Pt? && R.Pt? && (P.x == Q.x ==> P.y == Q.y)
    requires Slope(P, Q, lam, a, p) && ThirdPoint(P, Q, lam, R, p)
    ensures Cong(R.x, lam * lam - (P.x + Q.x), p)
    ensures Cong(2 * R.y, lam * ((P.x + Q.x) - 2 * R.x) - (P.y + Q.y), p)
  {
    hide Cong;
    assert lam * lam - P.x - Q.x == lam * lam - (P.x + Q.x);
    var e, f := lam * (P.x - R.x) - P.y, lam * (Q.x - R.x) - Q.y;
    var dx, dy := P.x - Q.x, P.y - Q.y;
    CongRefl(f, p);
    if P.x != Q.x {
      CongRefl(dy, p);
      CongSub(lam * dx, dy, dy, dy, p);
      CongAdd(f, f, lam * dx - dy, 0, p);
    }
    MirrorInts(lam, P.x, Q.x, P.y, Q.y, R.x);
    CongTrans(R.y, e, f, p);
    CongAdd(R.y, e, R.y, f, p);
  }

  lemma MirrorInts(lam: int, x1: int, x2: int, y1: int, y2: int, x3: int)
    ensures var e, f := lam * (x1 - x3) - y1, lam * (x2 - x3) - y2;
            && e == f + (lam * (x1 - x2) - (y1 - y2))
            && e + f == lam * ((x1 + x2) - 2 * x3) - (y1 + y2)
  {}

  /** Chord: r = lam (h Z), and h Z is not zero. */
  lemma ChordForm(P: Aff, Q: Aff, lam: int, X: int, Y: int, Z: int, W: int, h: int, r: int, p: int)
    requires Prime(p) && P.Pt? && Q.Pt? && InField(P, p) && InField(Q, p) && P.x != Q.x && !Cong(Z, 0, p)
    requires Cong(lam * (P.x - Q.x), P.y - Q.y, p)
    requires Cong(h, (P.x - Q.x) * (Z * Z), p) && Cong(r, (P.y - Q.y) * (Z * Z * Z), p) && Cong(W, h * Z, p)
    ensures Cong(r, lam * W, p) && !Cong(W, 0, p)
  {
    hide Cong;
    var dx, dy, z3 := P.x - Q.x, P.y - Q.y, Z * Z * Z;
    CongRefl(z3, p);
    CongRefl(Z, p);
    CongRefl(lam, p);
    CongMul(lam * dx, dy, z3, z3, p);
    CongMul(h, dx * (Z * Z), Z, Z, p);
    CongTrans(W, h * Z, (dx * (Z * Z)) * Z, p);
    CongMul(lam, lam, W, (dx * (Z * Z)) * Z, p);
    ChordInts(lam, dx, Z);
    CongSym((lam * dx) * z3, dy * z3, p);
    CongTrans(r, dy * z3, (lam * dx) * z3, p);
    CongSym(lam * W, (lam * dx) * z3, p);
    CongTrans(r, (lam * dx) * z3, lam * W, p);
    DifferentResidues(P.x, Q.x, p);
    NonZeroProduct(Z, Z, p);
    NonZeroProduct(dx, Z * Z, p);
    NonZeroProduct(dx * (Z * Z), Z, p);
    if Cong(W, 0, p) {
      CongSym(W, (dx * (Z * Z)) * Z, p);
      CongTrans((dx * (Z * Z)) * Z, W, 0, p);
    }
  }

  lemma ChordInts(lam: int, dx: int, Z: int)
    ensures (lam * dx) * (Z * Z * Z) == lam * ((dx * (Z * Z)) * Z)
  {}

  /** Tangent: r = 3 X^2 + a Z^4 = lam (h Z) with h = 2 y Z^3, not zero. */
  lemma TangentForm(P: Aff, Q: Aff, lam: int, X: int, Z: int, W: int, a: int, h: int, r: int, p: int)
    requires Prime(p) && P.Pt? && Q.Pt? && P == Q && !Cong(Z, 0, p) && !Cong(P.y + Q.y, 0, p)
    requires Cong(lam * (2 * P.y), 3 * (P.x * P.x) + a, p)
    requires Cong(X, Q.x * (Z * Z), p) && r == 3 * (X * X) + a * ((Z * Z) * (Z * Z))
    requires Cong(h, (P.y + Q.y) * (Z * Z * Z), p) && Cong(W, h * Z, p)
    ensures Cong(r, lam * W, p) && !Cong(W, 0, p)
  {
    hide Cong;
    var y2, z3, z4 := P.y + Q.y, Z * Z * Z, (Z * Z) * (Z * Z);
    CongRefl(z4, p);
    CongRefl(Z, p);
    CongRefl(lam, p);
    CongMul(h, y2 * z3, Z, Z, p);
    CongTrans(W, h * Z, (y2 * z3) * Z, p);
    CongMul(lam, lam, W, (y2 * z3) * Z, p);
    CongMul(lam * y2, 3 * (P.x * P.x) + a, z4, z4, p);
    TangentNumerator(P.x, X, Z, a, r, p);
    TangentInts(lam, y2, Z);
    CongSym((lam * y2) * z4, (3 * (P.x * P.x) + a) * z4, p);
    CongTrans(r, (3 * (P.x * P.x) + a) * z4, (lam * y2) * z4, p);
    CongSym(lam * W, (lam * y2) * z4, p);
    CongTrans(r, (lam * y2) * z4, lam * W, p);
    NonZeroProduct(Z, Z, p);
    NonZeroProduct(Z * Z, Z, p);
    NonZeroProduct(y2, z3, p);
    NonZeroProduct(y2 * z3, Z, p);
    if Cong(W, 0, p) {
      CongSym(W, (y2 * z3) * Z, p);
      CongTrans((y2 * z3) * Z, W, 0, p);
    }
  }

  lemma TangentInts(lam: int, y2: int, Z: int)
    ensures (lam * y2) * ((Z * Z) * (Z * Z)) == lam * ((y2 * (Z * Z * Z)) * Z)
  {}

  /** 3 X^2 + a Z^4 = (3 x^2 + a) Z^4. */
  lemma TangentNumerator(x: int, X: int, Z: int, a: int, r: int, p: int)
    requires Cong(X, x * (Z * Z), p) && r == 3 * (X * X) + a * ((Z * Z) * (Z * Z))
    ensures Cong(r, (3 * (x * x) + a) * ((Z * Z) * (Z * Z)), p)
  {
    hide Cong;
    var z2 := Z * Z;
    CongMul(X, x * z2, X, x * z2, p);
    CongRefl(3, p);
    CongRefl(a * (z2 * z2), p);
    CongMul(3, 3, X * X, (x * z2) * (x * z2), p);
    CongAdd(3 * (X * X), 3 * ((x * z2) * (x * z2)), a * (z2 * z2), a * (z2 * z2), p);
    assert 3 * ((x * z2) * (x * z2)) + a * (z2 * z2) == (3 * (x * x) + a) * (z2 * z2);
  }

  /** The doubling formulas; m is half of 3 X^2 + a Z^4. */
  ghost predicate DoubleFormula(X: int, Y: int, Z: int, a: int, m: int, X3: int, Y3: int, Z3: int, p: int) {
    && Cong(2 * m, 3 * (X * X) + a * ((Z * Z) * (Z * Z)), p)
    && Cong(Z3, Y * Z, p)
    && Cong(X3, m * m - 2 * (X * (Y * Y)), p)
    && Cong(Y3, m * (X * (Y * Y) - X3) - (Y * Y) * (Y * Y), p)
  }

  lemma DoubleFormulaCorrect(Q: Aff, R: Aff, X: int, Y: int, Z: int, a: int, m: int, X3: int, Y3: int, Z3: int, p: int)
    requires Prime(p) && p % 2 == 1 && Q.Pt? && InField(Q, p)
    requires Jac(X, Y, Z, Q, p) && IsSum(Q, Q, R, a, p) && DoubleFormula(X, Y, Z, a, m, X3, Y3, Z3, p)
    ensures Jac(X3, Y3, Z3, R, p)
  {
    hide Cong, Prime;
    var z3 := Z * Z * Z;
    if R.Inf? {
      CongBy(Q.y + Q.y, 2 * Q.y, p, 0);
      HalfZero(Q.y, p);
      CongRefl(z3, p);
      CongRefl(Z, p);
      CongMul(Q.y, 0, z3, z3, p);
      CongTrans(Y, Q.y * z3, 0 * z3, p);
      CongMul(Y, 0, Z, Z, p);
      CongTrans(Z3, Y * Z, 0 * Z, p);
    } else {
      var lam: int :| Slope(Q, Q, lam, a, p) && ThirdPoint(Q, Q, lam, R, p);
      var r := 3 * (X * X) + a * ((Z * Z) * (Z * Z));
      var h := 2 * (Q.y * z3);
      assert h == (Q.y + Q.y) * z3;
      CongRefl(h, p);
      var W2 := h * Z;
      CongRefl(W2, p);
      TangentForm(Q, Q, lam, X, Z, W2, a, h, r, p);
      DoubleSlope(Q.y, lam, Y, Z, Z3, m, r, p);
      DoubleXY(Q.x, Q.y, lam, X, Y, Z, Z3, m, X3, Y3, R.x, R.y, p);
    }
  }

  lemma HalfZero(y: int, p: int)
    requires p % 2 == 1 && Cong(y + y, 0, p)
    ensures Cong(y, 0, p)
  {
    CancelTwo(y, 0, p);
  }

  /** m = lam (Y Z), and Y Z is not zero. */
  lemma DoubleSlope(y: int, lam: int, Y: int, Z: int, Z3: int, m: int, r: int, p: int)
    requires p % 2 == 1 && Cong(Y, y * (Z * Z * Z), p) && Cong(Z3, Y * Z, p) && Cong(2 * m, r, p)
    requires Cong(r, lam * ((2 * (y * (Z * Z * Z))) * Z), p) && !Cong((2 * (y * (Z * Z * Z))) * Z, 0, p)
    ensures Cong(m, lam * Z3, p) && !Cong(Z3, 0, p)
  {
    hide Cong;
    var v := (y * (Z * Z * Z)) * Z;
    CongRefl(Z, p);
    CongRefl(lam, p);
    CongMul(Y, y * (Z * Z * Z), Z, Z, p);
    CongTrans(Z3, Y * Z, v, p);
    assert (2 * (y * (Z * Z * Z))) * Z == v + v;
    CongMul(lam, lam, Z3, v, p);
    CongSym(lam * Z3, lam * v, p);
    CongAdd(lam * v, lam * Z3, lam * v, lam * Z3, p);
    assert lam * (v + v) == lam * v + lam * v;
    CongTrans(2 * m, r, lam * v + lam * v, p);
    CongTrans(2 * m, lam * v + lam * v, 2 * (lam * Z3), p);
    CancelTwo(m, lam * Z3, p);
    if Cong(Z3, 0, p) {
      CongSym(Z3, v, p);
      CongTrans(v, Z3, 0, p);
      CongAdd(v, 0, v, 0, p);
    }
  }

  lemma DoubleXY(x: int, y: int, lam: int, X: int, Y: int, Z: int, W: int, m: int, X3: int, Y3: int, Rx: int, Ry: int, p: int)
    requires Cong(X, x * (Z * Z), p) && Cong(Y, y * (Z * Z * Z), p) && Cong(W, Y * Z, p) && Cong(m, lam * W, p)
    requires Cong(X3, m * m - 2 * (X * (Y * Y)), p)
    requires Cong(Y3, m * (X * (Y * Y) - X3) - (Y * Y) * (Y * Y), p)
    requires Cong(Rx, lam * lam - x - x, p) && Cong(Ry, lam * (x - Rx) - y, p)
    ensures Cong(X3, Rx * (W * W), p) && Cong(Y3, Ry * (W * W * W), p)
  {
    hide Cong;
    var q, w2, w3 := X * (Y * Y), W * W, W * W * W;
    DoubleSquares(x, y, X, Y, Z, W, p);
    CongRefl(2, p);
    CongMul(2, 2, q, x * w2, p);
    assert 2 * (x * w2) == (x + x) * w2;
    XForm(lam, x + x, W, m, 2 * q, X3, Rx, p);
    CongSub(q, x * w2, X3, Rx * w2, p);
    CongMul(m, lam * W, q - X3, x * w2 - Rx * w2, p);
    CongSub(m * (q - X3), (lam * W) * (x * w2 - Rx * w2), (Y * Y) * (Y * Y), y * w3, p);
    DoubleInts(lam, x, y, W, Rx);
    CongRefl(w3, p);
    CongMul(Ry, lam * (x - Rx) - y, w3, w3, p);
    CongSym(Ry * w3, (lam * (x - Rx) - y) * w3, p);
    CongTrans(Y3, m * (q - X3) - (Y * Y) * (Y * Y), (lam * (x - Rx) - y) * w3, p);
    CongTrans(Y3, (lam * (x - Rx) - y) * w3, Ry * w3, p);
  }

  lemma DoubleInts(lam: int, x: int, y: int, W: int, Rx: int)
    ensures (lam * W) * (x * (W * W) - Rx * (W * W)) - y * (W * W * W) == (lam * (x - Rx) - y) * (W * W * W)
  {
    var w3 := W * W * W;
    assert (lam * W) * (x * (W * W)) == (lam * x) * w3;
    assert (lam * W) * (Rx * (W * W)) == (lam * Rx) * w3;
  }

  /** X Y^2 = x W^2 and Y^4 = y W^3 for W = Y Z. */
  lemma DoubleSquares(x: int, y: int, X: int, Y: int, Z: int, W: int, p: int)
    requires Cong(X, x * (Z * Z), p) && Cong(Y, y * (Z * Z * Z), p) && Cong(W, Y * Z, p)
    ensures Cong(X * (Y * Y), x * (W * W), p) && Cong((Y * Y) * (Y * Y), y * (W * W * W), p)
  {
    hide Cong;
    var yy := Y * Y;
    SquareForm(x, Y, Z, W, X, p);
    CubeForm(y, Y, Z, W, Y, p);
    assert Y * Y * X == X * yy;
    assert Y * Y * Y * Y == yy * yy;
  }
}
