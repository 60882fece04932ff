/** Point arithmetic of libs/crypto/ecdsa.c: affine and Jacobian addition and
    doubling on points whose coordinates are overwritten in place. */
module Curve {
  import opened Arith
  import opened Limbs
  import opened Bignum
  import opened Product
  import opened Field
  import opened Affine

  /** A curve_point; (0, 0) is the point at infinity. */
  class Point {
    var x: Limbs9
    var y: Limbs9

    constructor (px: Limbs9, py: Limbs9)
      ensures x == px && y == py
    {
      x, y := px, py;
    }
  }

  /** A jacobian_curve_point. */
  class JPoint {
    var x: Limbs9
    var y: Limbs9
    var z: Limbs9

    constructor ()
      ensures x == y == z == Zero9
    {
      x, y, z := Zero9, Zero9, Zero9;
    }
  }

  /** The coordinates of a Jacobian point are partly reduced; negation may leave
      y or z at exactly 2 p. */
  ghost predicate JRange(xs: Limbs9, ys: Limbs9, zs: Limbs9, p: int) {
    && Norm(xs) && Norm(ys) && Norm(zs)
    && 0 <= Val(xs) < 2 * p && 0 <= Val(ys) <= 2 * p && 0 <= Val(zs) <= 2 * p
  }

  /** As the additions and doublings leave them: all three below 2 p. */
  ghost predicate JPart(xs: Limbs9, ys: Limbs9, zs: Limbs9, p: int) {
    JRange(xs, ys, zs, p) && Val(ys) < 2 * p && Val(zs) < 2 * p
  }

  /** Affine coordinates are fully reduced. */
  ghost predicate ARange(xs: Limbs9, ys: Limbs9, p: int) {
    Norm(xs) && Norm(ys) && 0 <= Val(xs) < p && 0 <= Val(ys) < p
  }

  lemma RangeIs(s: Limbs9, p: int)
    requires Norm(s) && 0 <= Val(s) <= 2 * p && p < P256
    ensures Is(s, Val(s), p)
  {
    CongRefl(Val(s), p);
  }

  /** x1 Z^2 + 2 p - X reduces to exactly p just when x1 Z^2 = X modulo p. */
  lemma DoublingTest(hs: Limbs9, d: int, e: int, p: int)
    requires Is(hs, d - e, p) && 0 < Val(hs) < 4 * p && P256 - P224 <= p < P256
    ensures FastReduced(hs, p) == p <==> Cong(d, e, p)
  {
    hide Cong, Val, Norm, FastReduced;
    MultipleReducesToP(hs, p);
    SameZero(Val(hs), d - e, p);
    CongRefl(e, p);
    if Cong(d - e, 0, p) { CongAdd(d - e, 0, e, e, p); }
    if Cong(d, e, p) { CongSub(d, e, e, e, p); }
  }

  method SameLimbs(x: Limbs9, y: Limbs9) returns (r: bool)
    requires Norm(x) && Norm(y)
    ensures r == (Val(x) == Val(y))
  {
    hide Val, Norm;
    var xn := Copy(x);
    var yn := Copy(y);
    r := IsEqual(xn, yn);
  }

  /** First half of the mixed addition: the denominators h and r and the sums
      x1' + x2 and y1' + y2, for either case. */
  method AddOperands(x1: Limbs9, y1: Limbs9, X: Limbs9, Y: Limbs9, Z: Limbs9, ps: Limbs9, a: int, ghost p: int)
    returns (h: Limbs9, r: Limbs9, xz: Limbs9, yz: Limbs9)
    requires PrimeField(ps, p) && -3 <= a <= 0 && ARange(x1, y1, p) && JRange(X, Y, Z, p)
    ensures var (xv, yv, z2, z3) := (Val(X), Val(Y), Val(Z) * Val(Z), Val(Z) * Val(Z) * Val(Z));
            && Is(xz, Val(x1) * z2 + xv, p) && Is(yz, Val(y1) * z3 + yv, p)
            && Val(yz) < 4 * p && Val(xz) < 4 * p
            && (if Cong(Val(x1) * z2, xv, p)
                then h == yz && Is(r, 3 * (xv * xv) + a * (z2 * z2), p)
                else Is(h, Val(x1) * z2 - xv, p) && Is(r, Val(y1) * z3 - yv, p))
  {
    hide Norm, Val, Cong, Is, PrimeField, Prime, FastReduced;
    PrimeFits(ps, p);
    ghost var u, v, xv, yv, zv := Val(x1), Val(y1), Val(X), Val(Y), Val(Z);
    ghost var z2, z3 := zv * zv, zv * zv * zv;
    RangeIs(x1, p);
    RangeIs(y1, p);
    RangeIs(X, p);
    RangeIs(Y, p);
    RangeIs(Z, p);
    xz := FMul(Z, Z, ps, zv, zv, p);
    yz := FMul(xz, Z, ps, z2, zv, p);
    var az: Limbs9 := Zero9;
    if a != 0 {
      az := FMul(xz, xz, ps, z2, z2, p);
      az := FMulK(az, -a, ps, z2 * z2, p);
    }
    xz := FMul(x1, xz, ps, u, z2, p);
    h := FSub(xz, X, ps, u * z2, xv, p);
    IsPositive(xz, u * z2, p);
    DoublingTest(h, u * z2, xv, p);
    h := FReduce(h, ps, u * z2 - xv, p);
    xz := FAdd(xz, X, u * z2, xv, p);
    IsNorm(h, u * z2 - xv, p);
    var isDoubling := SameLimbs(h, ps);
    yz := FMul(y1, yz, ps, v, z3, p);
    r := FSub(yz, Y, ps, v * z3, yv, p);
    yz := FAdd(yz, Y, v * z3, yv, p);
    var r2 := Numerator(X, az, ps, a, xv, z2 * z2, p);
    if isDoubling {
      r := r2;
      h := yz;
    }
  }

  lemma IsPositive(s: Limbs9, d: int, p: int)
    requires Is(s, d, p)
    ensures Val(s) >= 0
  {}

  lemma IsNorm(s: Limbs9, d: int, p: int)
    requires Is(s, d, p)
    ensures Norm(s) && 0 <= Val(s) < P259 && Cong(Val(s), d, p)
  {}

  /** 3 X^2 + a Z^4, with az holding -a Z^4 when a is not zero. */
  method Numerator(X: Limbs9, az: Limbs9, ps: Limbs9, a: int, ghost xv: int, ghost z4: int, ghost p: int) returns (r: Limbs9)
    requires PrimeField(ps, p) && Is(X, xv, p) && -3 <= a <= 0
    requires a != 0 ==> Is(az, (-a) * z4, p) && Val(az) < 2 * p
    ensures Is(r, 3 * (xv * xv) + a * z4, p) && Val(r) < 4 * p
  {
    hide Norm, Val, Cong, Is, PrimeField, Prime;
    PrimeFits(ps, p);
    r := FMul(X, X, ps, xv, xv, p);
    r := FMulK(r, 3, ps, xv * xv, p);
    if a != 0 {
      IsPositive(az, (-a) * z4, p);
      IsPositive(r, 3 * (xv * xv), p);
      r := FSub(r, az, ps, 3 * (xv * xv), (-a) * z4, p);
    }
    assert 3 * (xv * xv) - (-a) * z4 == 3 * (xv * xv) + a * z4;
  }

  /** Second half: x3 = r^2 - h^2 sx, y3 = (r (h^2 sx - 2 x3) - h^3 sy) / 2, z3 = h Z. */
  method AddFinish(h: Limbs9, r: Limbs9, sx: Limbs9, sy: Limbs9, Z: Limbs9, ps: Limbs9,
                   ghost hd: int, ghost rd: int, ghost xd: int, ghost yd: int, ghost p: int)
    returns (x3: Limbs9, y3: Limbs9, z3: Limbs9)
    requires PrimeField(ps, p) && Is(h, hd, p) && Is(r, rd, p) && Is(sx, xd, p) && Is(sy, yd, p) && Is(Z, Val(Z), p)
    ensures JPart(x3, y3, z3, p) && Cong(Val(z3), hd * Val(Z), p)
    ensures Cong(Val(x3), rd * rd - hd * hd * xd, p)
    ensures Cong(2 * Val(y3), rd * (hd * hd * xd - 2 * Val(x3)) - hd * hd * hd * yd, p)
  {
    hide Norm, Val, Cong, Is, PrimeField, Prime, FastReduced;
    PrimeFits(ps, p);
    ghost var q, c := xd * (hd * hd), yd * (hd * hd * hd);
    var hsqx := FMul(h, h, ps, hd, hd, p);
    var hcby := FMul(hsqx, h, ps, hd * hd, hd, p);
    hsqx := FMul(sx, hsqx, ps, xd, hd * hd, p);
    hcby := FMul(sy, hcby, ps, yd, hd * hd * hd, p);
    z3 := FMul(h, Z, ps, hd, Val(Z), p);
    x3 := FMul(r, r, ps, rd, rd, p);
    IsPositive(hsqx, q, p);
    IsPositive(hcby, c, p);
    x3 := FSub(x3, hsqx, ps, rd * rd, q, p);
    x3 := FReduce(x3, ps, rd * rd - q, p);
    ghost var xv := Val(x3);
    IsNorm(x3, rd * rd - q, p);
    RangeIs(x3, p);
    y3 := FSub(hsqx, x3, ps, q, xv, p);
    y3 := FSub(y3, x3, ps, q - xv, xv, p);
    y3 := FMul(r, y3, ps, rd, q - xv - xv, p);
    y3 := FSub(y3, hcby, ps, rd * (q - xv - xv), c, p);
    ghost var e := rd * (q - xv - xv) - c;
    y3 := FHalf(y3, ps, e, p);
    ghost var half := Val(y3);
    y3 := FReduce(y3, ps, half, p);
    IsNorm(y3, half, p);
    IsNorm(z3, hd * Val(Z), p);
    TwiceCong(Val(y3), half, e, p);
    AddFinishInts(rd, hd, xd, yd, xv);
  }

  lemma TwiceCong(a: int, b: int, e: int, p: int)
    requires Cong(a, b, p) && Cong(2 * b, e, p)
    ensures Cong(2 * a, e, p)
  {
    CongAdd(a, b, a, b, p);
    CongTrans(2 * a, 2 * b, e, p);
  }

  lemma AddFinishInts(r: int, h: int, x: int, y: int, xv: int)
    ensures x * (h * h) == h * h * x
    ensures r * (x * (h * h) - xv - xv) - y * (h * h * h) == r * (h * h * x - 2 * xv) - h * h * h * y
  {}

  /** p2 = p1 + p2, for an affine p1 and a Jacobian p2. */
  method PointJacobianAdd(p1: Point, p2: JPoint, ps: Limbs9, a: int, ghost p: int)
    requires PrimeField(ps, p) && -3 <= a <= 0
    requires ARange(p1.x, p1.y, p) && JRange(p2.x, p2.y, p2.z, p)
    modifies p2
    ensures JPart(p2.x, p2.y, p2.z, p)
    ensures AddFormula(Val(p1.x), Val(p1.y), old(Val(p2.x)), old(Val(p2.y)), old(Val(p2.z)), a,
                       Val(p2.x), Val(p2.y), Val(p2.z), p)
  {
    hide Norm, Val, Cong, Is, PrimeField, Prime;
    PrimeFits(ps, p);
    ghost var u, v, xv, yv, zv := Val(p1.x), Val(p1.y), Val(p2.x), Val(p2.y), Val(p2.z);
    ghost var z2, z3 := zv * zv, zv * zv * zv;
    ghost var same := Cong(u * z2, xv, p);
    RangeIs(p2.z, p);
    var h, r, sx, sy := AddOperands(p1.x, p1.y, p2.x, p2.y, p2.z, ps, a, p);
    ghost var hd := if same then v * z3 + yv else u * z2 - xv;
    ghost var rd := if same then 3 * (xv * xv) + a * (z2 * z2) else v * z3 - yv;
    p2.x, p2.y, p2.z := AddFinish(h, r, sx, sy, p2.z, ps, hd, rd, u * z2 + xv, v * z3 + yv, p);
  }

  /** The doubling formulas on limbs. */
  method DoubleFinish(X: Limbs9, Y: Limbs9, Z: Limbs9, m: Limbs9, ps: Limbs9, ghost p: int)
    returns (x3: Limbs9, y3: Limbs9, z3: Limbs9)
    requires PrimeField(ps, p) && JRange(X, Y, Z, p) && Is(m, Val(m), p)
    ensures JPart(x3, y3, z3, p) && Cong(Val(z3), Val(Y) * Val(Z), p)
    ensures var q := Val(X) * (Val(Y) * Val(Y));
            && Cong(Val(x3), Val(m) * Val(m) - 2 * q, p)
            && Cong(Val(y3), Val(m) * (q - Val(x3)) - (Val(Y) * Val(Y)) * (Val(Y) * Val(Y)), p)
  {
    hide Norm, Val, Cong, Is, PrimeField, Prime, FastReduced;
    PrimeFits(ps, p);
    ghost var xv, yv, zv, mv := Val(X), Val(Y), Val(Z), Val(m);
    ghost var y2, q := yv * yv, xv * (yv * yv);
    RangeIs(X, p);
    RangeIs(Y, p);
    RangeIs(Z, p);
    var msq := FMul(m, m, ps, mv, mv, p);
    var ysq := FMul(Y, Y, ps, yv, yv, p);
    var xysq := FMul(ysq, X, ps, y2, xv, p);
    assert y2 * xv == q;
    z3 := FMul(Y, Z, ps, yv, zv, p);
    x3 := FDouble(xysq, ps, q, p);
    IsPositive(x3, 2 * q, p);
    x3 := FSub(msq, x3, ps, mv * mv, 2 * q, p);
    x3 := FReduce(x3, ps, mv * mv - 2 * q, p);
    ghost var x3v := Val(x3);
    IsNorm(x3, mv * mv - 2 * q, p);
    RangeIs(x3, p);
    y3 := FSub(xysq, x3, ps, q, x3v, p);
    y3 := FMul(m, y3, ps, mv, q - x3v, p);
    ysq := FMul(ysq, ysq, ps, y2, y2, p);
    IsPositive(ysq, y2 * y2, p);
    y3 := FSub(y3, ysq, ps, mv * (q - x3v), y2 * y2, p);
    y3 := FReduce(y3, ps, mv * (q - x3v) - y2 * y2, p);
    IsNorm(y3, mv * (q - x3v) - y2 * y2, p);
    IsNorm(z3, yv * zv, p);
  }

  /** x << 1 followed by a reduction. */
  method FDouble(x: Limbs9, ps: Limbs9, ghost xd: int, ghost p: int) returns (r: Limbs9)
    requires PrimeField(ps, p) && Is(x, xd, p) && Val(x) < 2 * p
    ensures Is(r, 2 * xd, p) && Val(r) < 2 * p
  {
    hide Norm, Val, Cong, Prime, FastReduced;
    var xn := Copy(x);
    Lshift(xn);
    CongAdd(Val(x), xd, Val(x), xd, p);
    r := FReduce(xn.val, ps, 2 * xd, p);
  }

  /** p = 2 p in Jacobian coordinates. */
  method PointJacobianDouble(jp: JPoint, ps: Limbs9, a: int, ghost p: int)
    requires PrimeField(ps, p) && -3 <= a <= 0 && JRange(jp.x, jp.y, jp.z, p)
    modifies jp
    ensures JPart(jp.x, jp.y, jp.z, p)
    ensures exists m: int :: DoubleFormula(old(Val(jp.x)), old(Val(jp.y)), old(Val(jp.z)), a, m,
                                           Val(jp.x), Val(jp.y), Val(jp.z), p)
  {
    hide Norm, Val, Cong, Is, PrimeField, Prime;
    PrimeFits(ps, p);
    ghost var xv, yv, zv := Val(jp.x), Val(jp.y), Val(jp.z);
    ghost var z4 := (zv * zv) * (zv * zv);
    RangeIs(jp.x, p);
    RangeIs(jp.z, p);
    var m := FMul(jp.x, jp.x, ps, xv, xv, p);
    m := FMulK(m, 3, ps, xv * xv, p);
    var az4 := FMul(jp.z, jp.z, ps, zv, zv, p);
    az4 := FMul(az4, az4, ps, zv * zv, zv * zv, p);
    az4 := FMulK(az4, -a, ps, z4, p);
    IsPositive(az4, (-a) * z4, p);
    m := FSub(m, az4, ps, 3 * (xv * xv), (-a) * z4, p);
    assert 3 * (xv * xv) - (-a) * z4 == 3 * (xv * xv) + a * z4;
    m := FHalf(m, ps, 3 * (xv * xv) + a * z4, p);
    jp.x, jp.y, jp.z := DoubleFinish(jp.x, jp.y, jp.z, m, ps, p);
    assert DoubleFormula(xv, yv, zv, a, Val(m), Val(jp.x), Val(jp.y), Val(jp.z), p);
  }

  // ------------------------------------------------------- affine points

  /** The point a curve_point holds. */
  ghost function AffOf(xs: Limbs9, ys: Limbs9): Aff {
    if Val(xs) == 0 && Val(ys) == 0 then Inf else Pt(Val(xs), Val(ys))
  }

  /** A point the affine representation can hold: (0, 0) is taken. */
  ghost predicate Holdable(P: Aff, p: int) {
    InField(P, p) && P != Pt(0, 0)
  }

  method IsInfinity(P: Point) returns (r: bool)
    requires Norm(P.x) && Norm(P.y)
    ensures r == AffOf(P.x, P.y).Inf?
  {
    hide Norm, Val;
    var x := Copy(P.x);
    var y := Copy(P.y);
    var xz := IsZero(x);
    var yz := IsZero(y);
    r := xz && yz;
  }

  /** Two points of the curve with the same x and different y are opposite. */
  lemma SameXOpposite(P: Aff, Q: Aff, a: int, b: int, p: int)
    requires Prime(p) && P.Pt? && Q.Pt? && InField(P, p) && InField(Q, p)
    requires OnCurve(P, a, b, p) && OnCurve(Q, a, b, p) && P.x == Q.x && P.y != Q.y
    ensures Opposite(P, Q, p)
  {
    hide Cong;
    var f := P.x * P.x * P.x + a * P.x + b;
    CongSym(Q.y * Q.y, f, p);
    CongTrans(P.y * P.y, f, Q.y * Q.y, p);
    CongRefl(Q.y * Q.y, p);
    CongSub(P.y * P.y, Q.y * Q.y, Q.y * Q.y, Q.y * Q.y, p);
    assert P.y * P.y - Q.y * Q.y == (P.y - Q.y) * (P.y + Q.y);
    DifferentResidues(P.y, Q.y, p);
    NoZeroDivisors(P.y - Q.y, P.y + Q.y, p);
  }

  /** The slope the code computes, inv * (y2 - y1), is the slope of the chord. */
  lemma ChordSlope(P: Aff, Q: Aff, lam: int, inv: int, a: int, p: int)
    requires P.Pt? && Q.Pt? && P.x != Q.x && Slope(P, Q, lam, a, p)
    requires Cong((Q.x - P.x) * inv, 1, p)
    ensures Cong(inv * (Q.y - P.y), lam, p)
  {
    hide Cong;
    var dx, dy := P.x - Q.x, P.y - Q.y;
    CongRefl(-inv, p);
    CongMul(-inv, -inv, lam * dx, dy, p);
    CongSym((-inv) * (lam * dx), (-inv) * dy, p);
    assert (-inv) * dy == inv * (Q.y - P.y);
    assert (-inv) * (lam * dx) == lam * ((Q.x - P.x) * inv);
    CongRefl(lam, p);
    CongMul(lam, lam, (Q.x - P.x) * inv, 1, p);
    CongTrans(inv * (Q.y - P.y), lam * ((Q.x - P.x) * inv), lam * 1, p);
  }

  /** inv * (3 x^2 + a) is the slope of the tangent. */
  lemma TangentSlope(P: Aff, lam: int, num: int, inv: int, a: int, p: int)
    requires P.Pt? && Slope(P, P, lam, a, p) && Cong(num, 3 * (P.x * P.x) + a, p)
    requires Cong((2 * P.y) * inv, 1, p)
    ensures Cong(num * inv, lam, p)
  {
    hide Cong;
    var n := 3 * (P.x * P.x) + a;
    CongRefl(inv, p);
    CongRefl(lam, p);
    CongSym(lam * (2 * P.y), n, p);
    CongTrans(num, n, lam * (2 * P.y), p);
    CongMul(num, lam * (2 * P.y), inv, inv, p);
    assert (lam * (2 * P.y)) * inv == lam * ((2 * P.y) * inv);
    CongMul(lam, lam, (2 * P.y) * inv, 1, p);
    CongTrans(num * inv, lam * ((2 * P.y) * inv), lam * 1, p);
  }

  /** The end of both affine formulas: x3 = lam^2 - sx, y3 = lam (x1 - x3) - y1. */
  method LineFinish(lambda: Limbs9, sx: Limbs9, x1: Limbs9, y1: Limbs9, ps: Limbs9,
                    ghost lam: int, ghost P: Aff, ghost Q: Aff, ghost R: Aff, ghost p: int)
    returns (xr: Limbs9, yr: Limbs9)
    requires PrimeField(ps, p) && P.Pt? && Q.Pt? && R.Pt? && InField(P, p) && InField(R, p)
    requires Is(lambda, lam, p) && Is(sx, P.x + Q.x, p) && Val(sx) < 2 * p
    requires ARange(x1, y1, p) && Val(x1) == P.x && Val(y1) == P.y && ThirdPoint(P, Q, lam, R, p)
    ensures ARange(xr, yr, p) && Val(xr) == R.x && Val(yr) == R.y
  {
    hide Norm, Val, Cong, Is, PrimeField, Prime, FastReduced;
    PrimeFits(ps, p);
    RangeIs(x1, p);
    RangeIs(y1, p);
    ghost var e := lam * lam - (P.x + Q.x);
    IsPositive(sx, P.x + Q.x, p);
    xr := FMul(lambda, lambda, ps, lam, lam, p);
    xr := FSub(xr, sx, ps, lam * lam, P.x + Q.x, p);
    xr := FReduce(xr, ps, e, p);
    xr := FMod(xr, ps, e, p);
    IsNorm(xr, e, p);
    SameResidue(Val(xr), e, R.x, p);
    RangeIs(xr, p);
    yr := FSub(x1, xr, ps, P.x, R.x, p);
    yr := FMul(lambda, yr, ps, lam, P.x - R.x, p);
    ghost var f := lam * (P.x - R.x) - P.y;
    yr := FSub(yr, y1, ps, lam * (P.x - R.x), P.y, p);
    yr := FReduce(yr, ps, f, p);
    yr := FMod(yr, ps, f, p);
    IsNorm(yr, f, p);
    SameResidue(Val(yr), f, R.y, p);
  }

  lemma SameResidue(v: int, e: int, r: int, p: int)
    requires p > 0 && 0 <= v < p && 0 <= r < p && Cong(v, e, p) && Cong(r, e, p)
    ensures v == r
  {
    CongSym(r, e, p);
    CongTrans(v, e, r, p);
    CongSmallEqual(v, r, p);
  }

  /** cp = 2 cp; R is the sum the law gives. */
  method PointDouble(cp: Point, ps: Limbs9, a: int, ghost R: Aff, ghost p: int)
    requires PrimeField(ps, p) && -3 <= a <= 0 && -a < ps[0] && ARange(cp.x, cp.y, p)
    requires Holdable(R, p) && IsSum(AffOf(cp.x, cp.y), AffOf(cp.x, cp.y), R, a, p)
    modifies cp
    ensures ARange(cp.x, cp.y, p) && AffOf(cp.x, cp.y) == R
  {
    hide Norm, Val, Cong, Is, PrimeField, Prime;
    PrimeFits(ps, p);
    ghost var P := AffOf(cp.x, cp.y);
    var inf := IsInfinity(cp);
    if inf {
      return;
    }
    var yn := Copy(cp.y);
    var yZero := IsZero(yn);
    YZeroSum(P, R, a, p);
    if yZero {
      cp.x, cp.y := Zero9, Zero9;
      ZeroHolds(p);
      return;
    }
    ghost var lam: int :| Slope(P, P, lam, a, p) && ThirdPoint(P, P, lam, R, p);
    var lambda := DoubleLambda(cp.x, cp.y, ps, a, P, lam, p);
    var yr := Twice(cp.x, ps, P.x, p);
    cp.x, cp.y := LineFinish(lambda, yr, cp.x, cp.y, ps, lam, P, P, R, p);
  }

  lemma ZeroHolds(p: int)
    requires p > 0
    ensures ARange(Zero9, Zero9, p) && AffOf(Zero9, Zero9) == Inf
  {
    ZeroVal(Zero9, 9);
  }

  /** A point with y = 0, and only such a point, doubles to infinity. */
  lemma YZeroSum(P: Aff, R: Aff, a: int, p: int)
    requires p % 2 == 1 && p > 0 && P.Pt? && InField(P, p) && IsSum(P, P, R, a, p)
    ensures R.Inf? <==> P.y == 0
    ensures P.y != 0 ==> !Cong(2 * P.y, 0, p)
  {
    if Cong(P.y + P.y, 0, p) {
      HalfZero(P.y, p);
      CongSmallEqual(P.y, 0, p);
    }
    CongRefl(0, p);
  }

  /** x << 1, exact for a fully reduced x. */
  method Twice(x: Limbs9, ps: Limbs9, ghost xd: int, ghost p: int) returns (r: Limbs9)
    requires PrimeField(ps, p) && Norm(x) && 0 <= Val(x) < p && Val(x) == xd
    ensures Is(r, xd + xd, p) && Val(r) < 2 * p
  {
    hide Norm, Val, Cong, Prime;
    var xn := Copy(x);
    Lshift(xn);
    r := xn.val;
    CongRefl(xd + xd, p);
  }

  /** lambda = (3 x^2 + a) / (2 y). */
  method DoubleLambda(x: Limbs9, y: Limbs9, ps: Limbs9, a: int, ghost P: Aff, ghost lam: int, ghost p: int)
    returns (lambda: Limbs9)
    requires PrimeField(ps, p) && -3 <= a <= 0 && -a < ps[0] && ARange(x, y, p) && P == Pt(Val(x), Val(y))
    requires Slope(P, P, lam, a, p) && !Cong(2 * P.y, 0, p)
    ensures Is(lambda, lam, p)
  {
    hide Norm, Val, Cong, Is, PrimeField, Prime, FastReduced;
    PrimeFits(ps, p);
    RangeIs(x, p);
    RangeIs(y, p);
    lambda := FMulK(y, 2, ps, P.y, p);
    lambda := FReduce(lambda, ps, 2 * P.y, p);
    lambda := FMod(lambda, ps, 2 * P.y, p);
    lambda := FInv(lambda, ps, 2 * P.y, p);
    ghost var inv := Val(lambda);
    var xr := FMul(x, x, ps, P.x, P.x, p);
    xr := FMulK(xr, 3, ps, P.x * P.x, p);
    xr := FSubSmall(xr, -a, ps, 3 * (P.x * P.x), p);
    ghost var num := 3 * (P.x * P.x) - (-a);
    CongRefl(num, p);
    lambda := FMul(xr, lambda, ps, num, inv, p);
    TangentSlope(P, lam, num, inv, a, p);
    Restate(lambda, num * inv, lam, p);
  }

  lemma Restate(s: Limbs9, d: int, e: int, p: int)
    requires Is(s, d, p) && Cong(d, e, p)
    ensures Is(s, e, p)
  {
    CongTrans(Val(s), d, e, p);
  }

  /** x + p - k for a small k, as the code adds a negative coefficient. */
  method FSubSmall(x: Limbs9, k: uint32, ps: Limbs9, ghost xd: int, ghost p: int) returns (r: Limbs9)
    requires PrimeField(ps, p) && Is(x, xd, p) && Val(x) < 2 * p && k < ps[0] && k <= 3
    ensures Is(r, xd - k, p) && Val(r) <= 3 * p
  {
    hide Norm, Val, Cong, Prime;
    var xn := Copy(x);
    var pn := Copy(ps);
    Subi(xn, k, pn);
    r := xn.val;
    CongRefl(k, p);
    CongSub(Val(x), xd, k, k, p);
    CongBy(Val(r), Val(x) - k, p, 1);
    CongTrans(Val(r), Val(x) - k, xd - k, p);
  }

  /** cp2 = cp1 + cp2 for two points of the curve; R is the sum the law gives. */
  method PointAdd(cp1: Point, cp2: Point, ps: Limbs9, a: int, ghost b: int, ghost R: Aff, ghost p: int)
    requires PrimeField(ps, p) && -3 <= a <= 0 && -a < ps[0] && cp1 != cp2
    requires ARange(cp1.x, cp1.y, p) && ARange(cp2.x, cp2.y, p)
    requires OnCurve(AffOf(cp1.x, cp1.y), a, b, p) && OnCurve(AffOf(cp2.x, cp2.y), a, b, p)
    requires Holdable(R, p) && IsSum(AffOf(cp1.x, cp1.y), AffOf(cp2.x, cp2.y), R, a, p)
    modifies cp2
    ensures ARange(cp2.x, cp2.y, p) && AffOf(cp2.x, cp2.y) == R
  {
    hide Norm, Val, Cong, Is, PrimeField, Prime, OnCurve;
    PrimeFits(ps, p);
    ghost var P, Q := AffOf(cp1.x, cp1.y), AffOf(cp2.x, cp2.y);
    var inf1 := IsInfinity(cp1);
    if inf1 {
      return;
    }
    var inf2 := IsInfinity(cp2);
    if inf2 {
      cp2.x, cp2.y := cp1.x, cp1.y;
      return;
    }
    var sameX := SameLimbs(cp1.x, cp2.x);
    var sameY := SameLimbs(cp1.y, cp2.y);
    if sameX && sameY {
      PointDouble(cp2, ps, a, R, p);
      return;
    }
    var yn := Copy(cp1.y);
    var yZero := IsZero(yn);
    if sameX { NotBothZero(P, Q, a, b, p); }
    if sameX && !yZero && !sameY {
      cp2.x, cp2.y := Zero9, Zero9;
      ZeroHolds(p);
      return;
    }
    OppositeNeedsSameX(P, Q, p);
    ghost var lam: int :| Slope(P, Q, lam, a, p) && ThirdPoint(P, Q, lam, R, p);
    var lambda := ChordLambda(cp1.x, cp1.y, cp2.x, cp2.y, ps, a, P, Q, lam, p);
    RangeIs(cp1.x, p);
    RangeIs(cp2.x, p);
    var yr := FAddMod(cp1.x, cp2.x, ps, P.x, Q.x, p);
    cp2.x, cp2.y := LineFinish(lambda, yr, cp1.x, cp1.y, ps, lam, P, Q, R, p);
  }

  lemma OppositeNeedsSameX(P: Aff, Q: Aff, p: int)
    requires P.Pt? && Q.Pt?
    ensures P.x != Q.x ==> !Opposite(P, Q, p)
  {}

  /** Opposite points of the curve have a y that is not zero. */
  lemma NotBothZero(P: Aff, Q: Aff, a: int, b: int, p: int)
    requires Prime(p) && P.Pt? && Q.Pt? && InField(P, p) && InField(Q, p)
    requires OnCurve(P, a, b, p) && OnCurve(Q, a, b, p) && P.x == Q.x && P.y != Q.y
    ensures P.y != 0 && Opposite(P, Q, p)
  {
    hide Cong;
    SameXOpposite(P, Q, a, b, p);
    if P.y == 0 {
      CongSmallEqual(Q.y, 0, p);
    }
  }

  /** lambda = (y2 - y1) / (x2 - x1). */
  method ChordLambda(x1: Limbs9, y1: Limbs9, x2: Limbs9, y2: Limbs9, ps: Limbs9, a: int,
                     ghost P: Aff, ghost Q: Aff, ghost lam: int, ghost p: int) returns (lambda: Limbs9)
    requires PrimeField(ps, p) && ARange(x1, y1, p) && ARange(x2, y2, p)
    requires P == Pt(Val(x1), Val(y1)) && Q == Pt(Val(x2), Val(y2)) && P.x != Q.x && Slope(P, Q, lam, a, p)
    ensures Is(lambda, lam, p)
  {
    hide Norm, Val, Cong, Is, PrimeField, Prime;
    PrimeFits(ps, p);
    RangeIs(x1, p);
    RangeIs(y1, p);
    RangeIs(x2, p);
    RangeIs(y2, p);
    var inv := FSub(x2, x1, ps, Q.x, P.x, p);
    inv := FInv(inv, ps, Q.x - P.x, p);
    DifferentResidues(Q.x, P.x, p);
    lambda := FSub(y2, y1, ps, Q.y, P.y, p);
    lambda := FMul(inv, lambda, ps, Val(inv), Q.y - P.y, p);
    ChordSlope(P, Q, lam, Val(inv), a, p);
    Restate(lambda, Val(inv) * (Q.y - P.y), lam, p);
  }

  // ------------------------------------------------------- conversions

  /** Jacobian coordinates with the given denominator z, drawn at random in [1, p). */
  method CurveToJacobian(P: Point, jp: JPoint, z: Limbs9, ps: Limbs9, ghost p: int)
    requires PrimeField(ps, p) && ARange(P.x, P.y, p) && AffOf(P.x, P.y).Pt?
    requires Norm(z) && 0 < Val(z) < p
    modifies jp
    ensures JPart(jp.x, jp.y, jp.z, p) && Jac(Val(jp.x), Val(jp.y), Val(jp.z), AffOf(P.x, P.y), p)
  {
    hide Norm, Val, Cong, Is, PrimeField, Prime;
    PrimeFits(ps, p);
    ghost var zv, xv, yv := Val(z), Val(P.x), Val(P.y);
    RangeIs(z, p);
    RangeIs(P.x, p);
    RangeIs(P.y, p);
    var x := FMul(z, z, ps, zv, zv, p);
    var y := FMul(z, x, ps, zv, zv * zv, p);
    assert zv * (zv * zv) == zv * zv * zv;
    x := FMul(P.x, x, ps, xv, zv * zv, p);
    y := FMul(P.y, y, ps, yv, zv * zv * zv, p);
    IsNorm(x, xv * (zv * zv), p);
    IsNorm(y, yv * (zv * zv * zv), p);
    SmallNonZero(zv, p);
    jp.x, jp.y, jp.z := x, y, z;
  }

  lemma SmallNonZero(z: int, p: int)
    requires 0 < z < p
    ensures !Cong(z, 0, p)
  {
    if Cong(z, 0, p) { CongSmallEqual(z, 0, p); }
  }

  /** x = X / Z^2 and y = Y / Z^3, or infinity when Z is 0 modulo p. */
  method JacobianToCurve(jp: JPoint, P: Point, ps: Limbs9, ghost Q: Aff, ghost p: int)
    requires PrimeField(ps, p) && JRange(jp.x, jp.y, jp.z, p)
    requires Holdable(Q, p) && Jac(Val(jp.x), Val(jp.y), Val(jp.z), Q, p)
    modifies P
    ensures ARange(P.x, P.y, p) && AffOf(P.x, P.y) == Q
  {
    hide Norm, Val, Cong, Is, PrimeField, Prime;
    PrimeFits(ps, p);
    ghost var X, Y, Z := Val(jp.x), Val(jp.y), Val(jp.z);
    RangeIs(jp.x, p);
    RangeIs(jp.y, p);
    RangeIs(jp.z, p);
    var y := FInv(jp.z, ps, Z, p);
    ghost var i := Val(y);
    var x := FMul(y, y, ps, i, i, p);
    y := FMul(x, y, ps, i * i, i, p);
    x := FMul(jp.x, x, ps, X, i * i, p);
    y := FMul(jp.y, y, ps, Y, i * i * i, p);
    x := FMod(x, ps, X * (i * i), p);
    y := FMod(y, ps, Y * (i * i * i), p);
    IsNorm(x, X * (i * i), p);
    IsNorm(y, Y * (i * i * i), p);
    FromJacobian(X, Y, Z, i, Val(x), Val(y), Q, p);
    P.x, P.y := x, y;
  }

  lemma FromJacobian(X: int, Y: int, Z: int, i: int, xv: int, yv: int, Q: Aff, p: int)
    requires p > 0 && InField(Q, p) && Jac(X, Y, Z, Q, p) && 0 <= xv < p && 0 <= yv < p
    requires Cong(xv, X * (i * i), p) && Cong(yv, Y * (i * i * i), p)
    requires if Cong(Z, 0, p) then i == 0 else Cong(Z * i, 1, p)
    ensures if Q.Inf? then xv == 0 && yv == 0 else xv == Q.x && yv == Q.y
  {
    hide Cong;
    if Q.Inf? {
      assert X * (i * i) == 0 && Y * (i * i * i) == 0;
      CongRefl(0, p);
      SameResidue(xv, 0, 0, p);
      SameResidue(yv, 0, 0, p);
    } else {
      CongMul(Z * i, 1, Z * i, 1, p);
      CongMul((Z * i) * (Z * i), 1, Z * i, 1, p);
      Cleared(X, Q.x, Z * Z, i * i, p, (Z * i) * (Z * i));
      Cleared(Y, Q.y, Z * Z * Z, i * i * i, p, ((Z * i) * (Z * i)) * (Z * i));
      CongSym(X * (i * i), Q.x, p);
      CongSym(Y * (i * i * i), Q.y, p);
      SameResidue(xv, X * (i * i), Q.x, p);
      SameResidue(yv, Y * (i * i * i), Q.y, p);
    }
  }

  lemma Cleared(X: int, x: int, z: int, i: int, p: int, one: int)
    requires Cong(X, x * z, p) && one == z * i && Cong(one, 1, p)
    ensures Cong(X * i, x, p)
  {
    hide Cong;
    CongRefl(i, p);
    CongRefl(x, p);
    CongMul(X, x * z, i, i, p);
    assert (x * z) * i == x * one;
    CongMul(x, x, one, 1, p);
    CongTrans(X * i, x * one, x * 1, p);
  }

  /** Negating z (or y) turns a point into its opposite. */
  ghost function Neg(P: Aff, p: int): Aff {
    if P.Inf? then Inf else Pt(P.x, if P.y == 0 then 0 else p - P.y)
  }

  lemma NegateZ(X: int, Y: int, Z: int, Z': int, Q: Aff, p: int)
    requires p > 0 && InField(Q, p) && Jac(X, Y, Z, Q, p) && Cong(Z', -Z, p)
    ensures Jac(X, Y, Z', Neg(Q, p), p)
  {
    hide Cong;
    CongRefl(0, p);
    if Q.Inf? {
      CongSub(0, 0, Z, 0, p);
      CongTrans(Z', -Z, 0, p);
    } else {
      var ny := if Q.y == 0 then 0 else p - Q.y;
      CongBy(ny, -Q.y, p, if Q.y == 0 then 0 else 1);
      CongMul(Z', -Z, Z', -Z, p);
      CongMul(Z' * Z', (-Z) * (-Z), Z', -Z, p);
      NegInts(Z, Q.y);
      CongRefl(Q.x, p);
      CongMul(Q.x, Q.x, Z' * Z', Z * Z, p);
      CongSym(Q.x * (Z' * Z'), Q.x * (Z * Z), p);
      CongTrans(X, Q.x * (Z * Z), Q.x * (Z' * Z'), p);
      CongMul(ny, -Q.y, Z' * Z' * Z', -(Z * Z * Z), p);
      CongSym(ny * (Z' * Z' * Z'), Q.y * (Z * Z * Z), p);
      CongTrans(Y, Q.y * (Z * Z * Z), ny * (Z' * Z' * Z'), p);
      if Cong(Z', 0, p) {
        CongSym(Z', -Z, p);
        CongTrans(-Z, Z', 0, p);
        CongSub(0, 0, -Z, 0, p);
      }
    }
  }

  lemma NegInts(Z: int, y: int)
    ensures (-Z) * (-Z) == Z * Z && ((-Z) * (-Z)) * (-Z) == -(Z * Z * Z)
    ensures (-y) * (-(Z * Z * Z)) == y * (Z * Z * Z)
  {}

  lemma NegateY(X: int, Y: int, Z: int, Y': int, Q: Aff, p: int)
    requires p > 0 && InField(Q, p) && Jac(X, Y, Z, Q, p) && Cong(Y', -Y, p)
    ensures Jac(X, Y', Z, Neg(Q, p), p)
  {
    hide Cong;
    if Q.Pt? {
      var z3, ny := Z * Z * Z, if Q.y == 0 then 0 else p - Q.y;
      CongBy(ny, -Q.y, p, if Q.y == 0 then 0 else 1);
      CongRefl(z3, p);
      CongRefl(0, p);
      CongMul(ny, -Q.y, z3, z3, p);
      CongSub(0, 0, Y, Q.y * z3, p);
      assert (-Q.y) * z3 == 0 - Q.y * z3;
      CongTrans(Y', -Y, (-Q.y) * z3, p);
      CongSym(ny * z3, (-Q.y) * z3, p);
      CongTrans(Y', (-Q.y) * z3, ny * z3, p);
    }
  }

  /** Conditional negation of one coordinate. */
  method CondNegate(cond: bool, x: Limbs9, ps: Limbs9, ghost p: int) returns (r: Limbs9)
    requires PrimeField(ps, p) && Norm(x) && 0 <= Val(x) < 2 * p
    ensures Norm(r) && 0 <= Val(r) <= 2 * p && Cong(Val(r), if cond then -Val(x) else Val(x), p)
  {
    hide Norm, Val, Cong, Prime;
    var xn := Copy(x);
    var pn := Copy(ps);
    Cnegate(cond, xn, pn);
    r := xn.val;
    ghost var v := Val(x);
    CongBy(Val(r), if cond then -v else v, p, if cond then (if v < p then 2 else 3) else (if v < p then 1 else 0));
  }
}
