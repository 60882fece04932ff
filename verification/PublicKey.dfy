/** Reading public keys in libs/crypto/ecdsa.c: square roots modulo p, point
    decompression and validation. */
module PublicKey {
  import opened Arith
  import opened Limbs
  import opened Bignum
  import opened Product
  import opened Field
  import opened Affine
  import opened Curve
  import opened Bytes
  import opened Scalar

  /** Fermat's little theorem for p, taken as a hypothesis. */
  ghost predicate Fermat(p: int) {
    p >= 0 && forall a: int :: Cong(Pow(a, p), a, p)
  }

  /** What point decompression needs on top of a valid curve. */
  ghost predicate RootCurve(c: EcdsaCurve) {
    ValidCurve(c) && Val(c.prime) % 4 == 3 && c.prime[8] % 4 == 3 && Fermat(Val(c.prime))
  }

  /** x^((p + 1) / 4) modulo p. */
  method FSqrt(x: Limbs9, ps: Limbs9, ghost xd: int, ghost p: int) returns (r: Limbs9)
    requires PrimeField(ps, p) && Is(x, xd, p) && p % 4 == 3 && ps[8] % 4 == 3
    ensures Norm(r) && 0 <= Val(r) < p && Cong(Val(r), Pow(xd, (p + 1) / 4), p)
  {
    hide Norm, Val, Cong, Prime, Pow;
    var xn := Copy(x);
    var pn := Copy(ps);
    var e := Copy(ps);
    Addi(e, 1);
    Rshift(e);
    Rshift(e);
    assert Val(e.val) == (p + 1) / 4;
    PowerMod(xn, e, pn, xn);
    ghost var v := Val(xn.val);
    Mod(xn, pn);
    r := xn.val;
    ValBound(r);
    CongPow(Val(x), xd, (p + 1) / 4, p);
    CongBy(Val(r), v, p, if v < p then 0 else -1);
    CongTrans(Val(r), v, Pow(Val(x), (p + 1) / 4), p);
    CongTrans(Val(r), Pow(Val(x), (p + 1) / 4), Pow(xd, (p + 1) / 4), p);
  }

  /** If w has a square root y, the formula gives y or -y. */
  lemma RootCorrect(w: int, y: int, r: int, p: int)
    requires Prime(p) && p % 4 == 3 && Fermat(p) && Cong(y * y, w, p) && Cong(r, Pow(w, (p + 1) / 4), p)
    ensures Cong(r, y, p) || Cong(r, -y, p)
  {
    hide Cong, Pow, Fermat;
    var e := (p + 1) / 4;
    CongSym(y * y, w, p);
    CongPow(w, y * y, e, p);
    CongTrans(r, Pow(w, e), Pow(y * y, e), p);
    RootPower(y, e, p);
    CongMul(r, Pow(y * y, e), r, Pow(y * y, e), p);
    CongTrans(r * r, Pow(y * y, e) * Pow(y * y, e), y * y, p);
    CongRefl(y * y, p);
    CongSub(r * r, y * y, y * y, y * y, p);
    assert r * r - y * y == (r - y) * (r + y);
    CongRefl(y, p);
    if Cong(r - y, 0, p) {
      CongAdd(r - y, 0, y, y, p);
    } else {
      NoZeroDivisors(r - y, r + y, p);
      CongSub(r + y, 0, y, y, p);
    }
  }

  /** (y^2)^e squared is y^(p+1) = y^2. */
  lemma RootPower(y: int, e: nat, p: int)
    requires 4 * e == p + 1 && Fermat(p)
    ensures Cong(Pow(y * y, e) * Pow(y * y, e), y * y, p)
  {
    hide Cong, Pow;
    PowTwo(y);
    PowMul(y, 2, e);
    PowAdd(y, 2 * e, 2 * e);
    PowAdd(y, p, 1);
    assert 2 * e + 2 * e == p + 1;
    CongRefl(y, p);
    assert Cong(Pow(y, p), y, p);
    CongMul(Pow(y, p), y, y, y, p);
  }

  /** y^2 = x^3 + a x + b. */
  function CurveRhs(x: int, a: int, b: int): int { x * (x * x + a) + b }

  lemma OnCurveRhs(P: Aff, a: int, b: int, p: int)
    requires P.Pt?
    ensures OnCurve(P, a, b, p) <==> Cong(P.y * P.y, CurveRhs(P.x, a, b), p)
  {
    assert CurveRhs(P.x, a, b) == P.x * P.x * P.x + a * P.x + b;
  }

  /** The root of the right-hand side with the requested parity; when the formula
      gives 0 for an odd request the result is p itself. */
  method UncompressCoords(c: EcdsaCurve, odd: int, x: Limbs9) returns (y: Limbs9)
    requires RootCurve(c) && Norm(x) && 0 <= Val(x) < P256 && odd >= 0
    ensures Norm(y) && 0 <= Val(y) <= Val(c.prime)
    ensures exists r: int :: RootOf(c, r, Val(x)) && Val(y) == (if r % 2 == odd % 2 then r else Val(c.prime) - r)
  {
    hide Norm, Val, Cong, Prime, Pow, Is, PrimeField, Fermat;
    ghost var p, xv, b := Val(c.prime), Val(x), Val(c.b);
    PrimeFits(c.prime, p);
    IsSelf(x, p);
    IsSelf(c.b, p);
    y := FMul(x, x, c.prime, xv, xv, p);
    y := FSubSmall(y, -c.a, c.prime, xv * xv, p);
    y := FMul(x, y, c.prime, xv, xv * xv - (-c.a), p);
    y := FAdd(y, c.b, xv * (xv * xv - (-c.a)), b, p);
    assert xv * (xv * xv - (-c.a)) + b == CurveRhs(xv, c.a, b);
    y := FSqrt(y, c.prime, CurveRhs(xv, c.a, b), p);
    ghost var r := Val(y);
    assert RootOf(c, r, xv);
    ValSum(y);
    if odd % 2 != y[0] % 2 {
      var yn := Copy(y);
      var pn := Copy(c.prime);
      Subtract(pn, yn, yn);
      y := yn.val;
    }
  }

  ghost predicate RootOf(c: EcdsaCurve, r: int, x: int) {
    0 <= r < Val(c.prime) && Cong(r, Pow(CurveRhs(x, c.a, Val(c.b)), (Val(c.prime) + 1) / 4), Val(c.prime))
  }

  /** Decompression finds the point of the curve with that x and parity, if there is one. */
  lemma UncompressFinds(c: EcdsaCurve, odd: int, Q: Aff, r: int, y: int)
    requires RootCurve(c) && Q.Pt? && InField(Q, Val(c.prime)) && OnCurve(Q, c.a, Val(c.b), Val(c.prime))
    requires RootOf(c, r, Q.x) && Q.y % 2 == odd % 2
    requires y == if r % 2 == odd % 2 then r else Val(c.prime) - r
    ensures y == Q.y
  {
    hide Cong, Prime, Pow, Fermat, Val, OnCurve, CurveRhs;
    var p := Val(c.prime);
    PrimeFits(c.prime, p);
    OnCurveRhs(Q, c.a, Val(c.b), p);
    RootCorrect(CurveRhs(Q.x, c.a, Val(c.b)), Q.y, r, p);
    RootResidue(r, Q.y, p);
    PickParity(r, Q.y, p, odd);
  }

  /** Of y and p - y the parity picks y. */
  lemma PickParity(r: int, y: int, p: int, odd: int)
    requires p % 2 == 1 && y % 2 == odd % 2 && (r == y || (y > 0 && r == p - y))
    ensures (if r % 2 == odd % 2 then r else p - r) == y
  {
    if r == p - y {
      assert p == r + y;
    }
  }

  lemma RootResidue(r: int, y: int, p: int)
    requires 0 <= r < p && 0 <= y < p && (Cong(r, y, p) || Cong(r, -y, p))
    ensures r == y || (y > 0 && r == p - y)
  {
    if Cong(r, y, p) {
      CongSmallEqual(r, y, p);
    } else if y > 0 {
      CongBy(-y, p - y, p, -1);
      CongTrans(r, -y, p - y, p);
      CongSmallEqual(r, p - y, p);
    } else {
      CongSmallEqual(r, 0, p);
    }
  }

  /** A finite point of the curve with reduced coordinates. */
  ghost predicate ValidPoint(Q: Aff, c: EcdsaCurve) {
    Q.Pt? && Holdable(Q, Val(c.prime)) && OnCurve(Q, c.a, Val(c.b), Val(c.prime))
  }

  method ValidatePubkey(c: EcdsaCurve, pub: Point) returns (ok: bool)
    requires ValidCurve(c) && Norm(pub.x) && Norm(pub.y)
    ensures ok == ValidPoint(Pt(Val(pub.x), Val(pub.y)), c)
  {
    hide Norm, Val, Cong, Prime, Is, PrimeField, OnCurve;
    ghost var p, b := Val(c.prime), Val(c.b);
    ghost var xv, yv := Val(pub.x), Val(pub.y);
    PrimeFits(c.prime, p);
    ValBound(pub.x);
    ValBound(pub.y);
    var inf := IsInfinity(pub);
    if inf {
      return false;
    }
    var xn := Copy(pub.x);
    var yn := Copy(pub.y);
    var pn := Copy(c.prime);
    var xLess := IsLess(xn, pn);
    var yLess := IsLess(yn, pn);
    if !xLess || !yLess {
      return false;
    }
    IsSelf(pub.x, p);
    IsSelf(pub.y, p);
    IsSelf(c.b, p);
    var y2 := FMul(pub.y, pub.y, c.prime, yv, yv, p);
    y2 := FMod(y2, c.prime, yv * yv, p);
    var f := FMul(pub.x, pub.x, c.prime, xv, xv, p);
    f := FSubSmall(f, -c.a, c.prime, xv * xv, p);
    f := FMul(pub.x, f, c.prime, xv, xv * xv - (-c.a), p);
    f := FAddMod(f, c.b, c.prime, xv * (xv * xv - (-c.a)), b, p);
    assert xv * (xv * xv - (-c.a)) + b == CurveRhs(xv, c.a, b);
    f := FMod(f, c.prime, CurveRhs(xv, c.a, b), p);
    IsNorm(f, CurveRhs(xv, c.a, b), p);
    IsNorm(y2, yv * yv, p);
    ok := SameLimbs(f, y2);
    CongMod(yv * yv, CurveRhs(xv, c.a, b), p);
    OnCurveRhs(Pt(xv, yv), c.a, b, p);
  }

  /** The encodings ecdsa_read_pubkey accepts: 0x04 with both coordinates, 0x02
      or 0x03 with x and the parity of y. */
  ghost predicate PubEncodes(pub: seq<uint8>, Q: Aff, c: EcdsaCurve) {
    && |pub| >= 33 && ValidPoint(Q, c) && Q.x == BeVal(pub[1..33])
    && ((pub[0] == 4 && |pub| >= 65 && Q.y == BeVal(pub[33..65])) || ((pub[0] == 2 || pub[0] == 3) && Q.y % 2 == pub[0] % 2))
  }

  /** Succeeds exactly when the bytes encode a valid point, and reads that point. */
  method ReadPubkey(c: EcdsaCurve, pub: seq<uint8>, P: Point) returns (ok: bool)
    requires RootCurve(c) && |pub| >= 33 && (pub[0] == 4 ==> |pub| >= 65)
    modifies P
    ensures ok <==> exists Q: Aff :: PubEncodes(pub, Q, c)
    ensures ok ==> ARange(P.x, P.y, Val(c.prime)) && PubEncodes(pub, AffOf(P.x, P.y), c)
    ensures forall Q: Aff :: PubEncodes(pub, Q, c) ==> AffOf(P.x, P.y) == Q
  {
    hide Norm, Val, Cong, Prime, PrimeField, OnCurve, RootOf, BeVal, Fermat;
    ghost var p := Val(c.prime);
    PrimeFits(c.prime, p);
    ok := false;
    if pub[0] == 4 {
      P.x := ReadBe(pub[1..33]);
      P.y := ReadBe(pub[33..65]);
      ok := ValidatePubkey(c, P);
      ghost var R := Pt(Val(P.x), Val(P.y));
      assert ok ==> PubEncodes(pub, R, c);
    } else if pub[0] == 2 || pub[0] == 3 {
      P.x := ReadBe(pub[1..33]);
      P.y := UncompressCoords(c, pub[0], P.x);
      ok := ValidatePubkey(c, P);
      ghost var R := Pt(Val(P.x), Val(P.y));
      ghost var r: int :| RootOf(c, r, R.x) && R.y == (if r % 2 == pub[0] % 2 then r else p - r);
      RootBound(c, r, R.x);
      assert ok ==> PubEncodes(pub, R, c);
      forall Q: Aff | PubEncodes(pub, Q, c) ensures Q == R {
        UncompressFinds(c, pub[0], Q, r, R.y);
      }
    }
  }

  lemma RootBound(c: EcdsaCurve, r: int, x: int)
    requires RootOf(c, r, x)
    ensures 0 <= r < Val(c.prime)
  {}
}
