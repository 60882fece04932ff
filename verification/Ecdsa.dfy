/** Signing, verification and key recovery of libs/crypto/ecdsa.c. */
module Ecdsa {
  import opened Arith
  import opened Limbs
  import opened Bignum
  import opened Field
  import opened Affine
  import opened Curve
  import opened Bytes
  import opened Scalar
  import opened PublicKey

  /** Every finite point of the curve is a multiple of the generator. */
  ghost predicate Cofactor1(g: int -> Aff, c: EcdsaCurve) {
    forall Q: Aff :: ValidPoint(Q, c) ==> exists d: int :: g(d) == Q
  }

  /** The setting of this module: g(i) = i G on a curve of prime order and
      cofactor one, with the library's constants and precomputed table. */
  ghost predicate Setting(g: int -> Aff, c: EcdsaCurve, cp: seq<seq<Coords>>) {
    && Multiples(g, c) && RootCurve(c) && PowerTable(cp, g, Val(c.prime)) && Cofactor1(g, c)
    && PrimeField(c.order, Val(c.order))
    && Norm(c.orderHalf) && Val(c.orderHalf) == Val(c.order) / 2
  }

  // --------------------------------------------------- multiples of a point

  /** The multiples of d G. */
  ghost function Based(g: int -> Aff, d: int): int -> Aff {
    i => g(d * i)
  }

  /** A nonzero multiple of a generator of prime order generates the group too. */
  lemma BasedGroup(g: int -> Aff, d: int, n: int, a: int, b: int, p: int)
    requires CyclicGroup(g, n, a, b, p) && Prime(n) && !Cong(d, 0, n)
    ensures CyclicGroup(Based(g, d), n, a, b, p)
  {
    hide Holdable, OnCurve, IsSum, Cong;
    var h := Based(g, d);
    forall i: int ensures ElementAt(h, i, n, a, b, p) {
      GroupAt(g, n, a, b, p, d * i);
      CongRefl(d, n);
      if Cong(i, 0, n) { CongMul(d, d, i, 0, n); }
      if Cong(d * i, 0, n) { NoZeroDivisors(d, i, n); }
    }
    forall i: int, j: int ensures SumAt(h, i, j, a, p) {
      GroupSum(g, n, a, b, p, d * i, d * j);
      assert d * (i + j) == d * i + d * j;
    }
  }

  // --------------------------------------------------------- specifications

  ghost predicate InRange(x: int, n: int) { 0 < x < n }

  /** The inverse of s modulo a prime n. */
  ghost function InvMod(s: int, n: int): (i: int)
    requires Prime(n) && InRange(s, n)
    ensures Cong(s * i, 1, n)
  {
    InvExists(s, n);
    var i: int :| Cong(s * i, 1, n);
    i
  }

  lemma InvExists(s: int, n: int)
    requires Prime(n) && InRange(s, n)
    ensures exists i: int :: Cong(s * i, 1, n)
  {
    hide Cong, Coprime;
    SmallNonZero(s, n);
    PrimeCoprime(s, n);
    var u, v := Bezout(s, n);
    CongBy(s * u, 1, n, -v);
  }

  /** Inverses are unique modulo n. */
  lemma InvUnique(s: int, i: int, j: int, n: int)
    requires Cong(s * i, 1, n) && Cong(s * j, 1, n)
    ensures Cong(i, j, n)
  {
    hide Cong;
    CongRefl(i, n);
    CongRefl(j, n);
    CongMul(i, i, s * j, 1, n);
    CongSym(i * (s * j), i * 1, n);
    CongMul(s * i, 1, j, j, n);
    assert i * (s * j) == (s * i) * j;
    CongTrans(i, i * (s * j), 1 * j, n);
  }

  /** Verification as in section 4.1.4 of SEC 1 version 2, for the key d G: the
      code ecdsa_verify_digest returns. */
  ghost function VerifyCode(g: int -> Aff, n: int, d: int, r: int, s: int, z: int): int
    requires Prime(n)
  {
    if z == 0 then 3
    else if !InRange(r, n) || !InRange(s, n) then 2
    else
      var w := InvMod(s, n);
      var R := g(z * w + (r * w) * d);
      if R.Inf? then 4 else if R.x % n != r then 5 else 0
  }

  /** (r, s, recid) is a signature of z by the key d made with the nonce k: r is the
      x coordinate of k G modulo n, s k = r d + z up to sign, and by records
      whether x was reduced and the parity of y after that sign. */
  ghost predicate SignedWith(g: int -> Aff, n: int, d: int, z: int, k: int, flip: bool, r: int, s: int, recid: int) {
    && InRange(k, n) && g(k).Pt? && InRange(r, n) && InRange(s, n) && 2 * s < n
    && (r == g(k).x || r + n == g(k).x)
    && Cong(s * k, if flip then -(r * d + z) else r * d + z, n)
    && recid == (if r == g(k).x then 0 else 2) + (if flip then 1 - g(k).y % 2 else g(k).y % 2)
  }

  /** w (z + r d) = +-k for the inverse w of s. */
  lemma SignatureScalar(n: int, d: int, z: int, k: int, flip: bool, r: int, s: int, w: int)
    requires Cong(s * k, if flip then -(r * d + z) else r * d + z, n) && Cong(s * w, 1, n)
    ensures Cong(z * w + (r * w) * d, if flip then -k else k, n)
  {
    hide Cong;
    var e := if flip then -(r * d + z) else r * d + z;
    CongRefl(w, n);
    CongRefl(k, n);
    CongMul(s * k, e, w, w, n);
    CongMul(s * w, 1, k, k, n);
    assert (s * k) * w == (s * w) * k;
    CongSym((s * k) * w, e * w, n);
    CongTrans(e * w, (s * w) * k, 1 * k, n);
    ScalarInts(z, w, r, d);
    if flip {
      CongRefl(0, n);
      CongSub(0, 0, e * w, k, n);
    }
  }

  lemma ScalarInts(z: int, w: int, r: int, d: int)
    ensures z * w + (r * w) * d == (r * d + z) * w && 0 - (-(r * d + z)) * w == (r * d + z) * w
  {}

  /** Every signature verifies under its own key. */
  lemma SignatureVerifies(g: int -> Aff, n: int, a: int, b: int, p: int, d: int, z: int, k: int, flip: bool, r: int, s: int, recid: int)
    requires CyclicGroup(g, n, a, b, p) && Prime(n) && z != 0 && p < 2 * n
    requires SignedWith(g, n, d, z, k, flip, r, s, recid)
    ensures VerifyCode(g, n, d, r, s, z) == 0
  {
    hide Cong, CyclicGroup, Prime, OnCurve;
    var w := InvMod(s, n);
    var t := z * w + (r * w) * d;
    SignatureScalar(n, d, z, k, flip, r, s, w);
    GroupPeriod(g, n, a, b, p, t, if flip then -k else k);
    GroupAt(g, n, a, b, p, k);
    GroupNeg(g, n, a, b, p, k);
    var x := g(k).x;
    ModUnique(x, if r == x then 0 else 1, r, n);
  }

  // ---------------------------------------------------------------- signing

  /** The random numbers one signing attempt draws. */
  datatype Attempt = Attempt(nonce: Limbs9, blind: Limbs9, z: Limbs9)

  ghost predicate GoodAttempt(t: Attempt, c: EcdsaCurve) {
    && Norm(t.nonce) && Norm(t.blind) && InRange(Val(t.blind), Val(c.order))
    && Norm(t.z) && InRange(Val(t.z), Val(c.prime))
  }

  /** s = (r d + z) / k, with the nonce blinded by a random factor. */
  method SignScalar(k: Limbs9, blind: Limbs9, rx: Limbs9, d: Limbs9, z: Limbs9, c: EcdsaCurve) returns (s: Limbs9)
    requires PrimeField(c.order, Val(c.order))
    requires Norm(k) && InRange(Val(k), Val(c.order)) && Norm(blind) && InRange(Val(blind), Val(c.order))
    requires Norm(rx) && InRange(Val(rx), Val(c.order)) && Norm(d) && InRange(Val(d), Val(c.order))
    requires Norm(z) && 0 <= Val(z) < P256
    ensures Norm(s) && 0 <= Val(s) < Val(c.order)
    ensures Cong(Val(s) * Val(k), Val(rx) * Val(d) + Val(z), Val(c.order))
  {
    hide Norm, Val, Cong, Prime, Is, PrimeField;
    ghost var n, kv, bv, rv, dv, zv := Val(c.order), Val(k), Val(blind), Val(rx), Val(d), Val(z);
    PrimeFits(c.order, n);
    IsSelf(k, n);
    IsSelf(blind, n);
    IsSelf(rx, n);
    IsSelf(d, n);
    IsSelf(z, n);
    var kb := FMul(blind, k, c.order, bv, kv, n);
    kb := FInv(kb, c.order, bv * kv, n);
    ghost var i := Val(kb);
    s := FMul(rx, d, c.order, rv, dv, n);
    s := FAdd(s, z, rv * dv, zv, n);
    ghost var e := rv * dv + zv;
    s := FMul(kb, s, c.order, i, e, n);
    s := FMul(blind, s, c.order, bv, i * e, n);
    s := FMod(s, c.order, bv * (i * e), n);
    IsNorm(s, bv * (i * e), n);
    SmallNonZero(kv, n);
    SmallNonZero(bv, n);
    NonZeroProduct(bv, kv, n);
    UnblindScalar(Val(s), bv, kv, i, e, n);
  }

  lemma UnblindScalar(s: int, b: int, k: int, i: int, e: int, n: int)
    requires Cong(s, b * (i * e), n) && Cong((b * k) * i, 1, n)
    ensures Cong(s * k, e, n)
  {
    hide Cong;
    CongRefl(k, n);
    CongRefl(e, n);
    CongMul(s, b * (i * e), k, k, n);
    CongMul((b * k) * i, 1, e, e, n);
    assert (b * (i * e)) * k == ((b * k) * i) * e;
    CongTrans(s * k, ((b * k) * i) * e, 1 * e, n);
  }

  datatype SignStep = Retry | BadKey | Signed(sig: seq<uint8>, recid: int)

  /** What a successful attempt has produced. */
  ghost predicate GoodSignature(g: int -> Aff, n: int, d: int, z: int, k: int, sig: seq<uint8>, recid: int) {
    |sig| == 64 && exists flip: bool :: SignedWith(g, n, d, z, k, flip, BeVal(sig[..32]), BeVal(sig[32..]), recid)
  }

  /** The nonce is in range and its point has an x coordinate that is not 0 modulo n. */
  ghost predicate NonceUsable(g: int -> Aff, n: int, k: int)
    requires n > 0
  {
    InRange(k, n) && g(k).Pt? && g(k).x % n != 0
  }

  /** s would be 0. */
  ghost predicate ZeroScalar(g: int -> Aff, n: int, d: int, z: int, k: int)
    requires n > 0 && g(k).Pt?
  {
    Cong((g(k).x % n) * d + z, 0, n)
  }

  method IsInvalidScalar(k: Limbs9, order: Limbs9) returns (bad: bool)
    requires Norm(k) && Norm(order)
    ensures bad == !InRange(Val(k), Val(order))
  {
    hide Norm, Val;
    ValBound(k);
    var kn := Copy(k);
    var on := Copy(order);
    var zero := IsZero(kn);
    var less := IsLess(kn, on);
    bad := zero || !less;
  }

  /** k G: its x coordinate modulo n and the recovery byte it calls for. */
  method NoncePoint(c: EcdsaCurve, cp: seq<seq<Coords>>, t: Attempt, ghost g: int -> Aff) returns (rx: Limbs9, recid: int)
    requires Setting(g, c, cp) && GoodAttempt(t, c) && InRange(Val(t.nonce), Val(c.order))
    ensures Norm(rx) && 0 <= Val(rx) < Val(c.order)
    ensures var R := g(Val(t.nonce));
            && R.Pt? && (Val(rx) == R.x || Val(rx) + Val(c.order) == R.x)
            && recid == (if Val(rx) == R.x then 0 else 2) + R.y % 2
  {
    hide Norm, Val, Cong, Prime, PrimeField, CyclicGroup, RootCurve, PowerTable, Cofactor1, ARange;
    ghost var p, n, kv := Val(c.prime), Val(c.order), Val(t.nonce);
    PrimeFits(c.order, n);
    PrimeFits(c.prime, p);
    var R := new Point(Zero9, Zero9);
    var code := ScalarMultiply(c, t.nonce, cp, R, t.z, g);
    SmallNonZero(kv, n);
    GroupAt(g, n, c.a, Val(c.b), p, kv);
    RangeOfPoint(R.x, R.y, p);
    ValSum(R.y);
    recid := R.y[0] % 2;
    rx := R.x;
    var xn := Copy(R.x);
    var on := Copy(c.order);
    var xLess := IsLess(xn, on);
    if !xLess {
      Subtract(xn, on, xn);
      rx := xn.val;
      recid := recid + 2;
    }
  }

  /** One pass of the signing loop, up to the signature bytes. */
  method SignOnce(c: EcdsaCurve, cp: seq<seq<Coords>>, priv: seq<uint8>, z: Limbs9, t: Attempt, ghost g: int -> Aff) returns (step: SignStep)
    requires Setting(g, c, cp) && |priv| == 32 && Norm(z) && 0 < Val(z) < P256 && GoodAttempt(t, c)
    ensures Val(c.order) > 0
    ensures step.BadKey? <==> NonceUsable(g, Val(c.order), Val(t.nonce)) && !InRange(BeVal(priv), Val(c.order))
    ensures step.Retry? <==> !NonceUsable(g, Val(c.order), Val(t.nonce))
                             || (InRange(BeVal(priv), Val(c.order)) && ZeroScalar(g, Val(c.order), BeVal(priv), Val(z), Val(t.nonce)))
    ensures step.Signed? ==> InRange(BeVal(priv), Val(c.order))
                             && GoodSignature(g, Val(c.order), BeVal(priv), Val(z), Val(t.nonce), step.sig, step.recid)
  {
    hide Norm, Val, Cong, Prime, PrimeField, Multiples, RootCurve, PowerTable, Cofactor1, BeVal, GoodSignature;
    PrimeFits(c.order, Val(c.order));
    var badNonce := IsInvalidScalar(t.nonce, c.order);
    if badNonce {
      return Retry;
    }
    var rx, recid := NoncePoint(c, cp, t, g);
    ghost var X := g(Val(t.nonce)).x;
    ModUnique(X, if Val(rx) == X then 0 else 1, Val(rx), Val(c.order));
    var rn := Copy(rx);
    var rZero := IsZero(rn);
    if rZero {
      return Retry;
    }
    var d := ReadBe(priv);
    var badKey := IsInvalidScalar(d, c.order);
    if badKey {
      return BadKey;
    }
    step := SignFinish(c, t, rx, d, z, recid, g);
  }

  lemma RangeOfPoint(xs: Limbs9, ys: Limbs9, p: int)
    requires ARange(xs, ys, p)
    ensures Norm(xs) && Norm(ys) && 0 <= Val(xs) < p && 0 <= Val(ys) < p
  {}

  /** Computes s, makes it the smaller of s and n - s, and writes the signature. */
  method SignFinish(c: EcdsaCurve, t: Attempt, rx: Limbs9, d: Limbs9, z: Limbs9, recid0: int, ghost g: int -> Aff) returns (step: SignStep)
    requires PrimeField(c.order, Val(c.order)) && GoodAttempt(t, c)
    requires Norm(c.orderHalf) && Val(c.orderHalf) == Val(c.order) / 2
    requires Norm(z) && 0 < Val(z) < P256 && Norm(d) && InRange(Val(d), Val(c.order))
    requires InRange(Val(t.nonce), Val(c.order)) && Norm(rx) && InRange(Val(rx), Val(c.order))
    requires var R := g(Val(t.nonce));
             && R.Pt? && (Val(rx) == R.x || Val(rx) + Val(c.order) == R.x)
             && recid0 == (if Val(rx) == R.x then 0 else 2) + R.y % 2
    ensures Val(c.order) > 0 && (step.Retry? || step.Signed?)
    ensures step.Retry? <==> ZeroScalar(g, Val(c.order), Val(d), Val(z), Val(t.nonce))
    ensures step.Signed? ==> GoodSignature(g, Val(c.order), Val(d), Val(z), Val(t.nonce), step.sig, step.recid)
  {
    hide Norm, Val, Cong, Prime, PrimeField, BeVal;
    ghost var n, kv, rv, dv, zv := Val(c.order), Val(t.nonce), Val(rx), Val(d), Val(z);
    PrimeFits(c.order, n);
    var s := SignScalar(t.nonce, t.blind, rx, d, z, c);
    ModUnique(g(kv).x, if rv == g(kv).x then 0 else 1, rv, n);
    ZeroExactly(Val(s), kv, rv * dv + zv, n);
    var sn := Copy(s);
    var sZero := IsZero(sn);
    if sZero {
      return Retry;
    }
    ghost var s0 := Val(s);
    var half := Copy(c.orderHalf);
    var flip := IsLess(half, sn);
    var recid := recid0;
    if flip {
      var on := Copy(c.order);
      Subtract(on, sn, sn);
      recid := if recid % 2 == 0 then recid + 1 else recid - 1;
      NegatedScalar(s0, kv, rv * dv + zv, n);
    }
    var sigR := WriteBe(rx);
    var sigS := WriteBe(sn.val);
    var sig := sigR + sigS;
    assert sig[..32] == sigR && sig[32..] == sigS;
    assert SignedWith(g, n, dv, zv, kv, flip, rv, Val(sn.val), recid);
    step := Signed(sig, recid);
  }

  /** s is 0 exactly when r d + z is 0 modulo n. */
  lemma ZeroExactly(s: int, k: int, e: int, n: int)
    requires Prime(n) && 0 <= s < n && InRange(k, n) && Cong(s * k, e, n)
    ensures s == 0 <==> Cong(e, 0, n)
  {
    hide Cong, Prime;
    CongSym(s * k, e, n);
    if Cong(e, 0, n) {
      CongTrans(s * k, e, 0, n);
      SmallNonZero(k, n);
      NoZeroDivisors(k, s, n);
      if s > 0 { SmallNonZero(s, n); }
    }
  }

  lemma NegatedScalar(s: int, k: int, e: int, n: int)
    requires Cong(s * k, e, n)
    ensures Cong((n - s) * k, -e, n)
  {
    hide Cong;
    CongRefl(0, n);
    CongSub(0, 0, s * k, e, n);
    CongBy((n - s) * k, 0 - s * k, n, k);
    CongTrans((n - s) * k, 0 - s * k, -e, n);
  }

  /** s k = e and t k = e' with e' = e or e' = -e, for scalars below n / 2. */
  lemma SameScalar(s: int, t: int, k: int, e: int, opposite: bool, n: int)
    requires Prime(n) && InRange(k, n) && InRange(s, n) && 2 * s < n && InRange(t, n) && 2 * t < n
    requires Cong(s * k, e, n) && Cong(t * k, if opposite then -e else e, n)
    ensures !opposite && s == t
  {
    hide Cong, Prime;
    SmallNonZero(k, n);
    var x := if opposite then s + t else s - t;
    if opposite {
      CongAdd(s * k, e, t * k, -e, n);
      assert k * x == s * k + t * k;
    } else {
      CongSub(s * k, e, t * k, e, n);
      assert k * x == s * k - t * k;
    }
    NoZeroDivisors(k, x, n);
    if x > 0 {
      SmallNonZero(x, n);
    } else if x < 0 {
      CongSub(0, 0, x, 0, n) by { CongRefl(0, n); }
      SmallNonZero(-x, n);
    }
  }

  /** Key, digest and nonce determine the signature and its recovery byte. */
  lemma SignatureUnique(g: int -> Aff, n: int, d: int, z: int, k: int, sig: seq<uint8>, recid: int, sig': seq<uint8>, recid': int)
    requires Prime(n) && GoodSignature(g, n, d, z, k, sig, recid) && GoodSignature(g, n, d, z, k, sig', recid')
    ensures sig == sig' && recid == recid'
  {
    hide Cong, Prime, BeVal;
    var r, s, r', s' := BeVal(sig[..32]), BeVal(sig[32..]), BeVal(sig'[..32]), BeVal(sig'[32..]);
    var f: bool :| SignedWith(g, n, d, z, k, f, r, s, recid);
    var f': bool :| SignedWith(g, n, d, z, k, f', r', s', recid');
    assert r == r';
    var e := if f then -(r * d + z) else r * d + z;
    SameScalar(s, s', k, e, f != f', n);
    BeInjective(sig[..32], sig'[..32]);
    BeInjective(sig[32..], sig'[32..]);
    assert sig == sig[..32] + sig[32..] && sig' == sig'[..32] + sig'[32..];
  }

  /** An attempt that gives a canonical signature is not skipped. */
  lemma NotSkipped(g: int -> Aff, n: int, d: int, z: int, k: int, isCanonical: (int, seq<uint8>) -> bool, sig: seq<uint8>, recid: int)
    requires Prime(n) && n > 0 && GoodSignature(g, n, d, z, k, sig, recid) && isCanonical(recid, sig)
    ensures !Skipped(g, n, d, z, k, isCanonical)
  {
    hide Cong, Prime, BeVal;
    var r, s := BeVal(sig[..32]), BeVal(sig[32..]);
    var f: bool :| SignedWith(g, n, d, z, k, f, r, s, recid);
    ModUnique(g(k).x, if r == g(k).x then 0 else 1, r, n);
    NonZeroScalar(s, k, r * d + z, f, n);
    forall sig': seq<uint8>, recid': int | GoodSignature(g, n, d, z, k, sig', recid') ensures isCanonical(recid', sig') {
      SignatureUnique(g, n, d, z, k, sig, recid, sig', recid');
    }
  }

  lemma NonZeroScalar(s: int, k: int, e: int, flip: bool, n: int)
    requires Prime(n) && InRange(s, n) && InRange(k, n) && Cong(s * k, if flip then -e else e, n)
    ensures !Cong(e, 0, n)
  {
    hide Cong, Prime;
    ZeroExactly(s, k, if flip then -e else e, n);
    if Cong(e, 0, n) {
      CongRefl(0, n);
      CongSub(0, 0, e, 0, n);
    }
  }

  /** An attempt the loop goes past: the nonce is not usable, s would be 0, or the
      signature it gives is not canonical. */
  ghost predicate Skipped(g: int -> Aff, n: int, d: int, z: int, k: int, isCanonical: (int, seq<uint8>) -> bool)
    requires n > 0
  {
    || !NonceUsable(g, n, k)
    || (InRange(d, n) && (ZeroScalar(g, n, d, z, k)
                          || exists sig: seq<uint8>, recid: int :: GoodSignature(g, n, d, z, k, sig, recid) && !isCanonical(recid, sig)))
  }

  ghost predicate AllSkipped(g: int -> Aff, n: int, d: int, z: int, tries: seq<Attempt>, isCanonical: (int, seq<uint8>) -> bool)
    requires n > 0
  {
    forall i :: 0 <= i < |tries| ==> Skipped(g, n, d, z, Val(tries[i].nonce), isCanonical)
  }

  /** The first attempt that is not skipped. */
  ghost predicate FirstOpen(g: int -> Aff, n: int, d: int, z: int, tries: seq<Attempt>, isCanonical: (int, seq<uint8>) -> bool, i: int)
    requires n > 0
  {
    0 <= i < |tries| && AllSkipped(g, n, d, z, tries[..i], isCanonical) && !Skipped(g, n, d, z, Val(tries[i].nonce), isCanonical)
  }

  /** Returns 0 with a signature, 1 for the zero digest, 2 for an invalid key, -1
      when every attempt had to be repeated; used is the attempt that decided.  The nonces stand for the output of
      the deterministic generator. */
  method SignDigest(c: EcdsaCurve, cp: seq<seq<Coords>>, priv: seq<uint8>, digest: seq<uint8>, tries: seq<Attempt>,
                    isCanonical: (int, seq<uint8>) -> bool, ghost g: int -> Aff)
    returns (ret: int, sig: seq<uint8>, recid: int, ghost used: nat)
    requires Setting(g, c, cp) && |priv| == 32 && |digest| == 32
    requires |tries| == 10000 && forall i :: 0 <= i < |tries| ==> GoodAttempt(tries[i], c)
    ensures Val(c.order) > 0 && (ret == 0 || ret == 1 || ret == 2 || ret == -1)
    ensures ret == 1 <==> BeVal(digest) == 0
    ensures ret == -1 <==> BeVal(digest) != 0 && AllSkipped(g, Val(c.order), BeVal(priv), BeVal(digest), tries, isCanonical)
    ensures ret == 2 <==> BeVal(digest) != 0 && !InRange(BeVal(priv), Val(c.order))
                          && exists i :: 0 <= i < |tries| && NonceUsable(g, Val(c.order), Val(tries[i].nonce))
    ensures ret == 0 ==> InRange(BeVal(priv), Val(c.order))
    ensures ret == 0 || ret == 2 ==> FirstOpen(g, Val(c.order), BeVal(priv), BeVal(digest), tries, isCanonical, used)
    ensures ret == 0 ==> isCanonical(recid, sig)
                         && GoodSignature(g, Val(c.order), BeVal(priv), BeVal(digest), Val(tries[used].nonce), sig, recid)
  {
    hide Norm, Val, Setting, BeVal, GoodSignature, GoodAttempt, ZeroScalar, NonceUsable, Skipped;
    OrderPositive(g, c, cp);
    ghost var n, d, zv := Val(c.order), BeVal(priv), BeVal(digest);
    ret, sig, recid, used := -1, [], 0, 0;
    var z := ReadBe(digest);
    ValBound(z);
    var zn := Copy(z);
    var zZero := IsZero(zn);
    if zZero {
      return 1, [], 0, 0;
    }
    for i := 0 to 10000
      invariant AllSkipped(g, n, d, zv, tries[..i], isCanonical) && ret == -1
    {
      var step := SignOnce(c, cp, priv, z, tries[i], g);
      if step.BadKey? {
        UnskippedKey(g, n, d, zv, Val(tries[i].nonce), isCanonical);
        return 2, [], 0, i;
      }
      if step.Signed? && isCanonical(step.recid, step.sig) {
        NotSkipped(g, n, d, zv, Val(tries[i].nonce), isCanonical, step.sig, step.recid);
        return 0, step.sig, step.recid, i;
      }
      SkipOne(g, n, d, zv, tries, i, isCanonical, step);
    }
    assert tries[..10000] == tries;
    if !InRange(d, n) { AllUnusable(g, n, d, zv, tries, isCanonical); }
  }

  lemma AllUnusable(g: int -> Aff, n: int, d: int, z: int, tries: seq<Attempt>, isCanonical: (int, seq<uint8>) -> bool)
    requires n > 0 && !InRange(d, n) && AllSkipped(g, n, d, z, tries, isCanonical)
    ensures forall i :: 0 <= i < |tries| ==> !NonceUsable(g, n, Val(tries[i].nonce))
  {}

  lemma UnskippedKey(g: int -> Aff, n: int, d: int, z: int, k: int, isCanonical: (int, seq<uint8>) -> bool)
    requires n > 0 && NonceUsable(g, n, k) && !InRange(d, n)
    ensures !Skipped(g, n, d, z, k, isCanonical)
  {}

  lemma OrderPositive(g: int -> Aff, c: EcdsaCurve, cp: seq<seq<Coords>>)
    requires Setting(g, c, cp)
    ensures Val(c.order) > 0 && Prime(Val(c.order))
  {
    PrimeFits(c.order, Val(c.order));
  }

  lemma SkipOne(g: int -> Aff, n: int, d: int, z: int, tries: seq<Attempt>, i: nat, isCanonical: (int, seq<uint8>) -> bool, step: SignStep)
    requires n > 0 && i < |tries| && AllSkipped(g, n, d, z, tries[..i], isCanonical) && !step.BadKey?
    requires step.Retry? ==> !NonceUsable(g, n, Val(tries[i].nonce)) || (InRange(d, n) && ZeroScalar(g, n, d, z, Val(tries[i].nonce)))
    requires step.Signed? ==> InRange(d, n) && GoodSignature(g, n, d, z, Val(tries[i].nonce), step.sig, step.recid) && !isCanonical(step.recid, step.sig)
    ensures AllSkipped(g, n, d, z, tries[..i + 1], isCanonical)
  {
    hide GoodSignature, ZeroScalar, NonceUsable, Val;
    assert Skipped(g, n, d, z, Val(tries[i].nonce), isCanonical);
    var front := tries[..i + 1];
    forall j | 0 <= j < |front| ensures Skipped(g, n, d, z, Val(front[j].nonce), isCanonical) {
      if j < i { assert front[j] == tries[..i][j]; }
    }
  }

  // ----------------------------------------------------------- verification

  /** Points determine their scalars modulo the order. */
  lemma GroupInjective(g: int -> Aff, n: int, a: int, b: int, p: int, i: int, j: int)
    requires CyclicGroup(g, n, a, b, p) && g(i) == g(j)
    ensures Cong(i, j, n)
  {
    hide CyclicGroup, Cong, OnCurve, IsSum;
    GroupAt(g, n, a, b, p, i);
    GroupAt(g, n, a, b, p, -j);
    GroupNeg(g, n, a, b, p, j);
    GroupSum(g, n, a, b, p, i, -j);
    GroupAt(g, n, a, b, p, i + -j);
    NegSum(g(i), g(i + -j), a, p);
    CongRefl(j, n);
    CongAdd(i + -j, 0, j, j, n);
  }

  lemma NegSum(P: Aff, R: Aff, a: int, p: int)
    requires p > 0 && InField(P, p) && IsSum(P, Neg(P, p), R, a, p)
    ensures R.Inf?
  {
    if P.Pt? {
      CongBy(P.y + Neg(P, p).y, 0, p, if P.y == 0 then 0 else 1);
    }
  }

  /** Points on the curve, as the affine addition wants them. */
  ghost predicate Holds(P: Point, g: int -> Aff, s: int, p: int)
    reads P
  {
    ARange(P.x, P.y, p) && AffOf(P.x, P.y) == g(s)
  }

  /** acc = acc + P for two multiples of the generator. */
  method AddMultiples(P: Point, acc: Point, c: EcdsaCurve, ghost g: int -> Aff, ghost s: int, ghost t: int)
    requires Multiples(g, c) && P != acc && Holds(P, g, s, Val(c.prime)) && Holds(acc, g, t, Val(c.prime))
    modifies acc
    ensures Holds(acc, g, s + t, Val(c.prime))
  {
    hide Val, Cong, Norm, Prime, IsSum, OnCurve, CyclicGroup, PrimeField, AffOf, ARange;
    ghost var p, n, b := Val(c.prime), Val(c.order), Val(c.b);
    GroupAt(g, n, c.a, b, p, s);
    GroupAt(g, n, c.a, b, p, t);
    GroupAt(g, n, c.a, b, p, s + t);
    GroupSum(g, n, c.a, b, p, s, t);
    PointAdd(P, acc, c.prime, c.a, b, g(s + t), p);
  }

  /** P = k P for a finite multiple P = d G. */
  method MultiplyPoint(c: EcdsaCurve, k: Limbs9, P: Point, z: Limbs9, ghost g: int -> Aff, ghost d: int)
    requires Multiples(g, c) && Prime(Val(c.order)) && Holds(P, g, d, Val(c.prime)) && g(d).Pt?
    requires Norm(k) && 0 <= Val(k) < Val(c.order) && Norm(z) && InRange(Val(z), Val(c.prime))
    modifies P
    ensures Holds(P, g, d * Val(k), Val(c.prime))
  {
    hide Val, Cong, Norm, Prime, CyclicGroup, PrimeField, AffOf, ARange;
    ghost var p, n, b := Val(c.prime), Val(c.order), Val(c.b);
    GroupAt(g, n, c.a, b, p, d);
    BasedGroup(g, d, n, c.a, b, p);
    assert Based(g, d)(1) == g(d) by { assert d * 1 == d; }
    var code := PointMultiply(c, k, P, P, z, Based(g, d));
  }

  /** res = (z / s) G + (r / s) P. */
  method VerifyPoint(c: EcdsaCurve, cp: seq<seq<Coords>>, r: Limbs9, s: Limbs9, z: Limbs9, P: Point, z1: Limbs9, z2: Limbs9,
                     ghost g: int -> Aff, ghost d: int)
    returns (res: Point)
    requires Setting(g, c, cp) && Holds(P, g, d, Val(c.prime)) && g(d).Pt?
    requires Norm(r) && Norm(s) && Norm(z) && InRange(Val(r), Val(c.order)) && InRange(Val(s), Val(c.order)) && 0 <= Val(z) < P256
    requires Norm(z1) && InRange(Val(z1), Val(c.prime)) && Norm(z2) && InRange(Val(z2), Val(c.prime))
    modifies P
    ensures Prime(Val(c.order))
    ensures var w := InvMod(Val(s), Val(c.order));
            Holds(res, g, Val(z) * w + (Val(r) * w) * d, Val(c.prime))
  {
    hide Val, Cong, Norm, Prime, CyclicGroup, PrimeField, AffOf, ARange, Is, RootCurve, PowerTable, Cofactor1;
    ghost var p, n, b := Val(c.prime), Val(c.order), Val(c.b);
    ghost var rv, sv, zv := Val(r), Val(s), Val(z);
    PrimeFits(c.order, n);
    IsSelf(r, n);
    IsSelf(s, n);
    IsSelf(z, n);
    var si := FInv(s, c.order, sv, n);
    ghost var i := Val(si);
    var u1 := FMul(si, z, c.order, i, zv, n);
    u1 := FMod(u1, c.order, i * zv, n);
    var u2 := FMul(r, si, c.order, rv, i, n);
    u2 := FMod(u2, c.order, rv * i, n);
    IsNorm(u1, i * zv, n);
    IsNorm(u2, rv * i, n);
    SmallNonZero(sv, n);
    res := new Point(Zero9, Zero9);
    var code := ScalarMultiply(c, u1, cp, res, z1, g);
    MultiplyPoint(c, u2, P, z2, g, d);
    AddMultiples(P, res, c, g, d * Val(u2), Val(u1));
    VerifyScalar(g, n, c.a, b, p, d, rv, sv, zv, i, Val(u1), Val(u2));
  }

  lemma VerifyScalar(g: int -> Aff, n: int, a: int, b: int, p: int, d: int, r: int, s: int, z: int, i: int, u1: int, u2: int)
    requires CyclicGroup(g, n, a, b, p) && Prime(n) && InRange(s, n) && Cong(s * i, 1, n)
    requires Cong(u1, i * z, n) && Cong(u2, r * i, n)
    ensures var w := InvMod(s, n); g(d * u2 + u1) == g(z * w + (r * w) * d)
  {
    hide Cong, CyclicGroup, Prime;
    var w := InvMod(s, n);
    InvUnique(s, i, w, n);
    CongRefl(z, n);
    CongRefl(r, n);
    CongRefl(d, n);
    CongMul(i, w, z, z, n);
    CongTrans(u1, i * z, w * z, n);
    CongMul(r, r, i, w, n);
    CongTrans(u2, r * i, r * w, n);
    CongMul(d, d, u2, r * w, n);
    CongAdd(d * u2, d * (r * w), u1, w * z, n);
    assert d * (r * w) + w * z == z * w + (r * w) * d;
    GroupPeriod(g, n, a, b, p, d * u2 + u1, z * w + (r * w) * d);
  }

  /** Checks a signature against a public key; 0 means it is accepted. */
  method VerifyDigest(c: EcdsaCurve, cp: seq<seq<Coords>>, pub: seq<uint8>, sig: seq<uint8>, digest: seq<uint8>, z1: Limbs9, z2: Limbs9,
                      ghost g: int -> Aff)
    returns (result: int)
    requires Setting(g, c, cp) && Prime(Val(c.order)) && |sig| == 64 && |digest| == 32
    requires |pub| >= 33 && (pub[0] == 4 ==> |pub| >= 65)
    requires Norm(z1) && InRange(Val(z1), Val(c.prime)) && Norm(z2) && InRange(Val(z2), Val(c.prime))
    ensures (forall Q: Aff :: !PubEncodes(pub, Q, c)) ==> result == 1
    ensures forall d: int :: PubEncodes(pub, g(d), c) ==>
              result == VerifyCode(g, Val(c.order), d, BeVal(sig[..32]), BeVal(sig[32..]), BeVal(digest))
  {
    hide Val, Cong, Norm, Prime, CyclicGroup, PrimeField, AffOf, ARange, RootCurve, PowerTable, BeVal, PubEncodes, VerifyCode;
    ghost var p, n, b := Val(c.prime), Val(c.order), Val(c.b);
    PrimeFits(c.prime, p);
    PrimeFits(c.order, n);
    var P := new Point(Zero9, Zero9);
    var ok := ReadPubkey(c, pub, P);
    if !ok {
      return 1;
    }
    ghost var Q := AffOf(P.x, P.y);
    EncodesValid(pub, Q, c);
    ghost var d: int :| g(d) == Q;
    var r := ReadBe(sig[..32]);
    var s := ReadBe(sig[32..]);
    var z := ReadBe(digest);
    ghost var rv, sv, zv := Val(r), Val(s), Val(z);
    VerifyAnyKey(g, n, c.a, b, p, d, rv, sv, zv);
    ValBound(z);
    var badR := IsInvalidScalar(r, c.order);
    var badS := IsInvalidScalar(s, c.order);
    var zn := Copy(z);
    var zZero := IsZero(zn);
    VerifyCases(g, n, d, rv, sv, zv);
    if zZero {
      return 3;
    }
    if badR || badS {
      return 2;
    }
    var res := VerifyPoint(c, cp, r, s, z, P, z1, z2, g, d);
    result := VerifyEnd(c, res, r);
  }

  lemma EncodesValid(pub: seq<uint8>, Q: Aff, c: EcdsaCurve)
    requires PubEncodes(pub, Q, c)
    ensures ValidPoint(Q, c) && Q.Pt?
  {}

  /** The definition of VerifyCode, case by case. */
  lemma VerifyCases(g: int -> Aff, n: int, d: int, r: int, s: int, z: int)
    requires Prime(n)
    ensures z == 0 ==> VerifyCode(g, n, d, r, s, z) == 3
    ensures z != 0 && (!InRange(r, n) || !InRange(s, n)) ==> VerifyCode(g, n, d, r, s, z) == 2
    ensures z != 0 && InRange(r, n) && InRange(s, n) ==>
              var w := InvMod(s, n);
              var R := g(z * w + (r * w) * d);
              VerifyCode(g, n, d, r, s, z) == if R.Inf? then 4 else if R.x % n != r then 5 else 0
  {}

  /** The verdict depends on the key, not on the scalar that names it. */
  lemma VerifyAnyKey(g: int -> Aff, n: int, a: int, b: int, p: int, d: int, r: int, s: int, z: int)
    requires CyclicGroup(g, n, a, b, p) && Prime(n)
    ensures forall d': int :: g(d') == g(d) ==> VerifyCode(g, n, d', r, s, z) == VerifyCode(g, n, d, r, s, z)
  {
    hide Cong, CyclicGroup, Prime, VerifyCode;
    forall d': int | g(d') == g(d) ensures VerifyCode(g, n, d', r, s, z) == VerifyCode(g, n, d, r, s, z) {
      GroupInjective(g, n, a, b, p, d', d);
      VerifyCases(g, n, d, r, s, z);
      VerifyCases(g, n, d', r, s, z);
      if InRange(s, n) {
        var w := InvMod(s, n);
        CongRefl(z * w, n);
        CongRefl(r * w, n);
        CongMul(r * w, r * w, d', d, n);
        CongAdd(z * w, z * w, (r * w) * d', (r * w) * d, n);
        GroupPeriod(g, n, a, b, p, z * w + (r * w) * d', z * w + (r * w) * d);
      }
    }
  }

  /** The last two checks: the sum is finite and its x matches r. */
  method VerifyEnd(c: EcdsaCurve, res: Point, r: Limbs9) returns (result: int)
    requires PrimeField(c.order, Val(c.order)) && PrimeField(c.prime, Val(c.prime))
    requires ARange(res.x, res.y, Val(c.prime)) && Norm(r)
    ensures var R := AffOf(res.x, res.y);
            result == if R.Inf? then 4 else if R.x % Val(c.order) != Val(r) then 5 else 0
  {
    hide Val, Cong, Norm, Prime, PrimeField, Is;
    ghost var p, n := Val(c.prime), Val(c.order);
    PrimeFits(c.prime, p);
    PrimeFits(c.order, n);
    var inf := IsInfinity(res);
    if inf {
      return 4;
    }
    IsSelf(res.x, n);
    var x := FMod(res.x, c.order, Val(res.x), n);
    IsNorm(x, Val(res.x), n);
    var same := SameLimbs(x, r);
    result := if same then 0 else 5;
  }

  // --------------------------------------------------------------- recovery

  /** k G is the nonce point that r and the recovery byte describe. */
  ghost predicate NonceFor(g: int -> Aff, n: int, k: int, r: int, recid: int) {
    g(k).Pt? && g(k).x == r + (if recid / 2 % 2 == 1 then n else 0) && g(k).y % 2 == recid % 2
  }

  /** The key of section 4.1.6 of SEC 1 version 2: (s k - z) / r times the generator. */
  ghost function RecoveredKey(g: int -> Aff, n: int, k: int, r: int, s: int, z: int): Aff
    requires Prime(n) && InRange(r, n)
  {
    g(InvMod(r, n) * (s * k - z))
  }

  /** The key is written uncompressed, unless it is the point at infinity. */
  ghost predicate KeyWritten(ret: int, pub: seq<uint8>, K: Aff, c: EcdsaCurve) {
    if K.Inf? then ret == 1 else ret == 0 && |pub| == 65 && pub[0] == 4 && PubEncodes(pub, K, c)
  }

  method NonceX(c: EcdsaCurve, r: Limbs9, recid: int) returns (ok: bool, x: Limbs9)
    requires PrimeField(c.order, Val(c.order)) && PrimeField(c.prime, Val(c.prime)) && Norm(r) && InRange(Val(r), Val(c.order))
    ensures var xv := Val(r) + (if recid / 2 % 2 == 1 then Val(c.order) else 0);
            if ok then Norm(x) && 0 <= Val(x) < P256 && Val(x) == xv else xv >= Val(c.prime)
  {
    hide Norm, Val, Prime, PrimeField;
    PrimeFits(c.prime, Val(c.prime));
    PrimeFits(c.order, Val(c.order));
    var xn := Copy(r);
    ok := true;
    if recid / 2 % 2 == 1 {
      var on := Copy(c.order);
      Add(xn, on);
      var pn := Copy(c.prime);
      ok := IsLess(xn, pn);
    }
    x := xn.val;
  }

  /** The nonce point of a signature, from the x coordinate and a parity. */
  method NonceFrom(c: EcdsaCurve, cp: seq<seq<Coords>>, r: Limbs9, recid: int, P: Point, ghost g: int -> Aff) returns (ok: bool)
    requires Setting(g, c, cp) && Norm(r) && InRange(Val(r), Val(c.order))
    modifies P
    ensures ok ==> ARange(P.x, P.y, Val(c.prime)) && ValidPoint(AffOf(P.x, P.y), c)
    ensures forall k: int :: NonceFor(g, Val(c.order), k, Val(r), recid) ==> ok && AffOf(P.x, P.y) == g(k)
    ensures ok ==> exists k: int :: NonceFor(g, Val(c.order), k, Val(r), recid)
  {
    hide Norm, Val, Prime, PrimeField, OnCurve, RootOf, RootCurve, Multiples, PowerTable;
    ghost var p, n := Val(c.prime), Val(c.order);
    RootValid(c);
    PrimeFits(c.prime, p);
    PrimeFits(c.order, n);
    NonceSmall(g, c, cp, Val(r), recid);
    var small, x := NonceX(c, r, recid);
    if !small {
      return false;
    }
    P.x := x;
    P.y := UncompressCoords(c, recid % 2, P.x);
    ok := ValidatePubkey(c, P);
    ghost var R := Pt(Val(P.x), Val(P.y));
    ghost var root: int :| RootOf(c, root, R.x) && R.y == (if root % 2 == recid % 2 % 2 then root else p - root);
    RootBound(c, root, R.x);
    NonceIs(g, c, cp, Val(r), recid, R, root);
    if ok {
      ghost var k: int :| g(k) == R;
      assert NonceFor(g, n, k, Val(r), recid);
    }
  }

  lemma RootValid(c: EcdsaCurve)
    requires RootCurve(c)
    ensures ValidCurve(c)
  {}

  /** A nonce point has its x coordinate below p. */
  lemma NonceSmall(g: int -> Aff, c: EcdsaCurve, cp: seq<seq<Coords>>, r: int, recid: int)
    requires Setting(g, c, cp)
    ensures forall k: int :: NonceFor(g, Val(c.order), k, r, recid) ==> r + (if recid / 2 % 2 == 1 then Val(c.order) else 0) < Val(c.prime)
  {
    hide Val, CyclicGroup, RootCurve, PowerTable, PrimeField, OnCurve;
    forall k: int | NonceFor(g, Val(c.order), k, r, recid) ensures g(k).x < Val(c.prime) {
      GroupAt(g, Val(c.order), c.a, Val(c.b), Val(c.prime), k);
    }
  }

  /** Decompression finds the nonce point. */
  lemma NonceIs(g: int -> Aff, c: EcdsaCurve, cp: seq<seq<Coords>>, r: int, recid: int, R: Aff, root: int)
    requires Setting(g, c, cp) && R.Pt? && R.x == r + (if recid / 2 % 2 == 1 then Val(c.order) else 0)
    requires RootOf(c, root, R.x) && R.y == (if root % 2 == recid % 2 % 2 then root else Val(c.prime) - root)
    ensures forall k: int :: NonceFor(g, Val(c.order), k, r, recid) ==> g(k) == R && ValidPoint(R, c)
  {
    hide Val, CyclicGroup, RootCurve, PowerTable, PrimeField, OnCurve, RootOf;
    forall k: int | NonceFor(g, Val(c.order), k, r, recid) ensures g(k) == R && ValidPoint(R, c) {
      GroupAt(g, Val(c.order), c.a, Val(c.b), Val(c.prime), k);
      UncompressFinds(c, recid % 2, g(k), root, R.y);
    }
  }

  /** The scalars -z / r and s / r. */
  method RecoverScalars(c: EcdsaCurve, r: Limbs9, s: Limbs9, digest: seq<uint8>) returns (u1: Limbs9, u2: Limbs9, ghost i: int)
    requires PrimeField(c.order, Val(c.order))
    requires Norm(r) && Norm(s) && InRange(Val(r), Val(c.order)) && InRange(Val(s), Val(c.order)) && |digest| == 32
    ensures Norm(u1) && 0 <= Val(u1) < Val(c.order) && Norm(u2) && 0 <= Val(u2) < Val(c.order)
    ensures Cong(Val(r) * i, 1, Val(c.order))
    ensures Cong(Val(u1), i * (0 - BeVal(digest)), Val(c.order)) && Cong(Val(u2), i * Val(s), Val(c.order))
  {
    hide Val, Cong, Norm, Prime, PrimeField, Is, BeVal;
    ghost var n, rv, sv, zv := Val(c.order), Val(r), Val(s), BeVal(digest);
    PrimeFits(c.order, n);
    var e := ReadBe(digest);
    ValBound(e);
    var en := Copy(e);
    var on := Copy(c.order);
    Mod(en, on);
    ValBound(en.val);
    Subtract(on, en, en);
    ghost var ev := Val(en.val);
    IsSelf(r, n);
    IsSelf(s, n);
    IsSelf(en.val, n);
    var ri := FInv(r, c.order, rv, n);
    i := Val(ri);
    u1 := FMul(ri, en.val, c.order, i, ev, n);
    u1 := FMod(u1, c.order, i * ev, n);
    u2 := FMul(ri, s, c.order, i, sv, n);
    u2 := FMod(u2, c.order, i * sv, n);
    IsNorm(u1, i * ev, n);
    IsNorm(u2, i * sv, n);
    SmallNonZero(rv, n);
    CongBy(ev, -zv, n, if zv < n then 1 else 2);
    CongRefl(i, n);
    CongMul(i, i, ev, -zv, n);
    CongTrans(Val(u1), i * ev, i * -zv, n);
  }

  /** P = (s / r) P - (z / r) G. */
  method RecoverPoint(c: EcdsaCurve, cp: seq<seq<Coords>>, r: Limbs9, s: Limbs9, digest: seq<uint8>, P: Point, z1: Limbs9, z2: Limbs9,
                      ghost g: int -> Aff, ghost k: int)
    requires Setting(g, c, cp) && Prime(Val(c.order)) && Holds(P, g, k, Val(c.prime)) && g(k).Pt?
    requires Norm(r) && Norm(s) && InRange(Val(r), Val(c.order)) && InRange(Val(s), Val(c.order)) && |digest| == 32
    requires Norm(z1) && InRange(Val(z1), Val(c.prime)) && Norm(z2) && InRange(Val(z2), Val(c.prime))
    modifies P
    ensures Holds(P, g, InvMod(Val(r), Val(c.order)) * (Val(s) * k - BeVal(digest)), Val(c.prime))
  {
    hide Val, Cong, Norm, Prime, CyclicGroup, PrimeField, AffOf, ARange, Is, RootCurve, PowerTable, Cofactor1, BeVal;
    ghost var p, n, b := Val(c.prime), Val(c.order), Val(c.b);
    var u1, u2, i := RecoverScalars(c, r, s, digest);
    MultiplyPoint(c, u2, P, z1, g, k);
    var Q := new Point(Zero9, Zero9);
    var code := ScalarMultiply(c, u1, cp, Q, z2, g);
    AddMultiples(Q, P, c, g, Val(u1), k * Val(u2));
    RecoverScalar(g, n, c.a, b, p, k, Val(r), Val(s), BeVal(digest), i, Val(u1), Val(u2));
  }

  lemma RecoverScalar(g: int -> Aff, n: int, a: int, b: int, p: int, k: int, r: int, s: int, z: int, i: int, u1: int, u2: int)
    requires CyclicGroup(g, n, a, b, p) && Prime(n) && InRange(r, n) && Cong(r * i, 1, n)
    requires Cong(u1, i * -z, n) && Cong(u2, i * s, n)
    ensures g(u1 + k * u2) == RecoveredKey(g, n, k, r, s, z)
  {
    hide Cong, CyclicGroup, Prime;
    var w := InvMod(r, n);
    InvUnique(r, i, w, n);
    CongRefl(s, n);
    CongRefl(k, n);
    CongRefl(-z, n);
    CongMul(i, w, -z, -z, n);
    CongTrans(u1, i * -z, w * -z, n);
    CongMul(i, w, s, s, n);
    CongTrans(u2, i * s, w * s, n);
    CongMul(k, k, u2, w * s, n);
    CongAdd(u1, w * -z, k * u2, k * (w * s), n);
    assert w * -z + k * (w * s) == w * (s * k - z);
    GroupPeriod(g, n, a, b, p, u1 + k * u2, w * (s * k - z));
  }

  /** The recovered key does not depend on the scalar that names the nonce point. */
  lemma RecoverAnyNonce(g: int -> Aff, n: int, a: int, b: int, p: int, k: int, r: int, s: int, z: int)
    requires CyclicGroup(g, n, a, b, p) && Prime(n) && InRange(r, n)
    ensures forall k': int :: g(k') == g(k) ==> RecoveredKey(g, n, k', r, s, z) == RecoveredKey(g, n, k, r, s, z)
  {
    hide Cong, CyclicGroup, Prime;
    var w := InvMod(r, n);
    forall k': int | g(k') == g(k) ensures RecoveredKey(g, n, k', r, s, z) == RecoveredKey(g, n, k, r, s, z) {
      GroupInjective(g, n, a, b, p, k', k);
      CongRefl(s, n);
      CongRefl(w, n);
      CongRefl(z, n);
      CongMul(s, s, k', k, n);
      CongSub(s * k', s * k, z, z, n);
      CongMul(w, w, s * k' - z, s * k - z, n);
      GroupPeriod(g, n, a, b, p, w * (s * k' - z), w * (s * k - z));
    }
  }

  /** The public key that made a signature, from the recovery byte; 0 on success. */
  method RecoverPub(c: EcdsaCurve, cp: seq<seq<Coords>>, sig: seq<uint8>, digest: seq<uint8>, recid: int, z1: Limbs9, z2: Limbs9,
                    ghost g: int -> Aff)
    returns (ret: int, pub: seq<uint8>)
    requires Setting(g, c, cp) && Prime(Val(c.order)) && |sig| == 64 && |digest| == 32
    requires Norm(z1) && InRange(Val(z1), Val(c.prime)) && Norm(z2) && InRange(Val(z2), Val(c.prime))
    ensures var n, r, s := Val(c.order), BeVal(sig[..32]), BeVal(sig[32..]);
            if InRange(r, n) && InRange(s, n) && exists k: int :: NonceFor(g, n, k, r, recid) then
              forall k: int :: NonceFor(g, n, k, r, recid) ==> KeyWritten(ret, pub, RecoveredKey(g, n, k, r, s, BeVal(digest)), c)
            else ret == 1
  {
    hide Val, Cong, Norm, Prime, CyclicGroup, PrimeField, AffOf, ARange, RootCurve, PowerTable, Cofactor1, BeVal, KeyWritten, RecoveredKey;
    ghost var p, n, b := Val(c.prime), Val(c.order), Val(c.b);
    PrimeFits(c.order, n);
    pub := [];
    var r := ReadBe(sig[..32]);
    var s := ReadBe(sig[32..]);
    ghost var rv, sv, zv := Val(r), Val(s), BeVal(digest);
    var badR := IsInvalidScalar(r, c.order);
    if badR {
      return 1, [];
    }
    var badS := IsInvalidScalar(s, c.order);
    if badS {
      return 1, [];
    }
    var P := new Point(Zero9, Zero9);
    var ok := NonceFrom(c, cp, r, recid, P, g);
    if !ok {
      return 1, [];
    }
    ghost var k: int :| NonceFor(g, n, k, rv, recid);
    RecoverAnyNonce(g, n, c.a, b, p, k, rv, sv, zv);
    ret, pub := RecoverKey(c, cp, r, s, digest, P, z1, z2, g, k);
  }

  /** Turns the nonce point into the public key and writes it. */
  method RecoverKey(c: EcdsaCurve, cp: seq<seq<Coords>>, r: Limbs9, s: Limbs9, digest: seq<uint8>, P: Point, z1: Limbs9, z2: Limbs9,
                    ghost g: int -> Aff, ghost k: int)
    returns (ret: int, pub: seq<uint8>)
    requires Setting(g, c, cp) && Prime(Val(c.order)) && Holds(P, g, k, Val(c.prime)) && g(k).Pt?
    requires Norm(r) && Norm(s) && InRange(Val(r), Val(c.order)) && InRange(Val(s), Val(c.order)) && |digest| == 32
    requires Norm(z1) && InRange(Val(z1), Val(c.prime)) && Norm(z2) && InRange(Val(z2), Val(c.prime))
    modifies P
    ensures KeyWritten(ret, pub, RecoveredKey(g, Val(c.order), k, Val(r), Val(s), BeVal(digest)), c)
  {
    hide Val, Norm, CyclicGroup, PrimeField, OnCurve, BeVal, RootCurve, PowerTable, Cofactor1, Prime;
    ghost var t := InvMod(Val(r), Val(c.order)) * (Val(s) * k - BeVal(digest));
    RecoverPoint(c, cp, r, s, digest, P, z1, z2, g, k);
    PrimeFits(c.prime, Val(c.prime));
    GroupAt(g, Val(c.order), c.a, Val(c.b), Val(c.prime), t);
    var inf := IsInfinity(P);
    if inf {
      return 1, [];
    }
    var px := WriteBe(P.x);
    var py := WriteBe(P.y);
    pub := [4] + px + py;
    assert pub[1..33] == px && pub[33..65] == py;
    ret := 0;
  }

  /** Every signature recovers its own key: the nonce named by the recovery byte
      is k, or -k after s was negated, and the recovered key is d G. */
  lemma SignatureRecovers(g: int -> Aff, n: int, a: int, b: int, p: int, d: int, z: int, k: int, flip: bool, r: int, s: int, recid: int)
    requires CyclicGroup(g, n, a, b, p) && Prime(n) && n % 2 == 1 && p % 2 == 1
    requires SignedWith(g, n, d, z, k, flip, r, s, recid)
    ensures var k' := if flip then -k else k;
            NonceFor(g, n, k', r, recid) && RecoveredKey(g, n, k', r, s, z) == g(d)
  {
    hide Cong, CyclicGroup, Prime, OnCurve;
    var w := InvMod(r, n);
    GroupAt(g, n, a, b, p, k);
    GroupNeg(g, n, a, b, p, k);
    FiniteY(g, n, a, b, p, k);
    FlipParity(g(k).y, p);
    KeyScalar(n, d, z, k, flip, r, s, w);
    GroupPeriod(g, n, a, b, p, w * (s * (if flip then -k else k) - z), d);
  }

  lemma FlipParity(y: int, p: int)
    requires p % 2 == 1
    ensures (p - y) % 2 == 1 - y % 2
  {}

  /** w (s (+-k) - z) = d for the inverse w of r. */
  lemma KeyScalar(n: int, d: int, z: int, k: int, flip: bool, r: int, s: int, w: int)
    requires Cong(s * k, if flip then -(r * d + z) else r * d + z, n) && Cong(r * w, 1, n)
    ensures Cong(w * (s * (if flip then -k else k) - z), d, n)
  {
    hide Cong;
    var m, e := s * (if flip then -k else k), r * d + z;
    if flip {
      CongRefl(0, n);
      CongSub(0, 0, s * k, -e, n);
      assert 0 - s * k == m;
    }
    CongRefl(z, n);
    CongRefl(w, n);
    CongRefl(d, n);
    CongSub(m, e, z, z, n);
    CongMul(w, w, m - z, r * d, n);
    CongMul(r * w, 1, d, d, n);
    assert w * (r * d) == (r * w) * d;
    CongTrans(w * (m - z), (r * w) * d, 1 * d, n);
  }

  /** No finite point of odd order has y = 0. */
  lemma FiniteY(g: int -> Aff, n: int, a: int, b: int, p: int, k: int)
    requires CyclicGroup(g, n, a, b, p) && n % 2 == 1 && g(k).Pt?
    ensures g(k).y != 0
  {
    hide Cong, CyclicGroup, OnCurve;
    if g(k).y == 0 {
      GroupAt(g, n, a, b, p, k);
      GroupSum(g, n, a, b, p, k, k);
      GroupAt(g, n, a, b, p, k + k);
      CongRefl(0, p);
      CongRefl(g(k).x, p);
      assert g(k + k).Inf?;
      CongBy(2 * 0, 0, n, 0);
      CancelTwo(k, 0, n);
      assert false;
    }
  }

  /** Signing, then verifying and recovering with the returned bytes: the
      signature is accepted for every encoding of the signer's key, and recovery
      writes exactly that key. */
  method SignVerifyRecover(c: EcdsaCurve, cp: seq<seq<Coords>>, priv: seq<uint8>, pub: seq<uint8>, digest: seq<uint8>, tries: seq<Attempt>,
                           isCanonical: (int, seq<uint8>) -> bool, z1: Limbs9, z2: Limbs9, ghost g: int -> Aff)
    returns (ret: int, verdict: int, recovered: int, key: seq<uint8>)
    requires Setting(g, c, cp) && Prime(Val(c.order)) && |priv| == 32 && |digest| == 32
    requires |tries| == 10000 && forall i :: 0 <= i < |tries| ==> GoodAttempt(tries[i], c)
    requires Norm(z1) && InRange(Val(z1), Val(c.prime)) && Norm(z2) && InRange(Val(z2), Val(c.prime))
    requires |pub| >= 33 && (pub[0] == 4 ==> |pub| >= 65) && PubEncodes(pub, g(BeVal(priv)), c)
    ensures ret == 0 ==> verdict == 0 && recovered == 0 && |key| == 65 && key[0] == 4 && PubEncodes(key, g(BeVal(priv)), c)
  {
    hide Val, Cong, Norm, Prime, CyclicGroup, PrimeField, AffOf, RootCurve, PowerTable, BeVal, RecoveredKey, VerifyCode, PubEncodes, GoodAttempt, SignedWith, NonceFor;
    ghost var p, n, b, d, z := Val(c.prime), Val(c.order), Val(c.b), BeVal(priv), BeVal(digest);
    verdict, recovered, key := 1, 1, [];
    var sig, recid;
    ghost var i;
    ret, sig, recid, i := SignDigest(c, cp, priv, digest, tries, isCanonical, g);
    if ret == 0 {
      PrimeFits(c.prime, p);
      PrimeFits(c.order, n);
      ghost var k, r, s := Val(tries[i].nonce), BeVal(sig[..32]), BeVal(sig[32..]);
      ghost var flip: bool :| SignedWith(g, n, d, z, k, flip, r, s, recid);
      SignedRange(g, n, d, z, k, flip, r, s, recid);
      SignatureVerifies(g, n, c.a, b, p, d, z, k, flip, r, s, recid);
      SignatureRecovers(g, n, c.a, b, p, d, z, k, flip, r, s, recid);
      verdict := VerifyDigest(c, cp, pub, sig, digest, z1, z2, g);
      recovered, key := RecoverPub(c, cp, sig, digest, recid, z1, z2, g);
      EncodesValid(pub, g(d), c);
    }
  }

  lemma SignedRange(g: int -> Aff, n: int, d: int, z: int, k: int, flip: bool, r: int, s: int, recid: int)
    requires SignedWith(g, n, d, z, k, flip, r, s, recid)
    ensures InRange(r, n) && InRange(s, n)
  {}
}
