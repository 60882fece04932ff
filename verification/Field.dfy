/** The bignum operations as arithmetic modulo p, on coordinates held as limb
    values.  Each operation runs the in-place limb code on a copy of its operand
    and hands the result back, the way the curve code writes into its local
    structs.  As ghost arguments it takes integers its operands are congruent
    to, and it says what the result is congruent to; the range conditions of the
    limb code stay explicit. */
module Field {
  import opened Arith
  import opened Limbs
  import opened Bignum
  import opened Product
  import opened Inverse

  /** A normalized number below 2^259 that stands for d modulo p. */
  ghost predicate Is(s: Limbs9, d: int, p: int) {
    Norm(s) && 0 <= Val(s) < P259 && Cong(Val(s), d, p)
  }

  /** What the curve code asks of its field: an odd prime in the library's range. */
  ghost predicate PrimeField(s: Limbs9, p: int) {
    Modulus(s) && Val(s) == p && p % 2 == 1 && Prime(p) && p < P256
  }

  lemma PrimeFits(ps: Limbs9, p: int)
    requires PrimeField(ps, p)
    ensures P256 - P224 <= p < P256 && p % 2 == 1 && Norm(ps) && Val(ps) == p && Prime(p)
  {}

  lemma IsSelf(s: Limbs9, p: int)
    requires Norm(s) && Val(s) < P259
    ensures Is(s, Val(s), p)
  {
    ValBound(s);
    CongRefl(Val(s), p);
  }

  method Copy(s: Limbs9) returns (n: Num)
    ensures fresh(n) && n.val == s
  {
    n := new Num();
    n.val := s;
  }

  method FMul(k: Limbs9, x: Limbs9, ps: Limbs9, ghost kd: int, ghost xd: int, ghost p: int) returns (r: Limbs9)
    requires PrimeField(ps, p) && Is(k, kd, p) && Is(x, xd, p)
    ensures Is(r, kd * xd, p) && Val(r) < 2 * p
  {
    hide Norm, Val, Cong, Prime;
    ghost var kv, xv := Val(k), Val(x);
    FactorsFit(kv, xv);
    var kn := Copy(k);
    var xn := Copy(x);
    var pn := Copy(ps);
    Multiply(kn, xn, pn);
    r := xn.val;
    CongMul(kv, kd, xv, xd, p);
    CongTrans(Val(r), kv * xv, kd * xd, p);
  }

  method FMulK(x: Limbs9, k: uint8, ps: Limbs9, ghost xd: int, ghost p: int) returns (r: Limbs9)
    requires PrimeField(ps, p) && Is(x, xd, p) && k <= 8
    ensures Is(r, k * xd, p) && Val(r) < 2 * p
  {
    hide Norm, Val, Cong, Prime;
    ghost var xv := Val(x);
    var xn := Copy(x);
    var pn := Copy(ps);
    MultK(xn, k, pn);
    r := xn.val;
    ValBound(r);
    CongRefl(k, p);
    CongMul(k, k, xv, xd, p);
    CongTrans(Val(r), k * xv, k * xd, p);
  }

  /** x + 2 p - y; the exact value is kept for the range checks. */
  method FSub(x: Limbs9, y: Limbs9, ps: Limbs9, ghost xd: int, ghost yd: int, ghost p: int) returns (r: Limbs9)
    requires PrimeField(ps, p) && Is(x, xd, p) && Is(y, yd, p)
    requires Val(x) <= 4 * p && Val(y) <= 2 * p
    ensures Is(r, xd - yd, p) && Val(r) == Val(x) + 2 * p - Val(y)
  {
    hide Norm, Val, Cong, Prime;
    ghost var xv, yv := Val(x), Val(y);
    var xn := Copy(x);
    var yn := Copy(y);
    var pn := Copy(ps);
    SubtractMod(xn, yn, xn, pn);
    r := xn.val;
    ValBound(r);
    CongSub(xv, xd, yv, yd, p);
    CongBy(Val(r), xv - yv, p, 2);
    CongTrans(Val(r), xv - yv, xd - yd, p);
  }

  method FAdd(x: Limbs9, y: Limbs9, ghost xd: int, ghost yd: int, ghost p: int) returns (r: Limbs9)
    requires Is(x, xd, p) && Is(y, yd, p) && Val(x) + Val(y) < P259
    ensures Is(r, xd + yd, p) && Val(r) == Val(x) + Val(y)
  {
    hide Norm, Val, Cong;
    var xn := Copy(x);
    var yn := Copy(y);
    Add(xn, yn);
    r := xn.val;
    CongAdd(Val(x), xd, Val(y), yd, p);
  }

  method FAddMod(x: Limbs9, y: Limbs9, ps: Limbs9, ghost xd: int, ghost yd: int, ghost p: int) returns (r: Limbs9)
    requires PrimeField(ps, p) && Is(x, xd, p) && Is(y, yd, p)
    ensures Is(r, xd + yd, p) && Val(r) < 2 * p
  {
    hide Norm, Val, Cong, Prime;
    var xn := Copy(x);
    var yn := Copy(y);
    var pn := Copy(ps);
    AddMod(xn, yn, pn);
    r := xn.val;
    ValBound(r);
    CongAdd(Val(x), xd, Val(y), yd, p);
    CongTrans(Val(r), Val(x) + Val(y), xd + yd, p);
  }

  method FReduce(x: Limbs9, ps: Limbs9, ghost xd: int, ghost p: int) returns (r: Limbs9)
    requires PrimeField(ps, p) && Is(x, xd, p)
    ensures Is(r, xd, p) && Val(r) < 2 * p && Val(r) == FastReduced(x, p)
  {
    hide Norm, Val, Cong, Prime, FastReduced;
    var xn := Copy(x);
    var pn := Copy(ps);
    FastMod(xn, pn);
    r := xn.val;
    CongTrans(Val(r), Val(x), xd, p);
  }

  /** Full reduction: the result is the residue itself. */
  method FMod(x: Limbs9, ps: Limbs9, ghost xd: int, ghost p: int) returns (r: Limbs9)
    requires PrimeField(ps, p) && Is(x, xd, p) && Val(x) < 2 * p
    ensures Is(r, xd, p) && Val(r) == xd % p && 0 <= Val(r) < p
  {
    hide Norm, Val, Cong, Prime;
    ghost var xv := Val(x);
    var xn := Copy(x);
    var pn := Copy(ps);
    Mod(xn, pn);
    r := xn.val;
    ValBound(r);
    CongBy(Val(r), xv, p, if xv < p then 0 else -1);
    CongTrans(Val(r), xv, xd, p);
    ResidueIs(Val(r), xd, p);
  }

  lemma ResidueIs(v: int, d: int, p: int)
    requires p > 0 && 0 <= v < p && Cong(v, d, p)
    ensures v == d % p
  {
    CongMod(v, d, p);
    ModUnique(v, 0, v, p);
  }

  /** x / 2: twice the result stands for x. */
  method FHalf(x: Limbs9, ps: Limbs9, ghost xd: int, ghost p: int) returns (r: Limbs9)
    requires PrimeField(ps, p) && Is(x, xd, p)
    ensures Is(r, Val(r), p) && Cong(2 * Val(r), xd, p) && 2 * Val(r) <= Val(x) + p
  {
    hide Norm, Val, Cong, Prime;
    ghost var xv := Val(x);
    var xn := Copy(x);
    var pn := Copy(ps);
    MultHalf(xn, pn);
    r := xn.val;
    IsSelf(r, p);
    CongBy(2 * Val(r), xv, p, if 2 * Val(r) == xv then 0 else 1);
    CongTrans(2 * Val(r), xv, xd, p);
  }

  /** 1 / x for x not 0 modulo p, and 0 for 0. */
  method FInv(x: Limbs9, ps: Limbs9, ghost xd: int, ghost p: int) returns (r: Limbs9)
    requires PrimeField(ps, p) && Is(x, xd, p)
    ensures Is(r, Val(r), p) && 0 <= Val(r) < p
    ensures Cong(xd, 0, p) ==> Val(r) == 0
    ensures !Cong(xd, 0, p) ==> Cong(xd * Val(r), 1, p)
  {
    hide Norm, Val, Cong, Prime, Coprime;
    ghost var xv := Val(x);
    SameZero(xv, xd, p);
    if !Cong(xv, 0, p) { PrimeCoprime(xv, p); }
    var xn := Copy(x);
    var pn := Copy(ps);
    InverseFast(xn, pn);
    r := xn.val;
    SameInverse(xv, xd, Val(r), p);
    IsSelf(r, p);
  }

  lemma SameZero(a: int, b: int, p: int)
    requires Cong(a, b, p)
    ensures Cong(a, 0, p) <==> Cong(b, 0, p)
  {
    CongSym(a, b, p);
    if Cong(a, 0, p) { CongTrans(b, a, 0, p); }
    if Cong(b, 0, p) { CongTrans(a, b, 0, p); }
  }

  lemma SameInverse(a: int, b: int, i: int, p: int)
    requires Cong(a, b, p)
    ensures Cong(a * i, 1, p) ==> Cong(b * i, 1, p)
  {
    CongSym(a, b, p);
    CongRefl(i, p);
    CongMul(b, a, i, i, p);
    if Cong(a * i, 1, p) { CongTrans(b * i, a * i, 1, p); }
  }
}
