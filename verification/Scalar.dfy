/** Scalar multiplication of libs/crypto/ecdsa.c.  Points are followed through
    a cyclic group g of order n: g(s) is s times the base point. */
module Scalar {
  import opened Arith
  import opened Limbs
  import opened Bignum
  import opened Field
  import opened Affine
  import opened Curve
  import opened Recode

  /** Affine coordinates as a value, the way tables of points store them. */
  datatype Coords = Coords(x: Limbs9, y: Limbs9)

  /** The constants of an ecdsa_curve. */
  datatype EcdsaCurve = EcdsaCurve(prime: Limbs9, order: Limbs9, orderHalf: Limbs9, a: int, b: Limbs9, G: Coords)

  /** What the library assumes of a curve: a prime field and an odd order in its
      range, and -3 <= a <= 0. */
  ghost predicate ValidCurve(c: EcdsaCurve) {
    && PrimeField(c.prime, Val(c.prime)) && -3 <= c.a <= 0 && -c.a < c.prime[0]
    && Modulus(c.order) && Val(c.order) % 2 == 1 && Val(c.order) < P256
    && Norm(c.b) && Val(c.b) < Val(c.prime)
  }

  /** g enumerates the multiples of a point of order n, and the chord-and-tangent
      law adds them. */
  ghost predicate CyclicGroup(g: int -> Aff, n: int, a: int, b: int, p: int) {
    && n > 1 && p > 0
    && (forall i: int :: ElementAt(g, i, n, a, b, p))
    && (forall i: int, j: int :: SumAt(g, i, j, a, p))
  }

  /** i times the base point is on the curve, and is infinity for multiples of n. */
  ghost predicate ElementAt(g: int -> Aff, i: int, n: int, a: int, b: int, p: int) {
    Holdable(g(i), p) && OnCurve(g(i), a, b, p) && (g(i).Inf? <==> Cong(i, 0, n))
  }

  ghost predicate SumAt(g: int -> Aff, i: int, j: int, a: int, p: int) {
    IsSum(g(i), g(j), g(i + j), a, p)
  }

  /** g is such a group for this curve. */
  ghost predicate Multiples(g: int -> Aff, c: EcdsaCurve) {
    ValidCurve(c) && CyclicGroup(g, Val(c.order), c.a, Val(c.b), Val(c.prime))
  }

  lemma GroupAt(g: int -> Aff, n: int, a: int, b: int, p: int, i: int)
    requires CyclicGroup(g, n, a, b, p)
    ensures n > 1 && p > 0 && Holdable(g(i), p) && OnCurve(g(i), a, b, p) && (g(i).Inf? <==> Cong(i, 0, n))
  {
    assert ElementAt(g, i, n, a, b, p);
  }

  lemma GroupSum(g: int -> Aff, n: int, a: int, b: int, p: int, i: int, j: int)
    requires CyclicGroup(g, n, a, b, p)
    ensures IsSum(g(i), g(j), g(i + j), a, p)
  {
    assert SumAt(g, i, j, a, p);
  }

  /** Scalars that agree modulo the order give the same point. */
  lemma GroupPeriod(g: int -> Aff, n: int, a: int, b: int, p: int, i: int, j: int)
    requires CyclicGroup(g, n, a, b, p) && Cong(i, j, n)
    ensures g(i) == g(j)
  {
    hide Cong, CyclicGroup, Holdable, OnCurve;
    CongRefl(j, n);
    CongSub(i, j, j, j, n);
    GroupAt(g, n, a, b, p, i - j);
    GroupSum(g, n, a, b, p, j, i - j);
    assert j + (i - j) == i;
  }

  /** -s gives the opposite point. */
  lemma GroupNeg(g: int -> Aff, n: int, a: int, b: int, p: int, i: int)
    requires CyclicGroup(g, n, a, b, p)
    ensures g(-i) == Neg(g(i), p)
  {
    hide CyclicGroup, OnCurve;
    GroupAt(g, n, a, b, p, 0);
    GroupAt(g, n, a, b, p, i);
    GroupAt(g, n, a, b, p, -i);
    GroupSum(g, n, a, b, p, i, -i);
    CongRefl(0, n);
    assert i + (-i) == 0;
    if g(i).Pt? && g(-i).Pt? {
      OppositeIsNeg(g(i), g(-i), p);
    }
  }

  lemma OppositeIsNeg(P: Aff, Q: Aff, p: int)
    requires p > 0 && P.Pt? && Q.Pt? && InField(P, p) && InField(Q, p) && Opposite(P, Q, p)
    ensures Q == Neg(P, p)
  {
    var s := P.y + Q.y;
    var k: int :| s == 0 + k * p;
    if k <= -1 { MulLe(k, -1, p); }
    if k >= 2 { MulLe(2, k, p); }
  }

  /** A nonzero scalar below the order is not a multiple of it. */
  lemma SmallScalar(s: int, n: int)
    requires -n < s < n && s != 0
    ensures !Cong(s, 0, n)
  {
    if Cong(s, 0, n) {
      var k: int :| s == 0 + k * n;
      if k >= 1 { MulLe(1, k, n); }
      if k <= -1 { MulLe(k, -1, n); }
    }
  }

  lemma DoubleScalar(s: int, n: int)
    requires n % 2 == 1 && !Cong(s, 0, n)
    ensures !Cong(2 * s, 0, n)
  {
    if Cong(2 * s, 0, n) { CancelTwo(s, 0, n); }
  }

  /** jp stands for s times the base point. */
  ghost predicate Tracks(jp: JPoint, g: int -> Aff, s: int, p: int)
    reads jp
  {
    JRange(jp.x, jp.y, jp.z, p) && Jac(Val(jp.x), Val(jp.y), Val(jp.z), g(s), p)
  }

  /** jp = 2 jp, for a point that is not infinity. */
  method DoubleTracked(jp: JPoint, c: EcdsaCurve, ghost g: int -> Aff, ghost s: int)
    requires Multiples(g, c) && Tracks(jp, g, s, Val(c.prime)) && !Cong(s, 0, Val(c.order))
    modifies jp
    ensures Tracks(jp, g, 2 * s, Val(c.prime)) && !Cong(2 * s, 0, Val(c.order))
    ensures JPart(jp.x, jp.y, jp.z, Val(c.prime))
  {
    hide Val, Cong, Norm, Prime, Jac, IsSum, Holdable, OnCurve, CyclicGroup, PrimeField;
    ghost var p, n, b := Val(c.prime), Val(c.order), Val(c.b);
    ghost var X, Y, Z := Val(jp.x), Val(jp.y), Val(jp.z);
    PrimeFits(c.prime, p);
    PointJacobianDouble(jp, c.prime, c.a, p);
    DoubleGroup(g, n, c.a, b, p, s, X, Y, Z, Val(jp.x), Val(jp.y), Val(jp.z));
    DoubleScalar(s, n);
  }

  lemma DoubleGroup(g: int -> Aff, n: int, a: int, b: int, p: int, s: int,
                    X: int, Y: int, Z: int, X3: int, Y3: int, Z3: int)
    requires CyclicGroup(g, n, a, b, p) && Prime(p) && p % 2 == 1 && !Cong(s, 0, n)
    requires Jac(X, Y, Z, g(s), p) && exists m: int :: DoubleFormula(X, Y, Z, a, m, X3, Y3, Z3, p)
    ensures Jac(X3, Y3, Z3, g(2 * s), p)
  {
    hide Cong, Prime, Jac, IsSum, OnCurve, CyclicGroup, DoubleFormula;
    var m: int :| DoubleFormula(X, Y, Z, a, m, X3, Y3, Z3, p);
    GroupAt(g, n, a, b, p, s);
    GroupSum(g, n, a, b, p, s, s);
    assert s + s == 2 * s;
    DoubleFormulaCorrect(g(s), g(2 * s), X, Y, Z, a, m, X3, Y3, Z3, p);
  }

  /** jp = P + jp, for two points that are not infinity. */
  method AddTracked(P: Point, jp: JPoint, c: EcdsaCurve, ghost g: int -> Aff, ghost t: int, ghost s: int)
    requires Multiples(g, c) && Tracks(jp, g, s, Val(c.prime)) && !Cong(s, 0, Val(c.order)) && !Cong(t, 0, Val(c.order))
    requires ARange(P.x, P.y, Val(c.prime)) && AffOf(P.x, P.y) == g(t)
    modifies jp
    ensures Tracks(jp, g, t + s, Val(c.prime)) && JPart(jp.x, jp.y, jp.z, Val(c.prime))
  {
    hide Val, Cong, Norm, Prime, Jac, IsSum, Holdable, OnCurve, CyclicGroup, PrimeField, AddFormula;
    ghost var p, n, b := Val(c.prime), Val(c.order), Val(c.b);
    ghost var X, Y, Z := Val(jp.x), Val(jp.y), Val(jp.z);
    PrimeFits(c.prime, p);
    PointJacobianAdd(P, jp, c.prime, c.a, p);
    GroupAt(g, n, c.a, b, p, t);
    AddGroup(g, n, c.a, b, p, t, s, X, Y, Z, Val(jp.x), Val(jp.y), Val(jp.z));
  }

  lemma AddGroup(g: int -> Aff, n: int, a: int, b: int, p: int, t: int, s: int,
                 X: int, Y: int, Z: int, X3: int, Y3: int, Z3: int)
    requires CyclicGroup(g, n, a, b, p) && Prime(p) && p % 2 == 1 && !Cong(s, 0, n) && g(t).Pt?
    requires Jac(X, Y, Z, g(s), p) && AddFormula(g(t).x, g(t).y, X, Y, Z, a, X3, Y3, Z3, p)
    ensures Jac(X3, Y3, Z3, g(t + s), p)
  {
    hide Cong, Prime, Jac, IsSum, OnCurve, CyclicGroup, AddFormula;
    GroupAt(g, n, a, b, p, s);
    GroupAt(g, n, a, b, p, t);
    GroupSum(g, n, a, b, p, t, s);
    AddFormulaCorrect(g(t), g(s), g(t + s), X, Y, Z, a, X3, Y3, Z3, p);
  }

  // --------------------------------------------------------- point_multiply

  /** pmult[j] = (2 j + 1) P. */
  ghost predicate OddTable(tab: seq<Coords>, g: int -> Aff, w: int, p: int) {
    |tab| == 8 && forall j :: 0 <= j < 8 ==> TableEntry(tab[j], g, (2 * j + 1) * w, p)
  }

  ghost predicate TableEntry(e: Coords, g: int -> Aff, s: int, p: int) {
    ARange(e.x, e.y, p) && AffOf(e.x, e.y) == g(s)
  }

  /** The next odd multiple: (2 i - 1) P + 2 P. */
  method NextEntry(prev: Coords, twice: Coords, c: EcdsaCurve, ghost g: int -> Aff, ghost i: nat) returns (e: Coords)
    requires Multiples(g, c) && i >= 1
    requires TableEntry(prev, g, 2 * i - 1, Val(c.prime)) && TableEntry(twice, g, 2, Val(c.prime))
    ensures TableEntry(e, g, 2 * i + 1, Val(c.prime))
  {
    hide Val, Cong, Norm, Prime, IsSum, OnCurve, CyclicGroup, PrimeField, AffOf, ARange;
    ghost var p, n, b := Val(c.prime), Val(c.order), Val(c.b);
    var left := new Point(prev.x, prev.y);
    var cur := new Point(twice.x, twice.y);
    GroupSum(g, n, c.a, b, p, 2 * i - 1, 2);
    GroupAt(g, n, c.a, b, p, 2 * i - 1);
    GroupAt(g, n, c.a, b, p, 2);
    GroupAt(g, n, c.a, b, p, 2 * i + 1);
    PointAdd(left, cur, c.prime, c.a, b, g(2 * i + 1), p);
    e := Coords(cur.x, cur.y);
  }

  /** P, 3 P, ..., 15 P, by adding 2 P repeatedly; 2 P is kept in the last slot. */
  method BuildTable(P: Point, c: EcdsaCurve, ghost g: int -> Aff) returns (tab: seq<Coords>)
    requires Multiples(g, c) && ARange(P.x, P.y, Val(c.prime)) && AffOf(P.x, P.y) == g(1)
    ensures OddTable(tab, g, 1, Val(c.prime))
  {
    hide Val, Cong, Norm, Prime, IsSum, OnCurve, CyclicGroup, PrimeField, AffOf, ARange;
    ghost var p, n, b := Val(c.prime), Val(c.order), Val(c.b);
    var two := new Point(P.x, P.y);
    GroupSum(g, n, c.a, b, p, 1, 1);
    GroupAt(g, n, c.a, b, p, 2);
    PointDouble(two, c.prime, c.a, g(2), p);
    var twice := Coords(two.x, two.y);
    tab := [Coords(P.x, P.y), twice, twice, twice, twice, twice, twice, twice];
    var i := 1;
    while i < 8
      invariant 1 <= i <= 8 && |tab| == 8
      invariant i < 8 ==> tab[7] == twice
      invariant forall j :: 0 <= j < i ==> TableEntry(tab[j], g, (2 * j + 1) * 1, p)
    {
      assert TableEntry(tab[i - 1], g, (2 * (i - 1) + 1) * 1, p);
      var next := NextEntry(tab[i - 1], tab[7], c, g, i);
      tab := tab[i := next];
      i := i + 1;
    }
  }

  /** The next window of a, four bits lower: l is the limb being read, ashift the
      position inside it. */
  method NextBits(a: Limbs9, l: nat, ashift: nat, ghost i: nat) returns (bits: int, l': nat, ashift': nat)
    requires Norm(a) && l <= 8 && ashift <= 28 && 4 * (i + 1) == 29 * l + ashift
    ensures l' <= 8 && ashift' <= 28 && 4 * i == 29 * l' + ashift'
    ensures Val(a) >= 0 && bits == Window(Val(a), i)
  {
    hide Val, Window, Pow, Wrap32;
    if ashift < 4 {
      var s := 4 - ashift;
      l' := l - 1;
      ashift' := 29 - s;
      WindowAcross(a, i, l', s);
      bits := (Wrap32(a[l] * Pow(2, s)) + a[l'] / Pow(2, ashift')) % 32;
    } else {
      l' := l;
      ashift' := ashift - 4;
      WindowInside(a, i, l, ashift');
      bits := (a[l] / Pow(2, ashift')) % 32;
    }
  }

  /** The table index and sign of a window. */
  lemma DigitIndex(w: int)
    requires 0 <= w < 32
    ensures var m := if w >= 16 then w - 16 else 15 - w;
            0 <= m / 2 < 8 && DigitOf(w) == (if w < 16 then -(2 * (m / 2) + 1) else 2 * (m / 2) + 1)
  {}

  /** jp = 16 jp. */
  method Times16(jp: JPoint, c: EcdsaCurve, ghost g: int -> Aff, ghost s: int)
    requires Multiples(g, c) && Tracks(jp, g, s, Val(c.prime)) && !Cong(s, 0, Val(c.order))
    modifies jp
    ensures Tracks(jp, g, 16 * s, Val(c.prime)) && !Cong(16 * s, 0, Val(c.order))
    ensures JPart(jp.x, jp.y, jp.z, Val(c.prime))
  {
    hide Val, Cong, Tracks, Multiples, JPart;
    DoubleTracked(jp, c, g, s);
    DoubleTracked(jp, c, g, 2 * s);
    DoubleTracked(jp, c, g, 4 * s);
    DoubleTracked(jp, c, g, 8 * s);
    assert 2 * (2 * s) == 4 * s && 2 * (4 * s) == 8 * s && 2 * (8 * s) == 16 * s;
  }

  /** Negates z when the signs of two rounds differ. */
  method NegateTracked(cond: bool, jp: JPoint, c: EcdsaCurve, ghost g: int -> Aff, ghost s: int)
    requires Multiples(g, c) && Tracks(jp, g, s, Val(c.prime)) && JPart(jp.x, jp.y, jp.z, Val(c.prime))
    modifies jp
    ensures Tracks(jp, g, if cond then -s else s, Val(c.prime))
  {
    hide Val, Cong, Norm, Prime, IsSum, OnCurve, CyclicGroup, PrimeField;
    ghost var p, n, b := Val(c.prime), Val(c.order), Val(c.b);
    ghost var Z := Val(jp.z);
    jp.z := CondNegate(cond, jp.z, c.prime, p);
    GroupAt(g, n, c.a, b, p, s);
    GroupNeg(g, n, c.a, b, p, s);
    if cond {
      NegateZ(Val(jp.x), Val(jp.y), Z, Val(jp.z), g(s), p);
    } else {
      SameZ(Val(jp.x), Val(jp.y), Z, Val(jp.z), g(s), p);
    }
  }

  lemma SameZ(X: int, Y: int, Z: int, Z': int, Q: Aff, p: int)
    requires Jac(X, Y, Z, Q, p) && Cong(Z', Z, p)
    ensures Jac(X, Y, Z', Q, p)
  {
    hide Cong;
    CongSym(Z', Z, p);
    if Q.Inf? {
      CongTrans(Z', Z, 0, p);
    } else {
      CongMul(Z, Z', Z, Z', p);
      CongMul(Z * Z, Z' * Z', Z, Z', p);
      CongRefl(Q.x, p);
      CongRefl(Q.y, p);
      CongMul(Q.x, Q.x, Z * Z, Z' * Z', p);
      CongMul(Q.y, Q.y, Z * Z * Z, Z' * Z' * Z', p);
      CongTrans(X, Q.x * (Z * Z), Q.x * (Z' * Z'), p);
      CongTrans(Y, Q.y * (Z * Z * Z), Q.y * (Z' * Z' * Z'), p);
      if Cong(Z', 0, p) { CongTrans(Z, Z', 0, p); }
    }
  }

  /** A partial sum of the upper digits is never a multiple of the order. */
  lemma HighNonZero(a: nat, i: nat, n: int)
    requires 1 <= i <= 63 && a < 2 * P256 && P256 - P224 <= n
    ensures !Cong(High(a, i), 0, n) && !Cong(-High(a, i), 0, n)
  {
    hide High, Pow, Cong;
    HexBits();
    HighRange(a, i);
    PowMonotoneExp(16, 64 - i, 63);
    PowDef(16, 63);
    SmallScalar(High(a, i), n);
    SmallScalar(-High(a, i), n);
  }

  /** The sign of a digit as a factor. */
  function Sign(negative: bool): int { if negative then -1 else 1 }

  /** One digit: jp = 16 jp + d P, kept positive or negative as the digit is. */
  method DigitRound(jp: JPoint, bits: int, sign: bool, tab: seq<Coords>, c: EcdsaCurve,
                    ghost g: int -> Aff, ghost a: nat, ghost i: nat)
    returns (nsign: bool)
    requires Multiples(g, c) && OddTable(tab, g, 1, Val(c.prime)) && i <= 62 && a < 2 * P256
    requires bits == Window(a, i) && Tracks(jp, g, Sign(sign) * High(a, i + 1), Val(c.prime))
    modifies jp
    ensures nsign == (bits < 16) && Tracks(jp, g, Sign(nsign) * High(a, i), Val(c.prime))
    ensures JPart(jp.x, jp.y, jp.z, Val(c.prime))
  {
    hide Val, Cong, Tracks, JPart, High, Window, CyclicGroup, PrimeField, TableEntry;
    ghost var h, p, n := High(a, i + 1), Val(c.prime), Val(c.order);
    HighNonZero(a, i + 1, n);
    ghost var s := Sign(sign) * h;
    assert s == h || s == -h;
    Times16(jp, c, g, s);
    nsign := bits < 16;
    var mag := if nsign then 15 - bits else bits - 16;
    NegateTracked(sign != nsign, jp, c, g, 16 * s);
    ghost var s' := if sign != nsign then -(16 * s) else 16 * s;
    assert s' == 16 * (Sign(nsign) * h);
    NegNonZero(16 * s, n);
    WindowRange(a, i);
    DigitIndex(bits);
    ghost var t := 2 * (mag / 2) + 1;
    assert TableEntry(tab[mag / 2], g, (2 * (mag / 2) + 1) * 1, p);
    var e := new Point(tab[mag / 2].x, tab[mag / 2].y);
    EntryIs(tab[mag / 2], g, t, p);
    SmallScalar(t, n);
    AddTracked(e, jp, c, g, t, s');
    HighDef(a, i);
    assert Sign(nsign) * High(a, i) == t + s' by {
      assert Digit(a, i) == Sign(nsign) * t;
      if nsign { assert High(a, i) == 16 * h - t; } else { assert High(a, i) == 16 * h + t; }
    }
  }

  lemma EntryIs(e: Coords, g: int -> Aff, s: int, p: int)
    requires TableEntry(e, g, s, p)
    ensures ARange(e.x, e.y, p) && AffOf(e.x, e.y) == g(s)
  {}

  lemma NegNonZero(s: int, n: int)
    requires !Cong(s, 0, n)
    ensures !Cong(-s, 0, n)
  {
    if Cong(-s, 0, n) {
      CongRefl(0, n);
      CongSub(0, 0, -s, 0, n);
    }
  }

  lemma WindowRange(a: nat, i: nat)
    ensures 0 <= Window(a, i) < 32
  {}

  /** The digit loop from the top: jp ends at plus or minus (a - 2^256) P. */
  method DigitLoop(a: Limbs9, tab: seq<Coords>, z: Limbs9, jp: JPoint, c: EcdsaCurve, ghost g: int -> Aff) returns (sign: bool)
    requires Multiples(g, c) && OddTable(tab, g, 1, Val(c.prime)) && Norm(a) && 0 <= Val(a) < 2 * P256
    requires Norm(z) && 0 < Val(z) < Val(c.prime)
    modifies jp
    ensures Tracks(jp, g, Sign(sign) * High(Val(a), 0), Val(c.prime)) && JPart(jp.x, jp.y, jp.z, Val(c.prime))
  {
    hide Val, Cong, Norm, JPart, High, Window, CyclicGroup, PrimeField, TableEntry, Jac, Pow;
    ghost var p, n, av := Val(c.prime), Val(c.order), Val(a);
    var l, ashift := 8, 20;
    TopBits(a);
    var bits := a[8] / 0x10_0000;
    sign := bits < 16;
    var mag := if sign then 15 - bits else bits - 16;
    DigitIndex(bits);
    ghost var t := 2 * (mag / 2) + 1;
    assert TableEntry(tab[mag / 2], g, (2 * (mag / 2) + 1) * 1, p);
    EntryIs(tab[mag / 2], g, t, p);
    SmallScalar(t, n);
    GroupAt(g, n, c.a, Val(c.b), p, t);
    var e := new Point(tab[mag / 2].x, tab[mag / 2].y);
    CurveToJacobian(e, jp, z, c.prime, p);
    JPartRange(jp.x, jp.y, jp.z, p);
    HighTop(av);
    var i := 63;
    while i > 0
      invariant 0 <= i <= 63 && l <= 8 && ashift <= 28 && 4 * i == 29 * l + ashift
      invariant Tracks(jp, g, Sign(sign) * High(av, i), p) && JPart(jp.x, jp.y, jp.z, p)
    {
      i := i - 1;
      bits, l, ashift := NextBits(a, l, ashift, i);
      sign := DigitRound(jp, bits, sign, tab, c, g, av, i);
    }
  }

  lemma JPartRange(xs: Limbs9, ys: Limbs9, zs: Limbs9, p: int)
    requires JPart(xs, ys, zs, p)
    ensures JRange(xs, ys, zs, p)
  {}

  lemma TopBits(a: Limbs9)
    requires Norm(a) && 0 <= Val(a) < 2 * P256
    ensures a[8] / 0x10_0000 == Window(Val(a), 63) && 0 <= a[8] / 0x10_0000 < 32
  {
    hide Lo, PowB, Pow, Window;
    PowB9();
    LoDef(a, 8);
    LoBound(a, 8);
    WindowInside(a, 63, 8, 20);
    PowTwenty();
  }

  lemma PowTwenty()
    ensures Pow(2, 20) == 0x10_0000
  {
    assert Pow(2, 10) == 0x400;
    PowAdd(2, 10, 10);
  }

  lemma HighTop(a: nat)
    ensures High(a, 63) == DigitOf(Window(a, 63))
  {
    hide Window;
    assert High(a, 64) == 0;
  }

  /** res = k P.  Returns 0 on success; 1, without a product, when k is zero
      (res is infinity) or not below the order (res is untouched). */
  method PointMultiply(c: EcdsaCurve, k: Limbs9, P: Point, res: Point, z: Limbs9, ghost g: int -> Aff) returns (ret: int)
    requires Multiples(g, c) && ARange(P.x, P.y, Val(c.prime)) && AffOf(P.x, P.y) == g(1)
    requires Norm(k) && Norm(z) && 0 < Val(z) < Val(c.prime)
    modifies res
    ensures ret == if Val(k) == 0 || Val(k) >= Val(c.order) then 1 else 0
    ensures Val(k) < Val(c.order) ==> ARange(res.x, res.y, Val(c.prime)) && AffOf(res.x, res.y) == g(Val(k))
    ensures Val(k) >= Val(c.order) ==> res.x == old(res.x) && res.y == old(res.y)
  {
    hide Val, Cong, Norm, JPart, High, CyclicGroup, PrimeField, ARange, OddTable, Jac;
    ghost var p, n, b := Val(c.prime), Val(c.order), Val(c.b);
    var kn := Copy(k);
    var on := Copy(c.order);
    var less := IsLess(kn, on);
    if !less {
      return 1;
    }
    ValBound(k);
    var a := MakeOdd(k, c.order);
    var isZero := IsZero(kn);
    if isZero {
      res.x, res.y := Zero9, Zero9;
      GroupAt(g, n, c.a, b, p, 0);
      CongRefl(0, n);
      ZeroHolds(p);
      return 1;
    }
    var tab := BuildTable(P, c, g);
    var jres := new JPoint();
    var sign := DigitLoop(a, tab, z, jres, c, g);
    ghost var s := Sign(sign) * High(Val(a), 0);
    NegateTracked(sign, jres, c, g, s);
    FinalScalar(g, n, c.a, b, p, Val(k), Val(a), sign);
    GroupAt(g, n, c.a, b, p, Val(k));
    JacobianToCurve(jres, res, c.prime, g(Val(k)), p);
    ret := 0;
  }

  /** The digits of a add up to k, or to k less the order. */
  lemma FinalScalar(g: int -> Aff, n: int, a: int, b: int, p: int, k: int, av: nat, sign: bool)
    requires CyclicGroup(g, n, a, b, p) && av % 2 == 1 && av < 2 * P256
    requires av == P256 + k - (if k % 2 == 0 then n else 0)
    ensures g(if sign then -(Sign(sign) * High(av, 0)) else Sign(sign) * High(av, 0)) == g(k)
  {
    hide Pow, High, Cong, CyclicGroup;
    HexBits();
    DigitsSum(av);
    CongBy(High(av, 0), k, n, if k % 2 == 0 then -1 else 0);
    GroupPeriod(g, n, a, b, p, High(av, 0), k);
  }

  // -------------------------------------------------------- scalar_multiply

  /** Limb j of a >> 4. */
  ghost function Shifted4(xs: seq<int>, j: nat): int
    requires j < |xs|
  {
    xs[j] / 16 + (if j == |xs| - 1 then 0 else (xs[j + 1] % 16) * 0x200_0000)
  }

  lemma {:induction false} Shifted4Lo(xs: seq<int>, out: seq<int>, i: nat)
    requires |xs| == |out| == 9 && i < 9 && forall j :: 0 <= j < i ==> out[j] == Shifted4(xs, j)
    ensures 16 * Lo(out, i) + xs[0] % 16 == Lo(xs, i) + (xs[i] % 16) * PowB(i)
    decreases i
  {
    if i > 0 {
      Shifted4Lo(xs, out, i - 1);
      Shifted4Step(Lo(out, i - 1), Lo(xs, i - 1), xs[0] % 16, xs[i - 1], xs[i] % 16, out[i - 1], PowB(i - 1));
    } else {
      assert PowB(0) == 1;
    }
  }

  lemma Shifted4Step(lo: int, lx: int, b0: int, x: int, b: int, o: int, w: int)
    requires 16 * lo + b0 == lx + (x % 16) * w && o == x / 16 + b * 0x200_0000
    ensures 16 * (lo + o * w) + b0 == (lx + x * w) + b * (BASE * w)
  {
    var h, l := x / 16, x % 16;
    assert x == 16 * h + l;
    assert (16 * h + l) * w == 16 * (h * w) + l * w;
    assert (h + b * 0x200_0000) * w == h * w + (b * w) * 0x200_0000;
  }

  lemma Shift4End(xs: Limbs9, out: Limbs9)
    requires Norm(xs) && forall j :: 0 <= j < 9 ==> out[j] == Shifted4(xs, j)
    ensures Norm(out) && Val(out) == Val(xs) / 16
  {
    Shifted4Lo(xs, out, 8);
    Shifted4Step(Lo(out, 8), Lo(xs, 8), xs[0] % 16, xs[8], 0, out[8], PowB(8));
  }

  method Rshift4(a: Limbs9) returns (r: Limbs9)
    requires Norm(a)
    ensures Norm(r) && Val(r) == Val(a) / 16
  {
    hide Lo, PowB, Val;
    r := a;
    var j := 0;
    while j < 8
      invariant 0 <= j <= 8
      invariant forall i :: j <= i < 9 ==> r[i] == a[i]
      invariant forall i :: 0 <= i < j ==> r[i] == Shifted4(a, i)
    {
      r := r[j := r[j] / 16 + (r[j + 1] % 16) * 0x200_0000];
      j := j + 1;
    }
    r := r[8 := r[8] / 16];
    Shift4End(a, r);
  }

  /** cp[i][j] = (2 j + 1) 16^i G. */
  ghost predicate PowerTable(cp: seq<seq<Coords>>, g: int -> Aff, p: int) {
    |cp| == 64 && forall i :: 0 <= i < 64 ==> OddTable(cp[i], g, Pow(16, i), p)
  }

  /** A partial sum of the lower digits is never a multiple of the order. */
  lemma LowNonZero(a: nat, i: nat, n: int)
    requires 1 <= i <= 63 && P256 - P224 <= n
    ensures !Cong(LowSum(a, i), 0, n) && !Cong(-LowSum(a, i), 0, n)
  {
    hide Pow, Cong, LowSum;
    HexBits();
    LowRange(a, i);
    LowOdd(a, i);
    PowMonotoneExp(16, i, 63);
    PowDef(16, 63);
    SmallScalar(LowSum(a, i), n);
    SmallScalar(-LowSum(a, i), n);
  }

  lemma {:induction false} PowerCoprime(w: int, i: nat, n: int)
    requires n % 2 == 1 && !Cong(w, 0, n)
    ensures !Cong(w * Pow(16, i), 0, n)
    decreases i
  {
    if i > 0 {
      PowerCoprime(w, i - 1, n);
      var v := w * Pow(16, i - 1);
      DoubleScalar(v, n);
      DoubleScalar(2 * v, n);
      DoubleScalar(4 * v, n);
      DoubleScalar(8 * v, n);
      assert w * (16 * Pow(16, i - 1)) == 2 * (8 * v);
    } else {
      assert w * Pow(16, 0) == w;
    }
  }

  /** Negates y when the signs of two rounds differ. */
  method NegateYTracked(cond: bool, jp: JPoint, c: EcdsaCurve, ghost g: int -> Aff, ghost s: int)
    requires Multiples(g, c) && Tracks(jp, g, s, Val(c.prime)) && JPart(jp.x, jp.y, jp.z, Val(c.prime))
    modifies jp
    ensures Tracks(jp, g, if cond then -s else s, Val(c.prime))
  {
    hide Val, Cong, Norm, Prime, IsSum, OnCurve, CyclicGroup, PrimeField;
    ghost var p, n, b := Val(c.prime), Val(c.order), Val(c.b);
    ghost var Y := Val(jp.y);
    jp.y := CondNegate(cond, jp.y, c.prime, p);
    GroupAt(g, n, c.a, b, p, s);
    GroupNeg(g, n, c.a, b, p, s);
    if cond {
      NegateY(Val(jp.x), Y, Val(jp.z), Val(jp.y), g(s), p);
    } else {
      SameY(Val(jp.x), Y, Val(jp.z), Val(jp.y), g(s), p);
    }
  }

  lemma SameY(X: int, Y: int, Z: int, Y': int, Q: Aff, p: int)
    requires Jac(X, Y, Z, Q, p) && Cong(Y', Y, p)
    ensures Jac(X, Y', Z, Q, p)
  {
    if Q.Pt? { CongTrans(Y', Y, Q.y * (Z * Z * Z), p); }
  }

  /** The window of the shifted number, read from its lowest limb. */
  lemma LowWindow(a: Limbs9, av: nat, i: nat)
    requires Norm(a) && Pow(16, i) > 0 && Val(a) == av / Pow(16, i)
    ensures a[0] % 32 == Window(av, i)
  {
    hide Pow;
    LoHi(a, 1);
    assert Lo(a, 1) == a[0] * PowB(0) && PowB(1) == BASE;
    Mod32(a[0], 0x100_0000 * Hi(a, 1));
  }

  /** The sign of the digit below i is the lowest bit from 4 i up. */
  lemma PreviousSign(av: nat, i: nat)
    requires i >= 1
    ensures (Window(av, i - 1) < 16) == (Window(av, i) % 2 == 0)
  {
    hide Pow;
    PowPositive(16, i - 1);
    PowPositive(16, i);
    PowDef(16, i - 1);
    DivDiv(av, Pow(16, i - 1), 16);
    SignInts(av / Pow(16, i - 1));
  }

  lemma SignInts(g: int)
    ensures (g % 32 < 16) == ((g / 16) % 32 % 2 == 0)
  {
    var h := g / 16;
    assert g == 16 * h + g % 16;
    HalfParity(h);
    HalfParity(h / 2);
    assert g == 32 * (h / 2) + (16 * (h % 2) + g % 16);
    ModUnique(g, h / 2, 16 * (h % 2) + g % 16, 32);
  }

  lemma HalfParity(h: int)
    ensures h == 2 * (h / 2) + h % 2 && 0 <= h % 2 < 2 && h % 32 % 2 == h % 2
  {
    var q, r := h / 32, h % 32;
    assert h == 32 * q + r;
    assert r == 2 * (r / 2) + r % 2;
    ModUnique(h, 16 * q + r / 2, r % 2, 2);
  }

  lemma NextQuotient(av: nat, i: nat)
    ensures Pow(16, i) > 0 && Pow(16, i + 1) > 0 && av / Pow(16, i) / 16 == av / Pow(16, i + 1)
  {
    PowPositive(16, i);
    PowDef(16, i);
    DivDiv(av, Pow(16, i), 16);
  }

  /** Adds one precomputed multiple: jp = sign(d) (d 16^i + what came before) G. */
  method LowRound(jp: JPoint, lowbits: int, row: seq<Coords>, c: EcdsaCurve, ghost g: int -> Aff, ghost av: nat, ghost i: nat)
    requires Multiples(g, c) && 1 <= i <= 63 && OddTable(row, g, Pow(16, i), Val(c.prime))
    requires lowbits == Window(av, i)
    requires Tracks(jp, g, Sign(Window(av, i - 1) < 16) * LowSum(av, i), Val(c.prime))
    requires JPart(jp.x, jp.y, jp.z, Val(c.prime))
    modifies jp
    ensures Tracks(jp, g, Sign(Window(av, i) < 16) * LowSum(av, i + 1), Val(c.prime))
    ensures JPart(jp.x, jp.y, jp.z, Val(c.prime))
  {
    hide Val, Cong, Tracks, JPart, Window, CyclicGroup, PrimeField, TableEntry, Pow, LowSum;
    ghost var p, n := Val(c.prime), Val(c.order);
    ghost var before, now := Window(av, i - 1) < 16, Window(av, i) < 16;
    ghost var s := Sign(before) * LowSum(av, i);
    WindowRange(av, i);
    DigitIndex(lowbits);
    PreviousSign(av, i);
    var mag := if lowbits < 16 then 15 - lowbits else lowbits - 16;
    NegateYTracked(mag % 2 == 0, jp, c, g, s);
    assert (mag % 2 == 0) == (before != now);
    ghost var s' := if mag % 2 == 0 then -s else s;
    assert s' == Sign(now) * LowSum(av, i);
    LowNonZero(av, i, n);
    ghost var t := 2 * (mag / 2) + 1;
    assert TableEntry(row[mag / 2], g, (2 * (mag / 2) + 1) * Pow(16, i), p);
    EntryIs(row[mag / 2], g, t * Pow(16, i), p);
    SmallScalar(t, n);
    PowerCoprime(t, i, n);
    var e := new Point(row[mag / 2].x, row[mag / 2].y);
    AddTracked(e, jp, c, g, t * Pow(16, i), s');
    LowDef(av, i);
    SignedSum(now, Digit(av, i), t, Pow(16, i), LowSum(av, i));
  }

  lemma SignedSum(negative: bool, d: int, t: int, w: int, low: int)
    requires d == if negative then -t else t
    ensures Sign(negative) * (low + d * w) == t * w + Sign(negative) * low
  {}

  /** res = k G from the table of precomputed multiples. */
  method ScalarMultiply(c: EcdsaCurve, k: Limbs9, cp: seq<seq<Coords>>, res: Point, z: Limbs9, ghost g: int -> Aff) returns (ret: int)
    requires Multiples(g, c) && PowerTable(cp, g, Val(c.prime))
    requires Norm(k) && Norm(z) && 0 < Val(z) < Val(c.prime)
    modifies res
    ensures ret == if Val(k) >= Val(c.order) then 1 else 0
    ensures Val(k) < Val(c.order) ==> ARange(res.x, res.y, Val(c.prime)) && AffOf(res.x, res.y) == g(Val(k))
    ensures Val(k) >= Val(c.order) ==> res.x == old(res.x) && res.y == old(res.y)
  {
    hide Val, Cong, Norm, JPart, High, LowSum, CyclicGroup, PrimeField, ARange, Jac, Pow, PowerTable, Tracks;
    ghost var p, n, b := Val(c.prime), Val(c.order), Val(c.b);
    var kn := Copy(k);
    var on := Copy(c.order);
    var less := IsLess(kn, on);
    if !less {
      return 1;
    }
    ValBound(k);
    var a := MakeOdd(k, c.order);
    var isZero := IsZero(kn);
    if isZero {
      res.x, res.y := Zero9, Zero9;
      GroupAt(g, n, c.a, b, p, 0);
      CongRefl(0, n);
      ZeroHolds(p);
      return 0;
    }
    var jres := new JPoint();
    var sign := LowLoop(a, cp, z, jres, c, g);
    ghost var s := Sign(sign) * High(Val(a), 0);
    NegateYTracked(sign, jres, c, g, s);
    FinalScalar(g, n, c.a, b, p, Val(k), Val(a), sign);
    GroupAt(g, n, c.a, b, p, Val(k));
    TracksIs(jres, g, if sign then -s else s, p);
    JacobianToCurve(jres, res, c.prime, g(Val(k)), p);
    ret := 0;
  }

  lemma TracksIs(jp: JPoint, g: int -> Aff, s: int, p: int)
    requires Tracks(jp, g, s, p)
    ensures JRange(jp.x, jp.y, jp.z, p) && Jac(Val(jp.x), Val(jp.y), Val(jp.z), g(s), p)
  {}

  lemma TableRow(cp: seq<seq<Coords>>, g: int -> Aff, p: int, i: nat)
    requires PowerTable(cp, g, p) && i < 64
    ensures |cp| == 64 && OddTable(cp[i], g, Pow(16, i), p)
  {}

  /** The digit loop from the bottom, shifting a by four bits each round. */
  method LowLoop(a0: Limbs9, cp: seq<seq<Coords>>, z: Limbs9, jp: JPoint, c: EcdsaCurve, ghost g: int -> Aff) returns (sign: bool)
    requires Multiples(g, c) && PowerTable(cp, g, Val(c.prime)) && Norm(a0) && 0 <= Val(a0) < 2 * P256
    requires Norm(z) && 0 < Val(z) < Val(c.prime)
    modifies jp
    ensures Tracks(jp, g, Sign(sign) * High(Val(a0), 0), Val(c.prime)) && JPart(jp.x, jp.y, jp.z, Val(c.prime))
  {
    hide Val, Cong, Norm, JPart, High, LowSum, Window, CyclicGroup, PrimeField, TableEntry, Jac, Pow, PowerTable;
    ghost var p, n, av := Val(c.prime), Val(c.order), Val(a0);
    var a := a0;
    LowStart(av);
    LowWindow(a, av, 0);
    var lowbits := a[0] % 32;
    var mag := if lowbits < 16 then 15 - lowbits else lowbits - 16;
    DigitIndex(lowbits);
    ghost var t := 2 * (mag / 2) + 1;
    TableRow(cp, g, p, 0);
    assert TableEntry(cp[0][mag / 2], g, (2 * (mag / 2) + 1) * Pow(16, 0), p);
    EntryIs(cp[0][mag / 2], g, t, p);
    SmallScalar(t, n);
    GroupAt(g, n, c.a, Val(c.b), p, t);
    var e := new Point(cp[0][mag / 2].x, cp[0][mag / 2].y);
    CurveToJacobian(e, jp, z, c.prime, p);
    JPartRange(jp.x, jp.y, jp.z, p);
    var i := 1;
    while i < 64
      invariant 1 <= i <= 64 && Norm(a) && Pow(16, i - 1) > 0 && Val(a) == av / Pow(16, i - 1)
      invariant Tracks(jp, g, Sign(Window(av, i - 1) < 16) * LowSum(av, i), p) && JPart(jp.x, jp.y, jp.z, p)
    {
      NextQuotient(av, i - 1);
      a := Rshift4(a);
      LowWindow(a, av, i);
      TableRow(cp, g, p, i);
      LowRound(jp, a[0] % 32, cp[i], c, g, av, i);
      i := i + 1;
    }
    LowWindow(a, av, 63);
    sign := a[0] % 32 < 16;
    LowEnd(av);
  }

  lemma LowStart(av: nat)
    ensures Pow(16, 0) == 1 && av / Pow(16, 0) == av
    ensures LowSum(av, 1) == DigitOf(Window(av, 0))
  {
    hide Window;
    LowDef(av, 0);
    PowDef(16, 0);
  }

  lemma LowEnd(av: nat)
    ensures LowSum(av, 64) == High(av, 0)
  {
    hide Pow, LowSum;
    LowHigh(av, 64);
  }
}
