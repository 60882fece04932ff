/** Modular multiplication of libs/crypto/bignum.c: the 18-limb product, its
    reduction from the top down, and exponentiation by squaring. */
module Product {
  import opened Arith
  import opened Limbs
  import opened Bignum

  // ------------------------------------------------------------ long product

  /** Limb t of k times the limb of x that lands in column m, or nothing. */
  ghost function Term(k: seq<int>, x: seq<int>, m: int, t: nat): int
    requires |k| == |x| == 9 && t < 9
  {
    if 0 <= m - t < 9 then k[t] * x[m - t] else 0
  }

  /** Column m of the product, from the limbs of k below j. */
  ghost function Column(k: seq<int>, x: seq<int>, m: int, j: nat): int
    requires |k| == |x| == 9 && j <= 9
  {
    if j == 0 then 0 else Column(k, x, m, j - 1) + Term(k, x, m, j - 1)
  }

  /** The columns below m added up with their weights. */
  ghost function Columns(k: seq<int>, x: seq<int>, m: nat, j: nat): int
    requires |k| == |x| == 9 && j <= 9
    decreases m
  {
    if m == 0 then 0 else Columns(k, x, m - 1, j) + Column(k, x, m - 1, j) * PowB(m - 1)
  }

  /** The limbs of x moved up by j places, as far as column m. */
  ghost function Moved(x: seq<int>, j: nat, m: nat): int
    requires |x| == 9
  {
    if m == 0 then 0
    else Moved(x, j, m - 1) + (if 0 <= m - 1 - j < 9 then x[m - 1 - j] * PowB(m - 1) else 0)
  }

  /** Limb j of k alone contributes k[j] times the moved x. */
  lemma {:induction false} RowMoved(k: seq<int>, x: seq<int>, m: nat, j: nat)
    requires |k| == |x| == 9 && j < 9
    ensures Columns(k, x, m, j + 1) == Columns(k, x, m, j) + k[j] * Moved(x, j, m)
    decreases m
  {
    hide PowB;
    if m > 0 {
      RowMoved(k, x, m - 1, j);
      SumTerm(Column(k, x, m - 1, j), Term(k, x, m - 1, j), PowB(m - 1));
      if 0 <= m - 1 - j < 9 {
        LinTerm(k[j], Moved(x, j, m - 1), x[m - 1 - j], PowB(m - 1));
      }
    }
  }

  lemma {:induction false} MovedLo(x: seq<int>, j: nat, c: nat)
    requires |x| == 9 && c <= 9
    ensures Moved(x, j, j + c) == PowB(j) * Lo(x, c)
    decreases c
  {
    hide PowB, Lo;
    LoDef(x, 0);
    if c == 0 {
      MovedBelow(x, j, j);
    } else {
      MovedLo(x, j, c - 1);
      LoDef(x, c - 1);
      PowBAdd(j, c - 1);
      MovedTerm(PowB(j), Lo(x, c - 1), x[c - 1], PowB(c - 1));
    }
  }

  lemma {:induction false} MovedBelow(x: seq<int>, j: nat, m: nat)
    requires |x| == 9 && m <= j
    ensures Moved(x, j, m) == 0
    decreases m
  {
    if m > 0 { MovedBelow(x, j, m - 1); }
  }

  lemma {:induction false} MovedAbove(x: seq<int>, j: nat, m: nat)
    requires |x| == 9 && m >= j + 9
    ensures Moved(x, j, m) == Moved(x, j, j + 9)
    decreases m
  {
    if m > j + 9 { MovedAbove(x, j, m - 1); }
  }

  lemma MovedTerm(pj: int, lo: int, x: int, pc: int)
    ensures pj * (lo + x * pc) == pj * lo + x * (pj * pc)
  {}

  /** The weighted columns add up to the product of the two numbers. */
  lemma {:induction false} ColumnsProduct(k: seq<int>, x: seq<int>, m: nat, j: nat)
    requires |k| == |x| == 9 && j <= 9 && m >= 17
    ensures Columns(k, x, m, j) == Lo(k, j) * Val(x)
    decreases j
  {
    hide Val, Lo, PowB, Columns;
    LoDef(k, 0);
    if j == 0 {
      EmptyColumns(k, x, m);
    } else {
      ColumnsProduct(k, x, m, j - 1);
      RowMoved(k, x, m, j - 1);
      MovedAbove(x, j - 1, m);
      MovedLo(x, j - 1, 9);
      ValIsLo(x);
      LoDef(k, j - 1);
      RowEnd(Lo(k, j - 1), k[j - 1], PowB(j - 1), Val(x));
    }
  }

  lemma ValIsLo(x: seq<int>)
    requires |x| == 9
    ensures Val(x) == Lo(x, 9)
  {}

  lemma RowEnd(lo: int, k: int, w: int, x: int)
    ensures (lo + k * w) * x == lo * x + k * (w * x)
  {}

  lemma {:induction false} EmptyColumns(k: seq<int>, x: seq<int>, m: nat)
    requires |k| == |x| == 9
    ensures Columns(k, x, m, 0) == 0
    decreases m
  {
    if m > 0 { EmptyColumns(k, x, m - 1); }
  }

  /** Limbs of k beyond the column contribute nothing. */
  lemma {:induction false} ColumnTail(k: seq<int>, x: seq<int>, m: nat, i: nat, j: nat)
    requires |k| == |x| == 9 && m < i <= j <= 9
    ensures Column(k, x, m, j) == Column(k, x, m, i)
    decreases j
  {
    if j > i { ColumnTail(k, x, m, i, j - 1); }
  }

  lemma {:induction false} ColumnHead(k: seq<int>, x: seq<int>, m: nat, j: nat)
    requires |k| == |x| == 9 && j <= 9 && m >= j + 8
    ensures Column(k, x, m, j) == 0
    decreases j
  {
    if j > 0 { ColumnHead(k, x, m, j - 1); }
  }

  lemma ProductBound(a: int, b: int)
    requires 0 <= a < BASE && 0 <= b < BASE
    ensures 0 <= a * b <= 0x3ff_ffff_c000_0001
  {
    MulLe(a, BASE - 1, b);
    MulLe(0, a, b);
  }

  /** One column: adds k[j] * x[i-j] for lo <= j < hi to the accumulator. */
  method AddColumn(k: Num, x: Num, i: nat, lo: nat, hi: nat, acc0: uint64) returns (acc: uint64)
    requires Norm(k.val) && Norm(x.val) && acc0 < 0x8_0000_0000
    requires lo <= hi <= 9 && hi <= i + 1 && i < lo + 9
    ensures acc == acc0 + Column(k.val, x.val, i, hi) - Column(k.val, x.val, i, lo)
    ensures acc <= 0x8_0000_0000 + 9 * 0x3ff_ffff_c000_0001
  {
    acc := acc0;
    var j := lo;
    while j < hi
      invariant lo <= j <= hi
      invariant acc == acc0 + Column(k.val, x.val, i, j) - Column(k.val, x.val, i, lo)
      invariant acc <= 0x8_0000_0000 + j * 0x3ff_ffff_c000_0001
    {
      ProductBound(k.val[j], x.val[i - j]);
      var kj: uint64, xj: uint64 := k.val[j], x.val[i - j];
      assert Column(k.val, x.val, i, j + 1) == Column(k.val, x.val, i, j) + Term(k.val, x.val, i, j);
      acc := acc + kj * xj;
      j := j + 1;
    }
  }

  lemma ColumnStep(out: seq<int>, i: nat, acc: int, k: seq<int>, x: seq<int>)
    requires |k| == |x| == 9 && i < |out|
    requires Lo(out, i) + acc * PowB(i) == Columns(k, x, i, 9)
    ensures var t := acc + Column(k, x, i, 9);
            Lo(out[i := Mask(t)], i + 1) + Shift(t) * PowB(i + 1) == Columns(k, x, i + 1, 9)
  {
    Carry(out, i, acc + Column(k, x, i, 9));
    SumTerm(acc, Column(k, x, i, 9), PowB(i));
  }

  method MultiplyLong(k: Num, x: Num, res: array<uint32>)
    requires Norm(k.val) && Norm(x.val) && res.Length == 18
    modifies res
    ensures NormTo(res[..], 18) && Lo(res[..], 18) == Val(k.val) * Val(x.val)
  {
    hide Lo, PowB, Column, Columns, Term, Mask, Shift;
    ghost var ks, xs := k.val, x.val;
    ghost var out: seq<uint32> := res[..];
    var acc: uint64 := 0;
    LongStart(out, ks, xs);
    var i := 0;
    while i < 9
      invariant 0 <= i <= 9 && acc < 0x8_0000_0000
      invariant out == res[..] && NormTo(out, i)
      invariant Lo(out, i) + acc * PowB(i) == Columns(ks, xs, i, 9)
    {
      ColumnStep(out, i, acc, ks, xs);
      LowColumn(ks, xs, i);
      acc := AddColumn(k, x, i, 0, i + 1, acc);
      res[i] := Mask(acc);
      out := out[i := Mask(acc)];
      acc := Shift(acc);
      i := i + 1;
    }
    while i < 17
      invariant 9 <= i <= 17 && acc < 0x8_0000_0000
      invariant out == res[..] && NormTo(out, i)
      invariant Lo(out, i) + acc * PowB(i) == Columns(ks, xs, i, 9)
    {
      ColumnStep(out, i, acc, ks, xs);
      ColumnHead(ks, xs, i, i - 8);
      acc := AddColumn(k, x, i, i - 8, 9, acc);
      res[i] := Mask(acc);
      out := out[i := Mask(acc)];
      acc := Shift(acc);
      i := i + 1;
    }
    LongEnd(out, acc, ks, xs);
    res[17] := acc;
    assert res[..] == out[17 := acc];
  }

  lemma LowColumn(k: seq<int>, x: seq<int>, i: nat)
    requires |k| == |x| == 9 && i < 9
    ensures Column(k, x, i, 0) == 0 && Column(k, x, i, 9) == Column(k, x, i, i + 1)
  {
    ColumnTail(k, x, i, i + 1, 9);
  }

  lemma LongStart(out: seq<int>, k: seq<int>, x: seq<int>)
    requires |k| == |x| == 9
    ensures Lo(out, 0) + 0 * PowB(0) == Columns(k, x, 0, 9)
  {}

  /** The last carry is a normalized limb. */
  lemma LongEnd(out: seq<int>, acc: int, k: seq<int>, x: seq<int>)
    requires |out| == 18 && NormTo(out, 17) && Norm(k) && Norm(x) && acc >= 0
    requires Lo(out, 17) + acc * PowB(17) == Columns(k, x, 17, 9)
    ensures acc < BASE && Lo(out[17 := acc], 18) == Val(k) * Val(x)
  {
    hide PowB, Lo, Columns, Val;
    var w9, w17, w18 := PowB(9), PowB(17), PowB(18);
    ColumnsProduct(k, x, 17, 9);
    ValIsLo(k);
    LoBound(out, 17);
    LoAgree(out, out[17 := acc], 17);
    LoDef(out[17 := acc], 17);
    LoBound(k, 9);
    LoBound(x, 9);
    ValIsLo(x);
    PowBAdd(9, 9);
    SquareBound(Val(k), Val(x), w9);
    if acc >= BASE { MulLe(BASE, acc, w17); }
  }

  lemma SquareBound(a: int, b: int, w: int)
    requires 0 <= a < w && 0 <= b < w
    ensures 0 <= a * b < w * w
  {
    MulLe(a, w, b);
    MulLe(0, a, b);
    MulLt(b, w, w);
  }

  // -------------------------------------------------------------- reduction

  /** 2^287: the room the reduction step at limb d leaves above 2^(29 d). */
  const P287 := 0x8000_0000_0000_0000_0000_0000_0000_0000_0000_0000_0000_0000_0000_0000_0000_0000_0000_0000

  /** The limbs above the window are zero. */
  lemma WindowTail(r: seq<int>, d: nat)
    requires |r| == 18 && NormTo(r, 18) && d <= 8 && Lo(r, 18) < P287 * PowB(d)
    ensures forall j :: d + 10 <= j < 18 ==> r[j] == 0
  {
    hide PowB, Lo;
    var t := r[d..];
    LoSplit(r, d, 18 - d);
    LoSplit(t, 10, 8 - d);
    PowB9();
    LoDef(t, 9);
    LoBound(t[10..], 8 - d);
    LoBound(t, 10);
    LoBound(r, d);
    var h, w := Lo(t[10..], 8 - d), PowB(d);
    if h >= 1 {
      MulLe(1, h, PowB(10));
      MulLe(P287, Lo(t, 10) + h * PowB(10), w);
      assert false;
    }
    ZeroLimbs(t[10..], 8 - d);
    forall j | d + 10 <= j < 18 ensures r[j] == 0 {
      assert t[10..][j - d - 10] == 0;
    }
  }

  /** An 18-limb number below 2^287 * 2^(29 d) is its low d limbs plus ten more. */
  lemma WindowSplit(r: seq<int>, d: nat)
    requires |r| == 18 && NormTo(r, 18) && d <= 8 && Lo(r, 18) < P287 * PowB(d)
    ensures Lo(r, 18) == Lo(r, d) + (Val(r[d..d + 9]) + r[d + 9] * P261) * PowB(d)
    ensures 0 <= Val(r[d..d + 9]) + r[d + 9] * P261 < P287
  {
    hide PowB, Lo, Val;
    var t := r[d..];
    WindowTail(r, d);
    ZeroVal(t[10..], 8 - d);
    LoSplit(r, d, 18 - d);
    LoSplit(t, 10, 8 - d);
    LoDef(t, 9);
    LoAgree(t, r[d..d + 9], 9);
    ValIsLo(r[d..d + 9]);
    PowB9();
    LoBound(t, 10);
    LoBound(r, d);
    if Lo(t, 10) >= P287 { MulLe(P287, Lo(t, 10), PowB(d)); }
  }

  /** Replacing the window [d, d+10) changes the value by the window's change. */
  lemma WindowJoin(r: seq<int>, r': seq<int>, d: nat)
    requires |r| == |r'| == 18 && NormTo(r, 18) && d <= 8 && Lo(r, 18) < P287 * PowB(d)
    requires forall j :: 0 <= j < 18 && !(d <= j <= d + 9) ==> r'[j] == r[j]
    requires r'[d + 9] == 0
    ensures Lo(r', 18) == Lo(r, d) + Val(r'[d..d + 9]) * PowB(d)
  {
    hide PowB, Lo, Val;
    var t, t' := r[d..], r'[d..];
    WindowTail(r, d);
    ZeroVal(t'[10..], 8 - d);
    LoSplit(r', d, 18 - d);
    LoSplit(t', 10, 8 - d);
    LoDef(t', 9);
    LoAgree(r, r', d);
    LoAgree(t', r'[d..d + 9], 9);
    ValIsLo(r'[d..d + 9]);
  }

  lemma {:induction false} ZeroLimbs(s: seq<int>, i: nat)
    requires i <= |s| && NormTo(s, i) && Lo(s, i) == 0
    ensures forall j :: 0 <= j < i ==> s[j] == 0
    decreases i
  {
    if i > 0 {
      LoBound(s, i - 1);
      MulLe(0, s[i - 1], PowB(i - 1));
      if s[i - 1] >= 1 { MulLe(1, s[i - 1], PowB(i - 1)); }
      ZeroLimbs(s, i - 1);
    }
  }

  /** The bits of the window above 2^256 are coef, and taking coef moduli away
      leaves less than two. */
  lemma WindowCoef(v: int, lo8: int, top: int, next: int, p: int)
    requires P256 - P224 <= p <= P256
    requires 0 <= lo8 < P232 && 0 <= top < BASE && 0 <= next < BASE
    requires v == lo8 + top * P232 + next * P261 && v < P287
    ensures var coef := top / 0x100_0000 + next * 32;
            0 <= coef < 0x8000_0000 && 0 <= v - coef * p < 2 * p
  {
    var c0, low := top / 0x100_0000, top % 0x100_0000;
    WindowRemainder(c0 + next * 32, lo8 + low * P232, p);
  }

  lemma WindowRemainder(coef: int, rem: int, p: int)
    requires P256 - P224 <= p <= P256
    requires 0 <= coef && 0 <= rem < P256 && coef * P256 + rem < P287
    ensures coef < 0x8000_0000 && 0 <= coef * P256 + rem - coef * p < 2 * p
  {
    MulLe(P256 - p, P224, coef);
    MulLe(0, P256 - p, coef);
    assert (P256 - p) * coef == P256 * coef - p * coef;
  }

  lemma WindowVal(s: seq<int>)
    requires Norm(s)
    ensures Val(s) == Lo(s, 8) + s[8] * P232 && 0 <= Lo(s, 8) < P232
  {
    ValSum(s);
    PowB9();
    LoBound(s, 8);
  }

  lemma BigCoefProduct(p: int, coef: int)
    requires 0 <= p < BASE && 0 <= coef < 0x8000_0000
    ensures 0 <= p * coef <= (BASE - 1) * 0x7fff_ffff && (-coef) * p == -(p * coef)
  {
    MulLe(p, BASE - 1, coef);
    MulLe(0, p, coef);
  }

  lemma WindowEnd(out: seq<int>, acc: int, ws: seq<int>, coef: int, ps: seq<int>)
    requires |out| == |ws| >= 10 && |ps| == 9 && NormTo(out, 9)
    requires Lo(out, 9) + acc * PowB(9) == Lin(9, 0x8000_0000, 1, ws, 0 - coef, ps, 0, ws)
    requires 0 <= Val(ws[..9]) + ws[9] * P261 - coef * Val(ps) < P261
    ensures Val(out[..9]) == Val(ws[..9]) + ws[9] * P261 - coef * Val(ps)
  {
    hide PowB, Lo;
    PowB9();
    LoAgree(out, out[..9], 9);
    LoAgree(ws, ws[..9], 9);
    LoBound(out, 9);
    assert (0 - coef) * Val(ps) == -(coef * Val(ps));
  }

  /** The nine-limb carry loop of a reduction step: takes coef moduli out of the
      limbs from d on.  The accumulator never leaves 64 bits. */
  method ReduceWindow(res: array<uint32>, prime: Num, d: nat, coef: uint32)
    requires res.Length == 18 && NormTo(res[..], 18) && d <= 8 && Norm(prime.val)
    requires coef < 0x8000_0000
    requires 0 <= Val(res[d..d + 9]) + res[d + 9] * P261 - coef * Val(prime.val) < P261
    modifies res
    ensures NormTo(res[..], 18)
    ensures Val(res[d..d + 9]) == old(Val(res[d..d + 9])) + old(res[d + 9]) * P261 - coef * Val(prime.val)
    ensures forall j :: 0 <= j < 18 && !(d <= j < d + 9) ==> res[j] == old(res[j])
  {
    hide Lo, PowB, Lin, Val, Mask, Shift;
    ghost var ws, ps := res[d..], prime.val;
    ghost var out: seq<uint32> := ws;
    ghost var neg: int := 0 - coef;
    var acc: uint64 := 0x8000_0000;
    LinStart(out, 0x8000_0000, 1, ws, neg, ps, 0, ws);
    var i := 0;
    while i < 9
      invariant 0 <= i <= 9 && acc < 0x8_0000_0000 && prime.val == ps
      invariant |out| == 18 - d && NormTo(out, |out|) && out == res[d..]
      invariant forall j :: i <= j < |out| ==> out[j] == ws[j]
      invariant res[..d] == old(res[..d])
      invariant Lo(out, i) + acc * PowB(i) == Lin(i, 0x8000_0000, 1, ws, neg, ps, 0, ws)
    {
      LinStep(out, i, acc, 0x8000_0000, 1, ws, neg, ps, 0, ws);
      BigCoefProduct(ps[i], coef);
      var pi: uint64, ri: uint64 := prime.val[i], res[d + i];
      assert ri == out[i] == ws[i];
      acc := acc + 0x8000_0000 * (BASE - 1) + ri - pi * coef;
      res[d + i] := Mask(acc);
      out := out[i := Mask(acc)];
      acc := Shift(acc);
      i := i + 1;
    }
    assert old(res[d..d + 9]) == ws[..9];
    WindowEnd(out, acc, ws, coef, ps);
    assert res[d..d + 9] == out[..9];
    assert res[..] == old(res[..d]) + out;
  }

  /** Subtracts coef * p * 2^(29 d), where coef is the part of res above 2^(256 + 29 d). */
  method ReduceStep(res: array<uint32>, prime: Num, d: nat)
    requires res.Length == 18 && NormTo(res[..], 18) && d <= 8 && Modulus(prime.val)
    requires Lo(res[..], 18) < P287 * PowB(d)
    modifies res
    ensures NormTo(res[..], 18)
    ensures 0 <= Lo(res[..], 18) < 2 * Val(prime.val) * PowB(d)
    ensures Cong(Lo(res[..], 18), old(Lo(res[..], 18)), Val(prime.val))
  {
    hide Lo, PowB, Val, Cong;
    ghost var r0, p := res[..], Val(prime.val);
    ghost var ws := r0[d..d + 9];
    assert ws == res[d..d + 9];
    WindowSplit(r0, d);
    WindowVal(ws);
    ghost var v := Val(ws) + r0[d + 9] * P261;
    WindowCoef(v, Lo(ws, 8), r0[d + 8], r0[d + 9], p);
    var coef: uint32 := res[d + 8] / 0x100_0000 + res[d + 9] * 32;
    ReduceWindow(res, prime, d, coef);
    res[d + 9] := 0;
    ghost var r1 := res[..];
    assert res[d..d + 9] == r1[d..d + 9];
    WindowJoin(r0, r1, d);
    ReduceValue(Lo(r0, d), v, coef, p, PowB(d), Lo(r0, 18), Lo(r1, 18));
    LoBound(r0, d);
  }

  lemma ReduceValue(lo: int, v: int, coef: int, p: int, w: int, r0: int, r1: int)
    requires r0 == lo + v * w && r1 == lo + (v - coef * p) * w
    requires w >= 1 && 0 <= v - coef * p < 2 * p
    ensures Cong(r1, r0, p)
    ensures 0 <= lo < w ==> 0 <= r1 < 2 * p * w
  {
    assert (v - coef * p) * w == v * w - (coef * w) * p;
    CongBy(r1, r0, p, -(coef * w));
    MulLe(v - coef * p, 2 * p - 1, w);
    MulLe(0, v - coef * p, w);
    assert (2 * p - 1) * w == 2 * p * w - w;
  }

  method MultiplyReduce(x: Num, res: array<uint32>, prime: Num)
    requires res.Length == 18 && NormTo(res[..], 18) && Modulus(prime.val) && x != prime
    requires 0 <= Lo(res[..], 18) < P519
    modifies x, res
    ensures Norm(x.val) && Val(x.val) < 2 * Val(prime.val)
    ensures Cong(Val(x.val), old(Lo(res[..], 18)), Val(prime.val))
  {
    hide Lo, PowB, Val, Cong;
    ghost var p, r0 := Val(prime.val), Lo(res[..], 18);
    PowB9();
    CongRefl(r0, p);
    var i := 9;
    while i > 0
      invariant 0 <= i <= 9 && NormTo(res[..], 18) && prime.val == old(prime.val)
      invariant i == 9 ==> 0 <= Lo(res[..], 18) < P519
      invariant i < 9 ==> 0 <= Lo(res[..], 18) < 2 * p * PowB(i)
      invariant Cong(Lo(res[..], 18), r0, p)
    {
      i := i - 1;
      LoDef(res[..], i);
      NextWindow(p, PowB(i));
      ghost var r1 := Lo(res[..], 18);
      ReduceStep(res, prime, i);
      CongTrans(Lo(res[..], 18), r1, r0, p);
    }
    LoDef(res[..], 0);
    ghost var r := res[..];
    LowLimbs(r);
    i := 0;
    while i < 9
      invariant 0 <= i <= 9 && prime.val == old(prime.val) && res[..] == r
      invariant forall j :: 0 <= j < i ==> x.val[j] == r[j]
    {
      x.val := x.val[i := res[i]];
      i := i + 1;
    }
    LoAgree(x.val, r, 9);
    ValIsLo(x.val);
  }

  /** The bound a step leaves is within what the next one needs. */
  lemma NextWindow(p: int, w: int)
    requires 0 < p <= P256 && w >= 1
    ensures 2 * p * (BASE * w) <= P287 * w
  {
    MulLe(2 * p * BASE, P287, w);
    assert 2 * p * (BASE * w) == (2 * p * BASE) * w;
  }

  /** Below 2^261 only the low nine limbs count. */
  lemma LowLimbs(r: seq<int>)
    requires |r| == 18 && NormTo(r, 18) && Lo(r, 18) < P261
    ensures Lo(r, 9) == Lo(r, 18)
  {
    hide Lo, PowB;
    LoSplit(r, 9, 9);
    LoBound(r, 9);
    LoBound(r[9..], 9);
    PowB9();
  }

  /** x = k x modulo p. */
  method Multiply(k: Num, x: Num, prime: Num)
    requires Norm(k.val) && Norm(x.val) && Modulus(prime.val) && x != prime
    requires Val(k.val) * Val(x.val) < P519
    modifies x
    ensures Norm(x.val) && 0 <= Val(x.val) < 2 * Val(prime.val)
    ensures Cong(Val(x.val), old(Val(k.val)) * old(Val(x.val)), Val(prime.val))
  {
    hide Lo, PowB, Val, Cong;
    var res := new uint32[18];
    MultiplyLong(k, x, res);
    ValBound(k.val);
    ValBound(x.val);
    MulLe(0, Val(k.val), Val(x.val));
    MultiplyReduce(x, res, prime);
    ValBound(x.val);
  }

  // --------------------------------------------------------- exponentiation

  /** The library's bound on a factor that has not been reduced: 2^259. */
  const P259 := 0x8_0000_0000_0000_0000_0000_0000_0000_0000_0000_0000_0000_0000_0000_0000_0000_0000

  lemma FactorsFit(a: int, b: int)
    requires 0 <= a < P259 && 0 <= b < P259
    ensures a * b < P519
  {
    MulLe(a, P259, b);
  }

  /** res * acc^rem is unchanged when the lowest bit of rem is consumed. */
  lemma SquareStep(res: int, acc: int, rem: nat, res': int, acc': int, t: int, p: int)
    requires Cong(res * Pow(acc, rem), t, p)
    requires Cong(acc', acc * acc, p)
    requires if rem % 2 == 1 then Cong(res', acc * res, p) else res' == res
    ensures Cong(res' * Pow(acc', rem / 2), t, p)
  {
    hide Cong, Pow;
    var h := rem / 2;
    CongPow(acc', acc * acc, h, p);
    PowMul(acc, 2, h);
    PowTwo(acc);
    assert Cong(Pow(acc', h), Pow(acc, 2 * h), p);
    if rem % 2 == 1 {
      CongMul(res', acc * res, Pow(acc', h), Pow(acc, 2 * h), p);
      PowAdd(acc, 1, 2 * h);
      assert (acc * res) * Pow(acc, 2 * h) == res * (acc * Pow(acc, 2 * h));
    } else {
      CongRefl(res, p);
      CongMul(res', res, Pow(acc', h), Pow(acc, 2 * h), p);
    }
    CongTrans(res' * Pow(acc', h), res * Pow(acc, rem), t, p);
  }

  lemma PowTwo(a: int)
    ensures Pow(a, 2) == a * a && Pow(a, 1) == a && Pow(a, 0) == 1
  {
    assert Pow(a, 2) == a * Pow(a, 1);
  }

  lemma {:induction false} CongPow(a: int, b: int, e: nat, p: int)
    requires Cong(a, b, p)
    ensures Cong(Pow(a, e), Pow(b, e), p)
    decreases e
  {
    if e == 0 {
      CongRefl(1, p);
    } else {
      CongPow(a, b, e - 1, p);
      CongMul(a, b, Pow(a, e - 1), Pow(b, e - 1), p);
    }
  }

  /** What is left of the exponent at bit j of limb i. */
  ghost function Rest(es: seq<int>, i: nat, j: nat, limb: int): int
    requires |es| == 9 && i < 9 && j <= 29
  {
    limb + Pow(2, 29 - j) * Hi(es, i + 1)
  }

  lemma RestStep(es: seq<int>, i: nat, j: nat, limb: int)
    requires Norm(es) && i < 9 && j < 29 && 0 <= limb < Pow(2, 29 - j)
    ensures Rest(es, i, j, limb) >= 0 && limb / 2 < Pow(2, 29 - (j + 1))
    ensures Rest(es, i, j, limb) % 2 == limb % 2
    ensures Rest(es, i, j, limb) / 2 == Rest(es, i, j + 1, limb / 2)
  {
    hide Pow, Hi;
    var w, h := Pow(2, 29 - (j + 1)), Hi(es, i + 1);
    PowDef(2, 29 - (j + 1));
    PowPositive(2, 29 - (j + 1));
    HiNonNegative(es, i + 1);
    HalveInts(limb, w, h);
  }

  lemma HalveInts(limb: int, w: int, h: int)
    requires w > 0 && h >= 0 && 0 <= limb < 2 * w
    ensures var r := limb + (2 * w) * h; r >= 0 && limb / 2 < w && r % 2 == limb % 2 && r / 2 == limb / 2 + w * h
  {
    MulLe(0, w, h);
    assert (2 * w) * h == 2 * (w * h);
  }

  lemma {:induction false} HiNonNegative(s: seq<int>, i: nat)
    requires i <= |s| && NormTo(s, |s|)
    ensures Hi(s, i) >= 0
    decreases |s| - i
  {
    if i < |s| { HiNonNegative(s, i + 1); }
  }

  lemma RestNext(es: seq<int>, i: nat)
    requires Norm(es) && i < 9
    ensures Rest(es, i, 0, es[i]) == Hi(es, i) >= 0 && es[i] < Pow(2, 29)
    ensures Rest(es, i, 29, 0) == Hi(es, i + 1) >= 0
    ensures i == 8 ==> Hi(es, i + 1) == 0
  {
    HiNonNegative(es, i);
    HiNonNegative(es, i + 1);
    assert Pow(2, 0) == 1;
    TwoTo29();
  }

  /** One limb of the exponent; stops early in the last one. */
  method PowerLimb(acc: Num, res: Num, prime: Num, i: nat, ghost es: Limbs9, limb0: uint32, ghost t: int)
    requires Norm(acc.val) && Norm(res.val) && Modulus(prime.val) && Norm(es) && i < 9 && limb0 == es[i]
    requires acc != res && acc != prime && res != prime
    requires 0 <= Val(acc.val) < P259 && 0 <= Val(res.val) < 2 * Val(prime.val)
    requires Hi(es, i) >= 0 && Cong(Val(res.val) * Pow(Val(acc.val), Hi(es, i)), t, Val(prime.val))
    modifies acc, res
    ensures Norm(acc.val) && Norm(res.val)
    ensures 0 <= Val(acc.val) < P259 && 0 <= Val(res.val) < 2 * Val(prime.val)
    ensures Hi(es, i + 1) >= 0 && Cong(Val(res.val) * Pow(Val(acc.val), Hi(es, i + 1)), t, Val(prime.val))
  {
    hide Val, Norm, Cong, Pow, Hi, Rest;
    ghost var p := Val(prime.val);
    var limb: uint32 := limb0;
    RestNext(es, i);
    var j := 0;
    while j < 29
      invariant 0 <= j <= 29 && Norm(acc.val) && Norm(res.val) && prime.val == old(prime.val)
      invariant 0 <= Val(acc.val) < P259 && 0 <= Val(res.val) < 2 * p
      invariant limb < Pow(2, 29 - j) && Rest(es, i, j, limb) >= 0
      invariant Cong(Val(res.val) * Pow(Val(acc.val), Rest(es, i, j, limb)), t, p)
    {
      if i == 8 && limb == 0 {
        RestLast(es, j);
        break;
      }
      ghost var a, r, rem := Val(acc.val), Val(res.val), Rest(es, i, j, limb);
      RestStep(es, i, j, limb);
      FactorsFit(a, r);
      FactorsFit(a, a);
      if limb % 2 == 1 {
        Multiply(acc, res, prime);
      }
      limb := limb / 2;
      Multiply(acc, acc, prime);
      SquareStep(r, a, rem, Val(res.val), Val(acc.val), t, p);
      j := j + 1;
    }
    RestDone(es, i, j, limb);
  }

  lemma RestLast(es: seq<int>, j: nat)
    requires Norm(es) && j <= 29
    ensures Rest(es, 8, j, 0) == 0 && Hi(es, 9) == 0
  {}

  lemma RestDone(es: seq<int>, i: nat, j: nat, limb: int)
    requires Norm(es) && i < 9 && j <= 29 && 0 <= limb < Pow(2, 29 - j)
    requires j == 29 || (i == 8 && limb == 0)
    ensures Rest(es, i, j, limb) == Hi(es, i + 1)
  {
    assert Pow(2, 0) == 1;
  }

  /** res = x^e modulo p, from the least significant bit of e up. */
  method PowerMod(x: Num, e: Num, prime: Num, res: Num)
    requires Norm(x.val) && Norm(e.val) && Modulus(prime.val) && res != prime && res != e
    requires Val(x.val) < P259
    modifies res
    ensures Norm(res.val) && 0 <= Val(res.val) < 2 * Val(prime.val)
    ensures Val(e.val) >= 0 && Cong(Val(res.val), Pow(old(Val(x.val)), Val(e.val)), Val(prime.val))
  {
    hide Val, Norm, Cong, Pow, Hi;
    ghost var p, es := Val(prime.val), e.val;
    ValBound(x.val);
    var acc := new Num();
    acc.val := x.val;
    SetOne(res);
    ghost var t := Pow(Val(acc.val), Exponent(es));
    PowerStart(Val(acc.val), es, p);
    var i := 0;
    while i < 9
      invariant 0 <= i <= 9 && Norm(acc.val) && Norm(res.val) && prime.val == old(prime.val) && e.val == es
      invariant 0 <= Val(acc.val) < P259 && 0 <= Val(res.val) < 2 * p
      invariant Hi(es, i) >= 0 && Cong(Val(res.val) * Pow(Val(acc.val), Hi(es, i)), t, p)
    {
      PowerLimb(acc, res, prime, i, es, e.val[i], t);
      i := i + 1;
    }
    PowerEnd(Val(res.val), Val(acc.val), es, t, p);
  }

  ghost function Exponent(es: seq<int>): nat
    requires Norm(es)
  {
    HiNonNegative(es, 0);
    Hi(es, 0)
  }

  lemma PowerStart(x: int, es: seq<int>, p: int)
    requires Norm(es)
    ensures Hi(es, 0) >= 0 && Cong(1 * Pow(x, Hi(es, 0)), Pow(x, Exponent(es)), p)
    ensures Val(es) == Exponent(es)
  {
    HiNonNegative(es, 0);
    CongRefl(Pow(x, Hi(es, 0)), p);
    LoHi(es, 0);
  }

  lemma PowerEnd(r: int, a: int, es: seq<int>, t: int, p: int)
    requires |es| == 9 && Hi(es, 9) >= 0 && Cong(r * Pow(a, Hi(es, 9)), t, p)
    ensures Cong(r, t, p)
  {}
}
