/** The in-place operations of libs/crypto/bignum.c that need no product:
    comparison, shifts, addition, subtraction, negation and fast reduction. */
module Bignum {
  import opened Arith
  import opened Limbs

  /** A bignum256: nine limbs updated in place, copied whole by assigning `val`. */
  class Num {
    var val: Limbs9

    constructor ()
      ensures val == Zero9 && Norm(val) && Val(val) == 0
    {
      val := Zero9;
      new;
      ZeroVal(val, 9);
    }
  }

  const Zero9: Limbs9 := [0, 0, 0, 0, 0, 0, 0, 0, 0]

  lemma {:induction false} ZeroVal(s: seq<int>, i: nat)
    requires i <= |s| && forall j :: 0 <= j < i ==> s[j] == 0
    ensures Lo(s, i) == 0
    decreases i
  {
    if i > 0 { ZeroVal(s, i - 1); }
  }

  lemma OneVal(s: seq<int>)
    requires |s| == 9 && s[0] == 1 && forall j :: 1 <= j < 9 ==> s[j] == 0
    ensures Val(s) == 1
  {
    ZeroVal(s[1..], 8);
    LoSplit(s, 1, 8);
    assert Lo(s, 1) == s[0] * PowB(0);
  }

  method SetOne(x: Num)
    modifies x
    ensures Norm(x.val) && Val(x.val) == 1
  {
    x.val := [1, 0, 0, 0, 0, 0, 0, 0, 0];
    OneVal(x.val);
  }

  // ------------------------------------------------------------- comparison

  method IsZero(x: Num) returns (r: bool)
    requires Norm(x.val)
    ensures r == (Val(x.val) == 0)
  {
    r := true;
    for i := 0 to 9
      invariant r == forall j :: 0 <= j < i ==> x.val[j] == 0
    {
      r := r && x.val[i] == 0;
    }
    if r { ZeroVal(x.val, 9); }
    if Val(x.val) == 0 {
      ZeroVal(Zero9, 9);
      ValInjective(x.val, Zero9);
    }
  }

  method IsOne(x: Num) returns (r: bool)
    requires Norm(x.val)
    ensures r == (Val(x.val) == 1)
  {
    r := x.val[0] == 1;
    for i := 1 to 9
      invariant r == (x.val[0] == 1 && forall j :: 1 <= j < i ==> x.val[j] == 0)
    {
      r := r && x.val[i] == 0;
    }
    ghost var one: Limbs9 := [1, 0, 0, 0, 0, 0, 0, 0, 0];
    OneVal(one);
    if Val(x.val) == 1 { ValInjective(x.val, one); }
    if r { OneVal(x.val); }
  }

  method IsEqual(x: Num, y: Num) returns (r: bool)
    requires Norm(x.val) && Norm(y.val)
    ensures r == (Val(x.val) == Val(y.val))
  {
    r := true;
    for i := 0 to 9
      invariant r == forall j :: 0 <= j < i ==> x.val[j] == y.val[j]
    {
      r := r && x.val[i] == y.val[i];
    }
    if r { LoAgree(x.val, y.val, 9); }
    if Val(x.val) == Val(y.val) { ValInjective(x.val, y.val); }
  }

  method IsEven(x: Num) returns (r: bool)
    ensures r == (Val(x.val) % 2 == 0)
  {
    r := x.val[0] % 2 == 0;
    ValSum(x.val);
  }

  /** One limb of the branch-free comparison: two bit strings record where x is
      below y and where it is above; the longer history decides. */
  lemma LessStep(h: int, k: int, a: int, b: int, m: nat, n: nat)
    requires 0 <= a < BASE && 0 <= b < BASE
    requires (m > n) == (h < k) && (m < n) == (h > k)
    ensures var m' := 2 * m + (if a < b then 1 else 0);
            var n' := 2 * n + (if a > b then 1 else 0);
            (m' > n') == (a + BASE * h < b + BASE * k) && (m' < n') == (a + BASE * h > b + BASE * k)
  {}

  method IsLess(x: Num, y: Num) returns (r: bool)
    requires Norm(x.val) && Norm(y.val)
    ensures r == (Val(x.val) < Val(y.val))
  {
    var res1: uint32, res2: uint32 := 0, 0;
    var i := 9;
    while i > 0
      invariant 0 <= i <= 9
      invariant res1 < Pow(2, 9 - i) && res2 < Pow(2, 9 - i) <= 512
      invariant (res1 > res2) == (Hi(x.val, i) < Hi(y.val, i))
      invariant (res1 < res2) == (Hi(x.val, i) > Hi(y.val, i))
    {
      i := i - 1;
      LessStep(Hi(x.val, i + 1), Hi(y.val, i + 1), x.val[i], y.val[i], res1, res2);
      PowMonotoneExp(2, 9 - i, 9);
      assert Pow(2, 9) == 512;
      res1 := 2 * res1 + (if x.val[i] < y.val[i] then 1 else 0);
      res2 := 2 * res2 + (if x.val[i] > y.val[i] then 1 else 0);
    }
    r := res1 > res2;
    LoHi(x.val, 0);
    LoHi(y.val, 0);
  }

  // ------------------------------------------------- addition and subtraction

  method Add(x: Num, y: Num)
    requires Norm(x.val) && Norm(y.val) && Val(x.val) + Val(y.val) < P261
    modifies x
    ensures Norm(x.val) && Val(x.val) == old(Val(x.val)) + old(Val(y.val))
  {
    hide Lo, PowB, Lin, Val, Mask, Shift;
    ghost var xs, ys := x.val, y.val;
    var acc: uint32 := 0;
    LinStart(x.val, 0, 1, xs, 1, ys, 0, xs);
    var i := 0;
    while i < 9
      invariant 0 <= i <= 9 && acc <= 7 && NormTo(x.val, i)
      invariant forall j :: i <= j < 9 ==> x.val[j] == xs[j] && y.val[j] == ys[j]
      invariant Lo(x.val, i) + acc * PowB(i) == Lin(i, 0, 1, xs, 1, ys, 0, xs)
    {
      LinStep(x.val, i, acc, 0, 1, xs, 1, ys, 0, xs);
      acc := acc + x.val[i] + y.val[i];
      x.val := x.val[i := Mask(acc)];
      acc := Shift(acc);
      i := i + 1;
    }
    LinEnd(x.val, acc, 0, 1, xs, 1, ys, 0, xs);
    ValBound(x.val);
  }

  /** res = x - y when that is not negative, and otherwise x - y + 2^261. */
  method Subtract(x: Num, y: Num, res: Num)
    requires Norm(x.val) && Norm(y.val)
    modifies res
    ensures Norm(res.val)
    ensures old(Val(x.val)) >= old(Val(y.val)) ==> Val(res.val) == old(Val(x.val)) - old(Val(y.val))
    ensures old(Val(x.val)) < old(Val(y.val)) ==> Val(res.val) == old(Val(x.val)) - old(Val(y.val)) + P261
  {
    hide Lo, PowB, Lin, Val, Mask, Shift;
    ghost var xs, ys := x.val, y.val;
    var acc: uint32 := 1;
    LinStart(res.val, 1, 1, xs, -1, ys, 0, xs);
    var i := 0;
    while i < 9
      invariant 0 <= i <= 9 && acc <= 7 && NormTo(res.val, i)
      invariant forall j :: i <= j < 9 ==> x.val[j] == xs[j] && y.val[j] == ys[j]
      invariant Lo(res.val, i) + acc * PowB(i) == Lin(i, 1, 1, xs, -1, ys, 0, xs)
    {
      LinStep(res.val, i, acc, 1, 1, xs, -1, ys, 0, xs);
      acc := acc + (BASE - 1) + x.val[i] - y.val[i];
      res.val := res.val[i := Mask(acc)];
      acc := Shift(acc);
      i := i + 1;
    }
    LinEnd(res.val, acc, 1, 1, xs, -1, ys, 0, xs);
    ValBound(res.val);
    ValBound(xs);
    ValBound(ys);
  }

  /** res = x + 2 p - y. */
  method SubtractMod(x: Num, y: Num, res: Num, prime: Num)
    requires Norm(x.val) && Norm(y.val) && Norm(prime.val) && prime != res
    requires Val(y.val) <= 2 * Val(prime.val)
    requires Val(x.val) + 2 * Val(prime.val) - Val(y.val) < P261
    modifies res
    ensures Norm(res.val)
    ensures Val(res.val) == old(Val(x.val)) + 2 * Val(prime.val) - old(Val(y.val))
  {
    hide Lo, PowB, Lin, Val, Mask, Shift;
    ghost var xs, ys, ps := x.val, y.val, prime.val;
    var acc: uint32 := 1;
    LinStart(res.val, 1, 1, xs, 2, ps, -1, ys);
    var i := 0;
    while i < 9
      invariant 0 <= i <= 9 && acc <= 7 && NormTo(res.val, i) && prime.val == ps
      invariant forall j :: i <= j < 9 ==> x.val[j] == xs[j] && y.val[j] == ys[j]
      invariant Lo(res.val, i) + acc * PowB(i) == Lin(i, 1, 1, xs, 2, ps, -1, ys)
    {
      LinStep(res.val, i, acc, 1, 1, xs, 2, ps, -1, ys);
      acc := acc + (BASE - 1) + x.val[i] + 2 * prime.val[i] - y.val[i];
      res.val := res.val[i := Mask(acc)];
      acc := Shift(acc);
      i := i + 1;
    }
    LinEnd(res.val, acc, 1, 1, xs, 2, ps, -1, ys);
    ValBound(res.val);
    ValBound(xs);
  }

  /** x = x + p - y for a small y.  The accumulator starts at -y modulo 2^32,
      and adding the two lowest limbs brings it back into range. */
  method Subi(x: Num, y: uint32, prime: Num)
    requires Norm(x.val) && Norm(prime.val) && prime != x && y < prime.val[0]
    requires Val(x.val) + Val(prime.val) - y < P261
    modifies x
    ensures Norm(x.val) && Val(x.val) == old(Val(x.val)) + Val(prime.val) - y
  {
    hide Lo, PowB, Lin, Val, Mask, Shift, Wrap32;
    ghost var xs, ps := x.val, prime.val;
    var acc: uint32 := Wrap32(0 - y);
    ghost var signed: int := 0 - y;
    SubiStart(x.val, y, xs, ps);
    var i := 0;
    while i < 9
      invariant 0 <= i <= 9 && NormTo(x.val, i) && prime.val == ps
      invariant SubiAcc(i, acc, signed, y)
      invariant forall j :: i <= j < 9 ==> x.val[j] == xs[j]
      invariant Lo(x.val, i) + signed * PowB(i) == Lin(i, 0, 1, xs, 1, ps, 0, xs) - y
    {
      SubiStep(x.val, i, signed, y, xs, ps);
      SubiWrap(i, acc, signed, y, xs[i], ps[i]);
      acc := Wrap32(acc + x.val[i] + prime.val[i]);
      x.val := x.val[i := Mask(acc)];
      acc := Shift(acc);
      signed := acc;
      i := i + 1;
    }
    SubiEnd(x.val, acc, y, xs, ps);
    ValBound(x.val);
  }

  /** Unsigned 32-bit wrap-around. */
  function Wrap32(x: int): uint32 { x % 0x1_0000_0000 }

  ghost predicate SubiAcc(i: nat, acc: int, signed: int, y: int) {
    if i == 0 then signed == 0 - y && acc == Wrap32(signed) else 0 <= acc == signed <= 7
  }

  lemma SubiWrap(i: nat, acc: int, signed: int, y: int, x: int, p: int)
    requires SubiAcc(i, acc, signed, y) && 0 <= x < BASE && 0 <= p < BASE
    requires 0 <= y && (i == 0 ==> y < p)
    ensures Wrap32(acc + x + p) == signed + x + p && 0 <= signed + x + p <= 7 + 2 * BASE
  {}

  lemma SubiStart(out: seq<int>, y: int, xs: seq<int>, ps: seq<int>)
    requires |out| == |xs| == |ps| == 9
    ensures Lo(out, 0) + (0 - y) * PowB(0) == Lin(0, 0, 1, xs, 1, ps, 0, xs) - y
  {}

  lemma SubiStep(out: seq<int>, i: nat, acc: int, y: int, xs: seq<int>, ps: seq<int>)
    requires |out| == |xs| == |ps| == 9 && i < 9
    requires Lo(out, i) + acc * PowB(i) == Lin(i, 0, 1, xs, 1, ps, 0, xs) - y
    ensures var t := acc + xs[i] + ps[i];
            Lo(out[i := Mask(t)], i + 1) + Shift(t) * PowB(i + 1) == Lin(i + 1, 0, 1, xs, 1, ps, 0, xs) - y
  {
    Carry(out, i, acc + xs[i] + ps[i]);
    LinSpread(acc, 0, xs[i], ps[i], 0, PowB(i));
  }

  lemma SubiEnd(out: seq<int>, acc: int, y: int, xs: seq<int>, ps: seq<int>)
    requires |out| == |xs| == |ps| == 9
    requires Lo(out, 9) + acc * PowB(9) == Lin(9, 0, 1, xs, 1, ps, 0, xs) - y
    ensures Val(out) + acc * P261 == Val(xs) + Val(ps) - y
  {
    PowB9();
  }

  /** x = x + y for a small y. */
  method Addi(x: Num, y: uint32)
    requires Norm(x.val) && y <= 0xe000_0000 && Val(x.val) + y < P261
    modifies x
    ensures Norm(x.val) && Val(x.val) == old(Val(x.val)) + y
  {
    hide Lo, PowB, Val, Mask, Shift;
    ghost var xs := x.val;
    var acc: uint32 := y;
    LoDef(xs, 0);
    var i := 0;
    while i < 9
      invariant 0 <= i <= 9 && NormTo(x.val, i) && (i > 0 ==> acc <= 7) && acc <= 0xe000_0000
      invariant forall j :: i <= j < 9 ==> x.val[j] == xs[j]
      invariant Lo(x.val, i) + acc * PowB(i) == Lo(xs, i) + y
    {
      AddiStep(x.val, xs, i, acc, y);
      acc := acc + x.val[i];
      x.val := x.val[i := Mask(acc)];
      acc := Shift(acc);
      i := i + 1;
    }
    AddiEnd(x.val, xs, acc, y);
  }

  lemma AddiStep(out: seq<int>, xs: seq<int>, i: nat, acc: int, y: int)
    requires |out| == |xs| == 9 && i < 9 && Lo(out, i) + acc * PowB(i) == Lo(xs, i) + y
    ensures Lo(out[i := Mask(acc + xs[i])], i + 1) + Shift(acc + xs[i]) * PowB(i + 1) == Lo(xs, i + 1) + y
  {
    Carry(out, i, acc + xs[i]);
    SumTerm(acc, xs[i], PowB(i));
  }

  lemma AddiEnd(out: seq<int>, xs: seq<int>, acc: int, y: int)
    requires Norm(out) && |xs| == 9 && acc >= 0 && Val(xs) + y < P261
    requires Lo(out, 9) + acc * PowB(9) == Lo(xs, 9) + y
    ensures Val(out) == Val(xs) + y
  {
    PowB9();
    ValBound(out);
  }

  /** Reduces a partly reduced number. */
  method Mod(x: Num, prime: Num)
    requires Norm(x.val) && Norm(prime.val) && x != prime
    requires Val(x.val) < 2 * Val(prime.val)
    modifies x
    ensures Norm(x.val) && Val(x.val) < Val(prime.val)
    ensures Val(x.val) == if old(Val(x.val)) < Val(prime.val) then old(Val(x.val)) else old(Val(x.val)) - Val(prime.val)
  {
    var less := IsLess(x, prime);
    var temp := new Num();
    Subtract(x, prime, temp);
    Cmov(x, less, x, temp);
  }

  method Cmov(res: Num, cond: bool, truecase: Num, falsecase: Num)
    modifies res
    ensures res.val == if cond then old(truecase.val) else old(falsecase.val)
  {
    ghost var ts, fs := truecase.val, falsecase.val;
    var i := 0;
    while i < 9
      invariant 0 <= i <= 9
      invariant forall j :: 0 <= j < i ==> res.val[j] == if cond then ts[j] else fs[j]
      invariant forall j :: i <= j < 9 ==> truecase.val[j] == ts[j] && falsecase.val[j] == fs[j]
    {
      res.val := res.val[i := if cond then truecase.val[i] else falsecase.val[i]];
      i := i + 1;
    }
  }

  /** x = 2 p - x or x + p, after reducing x below p.  Both sums are carried
      through the limbs side by side and the condition selects one. */
  method Cnegate(cond: bool, x: Num, prime: Num)
    requires Norm(x.val) && Norm(prime.val) && x != prime
    requires Val(x.val) < 2 * Val(prime.val) && 2 * Val(prime.val) < P261
    modifies x
    ensures Norm(x.val)
    ensures var p := Val(prime.val);
            var x0 := if old(Val(x.val)) < p then old(Val(x.val)) else old(Val(x.val)) - p;
            Val(x.val) == if cond then 2 * p - x0 else x0 + p
  {
    hide Lo, PowB, Lin, Val, Mask, Shift, NegLin;
    Mod(x, prime);
    ghost var xs, ps := x.val, prime.val;
    var acc1: uint32, acc2: uint32 := 1, 0;
    NegStart(cond, xs, ps);
    var i := 0;
    while i < 9
      invariant 0 <= i <= 9 && acc1 <= 7 && acc2 <= 7 && prime.val == ps
      invariant NormTo(x.val, i)
      invariant forall j :: i <= j < 9 ==> x.val[j] == xs[j]
      invariant Lo(x.val, i) + (if cond then acc1 else acc2) * PowB(i) == NegLin(cond, i, xs, ps)
    {
      NegStep(cond, x.val, i, acc1, acc2, xs, ps);
      acc1 := acc1 + (BASE - 1) + 2 * prime.val[i] - x.val[i];
      acc2 := acc2 + prime.val[i] + x.val[i];
      x.val := x.val[i := Mask(if cond then acc1 else acc2)];
      acc1 := Shift(acc1);
      acc2 := Shift(acc2);
      i := i + 1;
    }
    NegEnd(cond, x.val, acc1, acc2, xs, ps);
  }

  /** What the selected one of the two sums has consumed before limb i. */
  ghost function NegLin(cond: bool, i: nat, xs: seq<int>, ps: seq<int>): int
    requires i <= |xs| && i <= |ps|
  {
    if cond then Lin(i, 1, 2, ps, -1, xs, 0, xs) else Lin(i, 0, 1, ps, 1, xs, 0, xs)
  }

  lemma NegStart(cond: bool, xs: seq<int>, ps: seq<int>)
    ensures Lo(xs, 0) + (if cond then 1 else 0) * PowB(0) == NegLin(cond, 0, xs, ps)
  {}

  lemma NegStep(cond: bool, out: seq<int>, i: nat, acc1: int, acc2: int, xs: seq<int>, ps: seq<int>)
    requires |out| == |xs| == |ps| == 9 && i < 9
    requires Lo(out, i) + (if cond then acc1 else acc2) * PowB(i) == NegLin(cond, i, xs, ps)
    ensures var t := if cond then acc1 + (BASE - 1) + 2 * ps[i] - xs[i] else acc2 + ps[i] + xs[i];
            Lo(out[i := Mask(t)], i + 1) + Shift(t) * PowB(i + 1) == NegLin(cond, i + 1, xs, ps)
  {
    hide Lo, PowB, Lin, Mask, Shift;
    if cond {
      LinStep(out, i, acc1, 1, 2, ps, -1, xs, 0, xs);
    } else {
      LinStep(out, i, acc2, 0, 1, ps, 1, xs, 0, xs);
    }
  }

  lemma NegEnd(cond: bool, out: seq<int>, acc1: int, acc2: int, xs: seq<int>, ps: seq<int>)
    requires Norm(out) && Norm(xs) && Norm(ps) && Val(xs) < Val(ps) && 2 * Val(ps) < P261
    requires 0 <= acc1 && 0 <= acc2
    requires Lo(out, 9) + (if cond then acc1 else acc2) * PowB(9) == NegLin(cond, 9, xs, ps)
    ensures Val(out) == if cond then 2 * Val(ps) - Val(xs) else Val(xs) + Val(ps)
  {
    hide Lo, PowB, Lin, Val;
    ValBound(out);
    ValBound(xs);
    if cond {
      LinEnd(out, acc1, 1, 2, ps, -1, xs, 0, xs);
    } else {
      LinEnd(out, acc2, 0, 1, ps, 1, xs, 0, xs);
    }
  }

  // ----------------------------------------------------------------- shifts

  /** Limb j of x << 1. */
  ghost function Doubled(xs: seq<int>, j: nat): int
    requires j < |xs|
  {
    (2 * xs[j]) % BASE + (if j == 0 then 0 else xs[j - 1] / 0x1000_0000)
  }

  lemma {:induction false} DoubledLo(xs: seq<int>, out: seq<int>, i: nat)
    requires |xs| == |out| == 9 && i < 9 && NormTo(xs, i + 1) && forall j :: 0 <= j <= i ==> out[j] == Doubled(xs, j)
    ensures Lo(out, i + 1) + (xs[i] / 0x1000_0000) * PowB(i + 1) == 2 * Lo(xs, i + 1)
    decreases i
  {
    var top := xs[i] / 0x1000_0000;
    assert (2 * xs[i]) % BASE == 2 * xs[i] - top * BASE;
    if i == 0 {
      assert Lo(out, 1) == out[0] * PowB(0) && Lo(xs, 1) == xs[0] * PowB(0);
      assert PowB(1) == BASE;
    } else {
      DoubledLo(xs, out, i - 1);
      DoubledStep(Lo(out, i), Lo(xs, i), out[i], xs[i], xs[i - 1] / 0x1000_0000, top, PowB(i));
    }
  }

  lemma DoubledStep(lo: int, lx: int, o: int, x: int, carry: int, top: int, w: int)
    requires lo + carry * w == 2 * lx && o == 2 * x - top * BASE + carry
    ensures lo + o * w + top * (BASE * w) == 2 * (lx + x * w)
  {}

  /** x = 2 x modulo 2^261: a bit shifted out of the top limb is lost. */
  method Lshift(x: Num)
    requires Norm(x.val)
    modifies x
    ensures Norm(x.val)
    ensures Val(x.val) == if 2 * old(Val(x.val)) < P261 then 2 * old(Val(x.val)) else 2 * old(Val(x.val)) - P261
  {
    hide Lo, PowB, Val;
    ghost var xs := x.val;
    var i := 8;
    while i > 0
      invariant 0 <= i <= 8
      invariant forall j :: 0 <= j <= i ==> x.val[j] == xs[j]
      invariant forall j :: i < j < 9 ==> x.val[j] == Doubled(xs, j)
    {
      x.val := x.val[i := (2 * x.val[i]) % BASE + x.val[i - 1] / 0x1000_0000];
      i := i - 1;
    }
    x.val := x.val[0 := (2 * x.val[0]) % BASE];
    LshiftEnd(xs, x.val);
  }

  lemma LshiftEnd(xs: Limbs9, out: Limbs9)
    requires Norm(xs) && forall j :: 0 <= j < 9 ==> out[j] == Doubled(xs, j)
    ensures Norm(out)
    ensures Val(out) == if 2 * Val(xs) < P261 then 2 * Val(xs) else 2 * Val(xs) - P261
  {
    forall j | 0 <= j < 9 ensures 0 <= out[j] < BASE {
      assert out[j] == Doubled(xs, j);
    }
    DoubledLo(xs, out, 8);
    ValBound(out);
    ValBound(xs);
    PowB9();
  }

  /** Limb j of x >> 1. */
  ghost function Halved(xs: seq<int>, j: nat): int
    requires j < |xs|
  {
    xs[j] / 2 + (if j == |xs| - 1 then 0 else (xs[j + 1] % 2) * 0x1000_0000)
  }

  lemma {:induction false} HalvedLo(xs: seq<int>, out: seq<int>, i: nat)
    requires |xs| == |out| == 9 && i < 9 && forall j :: 0 <= j < i ==> out[j] == Halved(xs, j)
    ensures 2 * Lo(out, i) + xs[0] % 2 == Lo(xs, i) + (xs[i] % 2) * PowB(i)
    decreases i
  {
    if i > 0 {
      HalvedLo(xs, out, i - 1);
      HalvedStep(Lo(out, i - 1), Lo(xs, i - 1), xs[0] % 2, xs[i - 1], xs[i] % 2, out[i - 1], PowB(i - 1));
    } else {
      assert PowB(0) == 1;
    }
  }

  lemma HalvedStep(lo: int, lx: int, b0: int, x: int, b: int, o: int, w: int)
    requires 2 * lo + b0 == lx + (x % 2) * w && o == x / 2 + b * 0x1000_0000
    ensures 2 * (lo + o * w) + b0 == (lx + x * w) + b * (BASE * w)
  {
    assert x == 2 * (x / 2) + x % 2;
    var h, l := x / 2, x % 2;
    assert (2 * h + l) * w == 2 * (h * w) + l * w;
    assert (h + b * 0x1000_0000) * w == h * w + (b * w) * 0x1000_0000;
  }

  lemma RshiftEnd(xs: Limbs9, out: Limbs9)
    requires Norm(xs) && forall j :: 0 <= j < 9 ==> out[j] == Halved(xs, j)
    ensures Norm(out) && Val(out) == Val(xs) / 2
  {
    forall j | 0 <= j < 9 ensures 0 <= out[j] < BASE {
      assert out[j] == Halved(xs, j);
    }
    HalvedLo(xs, out, 8);
    HalvedStep(Lo(out, 8), Lo(xs, 8), xs[0] % 2, xs[8], 0, out[8], PowB(8));
  }

  method Rshift(x: Num)
    requires Norm(x.val)
    modifies x
    ensures Norm(x.val) && Val(x.val) == old(Val(x.val)) / 2
  {
    hide Lo, PowB, Val;
    ghost var xs := x.val;
    var i := 0;
    while i < 8
      invariant 0 <= i <= 8
      invariant forall j :: i <= j < 9 ==> x.val[j] == xs[j]
      invariant forall j :: 0 <= j < i ==> x.val[j] == Halved(xs, j)
    {
      x.val := x.val[i := x.val[i] / 2 + (x.val[i + 1] % 2) * 0x1000_0000];
      i := i + 1;
    }
    x.val := x.val[8 := x.val[8] / 2];
    RshiftEnd(xs, x.val);
  }

  // --------------------------------------------------------- halving modulo p

  /** The limbs MultHalf adds up: x itself, or x + p when x is odd. */
  ghost function HalfArg(xs: seq<int>, ps: seq<int>): (t: seq<int>)
    requires |xs| == |ps| == 9
    ensures |t| == 9
  {
    seq(9, i requires 0 <= i < 9 => xs[i] + (if xs[0] % 2 == 1 then ps[i] else 0))
  }

  lemma {:induction false} HalfArgLo(xs: seq<int>, ps: seq<int>, i: nat)
    requires |xs| == |ps| == 9 && i <= 9
    ensures Lo(HalfArg(xs, ps), i) == Lo(xs, i) + (if xs[0] % 2 == 1 then Lo(ps, i) else 0)
    decreases i
  {
    if i > 0 {
      HalfArgLo(xs, ps, i - 1);
      SumTerm(xs[i - 1], ps[i - 1], PowB(i - 1));
    }
  }

  lemma SumTerm(a: int, b: int, w: int)
    ensures (a + b) * w == a * w + b * w
  {}

  lemma HalfStep(out: seq<int>, t: seq<int>, i: nat, acc: int)
    requires |out| == |t| == 9 && i < 8
    requires 2 * (Lo(out, i) + acc * PowB(i)) == Lo(t, i + 1)
    ensures var a := acc + (t[i + 1] % 2) * 0x1000_0000;
            2 * (Lo(out[i := Mask(a)], i + 1) + (Shift(a) + t[i + 1] / 2) * PowB(i + 1)) == Lo(t, i + 2)
  {
    var b, h := t[i + 1] % 2, t[i + 1] / 2;
    var a := acc + b * 0x1000_0000;
    Carry(out, i, a);
    assert Lo(t, i + 2) == Lo(t, i + 1) + t[i + 1] * PowB(i + 1);
    HalfStepInts(Lo(out, i), Lo(out[i := Mask(a)], i + 1), Shift(a), acc, b, h, PowB(i), Lo(t, i + 1), Lo(t, i + 2));
  }

  lemma HalfStepInts(lo: int, lo': int, q: int, acc: int, b: int, h: int, w: int, lt: int, lt': int)
    requires lo' + q * (BASE * w) == lo + (acc + b * 0x1000_0000) * w
    requires 2 * (lo + acc * w) == lt && lt' == lt + (2 * h + b) * (BASE * w)
    ensures 2 * (lo' + (q + h) * (BASE * w)) == lt'
  {}

  /** x = x / 2 modulo p: x / 2 for an even x, (x + p) / 2 for an odd one. */
  method MultHalf(x: Num, prime: Num)
    requires Norm(x.val) && Norm(prime.val) && x != prime
    requires Val(prime.val) % 2 == 1 && Val(x.val) + Val(prime.val) < P261
    modifies x
    ensures Norm(x.val)
    ensures Val(x.val) == if old(Val(x.val)) % 2 == 0 then old(Val(x.val)) / 2 else (old(Val(x.val)) + Val(prime.val)) / 2
    ensures 2 * Val(x.val) == old(Val(x.val)) || 2 * Val(x.val) == old(Val(x.val)) + Val(prime.val)
  {
    hide Lo, PowB, Val, Mask, Shift;
    ghost var xs, ps := x.val, prime.val;
    ghost var t := HalfArg(xs, ps);
    var odd := x.val[0] % 2 == 1;
    var acc: uint32 := (x.val[0] + (if odd then prime.val[0] else 0)) / 2;
    HalfStart(xs, ps, x.val);
    var i := 0;
    while i < 8
      invariant 0 <= i <= 8 && acc < 2 * BASE && NormTo(x.val, i) && prime.val == ps
      invariant forall j :: i <= j < 9 ==> x.val[j] == xs[j]
      invariant 2 * (Lo(x.val, i) + acc * PowB(i)) == Lo(t, i + 1)
    {
      var temp: uint32 := x.val[i + 1] + (if odd then prime.val[i + 1] else 0);
      assert temp == t[i + 1];
      HalfStep(x.val, t, i, acc);
      acc := acc + (temp % 2) * 0x1000_0000;
      x.val := x.val[i := Mask(acc)];
      acc := Shift(acc);
      acc := acc + temp / 2;
      i := i + 1;
    }
    LoAgree(x.val, x.val[8 := acc], 8);
    x.val := x.val[8 := acc];
    HalfEnd(xs, ps, x.val, acc);
  }

  lemma HalfStart(xs: Limbs9, ps: Limbs9, out: Limbs9)
    requires Norm(ps) && Val(ps) % 2 == 1
    ensures var t := HalfArg(xs, ps);
            t[0] % 2 == 0 && 2 * (Lo(out, 0) + (t[0] / 2) * PowB(0)) == Lo(t, 1)
  {
    ValSum(ps);
    var t := HalfArg(xs, ps);
    assert Lo(t, 1) == t[0] * PowB(0);
  }

  lemma HalfEnd(xs: Limbs9, ps: Limbs9, out: Limbs9, acc: uint32)
    requires NormTo(out, 8) && out[8] == acc && Norm(xs) && Norm(ps)
    requires 2 * (Lo(out, 8) + acc * PowB(8)) == Lo(HalfArg(xs, ps), 9)
    requires Val(xs) + Val(ps) < P261
    ensures Norm(out) && 2 * Val(out) == Val(xs) + (if Val(xs) % 2 == 1 then Val(ps) else 0)
  {
    HalfArgLo(xs, ps, 9);
    ValSum(xs);
    ValBound(ps);
    PowB9();
    LoBound(out, 8);
  }

  // ---------------------------------------------------------- fast reduction

  /** Eight limbs of up to 32 bits carry less than 9 times 2^232 between them. */
  lemma {:induction false} LooseBound(s: seq<int>, i: nat)
    requires i <= |s| && forall j :: 0 <= j < i ==> 0 <= s[j] < 0x1_0000_0000
    ensures 0 <= Lo(s, i) <= 9 * PowB(i) - 9
    decreases i
  {
    if i > 0 {
      LooseBound(s, i - 1);
      LooseTerm(s[i - 1], PowB(i - 1));
    }
  }

  lemma LooseTerm(x: int, w: int)
    requires 0 <= x < 0x1_0000_0000 && w >= 1
    ensures 0 <= x * w <= 8 * (BASE * w) - w
  {
    MulLe(0, x, w);
    MulLe(x, 8 * BASE - 1, w);
  }

  /** The value FastMod leaves: x minus as many moduli as the bits of the top
      limb above 2^256 say. */
  ghost function FastReduced(xs: Limbs9, p: int): int {
    Val(xs) - (xs[8] / 0x100_0000) * p
  }

  /** For any nine 32-bit limbs, normalized or not, one subtraction of
      coef * p leaves a value in [0, 2 p). */
  lemma FastReducedRange(xs: Limbs9, p: int)
    requires P256 - P224 <= p <= P256
    ensures 0 <= FastReduced(xs, p) < 2 * p
    ensures Cong(FastReduced(xs, p), Val(xs), p)
  {
    PowB9();
    LooseBound(xs, 8);
    FastReducedInts(Lo(xs, 8), xs[8], p);
    var coef: int := xs[8] / 0x100_0000;
    CongBy(FastReduced(xs, p), Val(xs), p, 0 - coef);
  }

  lemma FastReducedInts(lo: int, top: int, p: int)
    requires P256 - P224 <= p <= P256
    requires 0 <= lo <= 9 * P232 && 0 <= top < 0x1_0000_0000
    ensures 0 <= lo + top * P232 - (top / 0x100_0000) * p < 2 * p
  {
    var coef, low := top / 0x100_0000, top % 0x100_0000;
    assert top == coef * 0x100_0000 + low;
    assert top * P232 == coef * P256 + low * P232;
    MulLe(P256 - p, P224, coef);
    MulLe(0, P256 - p, coef);
    assert (P256 - p) * coef == P256 * coef - p * coef;
  }

  /** On a normalized number the top bits are exactly x / 2^256. */
  lemma FastReducedNorm(xs: Limbs9, p: int)
    requires Norm(xs)
    ensures FastReduced(xs, p) == Val(xs) - (Val(xs) / P256) * p
  {
    var coef, low := xs[8] / 0x100_0000, xs[8] % 0x100_0000;
    PowB9();
    LoBound(xs, 8);
    assert Val(xs) == coef * P256 + (low * PowB(8) + Lo(xs, 8));
    ModUnique(Val(xs), coef, low * PowB(8) + Lo(xs, 8), P256);
  }

  /** Every multiple of p strictly between 0 and 4 p is reduced to exactly p, so
      comparing a reduced difference with p decides whether it is 0 modulo p. */
  lemma MultipleReducesToP(xs: Limbs9, p: int)
    requires Norm(xs) && P256 - P224 <= p < P256
    requires 0 < Val(xs) < 4 * p
    ensures FastReduced(xs, p) == p <==> Cong(Val(xs), 0, p)
  {
    FastReducedNorm(xs, p);
    FastReducedRange(xs, p);
    var r := FastReduced(xs, p);
    if Cong(Val(xs), 0, p) {
      var k: int :| Val(xs) == 0 + k * p;
      if k <= 0 { MulLe(k, 0, p); }
      if k >= 4 { MulLe(4, k, p); }
      assert k == 1 || k == 2 || k == 3;
      ModUnique(Val(xs), k - 1, k * p - (k - 1) * P256, P256);
    }
    if r == p {
      var q := Val(xs) / P256;
      assert (q + 1) * p == q * p + p;
      CongBy(Val(xs), 0, p, q + 1);
    }
  }

  method FastMod(x: Num, prime: Num)
    requires Modulus(prime.val) && x != prime
    modifies x
    ensures Norm(x.val) && Val(x.val) == FastReduced(old(x.val), Val(prime.val))
    ensures 0 <= Val(x.val) < 2 * Val(prime.val)
    ensures Cong(Val(x.val), old(Val(x.val)), Val(prime.val))
  {
    hide Lo, PowB, Lin, Val, Mask, Shift, FastReduced, Cong;
    ghost var xs, ps := x.val, prime.val;
    var coef: uint32 := x.val[8] / 0x100_0000;
    ghost var neg: int := 0 - coef;
    var acc: uint64 := 256;
    LinStart(x.val, 256, 1, xs, neg, ps, 0, xs);
    var i := 0;
    while i < 9
      invariant 0 <= i <= 9 && acc < 0x8_0000_0000 && NormTo(x.val, i) && prime.val == ps
      invariant forall j :: i <= j < 9 ==> x.val[j] == xs[j]
      invariant Lo(x.val, i) + acc * PowB(i) == Lin(i, 256, 1, xs, neg, ps, 0, xs)
    {
      LinStep(x.val, i, acc, 256, 1, xs, neg, ps, 0, xs);
      CoefProduct(ps[i], coef);
      acc := acc + 256 * (BASE - 1) + x.val[i] - prime.val[i] * coef;
      x.val := x.val[i := Mask(acc)];
      acc := Shift(acc);
      i := i + 1;
    }
    LinEnd(x.val, acc, 256, 1, xs, neg, ps, 0, xs);
    ValBound(x.val);
    FastReducedRange(xs, Val(ps));
    FastReducedIs(xs, Val(ps), coef);
  }

  lemma FastReducedIs(xs: Limbs9, p: int, coef: int)
    requires coef == xs[8] / 0x100_0000
    ensures FastReduced(xs, p) == Val(xs) + (-coef) * p
  {}

  lemma CoefProduct(p: int, coef: int)
    requires 0 <= p < BASE && 0 <= coef <= 255
    ensures 0 <= p * coef <= (BASE - 1) * 255 && (-coef) * p == -(p * coef)
  {
    MulLe(p, BASE - 1, coef);
    MulLe(0, p, coef);
  }

  lemma {:induction false} ScaledLo(xs: seq<int>, out: seq<int>, k: int, i: nat)
    requires |out| == |xs| == 9 && i <= 9 && forall j :: 0 <= j < i ==> out[j] == k * xs[j]
    ensures Lo(out, i) == k * Lo(xs, i)
    decreases i
  {
    if i > 0 {
      ScaledLo(xs, out, k, i - 1);
      LinTerm(k, Lo(xs, i - 1), xs[i - 1], PowB(i - 1));
    }
  }

  lemma {:induction false} SummedLo(xs: seq<int>, ys: seq<int>, out: seq<int>, i: nat)
    requires |out| == |xs| == |ys| == 9 && i <= 9 && forall j :: 0 <= j < i ==> out[j] == xs[j] + ys[j]
    ensures Lo(out, i) == Lo(xs, i) + Lo(ys, i)
    decreases i
  {
    if i > 0 {
      SummedLo(xs, ys, out, i - 1);
      SumTerm(xs[i - 1], ys[i - 1], PowB(i - 1));
    }
  }

  /** x = k x modulo p, through limbs of up to 32 bits. */
  method MultK(x: Num, k: uint8, prime: Num)
    requires Norm(x.val) && Modulus(prime.val) && x != prime && k <= 8
    modifies x
    ensures Norm(x.val) && Val(x.val) < 2 * Val(prime.val)
    ensures Cong(Val(x.val), k * old(Val(x.val)), Val(prime.val))
  {
    hide Lo, Val, FastReduced, Cong;
    ghost var xs := x.val;
    var i := 0;
    while i < 9
      invariant 0 <= i <= 9
      invariant forall j :: 0 <= j < i ==> x.val[j] == k * xs[j]
      invariant forall j :: i <= j < 9 ==> x.val[j] == xs[j]
    {
      MulLe(k, 8, xs[i]);
      MulLe(0, k, xs[i]);
      x.val := x.val[i := k * x.val[i]];
      i := i + 1;
    }
    ScaledVal(xs, x.val, k);
    FastMod(x, prime);
  }

  lemma ScaledVal(xs: seq<int>, out: seq<int>, k: int)
    requires |out| == |xs| == 9 && forall j :: 0 <= j < 9 ==> out[j] == k * xs[j]
    ensures Val(out) == k * Val(xs)
  {
    ScaledLo(xs, out, k, 9);
  }

  lemma SummedVal(xs: seq<int>, ys: seq<int>, out: seq<int>)
    requires |out| == |xs| == |ys| == 9 && forall j :: 0 <= j < 9 ==> out[j] == xs[j] + ys[j]
    ensures Val(out) == Val(xs) + Val(ys)
  {
    SummedLo(xs, ys, out, 9);
  }

  /** x = x + y modulo p, through limbs of up to 30 bits. */
  method AddMod(x: Num, y: Num, prime: Num)
    requires Norm(x.val) && Norm(y.val) && Modulus(prime.val) && x != prime
    modifies x
    ensures Norm(x.val) && Val(x.val) < 2 * Val(prime.val)
    ensures Cong(Val(x.val), old(Val(x.val)) + old(Val(y.val)), Val(prime.val))
  {
    hide Lo, Val, FastReduced, Cong;
    ghost var xs, ys := x.val, y.val;
    var i := 0;
    while i < 9
      invariant 0 <= i <= 9
      invariant forall j :: 0 <= j < i ==> x.val[j] == xs[j] + ys[j]
      invariant forall j :: i <= j < 9 ==> x.val[j] == xs[j] && y.val[j] == ys[j]
    {
      x.val := x.val[i := x.val[i] + y.val[i]];
      i := i + 1;
    }
    SummedVal(xs, ys, x.val);
    FastMod(x, prime);
  }
}
