/** The signed-digit form of a scalar used by point_multiply and
    scalar_multiply of libs/crypto/ecdsa.c: 64 odd digits of size at most 15. */
module Recode {
  import opened Arith
  import opened Limbs
  import opened Bignum

  /** Five bits of a from bit 4 i up. */
  function Window(a: nat, i: nat): int {
    PowPositive(16, i);
    (a / Pow(16, i)) % 32
  }

  /** The digit a five-bit window selects: the upper bit gives the sign, the
      other bits (inverted for a negative digit) index a table of odd multiples. */
  function DigitOf(w: int): int {
    if w >= 16 then 2 * ((w - 16) / 2) + 1 else -(2 * ((15 - w) / 2) + 1)
  }

  function Digit(a: nat, i: nat): int {
    DigitOf(Window(a, i))
  }

  /** Every digit is odd and at most 15 in size. */
  lemma DigitRange(a: nat, i: nat)
    ensures -15 <= Digit(a, i) <= 15 && Digit(a, i) % 2 == 1
  {
    assert 0 <= Window(a, i) < 32;
  }

  /** The digits from i up, read as a number in base 16. */
  function High(a: nat, i: nat): int
    requires i <= 64
    decreases 64 - i
  {
    if i == 64 then 0 else 16 * High(a, i + 1) + Digit(a, i)
  }

  /** The digits below i, with their weights. */
  function LowSum(a: nat, i: nat): int {
    if i == 0 then 0 else LowSum(a, i - 1) + Digit(a, i - 1) * Pow(16, i - 1)
  }

  /** a without its lowest bit, from bit 4 i up. */
  function Half(a: nat, i: nat): nat {
    PowPositive(16, i);
    a / Pow(16, i) / 2
  }

  lemma HalfStep(a: nat, i: nat)
    ensures Half(a, i) == 16 * Half(a, i + 1) + Window(a, i) / 2
    ensures Digit(a, i) == 2 * (Window(a, i) / 2) - 15
  {
    hide Pow;
    PowPositive(16, i);
    PowDef(16, i);
    DivDiv(a, Pow(16, i), 16);
    WindowInts(a / Pow(16, i));
  }

  lemma WindowInts(g: int)
    ensures g / 2 == 16 * (g / 16 / 2) + (g % 32) / 2
    ensures DigitOf(g % 32) == 2 * ((g % 32) / 2) - 15
  {
    var q, w := g / 32, g % 32;
    assert g == 32 * q + w;
    assert g / 16 == 2 * q + w / 16;
  }

  /** The upper digits, in closed form. */
  lemma {:induction false} HighForm(a: nat, i: nat)
    requires i <= 64 && a < 2 * Pow(16, 64)
    ensures High(a, i) == 2 * Half(a, i) + 1 - Pow(16, 64 - i)
    decreases 64 - i
  {
    hide Pow, Digit;
    PowDef(16, 0);
    if i == 64 {
      PowPositive(16, 64);
      TopHalf(a, Pow(16, 64));
    } else {
      HighForm(a, i + 1);
      HalfStep(a, i);
      PowDef(16, 64 - (i + 1));
    }
  }

  lemma TopHalf(a: nat, w: int)
    requires w > 0 && a < 2 * w
    ensures a / w / 2 == 0
  {
    if a >= w { ModUnique(a, 1, a - w, w); } else { ModUnique(a, 0, a, w); }
  }

  /** The 64 digits of an odd a represent a - 2^256. */
  lemma DigitsSum(a: nat)
    requires a % 2 == 1 && a < 2 * Pow(16, 64)
    ensures High(a, 0) == a - Pow(16, 64)
  {
    hide Pow, High;
    HighForm(a, 0);
    PowDef(16, 0);
  }

  /** Low and high digits together. */
  lemma {:induction false} LowHigh(a: nat, i: nat)
    requires i <= 64
    ensures LowSum(a, i) + Pow(16, i) * High(a, i) == High(a, 0)
    decreases i
  {
    hide Pow, Digit, High, LowSum;
    LowDef(a, if i == 0 then 0 else i - 1);
    PowDef(16, 0);
    if i > 0 {
      LowHigh(a, i - 1);
      HighDef(a, i - 1);
      PowDef(16, i - 1);
      LowHighInts(Pow(16, i - 1), High(a, i), Digit(a, i - 1));
    }
  }

  lemma LowDef(a: nat, i: nat)
    ensures LowSum(a, 0) == 0 && LowSum(a, i + 1) == LowSum(a, i) + Digit(a, i) * Pow(16, i)
  {}

  lemma HighDef(a: nat, i: nat)
    requires i < 64
    ensures High(a, i) == 16 * High(a, i + 1) + Digit(a, i)
  {}

  lemma LowHighInts(w: int, h: int, d: int)
    ensures w * (16 * h + d) == d * w + (16 * w) * h
  {}

  lemma {:induction false} LowOdd(a: nat, i: nat)
    requires i >= 1
    ensures LowSum(a, i) % 2 == 1
    decreases i
  {
    hide Pow, Digit, LowSum;
    DigitRange(a, i - 1);
    LowDef(a, i - 1);
    PowDef(16, 0);
    if i > 1 {
      LowOdd(a, i - 1);
      PowDef(16, i - 2);
      var d, w := Digit(a, i - 1), Pow(16, i - 2);
      assert d * (16 * w) == 2 * (8 * (d * w));
    }
  }

  /** The digits below i stay within 16^i. */
  lemma {:induction false} LowRange(a: nat, i: nat)
    ensures -Pow(16, i) < LowSum(a, i) < Pow(16, i)
    decreases i
  {
    hide Pow, Digit, LowSum;
    PowDef(16, 0);
    LowDef(a, 0);
    if i > 0 {
      LowRange(a, i - 1);
      LowDef(a, i - 1);
      PowDef(16, i - 1);
      DigitRange(a, i - 1);
      var w := Pow(16, i - 1);
      MulLe(Digit(a, i - 1), 15, w);
      MulLe(-15, Digit(a, i - 1), w);
    }
  }

  lemma HighRange(a: nat, i: nat)
    requires i <= 63 && a < 2 * Pow(16, 64)
    ensures -Pow(16, 64 - i) < High(a, i) < Pow(16, 64 - i) && High(a, i) % 2 == 1
  {
    hide Pow, High, Half;
    HighForm(a, i);
    HalfBound(a, i);
    PowDef(16, 63 - i);
    var h, w := Half(a, i), Pow(16, 63 - i);
    assert High(a, i) == 2 * (h - 8 * w) + 1;
  }

  lemma HalfBound(a: nat, i: nat)
    requires i <= 64 && a < 2 * Pow(16, 64)
    ensures Half(a, i) < Pow(16, 64 - i)
  {
    hide Pow;
    PowPositive(16, i);
    PowPositive(16, 64 - i);
    PowAdd(16, i, 64 - i);
    QuotientBound(a, Pow(16, i), Pow(16, 64 - i));
  }

  lemma QuotientBound(a: nat, v: int, w: int)
    requires v > 0 && w > 0 && a < 2 * (v * w)
    ensures a / v < 2 * w
  {
    var g := a / v;
    assert a == g * v + a % v;
    assert (2 * w) * v == 2 * (v * w);
    if g >= 2 * w { MulLe(2 * w, g, v); }
  }

  // ---------------------------------------------------------- limb level

  /** a = k + 2^256, less the order when k is even: the odd number whose digits
      are used.  The carry starts at one and every limb adds the base less one. */
  method MakeOdd(k: Limbs9, order: Limbs9) returns (a: Limbs9)
    requires Norm(k) && Modulus(order) && Val(order) % 2 == 1 && Val(order) < P256 && Val(k) < Val(order)
    ensures Norm(a) && Val(a) == P256 + Val(k) - (if Val(k) % 2 == 0 then Val(order) else 0)
    ensures Val(a) % 2 == 1 && 0 <= Val(a) < 2 * P256
  {
    hide Lo, PowB, Lin, Val, Mask, Shift;
    ValSum(k);
    var isEven := k[0] % 2 == 0;
    a := Zero9;
    ghost var c: int := if isEven then -1 else 0;
    var tmp: uint32 := 1;
    LinStart(a, 1, 1, k, c, order, 0, k);
    var j := 0;
    while j < 8
      invariant 0 <= j <= 8 && tmp <= 7 && NormTo(a, j)
      invariant Lo(a, j) + tmp * PowB(j) == Lin(j, 1, 1, k, c, order, 0, k)
    {
      LinStep(a, j, tmp, 1, 1, k, c, order, 0, k);
      tmp := tmp + (BASE - 1) + k[j] - (if isEven then order[j] else 0);
      a := a[j := Mask(tmp)];
      tmp := Shift(tmp);
      j := j + 1;
    }
    OddTop(a, tmp, k, order, c);
    var top: int := tmp + 0xff_ffff + k[8] - (if isEven then order[8] else 0);
    a := a[8 := top];
  }

  lemma OddTop(a: Limbs9, tmp: int, k: Limbs9, order: Limbs9, c: int)
    requires Norm(k) && Modulus(order) && Val(order) < P256 && Val(k) < Val(order) && NormTo(a, 8)
    requires c == (if Val(k) % 2 == 0 then -1 else 0) && Val(order) % 2 == 1
    requires Lo(a, 8) + tmp * PowB(8) == Lin(8, 1, 1, k, c, order, 0, k)
    ensures var top := tmp + 0xff_ffff + k[8] + c * order[8];
            && 0 <= top < BASE
            && Norm(a[8 := top])
            && Val(a[8 := top]) == P256 + Val(k) + c * Val(order)
            && Val(a[8 := top]) % 2 == 1 && 0 <= Val(a[8 := top]) < 2 * P256
  {
    hide Lo, PowB;
    PowB9();
    LoBound(a, 8);
    var top := tmp + 0xff_ffff + k[8] + c * order[8];
    LoDef(k, 8);
    LoDef(order, 8);
    ValBound(k);
    assert Lo(a, 8) + top * P232 == P256 + Val(k) + c * Val(order);
    LoAgree(a, a[8 := top], 8);
    LoDef(a[8 := top], 8);
  }

  lemma HexBits()
    ensures Pow(16, 64) == P256
  {
    hide Pow;
    Sixteen();
    PowMul(16, 4, 16);
    PowAdd(0x1_0000, 4, 4);
    PowAdd(0x1_0000, 8, 8);
  }

  lemma Sixteen()
    ensures Pow(16, 4) == 0x1_0000 && Pow(0x1_0000, 4) == 0x1_0000_0000_0000_0000
  {
    assert Pow(16, 4) == 16 * (16 * (16 * (16 * Pow(16, 0))));
    var b := 0x1_0000;
    assert Pow(b, 4) == b * (b * (b * (b * Pow(b, 0))));
  }

  /** 16^i as a limb weight and a bit offset. */
  lemma HexWeight(i: nat, l: nat, sh: nat)
    requires 4 * i == 29 * l + sh
    ensures Pow(16, i) == PowB(l) * Pow(2, sh)
  {
    hide Pow, PowB;
    PowTwoFour();
    PowMul(2, 4, i);
    PowAdd(2, 29 * l, sh);
    LimbWeight(l);
  }

  lemma PowTwoFour()
    ensures Pow(2, 4) == 16
  {}

  lemma {:induction false} LimbWeight(l: nat)
    ensures PowB(l) == Pow(2, 29 * l)
    decreases l
  {
    if l == 0 {
      PowDef(2, 0);
    } else {
      LimbWeight(l - 1);
      PowAdd(2, 29, 29 * (l - 1));
      TwoTo29();
    }
  }

  /** Dividing by the weight of limb l leaves the limbs from l up. */
  lemma LimbQuotient(a: Limbs9, l: nat, w: int)
    requires Norm(a) && l < 9 && w > 0
    ensures PowB(l) * w > 0 && Val(a) / (PowB(l) * w) == Hi(a, l) / w && Hi(a, l) >= 0 && Val(a) >= 0
  {
    hide Lo, PowB, Hi;
    ValBound(a);
    LoHi(a, l);
    LoBound(a, l);
    ModUnique(Val(a), Hi(a, l), Lo(a, l), PowB(l));
    DivDiv(Val(a), PowB(l), w);
    if Hi(a, l) < 0 { MulLe(Hi(a, l), -1, PowB(l)); }
  }

  /** Five bits inside one limb. */
  lemma WindowInside(a: Limbs9, i: nat, l: nat, sh: nat)
    requires Norm(a) && l < 9 && sh <= 24 && 4 * i == 29 * l + sh
    ensures Val(a) >= 0 && Pow(2, sh) > 0 && Window(Val(a), i) == (a[l] / Pow(2, sh)) % 32
  {
    hide Lo, PowB, Hi, Pow, Val;
    var w, m, h := Pow(2, sh), Pow(2, 24 - sh), Hi(a, l + 1);
    PowPositive(2, sh);
    HexWeight(i, l, sh);
    LimbQuotient(a, l, w);
    HiDef(a, l);
    PowAdd(2, sh, 24 - sh);
    TwoTo24();
    InsideInts(a[l], w, m, h);
  }

  lemma HiDef(s: seq<int>, l: nat)
    requires l < |s|
    ensures Hi(s, l) == s[l] + BASE * Hi(s, l + 1)
  {}

  lemma TwoTo24()
    ensures Pow(2, 24) == 0x100_0000
  {
    assert Pow(2, 8) == 0x100;
    PowAdd(2, 8, 8);
    PowAdd(2, 16, 8);
  }

  lemma DivShift(x: int, k: int, w: int)
    requires w > 0
    ensures (x + k * w) / w == x / w + k
  {
    var q, r := x / w, x % w;
    assert x == q * w + r;
    assert (q + k) * w == q * w + k * w;
    ModUnique(x + k * w, q + k, r, w);
  }

  lemma Mod32(q: int, k: int)
    ensures (q + 32 * k) % 32 == q % 32
  {}

  lemma InsideInts(x: int, w: int, m: int, h: int)
    requires w > 0 && w * m == 0x100_0000
    ensures ((x + BASE * h) / w) % 32 == (x / w) % 32
  {
    var k := m * h;
    assert (w * m) * h == k * w;
    assert BASE * h == (32 * k) * w;
    DivShift(x, 32 * k, w);
    Mod32(x / w, k);
  }

  /** Five bits across two limbs: s of them from the top of the lower limb. */
  lemma WindowAcross(a: Limbs9, i: nat, l: nat, s: nat)
    requires Norm(a) && l < 8 && 1 <= s <= 4 && 4 * i == 29 * l + 29 - s
    ensures Val(a) >= 0 && Pow(2, 29 - s) > 0
    ensures Window(Val(a), i) == (Wrap32(a[l + 1] * Pow(2, s)) + a[l] / Pow(2, 29 - s)) % 32
  {
    hide Lo, PowB, Hi, Pow, Val;
    var w := Pow(2, 29 - s);
    PowPositive(2, 29 - s);
    HexWeight(i, l, 29 - s);
    LimbQuotient(a, l, w);
    HiDef(a, l);
    HiDef(a, l + 1);
    PowAdd(2, s, 29 - s);
    TwoTo29();
    AcrossInts(a[l], a[l + 1], Hi(a, l + 2), w, Pow(2, s));
  }

  lemma AcrossInts(x: int, y: int, h: int, w: int, t: int)
    requires w > 0 && t * w == BASE
    ensures ((x + BASE * (y + BASE * h)) / w) % 32 == (Wrap32(y * t) + x / w) % 32
  {
    var z := y + BASE * h;
    assert (t * w) * z == (t * z) * w;
    DivShift(x, t * z, w);
    AcrossLow(y, h, t);
    Mod32(x / w + y * t, 0x100_0000 * (t * h));
    WrapLow(y * t, x / w);
  }

  lemma AcrossLow(y: int, h: int, t: int)
    ensures t * (y + BASE * h) == y * t + 32 * (0x100_0000 * (t * h))
  {
    assert t * (BASE * h) == BASE * (t * h);
  }

  lemma WrapLow(u: int, q: int)
    ensures (Wrap32(u) + q) % 32 == (q + u) % 32
  {
    Mod32(Wrap32(u) + q, 0x800_0000 * (u / 0x1_0000_0000));
  }
}
