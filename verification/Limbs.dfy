/** Nine-limb little-endian numbers in base 2^29, the representation used by
    libs/crypto/bignum.c, and the arithmetic of their carries. */
module Limbs {
  import opened Arith

  const LIMBS := 9
  const BASE := 0x2000_0000

  type uint8 = x: int | 0 <= x < 0x100
  type uint32 = x: int | 0 <= x < 0x1_0000_0000
  type uint64 = x: int | 0 <= x < 0x1_0000_0000_0000_0000

  /** The `val` member of a bignum256. */
  type Limbs9 = s: seq<uint32> | |s| == 9 witness [0, 0, 0, 0, 0, 0, 0, 0, 0]

  const P232 := 0x1_0000_0000_0000_0000_0000_0000_0000_0000_0000_0000_0000_0000_0000_0000_00
  const P224 := 0x1_0000_0000_0000_0000_0000_0000_0000_0000_0000_0000_0000_0000_0000_0000
  const P256 := 0x1_0000_0000_0000_0000_0000_0000_0000_0000_0000_0000_0000_0000_0000_0000_0000_0000
  const P261 := 0x20_0000_0000_0000_0000_0000_0000_0000_0000_0000_0000_0000_0000_0000_0000_0000_0000
  const P519 := 0x80_0000_0000_0000_0000_0000_0000_0000_0000_0000_0000_0000_0000_0000_0000_0000_0000_0000_0000_0000_0000_0000_0000_0000_0000_0000_0000_0000_0000_0000_0000_0000_0000

  /** `x & BN_LIMB_MASK`. */
  function Mask(x: int): (r: int)
    ensures 0 <= r < BASE
  {
    x % BASE
  }

  /** `x >> BN_BITS_PER_LIMB`. */
  function Shift(x: int): (r: int)
    ensures r * BASE <= x < r * BASE + BASE
  {
    x / BASE
  }

  /** 2^(29 i). */
  function PowB(i: nat): (r: nat)
    ensures r >= 1
  {
    if i == 0 then 1 else BASE * PowB(i - 1)
  }

  /** The number formed by the low i limbs of s. */
  function Lo(s: seq<int>, i: nat): int
    requires i <= |s|
  {
    if i == 0 then 0 else Lo(s, i - 1) + s[i - 1] * PowB(i - 1)
  }

  /** The value of a nine-limb number, whatever the size of its limbs. */
  function Val(s: seq<int>): int
    requires |s| == 9
  {
    Lo(s, 9)
  }

  /** The low i limbs of s are below the base. */
  predicate NormTo(s: seq<int>, i: nat)
    requires i <= |s|
  {
    forall j :: 0 <= j < i ==> 0 <= s[j] < BASE
  }

  /** A normalized number: every limb is below the base. */
  predicate Norm(s: seq<int>) {
    |s| == 9 && NormTo(s, 9)
  }

  /** What the library asks of a modulus: normalized, 2^256 - 2^224 <= p <= 2^256. */
  predicate Modulus(s: seq<int>) {
    Norm(s) && P256 - P224 <= Val(s) <= P256
  }

  lemma PowB9()
    ensures PowB(8) == P232
    ensures PowB(9) == P261
  {
    assert PowB(2) == 0x400_0000_0000_0000;
    assert PowB(4) == 0x10_0000_0000_0000_0000_0000_0000_0000;
    assert PowB(6) == PowB(4) * 0x400_0000_0000_0000;
    assert PowB(8) == PowB(6) * 0x400_0000_0000_0000;
    assert PowB(9) == BASE * PowB(8);
  }

  lemma {:induction false} PowBAdd(i: nat, j: nat)
    ensures PowB(i + j) == PowB(i) * PowB(j)
    decreases i
  {
    if i > 0 {
      PowBAdd(i - 1, j);
      assert i + j - 1 == (i - 1) + j;
      var x, y := PowB(i - 1), PowB(j);
      assert BASE * (x * y) == (BASE * x) * y;
    }
  }

  /** The definition of Lo, for use where the recursion is hidden. */
  lemma LoDef(s: seq<int>, i: nat)
    requires i < |s|
    ensures Lo(s, 0) == 0 && Lo(s, i + 1) == Lo(s, i) + s[i] * PowB(i)
    ensures PowB(0) == 1 && PowB(i + 1) == BASE * PowB(i)
  {}

  /** Lo depends only on the limbs it covers. */
  lemma {:induction false} LoAgree(s: seq<int>, t: seq<int>, i: nat)
    requires i <= |s| && i <= |t|
    requires forall j :: 0 <= j < i ==> s[j] == t[j]
    ensures Lo(s, i) == Lo(t, i)
    decreases i
  {
    if i > 0 { LoAgree(s, t, i - 1); }
  }

  /** Normalized low limbs form a number below 2^(29 i). */
  lemma {:induction false} LoBound(s: seq<int>, i: nat)
    requires i <= |s| && NormTo(s, i)
    ensures 0 <= Lo(s, i) < PowB(i)
    decreases i
  {
    if i > 0 {
      LoBound(s, i - 1);
      MulLe(0, s[i - 1], PowB(i - 1));
      MulLe(s[i - 1], BASE - 1, PowB(i - 1));
      assert (BASE - 1) * PowB(i - 1) == BASE * PowB(i - 1) - PowB(i - 1);
    }
  }

  /** Splitting a limb sequence: the limbs from m on, shifted down, make up the rest. */
  lemma {:induction false} LoSplit(s: seq<int>, m: nat, k: nat)
    requires m + k <= |s|
    ensures Lo(s, m + k) == Lo(s, m) + Lo(s[m..], k) * PowB(m)
    decreases k
  {
    if k > 0 {
      LoSplit(s, m, k - 1);
      PowBAdd(m, k - 1);
      var t := s[m..];
      assert Lo(s, m + k) == Lo(s, m + (k - 1)) + t[k - 1] * PowB(m + (k - 1));
      assert Lo(t, k) == Lo(t, k - 1) + t[k - 1] * PowB(k - 1);
      SplitStep(Lo(t, k - 1), t[k - 1], PowB(k - 1), PowB(m));
    }
  }

  lemma SplitStep(a: int, b: int, c: int, d: int)
    ensures (a + b * c) * d == a * d + b * (d * c)
  {}

  /** One carry step: the low 29 bits of t stay in limb i, the rest moves on. */
  lemma Carry(s: seq<int>, i: nat, t: int)
    requires i < |s|
    ensures Lo(s[i := Mask(t)], i + 1) + Shift(t) * PowB(i + 1) == Lo(s, i) + t * PowB(i)
  {
    LoAgree(s, s[i := Mask(t)], i);
    var q, r := Shift(t), Mask(t);
    assert t == q * BASE + r;
    assert (q * BASE + r) * PowB(i) == q * (BASE * PowB(i)) + r * PowB(i);
  }

  /** What a carry loop has consumed before limb i: K 2^(29 i) plus a linear
      combination of the low parts of up to three operands. */
  ghost function Lin(i: nat, K: int, a: int, xs: seq<int>, b: int, ys: seq<int>, c: int, zs: seq<int>): int
    requires i <= |xs| && i <= |ys| && i <= |zs|
  {
    K * PowB(i) + a * Lo(xs, i) + b * Lo(ys, i) + c * Lo(zs, i)
  }

  lemma LinStart(out: seq<int>, K: int, a: int, xs: seq<int>, b: int, ys: seq<int>, c: int, zs: seq<int>)
    ensures Lo(out, 0) + K * PowB(0) == Lin(0, K, a, xs, b, ys, c, zs)
  {}

  /** The step every carry loop of the library takes. */
  lemma LinStep(out: seq<int>, i: nat, acc: int,
                K: int, a: int, xs: seq<int>, b: int, ys: seq<int>, c: int, zs: seq<int>)
    requires i < |out| && i < |xs| && i < |ys| && i < |zs|
    requires Lo(out, i) + acc * PowB(i) == Lin(i, K, a, xs, b, ys, c, zs)
    ensures var t := acc + K * (BASE - 1) + a * xs[i] + b * ys[i] + c * zs[i];
            Lo(out[i := Mask(t)], i + 1) + Shift(t) * PowB(i + 1) == Lin(i + 1, K, a, xs, b, ys, c, zs)
  {
    var x, y, z := a * xs[i], b * ys[i], c * zs[i];
    var t := acc + K * (BASE - 1) + x + y + z;
    Carry(out, i, t);
    LinSpread(acc, K, x, y, z, PowB(i));
    LinTerm(a, Lo(xs, i), xs[i], PowB(i));
    LinTerm(b, Lo(ys, i), ys[i], PowB(i));
    LinTerm(c, Lo(zs, i), zs[i], PowB(i));
  }

  lemma LinSpread(acc: int, K: int, x: int, y: int, z: int, w: int)
    ensures (acc + K * (BASE - 1) + x + y + z) * w == acc * w + K * (BASE * w) - K * w + x * w + y * w + z * w
  {}

  lemma LinTerm(a: int, l: int, x: int, w: int)
    ensures a * (l + x * w) == a * l + (a * x) * w
  {}

  lemma LinEnd(out: seq<int>, acc: int, K: int, a: int, xs: seq<int>, b: int, ys: seq<int>, c: int, zs: seq<int>)
    requires |out| == |xs| == |ys| == |zs| == 9
    requires Lo(out, 9) + acc * PowB(9) == Lin(9, K, a, xs, b, ys, c, zs)
    ensures Val(out) + acc * P261 == K * P261 + a * Val(xs) + b * Val(ys) + c * Val(zs)
  {
    PowB9();
  }

  /** A normalized number has only one limb representation. */
  lemma {:induction false} LoInjective(s: seq<int>, t: seq<int>, i: nat)
    requires i <= |s| && i <= |t| && NormTo(s, i) && NormTo(t, i)
    requires Lo(s, i) == Lo(t, i)
    ensures forall j :: 0 <= j < i ==> s[j] == t[j]
    decreases i
  {
    if i > 0 {
      LoBound(s, i - 1);
      LoBound(t, i - 1);
      var a, b, w := s[i - 1], t[i - 1], PowB(i - 1);
      assert a * w - b * w == (a - b) * w;
      if a - b >= 1 { MulLe(1, a - b, w); }
      if a - b <= -1 { MulLe(a - b, -1, w); }
      LoInjective(s, t, i - 1);
    }
  }

  lemma ValBound(s: seq<int>)
    requires Norm(s)
    ensures 0 <= Val(s) < P261
  {
    LoBound(s, 9);
    PowB9();
  }

  lemma ValInjective(s: seq<int>, t: seq<int>)
    requires Norm(s) && Norm(t) && Val(s) == Val(t)
    ensures s == t
  {
    LoInjective(s, t, 9);
  }

  /** Value read from the most significant limb down. */
  function Hi(s: seq<int>, i: nat): int
    requires i <= |s|
    decreases |s| - i
  {
    if i == |s| then 0 else s[i] + BASE * Hi(s, i + 1)
  }

  lemma {:induction false} LoHi(s: seq<int>, i: nat)
    requires i <= |s|
    ensures Lo(s, |s|) == Lo(s, i) + Hi(s, i) * PowB(i)
    decreases |s| - i
  {
    if i < |s| {
      LoHi(s, i + 1);
      var a, h := s[i], Hi(s, i + 1);
      assert (a + BASE * h) * PowB(i) == a * PowB(i) + h * (BASE * PowB(i));
    }
  }

  /** The value as an explicit sum of limbs. */
  lemma ValSum(s: seq<int>)
    requires |s| == 9
    ensures Val(s) == Lo(s, 8) + s[8] * PowB(8)
    ensures Cong(Val(s), s[0], BASE)
    ensures Val(s) % 2 == s[0] % 2
  {
    LoHi(s, 1);
    assert Lo(s, 1) == s[0] * PowB(0);
    var h := Hi(s, 1);
    assert PowB(1) == BASE;
    CongBy(Val(s), s[0], BASE, h);
    assert Val(s) == s[0] + BASE * h;
    assert Val(s) == s[0] + 2 * (0x1000_0000 * h);
  }

  lemma TwoTo29()
    ensures Pow(2, 29) == BASE
  {
    TwoTo8();
    PowAdd(2, 8, 8);
    PowAdd(2, 16, 8);
    assert Pow(2, 5) == 0x20;
    PowAdd(2, 24, 5);
  }

  lemma TwoTo32()
    ensures Pow(2, 32) == 0x1_0000_0000
  {
    TwoTo29();
    assert Pow(2, 3) == 8;
    PowAdd(2, 29, 3);
  }
}
