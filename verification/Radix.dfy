/** Positional notation: the number a digit string spells, and the digits of a
    number. */
module Radix {
  import opened Arith
  import opened Limbs

  /** The number that digits spell, most significant first. */
  function Horner(base: nat, ds: seq<nat>): nat {
    if ds == [] then 0 else base * Horner(base, ds[..|ds| - 1]) + ds[|ds| - 1]
  }

  predicate Below(ds: seq<nat>, base: nat) {
    forall i :: 0 <= i < |ds| ==> ds[i] < base
  }

  /** A number's digits, without leading zeros; 0 has none. */
  function Digits(base: nat, v: nat): (ds: seq<nat>)
    requires base > 1
    ensures Below(ds, base) && (v > 0 ==> |ds| > 0 && ds[0] != 0)
    decreases v
  {
    if v == 0 then []
    else
      Division(v, base);
      Digits(base, v / base) + [v % base]
  }

  lemma Division(v: nat, base: nat)
    requires base > 0
    ensures v == base * (v / base) + v % base && 0 <= v % base < base && 0 <= v / base
    ensures v > 0 && base > 1 ==> v / base < v && (v / base == 0 ==> v % base > 0)
  {
    var q := v / base;
    if base > 1 && q > 0 { MulLe(2, base, q); }
  }

  lemma HornerPush(base: nat, ds: seq<nat>, d: nat)
    ensures Horner(base, ds + [d]) == base * Horner(base, ds) + d
  {
    assert (ds + [d])[..|ds|] == ds;
  }

  lemma {:induction false} HornerConcat(base: nat, x: seq<nat>, y: seq<nat>)
    ensures Horner(base, x + y) == Horner(base, x) * Pow(base, |y|) + Horner(base, y)
    decreases |y|
  {
    if y == [] {
      assert x + y == x;
      PowDef(base, 0);
    } else {
      var n := |y| - 1;
      HornerConcat(base, x, y[..n]);
      assert (x + y)[..|x + y| - 1] == x + y[..n];
      PowDef(base, n);
      ConcatInts(base, Horner(base, x), Pow(base, n), Horner(base, y[..n]), y[n]);
    }
  }

  lemma ConcatInts(base: int, x: int, w: int, y: int, d: int)
    ensures base * (x * w + y) + d == x * (base * w) + (base * y + d)
  {}

  lemma HornerFront(base: nat, d: nat, ds: seq<nat>)
    ensures Horner(base, [d] + ds) == d * Pow(base, |ds|) + Horner(base, ds)
  {
    HornerConcat(base, [d], ds);
    assert [d][..0] == [];
  }

  lemma {:induction false} HornerBound(base: nat, ds: seq<nat>)
    requires Below(ds, base)
    ensures Horner(base, ds) < Pow(base, |ds|)
    decreases |ds|
  {
    hide Pow;
    if ds == [] {
      PowDef(base, 0);
    } else {
      var n := |ds| - 1;
      HornerBound(base, ds[..n]);
      PowDef(base, n);
      BoundInts(base, Horner(base, ds[..n]), ds[n], Pow(base, n));
    }
  }

  lemma BoundInts(base: int, v: int, d: int, w: int)
    requires 0 <= v < w && d < base && base >= 0
    ensures base * v + d < base * w
  {
    MulLe(v + 1, w, base);
  }

  /** Strings of the same length that spell the same number are equal. */
  lemma {:induction false} HornerInjective(base: nat, x: seq<nat>, y: seq<nat>)
    requires Below(x, base) && Below(y, base) && |x| == |y| && Horner(base, x) == Horner(base, y)
    ensures x == y
    decreases |x|
  {
    if x != [] {
      var n := |x| - 1;
      LastDigit(base, Horner(base, x[..n]), x[n]);
      LastDigit(base, Horner(base, y[..n]), y[n]);
      HornerInjective(base, x[..n], y[..n]);
      assert x == x[..n] + [x[n]] && y == y[..n] + [y[n]];
    }
  }

  lemma LastDigit(base: nat, v: nat, d: nat)
    requires d < base
    ensures (base * v + d) / base == v && (base * v + d) % base == d
  {
    ModUnique(base * v + d, v, d, base);
  }

  lemma {:induction false} DigitsSpell(base: nat, v: nat)
    requires base > 1
    ensures Horner(base, Digits(base, v)) == v
    decreases v
  {
    if v > 0 {
      Division(v, base);
      DigitsSpell(base, v / base);
      HornerPush(base, Digits(base, v / base), v % base);
    }
  }

  /** The only digit string without a leading zero. */
  lemma {:induction false} DigitsUnique(base: nat, ds: seq<nat>)
    requires base > 1 && Below(ds, base) && (ds != [] ==> ds[0] != 0)
    ensures Digits(base, Horner(base, ds)) == ds
    decreases |ds|
  {
    if ds != [] {
      var n := |ds| - 1;
      DigitsUnique(base, ds[..n]);
      LastDigit(base, Horner(base, ds[..n]), ds[n]);
      if n > 0 { HornerPositive(base, ds[..n]); }
      assert ds == ds[..n] + [ds[n]];
    }
  }

  lemma {:induction false} HornerPositive(base: nat, ds: seq<nat>)
    requires base > 1 && ds != [] && ds[0] != 0
    ensures Horner(base, ds) > 0
    decreases |ds|
  {
    if |ds| > 1 {
      HornerPositive(base, ds[..|ds| - 1]);
      MulLe(1, Horner(base, ds[..|ds| - 1]), base);
    } else {
      assert ds[..0] == [];
    }
  }

  /** Leading zeros do not count. */
  lemma HornerZeros(base: nat, zeros: seq<nat>, ds: seq<nat>)
    requires forall i :: 0 <= i < |zeros| ==> zeros[i] == 0
    ensures Horner(base, zeros + ds) == Horner(base, ds)
  {
    HornerConcat(base, zeros, ds);
    ZerosSpell(base, zeros);
  }

  lemma {:induction false} ZerosSpell(base: nat, zeros: seq<nat>)
    requires forall i :: 0 <= i < |zeros| ==> zeros[i] == 0
    ensures Horner(base, zeros) == 0
    decreases |zeros|
  {
    if zeros != [] { ZerosSpell(base, zeros[..|zeros| - 1]); }
  }

  /** n digits suffice exactly for the numbers below base^n. */
  lemma DigitsLength(base: nat, v: nat, n: nat)
    requires base > 1
    ensures |Digits(base, v)| <= n <==> v < Pow(base, n)
  {
    var ds := Digits(base, v);
    DigitsSpell(base, v);
    if |ds| <= n {
      HornerBound(base, ds);
      PowMonotoneExp(base, |ds|, n);
    } else {
      LongDigits(base, ds, n);
    }
  }

  lemma LongDigits(base: nat, ds: seq<nat>, n: nat)
    requires base > 1 && ds != [] && ds[0] != 0 && |ds| > n
    ensures Horner(base, ds) >= Pow(base, n)
  {
    assert ds == [ds[0]] + ds[1..];
    HornerFront(base, ds[0], ds[1..]);
    PowMonotoneExp(base, n, |ds| - 1);
    MulLe(1, ds[0], Pow(base, |ds| - 1));
  }

  /** One step of multiplying a digit string in place from its end: the digit x
      before olds becomes the low part of carry + mult x. */
  lemma CarryStep(base: nat, mult: nat, news: seq<nat>, olds: seq<nat>, x: nat, carry: nat, add: nat)
    requires base > 0 && |news| == |olds|
    requires Horner(base, news) + carry * Pow(base, |news|) == mult * Horner(base, olds) + add
    ensures var t := carry + mult * x;
            Horner(base, [t % base] + news) + (t / base) * Pow(base, |news| + 1) == mult * Horner(base, [x] + olds) + add
  {
    hide Pow, Horner;
    var t := carry + mult * x;
    HornerFront(base, t % base, news);
    HornerFront(base, x, olds);
    PowDef(base, |news|);
    Division(t, base);
    CarryInts(base, mult, Horner(base, news), Horner(base, olds), x, carry, add, t % base, t / base, Pow(base, |news|));
  }

  lemma CarryInts(base: int, mult: int, h: int, o: int, x: int, carry: int, add: int, d: int, q: int, w: int)
    requires h + carry * w == mult * o + add && carry + mult * x == base * q + d
    ensures (d * w + h) + q * (base * w) == mult * (x * w + o) + add
  {
    assert d * w + q * (base * w) == (carry + mult * x) * w;
    assert (carry + mult * x) * w == carry * w + mult * (x * w);
    assert mult * (x * w + o) == mult * (x * w) + mult * o;
  }

  /** A number below base^(n - 1) leaves the first of n digits zero. */
  lemma TopZero(base: nat, ds: seq<nat>)
    requires ds != [] && Horner(base, ds) < Pow(base, |ds| - 1)
    ensures ds[0] == 0
  {
    hide Pow;
    assert ds == [ds[0]] + ds[1..];
    HornerFront(base, ds[0], ds[1..]);
    if ds[0] > 0 {
      HornerTop(ds[0], Pow(base, |ds| - 1), Horner(base, ds[1..]));
    }
  }

  lemma HornerTop(d: int, w: int, h: int)
    requires d >= 1 && h >= 0 && w > 0
    ensures d * w + h >= w
  {
    MulLe(1, d, w);
  }

  /** The low n bytes of v, most significant first. */
  function Fixed(n: nat, v: nat): (b: seq<uint8>)
    ensures |b| == n
  {
    if n == 0 then [] else Fixed(n - 1, v / 256) + [v % 256]
  }

  /** One more than the largest number n bytes spell. */
  function Range(n: nat): (p: nat)
    ensures p > 0
  {
    PowPositive(256, n);
    Pow(256, n)
  }

  lemma {:induction false} FixedSpells(n: nat, v: nat)
    ensures Horner(256, Fixed(n, v)) == v % Range(n)
  {
    hide Pow;
    PowPositive(256, n);
    if n == 0 {
      PowDef(256, 0);
    } else {
      FixedSpells(n - 1, v / 256);
      HornerPush(256, Fixed(n - 1, v / 256), v % 256);
      PowDef(256, n - 1);
      ModByte(v, Pow(256, n - 1));
    }
  }

  lemma ModByte(v: nat, p: int)
    requires p > 0
    ensures 256 * (v / 256 % p) + v % 256 == v % (256 * p)
  {
    var q := v / 256;
    Division(q, p);
    ByteParts(v, q, q / p, q % p, p);
    ModUnique(v, q / p, 256 * (q % p) + v % 256, 256 * p);
  }

  lemma ByteParts(v: int, q: int, a: int, b: int, p: int)
    requires q == p * a + b && q == v / 256 && 0 <= b < p
    ensures v == a * (256 * p) + (256 * b + v % 256) && 0 <= 256 * b + v % 256 < 256 * p
  {}
}
