/** Big-endian byte strings and the conversions bn_read_be and bn_write_be. */
module Bytes {
  import opened Arith
  import opened Limbs
  import opened Bignum
  import opened Recode
  import opened Radix

  /** The number a big-endian byte string spells. */
  function BeVal(b: seq<uint8>): nat {
    Horner(256, b)
  }

  lemma BeConcat(x: seq<uint8>, y: seq<uint8>)
    ensures BeVal(x + y) == BeVal(x) * Pow(256, |y|) + BeVal(y)
  {
    HornerConcat(256, x, y);
  }

  lemma BeBound(b: seq<uint8>)
    ensures BeVal(b) < Pow(256, |b|)
  {
    HornerBound(256, b);
  }

  /** Strings of the same length that spell the same number are equal. */
  lemma BeInjective(x: seq<uint8>, y: seq<uint8>)
    requires |x| == |y| && BeVal(x) == BeVal(y)
    ensures x == y
  {
    HornerInjective(256, x, y);
  }

  /** A byte string is the bytes of the number it spells. */
  lemma SpellBytes(b: seq<uint8>)
    ensures b == Fixed(|b|, BeVal(b))
  {
    hide Fixed;
    BeBound(b);
    FixedVal(|b|, BeVal(b));
    BeInjective(b, Fixed(|b|, BeVal(b)));
  }

  lemma FixedVal(n: nat, v: nat)
    requires v < Pow(256, n)
    ensures BeVal(Fixed(n, v)) == v
  {
    FixedSpells(n, v);
    ModUnique(v, 0, v, Pow(256, n));
  }

  /** `read_be`: four bytes as a 32-bit word. */
  function Word(b: seq<uint8>): uint32
    requires |b| == 4
  {
    var w: int, x: int, y: int, z: int := b[0], b[1], b[2], b[3];
    w * 0x100_0000 + x * 0x1_0000 + y * 0x100 + z
  }

  lemma WordVal(b: seq<uint8>)
    requires |b| == 4
    ensures BeVal(b) == Word(b)
  {
    var x, y, z := b[..3], b[..2], b[..1];
    assert x[..2] == y && y[..1] == z && z[..0] == [];
    assert BeVal(z) == 256 * BeVal(z[..0]) + z[0];
    assert BeVal(y) == 256 * BeVal(z) + y[1];
    assert BeVal(x) == 256 * BeVal(y) + x[2];
  }

  /** `write_be`: a 32-bit word as four bytes. */
  function WordBytes(w: uint32): seq<uint8> {
    [w / 0x100_0000, (w / 0x1_0000) % 0x100, (w / 0x100) % 0x100, w % 0x100]
  }

  lemma WordBytesVal(w: uint32)
    ensures BeVal(WordBytes(w)) == w
  {
    hide BeVal;
    WordVal(WordBytes(w));
    WordInts(w);
  }

  lemma WordInts(w: int)
    requires 0 <= w < 0x1_0000_0000
    ensures (w / 0x100_0000) * 0x100_0000 + ((w / 0x1_0000) % 0x100) * 0x1_0000 + ((w / 0x100) % 0x100) * 0x100 + w % 0x100 == w
  {
    var a, b := w / 0x100, w / 0x1_0000;
    assert w == 0x100 * a + w % 0x100;
    assert a == 0x100 * b + a % 0x100;
    assert b == 0x100 * (w / 0x100_0000) + b % 0x100;
  }

  lemma Pow4()
    ensures Pow(256, 4) == 0x1_0000_0000
  {
    assert Pow(256, 4) == 256 * (256 * (256 * (256 * Pow(256, 0))));
  }

  /** 2^(32 i) = 2^(29 i) 2^(3 i). */
  lemma WordWeight(i: nat)
    ensures Pow(256, 4 * i) == PowB(i) * Pow(2, 3 * i)
  {
    hide Pow, PowB;
    assert Pow(2, 8) == 256 by { TwoTo8(); }
    PowMul(2, 8, 4 * i);
    assert 8 * (4 * i) == 29 * i + 3 * i;
    PowAdd(2, 29 * i, 3 * i);
    LimbWeight(i);
  }

  /** One word enters the limbs: the low 29 bits of temp + limb 2^(3 i) stay. */
  lemma ReadStep(temp: int, limb: int, i: nat)
    requires i <= 7 && 0 <= temp < Pow(2, 3 * i) && 0 <= limb < 0x1_0000_0000
    ensures var w := Pow(2, 3 * i);
            var t := temp + limb * w;
            && 0 <= temp + Wrap32(limb * w) < 0x1_0000_0000
            && Mask(temp + Wrap32(limb * w)) == Mask(t)
            && Pow(2, 29 - 3 * i) > 0 && limb / Pow(2, 29 - 3 * i) == Shift(t)
            && 0 <= Shift(t) < Pow(2, 3 * (i + 1))
  {
    hide Pow, Mask, Shift;
    var w, v := Pow(2, 3 * i), Pow(2, 29 - 3 * i);
    PowPositive(2, 29 - 3 * i);
    PowPositive(2, 3 * i);
    PowAdd(2, 3 * i, 29 - 3 * i);
    PowAdd(2, 29 - 3 * i, 3 + 3 * i);
    PowAdd(2, 3 * i, 32 - 3 * i);
    TwoTo29();
    assert Pow(2, 32) == 0x1_0000_0000 by { TwoTo32(); }
    ReadWrap(temp, limb, w, Pow(2, 32 - 3 * i));
    ReadShift(temp, limb, w, v);
    ReadBound(limb, v, Pow(2, 3 * (i + 1)));
  }

  lemma ReadWrap(temp: int, limb: int, w: int, u: int)
    requires w > 0 && 0 <= temp < w && 0 <= limb && w * u == 0x1_0000_0000
    ensures 0 <= temp + Wrap32(limb * w) < 0x1_0000_0000
    ensures Mask(temp + Wrap32(limb * w)) == Mask(temp + limb * w)
  {
    var x := limb * w;
    var q := x / 0x1_0000_0000;
    assert x == q * 0x1_0000_0000 + Wrap32(x);
    var m := limb - q * u;
    assert Wrap32(x) == m * w by { assert (limb - q * u) * w == limb * w - q * (w * u); }
    if m >= u { MulLe(u, m, w); }
    MulLe(m, u - 1, w);
    assert (u - 1) * w == w * u - w;
    MaskMultiple(temp + Wrap32(x), q);
  }

  lemma MaskMultiple(x: int, q: int)
    ensures Mask(x + q * 0x1_0000_0000) == Mask(x)
  {
    assert x + q * 0x1_0000_0000 == x + (8 * q) * BASE;
  }

  lemma ReadShift(temp: int, limb: int, w: int, v: int)
    requires w > 0 && v > 0 && w * v == BASE && 0 <= temp < w
    ensures Shift(temp + limb * w) == limb / v
  {
    DivDiv(temp + limb * w, w, v);
    DivShift(temp, limb, w);
    ModUnique(temp, 0, temp, w);
  }

  lemma ReadBound(limb: int, v: int, u: int)
    requires v > 0 && 0 <= limb < 0x1_0000_0000 && v * u == 0x1_0000_0000
    ensures 0 <= limb / v < u
  {
    var q := limb / v;
    assert limb == q * v + limb % v;
    if q >= u { MulLe(u, q, v); }
    if q < 0 { MulLe(q, -1, v); }
  }

  lemma ReadSum(b: seq<uint8>, i: nat)
    requires |b| == 32 && i <= 7
    ensures BeVal(b[32 - 4 * (i + 1)..]) == BeVal(b[32 - 4 * i..]) + Word(b[28 - 4 * i..32 - 4 * i]) * (PowB(i) * Pow(2, 3 * i))
  {
    hide Pow, PowB, BeVal, Word;
    var x, y := b[28 - 4 * i..32 - 4 * i], b[32 - 4 * i..];
    assert b[32 - 4 * (i + 1)..] == x + y;
    BeConcat(x, y);
    WordVal(x);
    WordWeight(i);
  }

  lemma ReadStart(b: seq<uint8>)
    requires |b| == 32
    ensures BeVal(b[32..]) == 0 && Pow(2, 0) == 1
  {}

  method ReadBe(b: seq<uint8>) returns (out: Limbs9)
    requires |b| == 32
    ensures Norm(out) && Val(out) == BeVal(b) && Val(out) < P256
  {
    hide Lo, PowB, Mask, Shift, Pow, BeVal, Word, Wrap32, Val;
    out := Zero9;
    var temp: uint32 := 0;
    LoDef(out, 0);
    ReadStart(b);
    var i := 0;
    while i < 8
      invariant 0 <= i <= 8 && NormTo(out, i) && temp < Pow(2, 3 * i)
      invariant Lo(out, i) + temp * PowB(i) == BeVal(b[32 - 4 * i..])
    {
      var limb := Word(b[28 - 4 * i..32 - 4 * i]);
      var w := Pow(2, 3 * i);
      ReadStep(temp, limb, i);
      ReadSum(b, i);
      Carry(out, i, temp + limb * w);
      ReadInts(temp, limb, w, PowB(i));
      temp := temp + Wrap32(limb * w);
      out := out[i := Mask(temp)];
      temp := limb / Pow(2, 29 - 3 * i);
      i := i + 1;
    }
    ReadEnd(out, temp, b);
    out := out[8 := temp];
  }

  lemma ReadInts(temp: int, limb: int, w: int, q: int)
    ensures (temp + limb * w) * q == temp * q + limb * (q * w)
  {}

  lemma ReadEnd(out: seq<int>, temp: int, b: seq<uint8>)
    requires |out| == 9 && |b| == 32 && NormTo(out, 8) && 0 <= temp < Pow(2, 24)
    requires Lo(out, 8) + temp * PowB(8) == BeVal(b[0..])
    ensures temp < BASE && Norm(out[8 := temp]) && Val(out[8 := temp]) == BeVal(b) < P256
  {
    hide Lo, PowB, Pow, BeVal;
    TwoTo24();
    assert b[0..] == b;
    LoAgree(out, out[8 := temp], 8);
    LoDef(out[8 := temp], 8);
    BeBound(b);
    Pow256Bytes();
  }

  lemma Pow256Bytes()
    ensures Pow(256, 32) == P256
  {
    hide Pow;
    Pow4();
    PowAdd(256, 4, 4);
    PowAdd(256, 8, 8);
    PowAdd(256, 16, 16);
  }

  /** The limbs from i up, without the 3 i bits that belong to lower words. */
  lemma WriteStep(a: Limbs9, i: nat)
    requires Norm(a) && i <= 7
    ensures Pow(2, 3 * i) > 0 && Pow(2, 3 * (i + 1)) > 0
    ensures var word := Wrap32(a[i + 1] * Pow(2, 29 - 3 * i)) + a[i] / Pow(2, 3 * i);
            && 0 <= word < 0x1_0000_0000
            && Hi(a, i) / Pow(2, 3 * i) == (Hi(a, i + 1) / Pow(2, 3 * (i + 1))) * 0x1_0000_0000 + word
  {
    hide Pow, Hi, Wrap32;
    var w, v, u := Pow(2, 3 * i), Pow(2, 29 - 3 * i), Pow(2, 3 * (i + 1));
    PowPositive(2, 3 * i);
    PowPositive(2, 29 - 3 * i);
    PowPositive(2, 3 * (i + 1));
    PowAdd(2, 3 * i, 29 - 3 * i);
    PowAdd(2, 29 - 3 * i, 3 * (i + 1));
    PowAdd(2, 3 * (i + 1), 29 - 3 * (i + 1));
    TwoTo29();
    TwoTo32();
    HiDef(a, i);
    HiDef(a, i + 1);
    WriteInts(a[i], a[i + 1], Hi(a, i + 2), w, v, u, Pow(2, 29 - 3 * (i + 1)));
  }

  lemma WriteInts(x: int, y: int, h: int, w: int, v: int, u: int, t: int)
    requires w > 0 && v > 0 && u > 0 && w * v == BASE && v * u == 0x1_0000_0000 && u * t == BASE
    requires 0 <= x < BASE && 0 <= y < BASE
    ensures var word := Wrap32(y * v) + x / w;
            && 0 <= word < 0x1_0000_0000
            && (x + BASE * (y + BASE * h)) / w == ((y + BASE * h) / u) * 0x1_0000_0000 + word
  {
    var H := y + BASE * h;
    var q, f := y / u, y % u;
    assert y == q * u + f;
    assert BASE * h == (t * h) * u by { assert (u * t) * h == (t * h) * u; }
    DivShift(y, t * h, u);
    assert H / u == q + t * h;
    assert BASE * H == (v * H) * w by { assert (w * v) * H == (v * H) * w; }
    DivShift(x, v * H, w);
    WriteWrap(y, v, u, q, f);
    WriteTop(v, u, H, y, h, t, q, f);
    ReadBound29(x, w, v);
    MulLe(f, u - 1, v);
    assert (u - 1) * v == v * u - v;
  }

  lemma WriteWrap(y: int, v: int, u: int, q: int, f: int)
    requires v > 0 && v * u == 0x1_0000_0000 && y == q * u + f && 0 <= f < u
    ensures Wrap32(y * v) == f * v
  {
    assert y * v == q * (v * u) + f * v;
    MulLe(f, u - 1, v);
    MulLe(0, f, v);
    assert (u - 1) * v == v * u - v;
    ModUnique(y * v, q, f * v, 0x1_0000_0000);
  }

  lemma WriteTop(v: int, u: int, H: int, y: int, h: int, t: int, q: int, f: int)
    requires v * u == 0x1_0000_0000 && H == y + (t * h) * u && y == q * u + f
    ensures v * H == (q + t * h) * 0x1_0000_0000 + f * v
  {
    assert H == (q + t * h) * u + f;
    assert v * ((q + t * h) * u) == (q + t * h) * (v * u);
    assert v * ((q + t * h) * u + f) == v * ((q + t * h) * u) + v * f;
  }

  lemma ReadBound29(x: int, w: int, v: int)
    requires w > 0 && 0 <= x < BASE && w * v == BASE
    ensures 0 <= x / w < v
  {
    var q := x / w;
    assert x == q * w + x % w;
    if q >= v { MulLe(v, q, w); }
    if q < 0 { MulLe(q, -1, w); }
  }

  method WriteBe(a: Limbs9) returns (b: seq<uint8>)
    requires Norm(a) && Val(a) < P256
    ensures |b| == 32 && BeVal(b) == Val(a)
  {
    hide Pow, Hi, Wrap32, BeVal, WordBytes, Val;
    b := [];
    WriteStart(a);
    Pow4();
    var i := 8;
    while i > 0
      invariant 0 <= i <= 8 && |b| == 4 * (8 - i)
      invariant Pow(2, 3 * i) > 0 && BeVal(b) == Hi(a, i) / Pow(2, 3 * i)
    {
      i := i - 1;
      WriteStep(a, i);
      var word: uint32 := Wrap32(a[i + 1] * Pow(2, 29 - 3 * i)) + a[i] / Pow(2, 3 * i);
      var four := WordBytes(word);
      FourBytes(word);
      BeConcat(b, four);
      b := b + four;
    }
    WriteEnd(a);
  }

  lemma FourBytes(word: uint32)
    ensures |WordBytes(word)| == 4 && BeVal(WordBytes(word)) == word
  {
    WordBytesVal(word);
  }

  lemma WriteStart(a: Limbs9)
    requires Norm(a) && Val(a) < P256
    ensures Pow(2, 24) > 0 && BeVal([]) == Hi(a, 8) / Pow(2, 24)
  {
    hide Pow, Lo, PowB;
    TwoTo24();
    PowB9();
    LoDef(a, 8);
    LoBound(a, 8);
    assert Hi(a, 8) == a[8] + BASE * Hi(a, 9);
    assert a[8] < 0x100_0000;
  }

  lemma WriteEnd(a: Limbs9)
    requires Norm(a)
    ensures Pow(2, 0) == 1 && Hi(a, 0) / Pow(2, 0) == Val(a)
  {
    LoHi(a, 0);
    PowDef(2, 0);
  }
}
