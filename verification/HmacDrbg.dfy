/** The deterministic generator of libs/crypto/hmac_drbg.c: HMAC with precomputed
    pads over a compression function that is a parameter. */
module HmacDrbg {
  import opened Arith
  import opened Limbs
  import opened Radix
  import opened Sha2
  import opened Wrappers

  /** The compression function of SHA-256 and its initial value: eight 32-bit words. */
  ghost predicate HashOk(f: Compression, iv: seq<nat>) {
    |iv| == 8 && forall s: seq<nat>, b: seq<nat> :: |f(s, b)| == 8 && Below(f(s, b), Range(4))
  }

  // ------------------------------------------------------------ specification

  /** Exclusive or of the low n bits. */
  function XorBits(n: nat, a: nat, b: nat): nat {
    if n == 0 then 0 else 2 * XorBits(n - 1, a / 2, b / 2) + (a + b) % 2
  }

  lemma {:induction false} XorBound(n: nat, a: nat, b: nat)
    ensures XorBits(n, a, b) < Pow(2, n)
  {
    if n > 0 { XorBound(n - 1, a / 2, b / 2); }
  }

  function Xor(a: uint8, b: uint8): uint8 {
    XorBound(8, a, b);
    TwoTo8();
    XorBits(8, a, b)
  }

  function XorAll(s: Bytes, c: uint8): (r: Bytes)
    ensures |r| == |s|
  {
    seq(|s|, i requires 0 <= i < |s| => Xor(s[i], c))
  }

  function Sha256(f: Compression, iv: seq<nat>, m: Bytes): Bytes { Digest(f, 4, iv, m) }

  /** A key of at most a block, padded with zeros and mixed with a pad byte. */
  function KeyPad(K: Bytes, c: uint8): Bytes
    requires |K| <= 64
  {
    XorAll(K + Repeat<uint8>(0, 64 - |K|), c)
  }

  /** HMAC as in section 2 of RFC 2104, for keys of at most a block. */
  function Hmac(f: Compression, iv: seq<nat>, K: Bytes, text: Bytes): Bytes
    requires |K| <= 64
  {
    Sha256(f, iv, KeyPad(K, 0x5c) + Sha256(f, iv, KeyPad(K, 0x36) + text))
  }

  lemma XorDef(n: nat, a: nat, b: nat)
    ensures XorBits(0, a, b) == 0 && XorBits(n + 1, a, b) == 2 * XorBits(n, a / 2, b / 2) + (a + b) % 2
  {}

  /** Mixing a mask in twice removes it. */
  lemma {:induction false} XorTwice(n: nat, a: nat, b: nat, c: nat)
    ensures XorBits(n, XorBits(n, XorBits(n, a, b), b), c) == XorBits(n, a, c)
  {
    hide XorBits;
    if n == 0 {
      XorDef(0, a, c);
      XorDef(0, XorBits(0, XorBits(0, a, b), b), c);
    } else {
      XorTwice(n - 1, a / 2, b / 2, c / 2);
      var u := XorBits(n, a, b);
      var v := XorBits(n, u, b);
      XorDef(n - 1, a, b);
      XorDef(n - 1, u, b);
      XorDef(n - 1, v, c);
      XorDef(n - 1, a, c);
      TwoParts(XorBits(n - 1, a / 2, b / 2), (a + b) % 2);
      TwoParts(XorBits(n - 1, u / 2, b / 2), (u + b) % 2);
    }
  }

  lemma TwoParts(x: nat, p: nat)
    requires p < 2
    ensures (2 * x + p) / 2 == x && (2 * x + p) % 2 == p
  {}

  lemma XorStep(n: nat, m: nat, X: nat, Y: nat, b: nat, c: nat, r: int)
    requires XorBits(n + m, X + b / 2, Y + c / 2) == r + XorBits(m, b / 2, c / 2)
    ensures XorBits(n + (m + 1), 2 * X + b, 2 * Y + c) == 2 * r + XorBits(m + 1, b, c)
  {
    hide XorBits;
    XorDef(n + m, 2 * X + b, 2 * Y + c);
    XorDef(m, b, c);
    assert (2 * X + b) / 2 == X + b / 2 && (2 * Y + c) / 2 == Y + c / 2;
  }

  /** High and low bits are mixed separately. */
  lemma {:induction false} XorSplit(n: nat, m: nat, x: nat, y: nat, b: nat, c: nat)
    requires b < Pow(2, m) && c < Pow(2, m)
    ensures x * Pow(2, m) >= 0 && y * Pow(2, m) >= 0
    ensures XorBits(n + m, x * Pow(2, m) + b, y * Pow(2, m) + c) == XorBits(n, x, y) * Pow(2, m) + XorBits(m, b, c)
    decreases m
  {
    hide Pow, XorBits;
    if m == 0 {
      PowDef(2, 0);
      XorDef(0, b, c);
    } else {
      var p := Pow(2, m - 1);
      PowDef(2, m - 1);
      XorSplit(n, m - 1, x, y, b / 2, c / 2);
      XorStep(n, m - 1, x * p, y * p, b, c, XorBits(n, x, y) * p);
      DoubleOf(x, p);
      DoubleOf(y, p);
      DoubleOf(XorBits(n, x, y), p);
    }
  }

  lemma DoubleOf(x: int, p: int)
    ensures x * (2 * p) == 2 * (x * p)
  {}

  /** Mixing a word with a repeated byte mixes each of its bytes. */
  lemma {:induction false} XorBytes(s: Bytes, c: uint8)
    ensures XorBits(8 * |s|, Horner(256, s), Horner(256, Repeat<uint8>(c, |s|))) == Horner(256, XorAll(s, c))
  {
    hide Pow, XorBits;
    if s == [] {
      XorDef(0, 0, 0);
    } else {
      var n := |s| - 1;
      XorBytes(s[..n], c);
      TwoTo8();
      XorSplit(8 * n, 8, Horner(256, s[..n]), Horner(256, Repeat<uint8>(c, n)), s[n], c);
      assert Repeat<uint8>(c, |s|)[..n] == Repeat<uint8>(c, n);
      assert XorAll(s, c)[..n] == XorAll(s[..n], c);
    }
  }

  // ----------------------------------------------------- words of padded blocks

  lemma {:induction false} WordsOfZero(n: nat)
    ensures Words(4, Repeat<uint8>(0, 4 * n)) == Repeat<nat>(0, n)
  {
    if n > 0 {
      WordsOfZero(n - 1);
      var z := Repeat<uint8>(0, 4 * n);
      assert z[..4] == Repeat<uint8>(0, 4) && z[4..] == Repeat<uint8>(0, 4 * (n - 1));
      ZerosSpell(256, z[..4]);
      assert Repeat<nat>(0, n) == [0] + Repeat<nat>(0, n - 1);
    }
  }

  /** A word followed by zero words. */
  lemma WordThenZeros(b: Bytes, n: nat)
    requires |b| == 4
    ensures Words(4, b + Repeat<uint8>(0, 4 * n)) == [Horner(256, b)] + Repeat<nat>(0, n)
  {
    hide Horner;
    WordsConcat(4, b, Repeat<uint8>(0, 4 * n));
    WordsOfZero(n);
    assert b[..4] == b && b[4..] == [];
  }

  /** The words after 32 bytes of a second block: the end mark or a zero byte and
      the end mark, zeros, and the length in bits. */
  function Pad96(): seq<nat> { [0x80000000, 0, 0, 0, 0, 0, 0, 768] }

  function Pad97(): seq<nat> { [0x00800000, 0, 0, 0, 0, 0, 0, 776] }

  lemma MarkWords()
    ensures Horner(256, [0x80, 0, 0, 0]) == 0x80000000 && Horner(256, [0, 0x80, 0, 0]) == 0x00800000
  {
    FourBytesSpell([0x80, 0, 0, 0]);
    FourBytesSpell([0, 0x80, 0, 0]);
  }

  lemma FourBytesSpell(b: Bytes)
    requires |b| == 4
    ensures Horner(256, b) == ((b[0] as int * 256 + b[1]) * 256 + b[2]) * 256 + b[3]
  {
    assert b[..3][..2] == b[..2] && b[..2][..1] == b[..1] && b[..1][..0] == [];
    assert Horner(256, b[..1]) == b[0];
    assert Horner(256, b[..2]) == 256 * Horner(256, b[..1]) + b[1];
    assert Horner(256, b[..3]) == 256 * Horner(256, b[..2]) + b[2];
  }

  /** Hashing one block and 32 bytes takes two transforms on ready-made words. */
  lemma BlockHash(f: Compression, iv: seq<nat>, P: Bytes, V: Bytes)
    requires |P| == 64 && |V| == 32
    ensures Fold(f, 4, iv, Padded(4, P + V)) == f(f(iv, Words(4, P)), Words(4, V) + Pad96())
  {
    hide Fold, Range, Words, Padded, Horner;
    var m := P + V;
    LongTail(f, 4, iv, m);
    WordRange();
    assert m[..64] == P && m[64..] == V;
    FoldBlock(f, 4, iv, P);
    assert V + [0x80] + Repeat<uint8>(0, 23) == V + ([0x80, 0, 0, 0] + Repeat<uint8>(0, 4 * 5));
    WordsConcat(4, V, [0x80, 0, 0, 0] + Repeat<uint8>(0, 4 * 5));
    WordThenZeros([0x80, 0, 0, 0], 5);
    MarkWords();
    assert Words(4, V) + ([0x80000000] + Repeat<nat>(0, 5)) + [0, 768] == Words(4, V) + Pad96();
  }

  /** The same with a zero byte after them. */
  lemma DomainHash(f: Compression, iv: seq<nat>, P: Bytes, V: Bytes)
    requires |P| == 64 && |V| == 32
    ensures Fold(f, 4, iv, Padded(4, P + (V + [0]))) == f(f(iv, Words(4, P)), Words(4, V) + Pad97())
  {
    hide Fold, Range, Words, Padded, Horner;
    var m := P + (V + [0]);
    LongTail(f, 4, iv, m);
    WordRange();
    assert m[..64] == P && m[64..] == V + [0];
    FoldBlock(f, 4, iv, P);
    assert V + [0] + [0x80] + Repeat<uint8>(0, 22) == V + ([0, 0x80, 0, 0] + Repeat<uint8>(0, 4 * 5));
    WordsConcat(4, V, [0, 0x80, 0, 0] + Repeat<uint8>(0, 4 * 5));
    WordThenZeros([0, 0x80, 0, 0], 5);
    MarkWords();
    assert Words(4, V) + ([0x00800000] + Repeat<nat>(0, 5)) + [0, 776] == Words(4, V) + Pad97();
  }

  lemma {:induction false} UnwordsWords(b: Bytes)
    requires |b| % 4 == 0
    ensures Unwords(4, Words(4, b)) == b && |Words(4, b)| == |b| / 4
    decreases |b|
  {
    hide Horner;
    if b != [] {
      UnwordsWords(b[4..]);
      FixedBack(b[..4]);
      assert b == b[..4] + b[4..];
    }
  }

  lemma {:induction false} FixedBack(b: Bytes)
    ensures Fixed(|b|, Horner(256, b)) == b
  {
    if b != [] {
      var n := |b| - 1;
      FixedBack(b[..n]);
      LastDigit(256, Horner(256, b[..n]), b[n]);
      assert b == b[..n] + [b[n]];
    }
  }

  // ---------------------------------------------------------------- word masks

  function XorWords(ws: seq<nat>, mask: nat): (r: seq<nat>)
    ensures |r| == |ws|
  {
    seq(|ws|, i requires 0 <= i < |ws| => XorBits(32, ws[i], mask))
  }

  lemma MaskSpells()
    ensures Horner(256, Repeat<uint8>(0x36, 4)) == 0x36363636 && Horner(256, Repeat<uint8>(0x5c, 4)) == 0x5c5c5c5c
  {
    FourBytesSpell(Repeat<uint8>(0x36, 4));
    FourBytesSpell(Repeat<uint8>(0x5c, 4));
  }

  lemma {:induction false} XorWordsBytes(b: Bytes, c: uint8)
    requires |b| % 4 == 0
    ensures XorWords(Words(4, b), Horner(256, Repeat<uint8>(c, 4))) == Words(4, XorAll(b, c))
    decreases |b|
  {
    hide Horner, XorBits, Xor;
    var mask := Horner(256, Repeat<uint8>(c, 4));
    if b != [] {
      XorWordsBytes(b[4..], c);
      XorBytes(b[..4], c);
      assert XorAll(b, c)[..4] == XorAll(b[..4], c) && XorAll(b, c)[4..] == XorAll(b[4..], c);
      assert XorWords(Words(4, b), mask) == [XorBits(32, Horner(256, b[..4]), mask)] + XorWords(Words(4, b[4..]), mask);
    }
  }

  lemma XorWordsTwice(ws: seq<nat>, a: nat, c: nat)
    ensures XorWords(XorWords(XorWords(ws, a), a), c) == XorWords(ws, c)
  {
    hide XorBits;
    var r := XorWords(XorWords(XorWords(ws, a), a), c);
    forall i | 0 <= i < |ws| ensures r[i] == XorWords(ws, c)[i] {
      XorTwice(32, ws[i], a, c);
    }
  }

  /** The words of a padded key, from the words of the key. */
  lemma KeyPadWords(K: Bytes)
    requires |K| == 32
    ensures var h := Words(4, K) + Repeat<nat>(0, 8);
            XorWords(h, 0x36363636) == Words(4, KeyPad(K, 0x36)) && XorWords(h, 0x5c5c5c5c) == Words(4, KeyPad(K, 0x5c))
  {
    hide Words, XorWords, XorAll;
    WordsConcat(4, K, Repeat<uint8>(0, 4 * 8));
    WordsOfZero(8);
    MaskSpells();
    XorWordsBytes(K + Repeat<uint8>(0, 32), 0x36);
    XorWordsBytes(K + Repeat<uint8>(0, 32), 0x5c);
  }

  // ------------------------------------------------------------- the generator

  /** The state of the generator as section 3.2 of RFC 6979 has it. */
  datatype Gen = Gen(K: Bytes, V: Bytes)

  predicate GenOk(g: Gen) { |g.K| == 32 && |g.V| == 32 }

  function NextV(f: Compression, iv: seq<nat>, g: Gen): Gen
    requires GenOk(g)
  {
    g.(V := Hmac(f, iv, g.K, g.V))
  }

  function NextK(f: Compression, iv: seq<nat>, g: Gen, domain: uint8, data: Bytes): Gen
    requires GenOk(g)
  {
    g.(K := Hmac(f, iv, g.K, g.V + [domain] + data))
  }

  lemma HmacLength(f: Compression, iv: seq<nat>, K: Bytes, text: Bytes)
    requires HashOk(f, iv) && |K| <= 64
    ensures |Hmac(f, iv, K, text)| == 32
  {
    hide Fold;
    FoldLength(f, iv, Padded(4, KeyPad(K, 0x5c) + Sha256(f, iv, KeyPad(K, 0x36) + text)));
  }

  lemma {:induction false} FoldLength(f: Compression, iv: seq<nat>, b: Bytes)
    requires HashOk(f, iv)
    ensures |Fold(f, 4, iv, b)| == 8 && (|b| >= 64 ==> Below(Fold(f, 4, iv, b), Range(4)))
    decreases |b|
  {
    hide Range, Words;
    if |b| >= 64 {
      FoldStays(f, iv, f(iv, Words(4, b[..64])), b[64..]);
    }
  }

  lemma {:induction false} FoldStays(f: Compression, iv: seq<nat>, st: seq<nat>, b: Bytes)
    requires HashOk(f, iv) && |st| == 8 && Below(st, Range(4))
    ensures |Fold(f, 4, st, b)| == 8 && Below(Fold(f, 4, st, b), Range(4))
    decreases |b|
  {
    hide Range, Words;
    if |b| >= 64 {
      FoldStays(f, iv, f(st, Words(4, b[..64])), b[64..]);
    }
  }

  /** The outer hash, from the words of the inner one. */
  lemma OuterHash(f: Compression, iv: seq<nat>, K: Bytes, text: Bytes)
    requires HashOk(f, iv) && |K| <= 64
    ensures var inner := Fold(f, 4, iv, Padded(4, KeyPad(K, 0x36) + text));
            |inner| == 8 && Hmac(f, iv, K, text) == Unwords(4, f(f(iv, Words(4, KeyPad(K, 0x5c))), inner + Pad96()))
  {
    hide Fold, Words, KeyPad, Padded, Range;
    var m := KeyPad(K, 0x36) + text;
    var inner := Fold(f, 4, iv, Padded(4, m));
    PaddedLong(m);
    FoldLength(f, iv, Padded(4, m));
    WordsUnwords(4, inner);
    PadLength(K);
    BlockHash(f, iv, KeyPad(K, 0x5c), Unwords(4, inner));
  }

  lemma PadLength(K: Bytes)
    requires |K| <= 64
    ensures |KeyPad(K, 0x5c)| == 64 && |KeyPad(K, 0x36)| == 64
  {}

  lemma PaddedLong(m: Bytes)
    ensures |Padded(4, m)| >= 64
  {
    ZerosNeeded(4, |m|);
  }

  /** K = HMAC(K, V || 0 || data), V = HMAC(K, V), and once more with 1 unless the
      entropy is empty. */
  ghost function Reseeded(f: Compression, iv: seq<nat>, g: Gen, entropy: Bytes, more: Bytes): Gen
    requires GenOk(g) && HashOk(f, iv)
  {
    var a := NextK(f, iv, g, 0, entropy + more);
    HmacLength(f, iv, g.K, g.V + [0] + (entropy + more));
    var b := NextV(f, iv, a);
    HmacLength(f, iv, a.K, a.V);
    if entropy == [] then b
    else
      var c := NextK(f, iv, b, 1, entropy + more);
      HmacLength(f, iv, b.K, b.V + [1] + (entropy + more));
      NextV(f, iv, c)
  }

  /** Steps b to g of section 3.2 of RFC 6979 for a seed. */
  ghost function Seeded(f: Compression, iv: seq<nat>, seed: Bytes): (g: Gen)
    requires HashOk(f, iv)
    ensures GenOk(g)
  {
    var a := NextK(f, iv, Start(), 0, seed);
    HmacLength(f, iv, Start().K, Start().V + [0] + seed);
    var b := NextV(f, iv, a);
    HmacLength(f, iv, a.K, a.V);
    var c := NextK(f, iv, b, 1, seed);
    HmacLength(f, iv, b.K, b.V + [1] + seed);
    HmacLength(f, iv, c.K, c.V);
    NextV(f, iv, c)
  }

  /** n values of V in a row, and the state after them. */
  ghost function Stream(f: Compression, iv: seq<nat>, g: Gen, n: nat): Bytes
    requires GenOk(g) && HashOk(f, iv)
    decreases n
  {
    if n == 0 then []
    else
      HmacLength(f, iv, g.K, g.V);
      NextV(f, iv, g).V + Stream(f, iv, NextV(f, iv, g), n - 1)
  }

  ghost function Advanced(f: Compression, iv: seq<nat>, g: Gen, n: nat): (r: Gen)
    requires GenOk(g) && HashOk(f, iv)
    ensures GenOk(r)
    decreases n
  {
    if n == 0 then g
    else
      HmacLength(f, iv, g.K, g.V);
      Advanced(f, iv, NextV(f, iv, g), n - 1)
  }

  /** The state after an output: K = HMAC(K, V || 0), V = HMAC(K, V). */
  ghost function Stepped(f: Compression, iv: seq<nat>, g: Gen): (r: Gen)
    requires GenOk(g) && HashOk(f, iv)
    ensures GenOk(r)
  {
    var a := NextK(f, iv, g, 0, []);
    HmacLength(f, iv, g.K, g.V + [0] + []);
    HmacLength(f, iv, a.K, a.V);
    NextV(f, iv, a)
  }

  function Rounds(len: nat): nat { (len + 31) / 32 }

  /** Step h of section 3.2 of RFC 6979: the first len bytes of the values of V. */
  ghost function Output(f: Compression, iv: seq<nat>, g: Gen, len: nat): Bytes
    requires GenOk(g) && HashOk(f, iv)
  {
    StreamLength(f, iv, g, Rounds(len));
    Stream(f, iv, g, Rounds(len))[..len]
  }

  lemma {:induction false} StreamLength(f: Compression, iv: seq<nat>, g: Gen, n: nat)
    requires GenOk(g) && HashOk(f, iv)
    ensures |Stream(f, iv, g, n)| == 32 * n
    decreases n
  {
    hide Hmac, HashOk;
    if n > 0 {
      HmacLength(f, iv, g.K, g.V);
      StreamLength(f, iv, NextV(f, iv, g), n - 1);
    }
  }

  lemma StreamStart(f: Compression, iv: seq<nat>, g: Gen)
    requires GenOk(g) && HashOk(f, iv)
    ensures Stream(f, iv, g, 0) == [] && Advanced(f, iv, g, 0) == g
  {}

  /** One more value at the end. */
  lemma {:induction false} StreamPush(f: Compression, iv: seq<nat>, g: Gen, n: nat)
    requires GenOk(g) && HashOk(f, iv)
    ensures var r := Advanced(f, iv, g, n);
            && Stream(f, iv, g, n + 1) == Stream(f, iv, g, n) + NextV(f, iv, r).V
            && Advanced(f, iv, g, n + 1) == NextV(f, iv, r)
    decreases n
  {
    hide Hmac, HashOk;
    HmacLength(f, iv, g.K, g.V);
    var h := NextV(f, iv, g);
    if n > 0 {
      StreamPush(f, iv, h, n - 1);
    } else {
      assert Stream(f, iv, h, 0) == [] && Stream(f, iv, g, 1) == h.V + [];
      assert Advanced(f, iv, h, 0) == h;
    }
  }

  class Drbg {
    const f: Compression
    const iv: seq<nat>
    var idig: seq<nat>
    var odig: seq<nat>
    var v: seq<nat>

    /** The fields are the pads of K and the padded block of V. */
    ghost predicate Represents(g: Gen)
      reads this
    {
      && GenOk(g) && HashOk(f, iv) && |Words(4, g.V)| == 8
      && idig == f(iv, Words(4, KeyPad(g.K, 0x36))) && odig == f(iv, Words(4, KeyPad(g.K, 0x5c)))
      && v == Words(4, g.V) + Pad96()
    }

    /** V = HMAC(K, V) in two transforms. */
    method UpdateV(ghost g: Gen)
      requires Represents(g)
      modifies this`v
      ensures Represents(NextV(f, iv, g))
    {
      hide Words, KeyPad, Fold, Hmac, Padded, Unwords, Range;
      PadLength(g.K);
      BlockHash(f, iv, KeyPad(g.K, 0x36), g.V);
      OuterHash(f, iv, g.K, g.V);
      HmacLength(f, iv, g.K, g.V);
      v := f(idig, v) + v[8..];
      assert v == f(idig, Words(4, g.V) + Pad96()) + Pad96();
      v := f(odig, v) + v[8..];
      WordsUnwords(4, f(odig, f(idig, Words(4, g.V) + Pad96()) + Pad96()));
    }

    /** The inner hash of HMAC(K, V || 0), with its padding set by hand. */
    method EmptyInner(ghost g: Gen) returns (h: seq<nat>)
      requires Represents(g)
      modifies this`v
      ensures v == old(v)
      ensures h == Fold(f, 4, iv, Padded(4, KeyPad(g.K, 0x36) + (g.V + [0])))
    {
      hide Words, KeyPad, Fold, Padded, Range;
      PadLength(g.K);
      DomainHash(f, iv, KeyPad(g.K, 0x36), g.V);
      v := v[8 := 0x00800000][15 := 776];
      assert v == Words(4, g.V) + Pad97();
      h := f(idig, v);
      v := v[8 := 0x80000000][15 := 768];
      assert v == Words(4, g.V) + Pad96();
    }

    /** The inner hash of HMAC(K, V || domain || data): a hash that starts in the
        middle of its second block. */
    method DataInner(domain: uint8, data1: Bytes, data2: Bytes, ghost g: Gen) returns (h: seq<nat>)
      requires Represents(g)
      ensures h == Fold(f, 4, iv, Padded(4, KeyPad(g.K, 0x36) + (g.V + [domain]) + data1 + data2))
    {
      hide Words, KeyPad, Fold, Padded, Unwords, Range;
      PadLength(g.K);
      ghost var m := KeyPad(g.K, 0x36) + (g.V + [domain]);
      var sha := new Context(f, 4, idig);
      UnwordsWords(g.V);
      assert v[..8] == Words(4, g.V);
      sha.CopyIn(0, Unwords(4, v[..8]));
      sha.buffer[32] := domain;
      sha.low := 776;
      assert sha.buffer[..33] == g.V + [domain];
      MidBlock(sha, iv, KeyPad(g.K, 0x36), g.V + [domain]);
      sha.Update(data1, iv, m);
      sha.Update(data2, iv, m + data1);
      var digest := sha.Final(iv, m + data1 + data2);
      DigestWords(f, iv, m + data1 + data2);
      h := Words(4, digest);
    }

    method InnerHash(domain: uint8, data1: Bytes, data2: Bytes, ghost g: Gen) returns (h: seq<nat>)
      requires Represents(g) && (data1 + data2 == [] ==> domain == 0)
      modifies this`v
      ensures v == old(v)
      ensures h == Fold(f, 4, iv, Padded(4, KeyPad(g.K, 0x36) + (g.V + [domain] + (data1 + data2))))
    {
      hide KeyPad, Fold, Padded, Represents;
      Sizes(g);
      ghost var text := g.V + [domain] + (data1 + data2);
      if |data1| + |data2| == 0 {
        h := EmptyInner(g);
        assert text == g.V + [0];
      } else {
        h := DataInner(domain, data1, data2, g);
        assert KeyPad(g.K, 0x36) + (g.V + [domain]) + data1 + data2 == KeyPad(g.K, 0x36) + text;
      }
    }

    /** K = HMAC(K, V || domain || data), keeping its pads. */
    method UpdateK(domain: uint8, data1: Bytes, data2: Bytes, ghost g: Gen)
      requires Represents(g) && (data1 + data2 == [] ==> domain == 0)
      modifies this
      ensures Represents(NextK(f, iv, g, domain, data1 + data2))
    {
      hide Words, KeyPad, Fold, Padded, Unwords, Range, Hmac;
      ghost var text := g.V + [domain] + (data1 + data2);
      var h := InnerHash(domain, data1, data2, g);
      OuterHash(f, iv, g.K, text);
      HmacLength(f, iv, g.K, text);
      h := h + [0x80000000, 0, 0, 0, 0, 0, 0, 768];
      h := f(odig, h) + h[8..];
      WordsUnwords(4, h[..8]);
      h := h[8 := 0][15 := 0];
      ghost var K' := Hmac(f, iv, g.K, text);
      assert h == Words(4, K') + Repeat<nat>(0, 8);
      KeyPadWords(K');
      XorWordsTwice(h, 0x36363636, 0x5c5c5c5c);
      h := XorWords(h, 0x36363636);
      idig := f(iv, h);
      h := XorWords(XorWords(h, 0x36363636), 0x5c5c5c5c);
      odig := f(iv, h);
    }

    method Reseed(entropy: Bytes, more: Bytes, ghost g: Gen)
      requires Represents(g)
      modifies this
      ensures Represents(Reseeded(f, iv, g, entropy, more))
    {
      hide Hmac, Represents;
      Sizes(g);
      ghost var data := entropy + more;
      HmacLength(f, iv, g.K, g.V + [0] + data);
      UpdateK(0, entropy, more, g);
      ghost var a := NextK(f, iv, g, 0, data);
      HmacLength(f, iv, a.K, a.V);
      UpdateV(a);
      if |entropy| == 0 {
        return;
      }
      ghost var b := NextV(f, iv, a);
      HmacLength(f, iv, b.K, b.V + [1] + data);
      UpdateK(1, entropy, more, b);
      UpdateV(NextK(f, iv, b, 1, data));
    }

    lemma Sizes(g: Gen)
      requires Represents(g)
      ensures GenOk(g) && HashOk(f, iv)
    {}

    /** len bytes of output, then a step of the state. */
    method Generate(len: nat, ghost g: Gen) returns (out: Bytes)
      requires Represents(g)
      modifies this
      ensures GenOk(g) && HashOk(f, iv) && out == Output(f, iv, g, len)
      ensures Represents(Stepped(f, iv, Advanced(f, iv, g, Rounds(len))))
    {
      hide Hmac, HashOk, Represents, Stream, Advanced;
      Sizes(g);
      out := [];
      ghost var n := 0;
      StreamStart(f, iv, g);
      while |out| < len
        invariant GenOk(g) && HashOk(f, iv) && Represents(Advanced(f, iv, g, n)) && |Stream(f, iv, g, n)| == 32 * n
        invariant |out| <= len && (|out| < len ==> |out| == 32 * n) && |out| <= 32 * n < |out| + 32
        invariant out == Stream(f, iv, g, n)[..|out|]
        decreases len - |out|
      {
        StreamPush(f, iv, g, n);
        StreamLength(f, iv, g, n + 1);
        UpdateV(Advanced(f, iv, g, n));
        n := n + 1;
        ViewV(Advanced(f, iv, g, n));
        var more := Emit(v[..8], len - |out|);
        TakeMore(Stream(f, iv, g, n - 1), Advanced(f, iv, g, n).V, more);
        out := out + more;
      }
      assert n == Rounds(len);
      StepState(Advanced(f, iv, g, n));
    }

    /** The step of the state that ends an output. */
    method StepState(ghost a: Gen)
      requires Represents(a) && GenOk(a) && HashOk(f, iv)
      modifies this
      ensures Represents(Stepped(f, iv, a))
    {
      hide Hmac, HashOk, Represents;
      HmacLength(f, iv, a.K, a.V + [0] + []);
      ghost var none: Bytes := [];
      assert none + none == none;
      UpdateK(0, [], [], a);
      UpdateV(NextK(f, iv, a, 0, []));
    }

    lemma ViewV(g: Gen)
      requires Represents(g)
      ensures |v| == 16 && Unwords(4, v[..8]) == g.V
    {
      assert v[..8] == Words(4, g.V);
      UnwordsWords(g.V);
    }

    constructor (f: Compression, iv: seq<nat>)
      ensures this.f == f && this.iv == iv
    {
      this.f := f;
      this.iv := iv;
    }

    /** Starts from K of zero bytes and V of one bytes, and mixes the seed in. */
    method Init(entropy: Bytes, nonce: Bytes)
      requires HashOk(f, iv)
      modifies this
      ensures Represents(Reseeded(f, iv, Start(), entropy, nonce))
    {
      hide Words, KeyPad, Range, Reseeded, HashOk, Repeat;
      StartWords();
      StartSizes();
      idig := f(iv, Repeat<nat>(0x36363636, 16));
      odig := f(iv, Repeat<nat>(0x5c5c5c5c, 16));
      v := Repeat<nat>(0x01010101, 8) + [0x80000000, 0, 0, 0, 0, 0, 0, 768];
      Reseed(entropy, nonce, Start());
    }
  }

  lemma TakeMore(before: Bytes, V: Bytes, more: Bytes)
    requires more <= V
    ensures before + more == (before + V)[..|before + more|]
  {}

  /** Byte t of word j. */
  lemma {:induction false} UnwordsAt(ws: seq<nat>, j: nat, t: nat)
    requires j < |ws| && t < 4
    ensures Unwords(4, ws)[4 * j + t] == Fixed(4, ws[j])[t]
  {
    if j > 0 {
      UnwordsAt(ws[1..], j - 1, t);
      assert Unwords(4, ws)[4 * j + t] == Unwords(4, ws[1..])[4 * (j - 1) + t];
    }
  }

  /** Byte t of a word is what a shift by 24 - 8 t leaves in the low byte. */
  lemma FixedAt(x: nat, t: nat)
    requires t < 4
    ensures Fixed(4, x)[t] == x / Range(3 - t) % 256
  {
    hide Range;
    FixedSplit(t + 1, 3 - t, x);
    var y := x / Range(3 - t);
    assert Fixed(t + 1, y) == Fixed(t, y / 256) + [y % 256];
  }

  /** The bytes of the words, most significant first, until there is no room. */
  method Emit(ws: seq<nat>, room: nat) returns (out: Bytes)
    ensures out == if room < 4 * |ws| then Unwords(4, ws)[..room] else Unwords(4, ws)
  {
    hide Range, Unwords, Fixed;
    out := [];
    var j := 0;
    while j < |ws| && |out| < room
      invariant j <= |ws| && |out| <= room && |out| <= 4 * j && (|out| < room ==> |out| == 4 * j)
      invariant out == Unwords(4, ws)[..|out|]
    {
      var k: nat := 0;
      while k < 4 && |out| < room
        invariant k <= 4 && |out| <= room && |out| <= 4 * j + k && (|out| < room ==> |out| == 4 * j + k)
        invariant out == Unwords(4, ws)[..|out|]
      {
        UnwordsAt(ws, j, k);
        FixedAt(ws[j], k);
        out := out + [ws[j] / Range(3 - k) % 256];
        k := k + 1;
      }
      j := j + 1;
    }
  }

  /** With entropy the start is the one of RFC 6979, for the joined seed. */
  lemma InitIsSeeded(f: Compression, iv: seq<nat>, entropy: Bytes, nonce: Bytes)
    requires HashOk(f, iv) && entropy != []
    ensures GenOk(Start()) && Reseeded(f, iv, Start(), entropy, nonce) == Seeded(f, iv, entropy + nonce)
  {
    hide Hmac, HashOk;
    StartSizes();
  }

  // ------------------------------------------------------------ empty entropy

  /** Without entropy the start stops after the first round of section 3.2 of RFC 6979,
      whatever the nonce: its steps f and g are left out. */
  lemma EmptyEntropy(f: Compression, iv: seq<nat>, nonce: Bytes)
    requires HashOk(f, iv)
    ensures GenOk(Start()) && GenOk(NextK(f, iv, Start(), 0, nonce)) && GenOk(Reseeded(f, iv, Start(), [], nonce))
    ensures Reseeded(f, iv, Start(), [], nonce) == NextV(f, iv, NextK(f, iv, Start(), 0, nonce))
    ensures var b := Reseeded(f, iv, Start(), [], nonce);
            GenOk(NextK(f, iv, b, 1, nonce)) && Seeded(f, iv, nonce) == NextV(f, iv, NextK(f, iv, b, 1, nonce))
  {
    hide Hmac, HashOk;
    StartSizes();
    assert [] + nonce == nonce;
    var a := NextK(f, iv, Start(), 0, nonce);
    HmacLength(f, iv, Start().K, Start().V + [0] + nonce);
    HmacLength(f, iv, a.K, a.V);
    var b := NextV(f, iv, a);
    HmacLength(f, iv, b.K, b.V + [1] + nonce);
  }

  /** A compression function that counts up the first word of its block. */
  function Counter(): Compression {
    (st: seq<nat>, b: seq<nat>) => [if b == [] then 0 else (b[0] + 1) % 0x1_0000_0000, 0, 0, 0, 0, 0, 0, 0]
  }

  function CounterStart(): seq<nat> { [0, 0, 0, 0, 0, 0, 0, 0] }

  lemma CounterOk()
    ensures HashOk(Counter(), CounterStart())
  {
    WordRange();
  }

  /** With it, HMAC of 32 bytes counts up their first word twice. */
  lemma CounterHmac(K: Bytes, V: Bytes)
    requires |K| == 32 && |V| == 32
    ensures Hmac(Counter(), CounterStart(), K, V) == Unwords(4, [(Horner(256, V[..4]) + 2) % 0x1_0000_0000, 0, 0, 0, 0, 0, 0, 0])
  {
    hide Fold, Words, KeyPad, Padded, Range, HashOk, Hmac, Unwords, Counter, Horner;
    var f, iv := Counter(), CounterStart();
    CounterOk();
    PadLength(K);
    OuterHash(f, iv, K, V);
    BlockHash(f, iv, KeyPad(K, 0x36), V);
    FirstWord(V);
    var x := Horner(256, V[..4]);
    CounterAt(f(iv, Words(4, KeyPad(K, 0x36))), Words(4, V), Pad96());
    CounterAt(f(iv, Words(4, KeyPad(K, 0x5c))), [(x + 1) % 0x1_0000_0000, 0, 0, 0, 0, 0, 0, 0], Pad96());
    assert ((x + 1) % 0x1_0000_0000 + 1) % 0x1_0000_0000 == (x + 2) % 0x1_0000_0000;
  }

  lemma CounterAt(st: seq<nat>, b: seq<nat>, pad: seq<nat>)
    requires b != []
    ensures Counter()(st, b + pad) == [(b[0] + 1) % 0x1_0000_0000, 0, 0, 0, 0, 0, 0, 0]
  {}

  lemma FirstWord(V: Bytes)
    requires |V| >= 4
    ensures Words(4, V) != [] && Words(4, V)[0] == Horner(256, V[..4])
  {}

  lemma FirstWordBack(ws: seq<nat>)
    requires ws != [] && ws[0] < 0x1_0000_0000
    ensures Horner(256, Unwords(4, ws)[..4]) == ws[0]
  {
    hide Horner, Fixed, Range;
    WordRange();
    FixedSpells(4, ws[0]);
    assert Unwords(4, ws)[..4] == Fixed(4, ws[0]);
  }

  /** So for every nonce the start without entropy is not the one of RFC 6979. */
  lemma EmptyEntropyDiffers(nonce: Bytes)
    ensures HashOk(Counter(), CounterStart()) && GenOk(Start())
    ensures Reseeded(Counter(), CounterStart(), Start(), [], nonce) != Seeded(Counter(), CounterStart(), [] + nonce)
  {
    hide Hmac, HashOk, Unwords, Horner, Reseeded, Seeded;
    var f, iv := Counter(), CounterStart();
    CounterOk();
    EmptyEntropy(f, iv, nonce);
    assert [] + nonce == nonce;
    var a := NextK(f, iv, Start(), 0, nonce);
    var b := NextV(f, iv, a);
    var c := NextK(f, iv, b, 1, nonce);
    CounterHmac(a.K, a.V);
    CounterHmac(c.K, c.V);
    var x := Horner(256, a.V[..4]);
    FirstWordBack([(x + 2) % 0x1_0000_0000, 0, 0, 0, 0, 0, 0, 0]);
    var y := Horner(256, b.V[..4]);
    FirstWordBack([(y + 2) % 0x1_0000_0000, 0, 0, 0, 0, 0, 0, 0]);
  }

  /** The outputs of a series of calls, and the state after them. */
  ghost function Outputs(f: Compression, iv: seq<nat>, g: Gen, lens: seq<nat>): seq<Bytes>
    requires GenOk(g) && HashOk(f, iv)
    decreases |lens|
  {
    if lens == [] then []
    else [Output(f, iv, g, lens[0])] + Outputs(f, iv, Stepped(f, iv, Advanced(f, iv, g, Rounds(lens[0]))), lens[1..])
  }

  /** Seeding and then any series of outputs gives exactly the values of RFC 6979. */
  method Session(f: Compression, iv: seq<nat>, entropy: Bytes, nonce: Bytes, lens: seq<nat>) returns (outs: seq<Bytes>)
    requires HashOk(f, iv) && entropy != []
    ensures outs == Outputs(f, iv, Seeded(f, iv, entropy + nonce), lens)
  {
    hide HashOk, Seeded, Reseeded, Output, Stepped, Advanced;
    var drbg := new Drbg(f, iv);
    drbg.Init(entropy, nonce);
    InitIsSeeded(f, iv, entropy, nonce);
    ghost var start := Seeded(f, iv, entropy + nonce);
    ghost var g := start;
    outs := [];
    var rest := lens;
    while rest != []
      invariant fresh(drbg) && drbg.f == f && drbg.iv == iv && GenOk(g) && drbg.Represents(g)
      invariant outs + Outputs(f, iv, g, rest) == Outputs(f, iv, start, lens)
      decreases |rest|
    {
      var out := drbg.Generate(rest[0], g);
      outs := outs + [out];
      g := Stepped(f, iv, Advanced(f, iv, g, Rounds(rest[0])));
      rest := rest[1..];
    }
  }

  function Start(): Gen { Gen(Repeat<uint8>(0, 32), Repeat<uint8>(1, 32)) }

  lemma StartSizes()
    ensures GenOk(Start())
  {}

  /** The words of a digest are the chaining value it was made from. */
  lemma DigestWords(f: Compression, iv: seq<nat>, m: Bytes)
    requires HashOk(f, iv)
    ensures Words(4, Digest(f, 4, iv, m)) == Fold(f, 4, iv, Padded(4, m))
  {
    hide Words, Fold, Padded, Unwords, Range;
    PaddedLong(m);
    FoldLength(f, iv, Padded(4, m));
    WordsUnwords(4, Fold(f, 4, iv, Padded(4, m)));
  }

  /** A context that starts in the middle of a message. */
  lemma MidBlock(sha: Context, iv: seq<nat>, P: Bytes, part: Bytes)
    requires sha.Valid() && sha.w == 4 && |P| == 64 && |part| == 33
    requires sha.state == sha.f(iv, Words(4, P)) && sha.buffer[..33] == part && sha.low == 776
    ensures sha.Holds(iv, P + part)
  {
    hide Words, Fold;
    var m := P + part;
    assert m[..64] == P && m[64..] == part;
    FoldBlock(sha.f, 4, iv, P);
    CountRange();
  }

  lemma {:induction false} ConstantWords(c: uint8, n: nat)
    ensures Words(4, Repeat<uint8>(c, 4 * n)) == Repeat<nat>(Horner(256, Repeat<uint8>(c, 4)), n)
  {
    hide Horner;
    if n > 0 {
      ConstantWords(c, n - 1);
      var b := Repeat<uint8>(c, 4 * n);
      assert b[..4] == Repeat<uint8>(c, 4) && b[4..] == Repeat<uint8>(c, 4 * (n - 1));
    }
  }

  /** The pads of the zero key and the words of the first V. */
  lemma StartWords()
    ensures Repeat<nat>(0x36363636, 16) == Words(4, KeyPad(Repeat<uint8>(0, 32), 0x36)) && Repeat<nat>(0x5c5c5c5c, 16) == Words(4, KeyPad(Repeat<uint8>(0, 32), 0x5c))
    ensures Repeat<nat>(0x01010101, 8) == Words(4, Repeat<uint8>(1, 32)) && |Repeat<nat>(0x01010101, 8)| == 8
  {
    hide Words;
    MaskSpells();
    FourBytesSpell(Repeat<uint8>(1, 4));
    ConstantWords(0x36, 16);
    ConstantWords(0x5c, 16);
    ConstantWords(1, 8);
    XorZero(0x36);
    XorZero(0x5c);
  }

  lemma XorZero(c: uint8)
    ensures KeyPad(Repeat<uint8>(0, 32), c) == Repeat<uint8>(c, 64)
  {
    assert Xor(0, c) == c by { XorIdentity(8, c); TwoTo8(); }
  }

  lemma {:induction false} XorIdentity(n: nat, c: nat)
    requires c < Pow(2, n)
    ensures XorBits(n, 0, c) == c
  {
    if n > 0 { XorIdentity(n - 1, c / 2); }
  }
}
