/** The Base58 conversions of libs/crypto/base58.c. */
module Base58 {
  import opened Arith
  import opened Limbs
  import opened Radix
  import opened Wrappers

  const WORD: nat := 0x1_0000_0000

  // --------------------------------------------------------------- alphabet

  /** b58digits_ordered: digits and letters without 0, I, O and l. */
  function Letter(d: nat): uint8
    requires d < 58
  {
    if d < 9 then 49 + d
    else if d < 17 then 65 + (d - 9)
    else if d < 22 then 74 + (d - 17)
    else if d < 33 then 80 + (d - 22)
    else if d < 44 then 97 + (d - 33)
    else 109 + (d - 44)
  }

  /** b58digits_map, with every byte above 127 invalid too. */
  function DigitOf(c: uint8): int {
    if 49 <= c <= 57 then c - 49
    else if 65 <= c <= 72 then c - 65 + 9
    else if 74 <= c <= 78 then c - 74 + 17
    else if 80 <= c <= 90 then c - 80 + 22
    else if 97 <= c <= 107 then c - 97 + 33
    else if 109 <= c <= 122 then c - 109 + 44
    else -1
  }

  /** The two tables are inverse to each other. */
  lemma AlphabetInverse(d: nat, c: uint8)
    ensures d < 58 ==> DigitOf(Letter(d)) == d
    ensures DigitOf(c) != -1 ==> 0 <= DigitOf(c) < 58 && Letter(DigitOf(c)) == c
  {}

  predicate AllValid(s: seq<uint8>) { forall i :: 0 <= i < |s| ==> DigitOf(s[i]) != -1 }

  function ToDigits(s: seq<uint8>): (ds: seq<nat>)
    requires AllValid(s)
    ensures |ds| == |s| && Below(ds, 58)
  {
    seq(|s|, i requires 0 <= i < |s| => DigitOf(s[i]))
  }

  function ToLetters(ds: seq<nat>): (s: seq<uint8>)
    requires Below(ds, 58)
    ensures |s| == |ds|
  {
    seq(|ds|, i requires 0 <= i < |ds| => Letter(ds[i]))
  }

  // ----------------------------------------------------------- specification

  /** How many copies of x a string starts with. */
  function Leading(s: seq<nat>, x: nat): (z: nat)
    ensures z <= |s| && (forall i :: 0 <= i < z ==> s[i] == x) && (z < |s| ==> s[z] != x)
  {
    if s != [] && s[0] == x then 1 + Leading(s[1..], x) else 0
  }

  lemma LeadingUnique(s: seq<nat>, x: nat, z: nat)
    requires z <= |s| && (forall i :: 0 <= i < z ==> s[i] == x) && (z < |s| ==> s[z] != x)
    ensures Leading(s, x) == z
  {
    var y := Leading(s, x);
    if y < z { assert false; }
    if z < y { assert false; }
  }

  /** A '1' for every leading zero byte, then the number's digits in base 58. */
  function Encoded(bin: seq<uint8>): seq<uint8> {
    Repeat<uint8>(49, Leading(bin, 0)) + ToLetters(Digits(58, Horner(256, bin)))
  }

  /** A zero byte for every leading '1', then the number's bytes, if n bytes hold
      them all. */
  function Decoded(s: seq<uint8>, n: nat): Option<seq<nat>> {
    var z := Leading(s, 49);
    if n == 0 || !AllValid(s[z..]) then None
    else
      var bytes := Digits(256, Horner(58, ToDigits(s[z..])));
      if z + |bytes| > n then None else Some(Repeat<uint8>(0, z) + bytes)
  }

  // -------------------------------------------------------------- round trips

  lemma StripZeros(bin: seq<uint8>)
    ensures var z := Leading(bin, 0);
            bin == Repeat<uint8>(0, z) + bin[z..] && Horner(256, bin) == Horner(256, bin[z..]) && Digits(256, Horner(256, bin)) == bin[z..]
  {
    var z := Leading(bin, 0);
    assert bin == bin[..z] + bin[z..];
    assert bin[..z] == Repeat<uint8>(0, z);
    HornerZeros(256, bin[..z], bin[z..]);
    DigitsUnique(256, bin[z..]);
  }

  /** Decoding undoes encoding, for every byte string and every buffer that can
      hold it. */
  lemma DecodeEncode(bin: seq<uint8>, n: nat)
    requires n >= |bin| && n > 0
    ensures Decoded(Encoded(bin), n) == Some(bin)
  {
    hide Horner, Digits;
    var z, v := Leading(bin, 0), Horner(256, bin);
    var ds := Digits(58, v);
    StripZeros(bin);
    if v == 0 { NoDigits(58); }
    LettersBack(z, ds);
    DigitsSpell(58, v);
  }

  /** Ones and letters split again where they were joined. */
  lemma LettersBack(z: nat, ds: seq<nat>)
    requires Below(ds, 58) && (ds != [] ==> ds[0] != 0)
    ensures var s := Repeat<uint8>(49, z) + ToLetters(ds); Leading(s, 49) == z && AllValid(s[z..]) && ToDigits(s[z..]) == ds
  {
    var s := Repeat<uint8>(49, z) + ToLetters(ds);
    assert s[z..] == ToLetters(ds);
    LeadingUnique(s, 49, z);
    forall i | 0 <= i < |ds| ensures DigitOf(s[z..][i]) == ds[i] {
      AlphabetInverse(ds[i], 0);
    }
    assert ToDigits(s[z..]) == ds;
  }

  lemma NoDigits(base: nat)
    requires base > 1
    ensures Digits(base, 0) == []
  {}

  /** Encoding undoes decoding, for every accepted string. */
  lemma EncodeDecode(s: seq<uint8>, n: nat, bin: seq<uint8>)
    requires Decoded(s, n) == Some(bin)
    ensures Encoded(bin) == s
  {
    hide Horner, Digits;
    var z := Leading(s, 49);
    var ds := ToDigits(s[z..]);
    var v := Horner(58, ds);
    var bytes := Digits(256, v);
    if v == 0 { NoDigits(256); }
    LeadingUnique(bin, 0, z);
    HornerZeros(256, Repeat<uint8>(0, z), bytes);
    DigitsSpell(256, v);
    if z < |s| {
      AlphabetInverse(0, s[z]);
      assert ds[0] != 0;
    }
    DigitsUnique(58, ds);
    assert ToLetters(ds) == s[z..] by {
      forall i | 0 <= i < |ds| ensures ToLetters(ds)[i] == s[z..][i] {
        AlphabetInverse(0, s[z + i]);
      }
    }
    assert s == Repeat<uint8>(49, z) + s[z..];
  }

  // ---------------------------------------------------------- the buffer bound

  /** 58^138 > 256^100. */
  lemma Pow138()
    ensures Pow(58, 138) > Pow(256, 100)
  {
    hide Pow;
    Pow23();
    PowMul(58, 23, 6);
    PowMul(2, 8, 100);
    PowMul(2, 134, 6);
    PowPositive(2, 134);
    PowMonotoneBase(Pow(2, 134), Pow(58, 23), 6);
    PowAdd(2, 800, 4);
    PowPositive(2, 800);
    TwoTo8();
  }

  lemma Pow23()
    ensures Pow(58, 23) > Pow(2, 134)
  {
    hide Pow;
    PowSmall(58);
    PowSmall(2);
    PowAdd(58, 4, 4);
    PowAdd(58, 8, 8);
    PowAdd(58, 16, 4);
    PowAdd(58, 20, 3);
    PowAdd(2, 4, 4);
    PowAdd(2, 8, 8);
    PowAdd(2, 16, 16);
    PowAdd(2, 32, 32);
    PowAdd(2, 64, 64);
    PowAdd(2, 128, 4);
    PowAdd(2, 132, 2);
  }

  lemma PowSmall(b: int)
    ensures Pow(b, 2) == b * b && Pow(b, 3) == b * (b * b) && Pow(b, 4) == b * (b * (b * b))
  {
    PowDef(b, 0);
    PowDef(b, 1);
    PowDef(b, 2);
    PowDef(b, 3);
  }

  lemma RootLess(a: int, b: int, n: nat)
    requires 0 <= b && Pow(a, n) < Pow(b, n)
    ensures a < b
  {
    if a >= b { PowMonotoneBase(b, a, n); }
  }

  /** The buffer of b58enc is long enough for n bytes. */
  lemma BufferHolds(n: nat)
    ensures Pow(256, n) < Pow(58, 138 * n / 100 + 1)
  {
    hide Pow;
    var q := 138 * n / 100 + 1;
    Pow138();
    PowMul(256, n, 100);
    PowMul(256, 100, n);
    PowMul(58, 138, n);
    PowMul(58, q, 100);
    PowPositive(256, 100);
    PowMonotoneBase(Pow(256, 100), Pow(58, 138), n);
    PowStrict(58, 138 * n, q * 100);
    PowPositive(58, q);
    RootLess(Pow(256, n), Pow(58, q), 100);
  }

  lemma PowStrict(b: int, m: nat, n: nat)
    requires b > 1 && m < n
    ensures Pow(b, m) < Pow(b, n)
  {
    hide Pow;
    PowDef(b, m);
    PowPositive(b, m);
    MulLt(1, b, Pow(b, m));
    PowMonotoneExp(b, m + 1, n);
  }

  /** Until the last byte the number leaves the first place of the buffer free. */
  lemma BufferSlack(n: nat, k: nat)
    requires k < n
    ensures Pow(256, k) <= Pow(58, 138 * n / 100)
  {
    hide Pow;
    BufferHolds(k);
    PowMonotoneExp(58, 138 * k / 100 + 1, 138 * n / 100);
  }

  // ----------------------------------------------------------------- encoding

  /** buf = 256 buf + next, in base 58 and in place.  The loop stops at the first
      place that is known to be zero and needs no carry. */
  method TimesByte(buf: array<uint8>, high: nat, next: uint8) returns (j: nat)
    requires high < buf.Length && Below(buf[..], 58)
    requires forall k :: 0 <= k <= high ==> buf[k] == 0
    requires 256 * Horner(58, buf[..]) + next < Pow(58, buf.Length)
    modifies buf
    ensures Below(buf[..], 58) && Horner(58, buf[..]) == 256 * old(Horner(58, buf[..])) + next
    ensures j < buf.Length && (forall k :: 0 <= k < j ==> buf[k] == 0) && (j > 0 ==> buf[j] == 0)
  {
    hide Horner, Pow;
    ghost var was := buf[..];
    var carry: nat := next;
    j := buf.Length - 1;
    ghost var done := buf.Length;
    CarryStart(was, next);
    while j > high || carry != 0
      invariant done == j + 1 <= buf.Length && carry < 256
      invariant forall k :: 0 <= k < done ==> buf[k] == was[k]
      invariant forall k :: 0 <= k < buf.Length ==> buf[k] < 58
      invariant Horner(58, buf[done..]) + carry * Pow(58, buf.Length - done) == 256 * Horner(58, was[done..]) + next
      decreases j
    {
      ghost var news := buf[done..];
      CarryStep(58, 256, news, was[done..], buf[j], carry, next);
      carry := carry + 256 * (buf[j] as int);
      buf[j] := carry % 58;
      carry := carry / 58;
      assert buf[j..] == [buf[j]] + news && was[j..] == [was[j]] + was[done..];
      done := j;
      if j == 0 {
        break;
      }
      j := j - 1;
    }
    CarryEnd(buf[..], was, done, carry, next);
  }

  lemma CarryStart(was: seq<nat>, next: nat)
    ensures Horner(58, was[|was|..]) + next * Pow(58, 0) == 256 * Horner(58, was[|was|..]) + next
  {
    PowDef(58, 0);
  }

  /** Where the loop stops, the rest of the buffer is zero or the carry is. */
  lemma CarryEnd(now: seq<nat>, was: seq<nat>, done: nat, carry: nat, next: nat)
    requires |now| == |was| && done <= |now| && (done == 0 || carry == 0)
    requires forall k :: 0 <= k < done ==> now[k] == 0 && was[k] == 0
    requires Horner(58, now[done..]) + carry * Pow(58, |now| - done) == 256 * Horner(58, was[done..]) + next
    requires 256 * Horner(58, was) + next < Pow(58, |now|)
    ensures Horner(58, now) == 256 * Horner(58, was) + next
  {
    hide Horner, Pow;
    assert now == now[..done] + now[done..] && was == was[..done] + was[done..];
    HornerZeros(58, now[..done], now[done..]);
    HornerZeros(58, was[..done], was[done..]);
    if carry > 0 {
      MulLe(1, carry, Pow(58, |now|));
    }
  }

  /** The nonzero part of a string of bytes as digits in base 58. */
  method ToBase58(bin: seq<uint8>) returns (buf: array<uint8>)
    ensures Below(buf[..], 58) && Horner(58, buf[..]) == Horner(256, bin)
  {
    hide Horner, Pow;
    var size := |bin| * 138 / 100 + 1;
    buf := new uint8[size](_ => 0);
    var high: nat := size - 1;
    ZerosSpell(58, buf[..]);
    ZerosSpell(256, bin[..0]);
    for i := 0 to |bin|
      invariant Below(buf[..], 58) && Horner(58, buf[..]) == Horner(256, bin[..i])
      invariant high < buf.Length == size && (forall k :: 0 <= k < high ==> buf[k] == 0) && (high > 0 ==> buf[high] == 0)
    {
      EncodeRoom(bin, i, buf[..]);
      assert bin[..i + 1] == bin[..i] + [bin[i]];
      HornerPush(256, bin[..i], bin[i]);
      high := TimesByte(buf, high, bin[i]);
    }
    assert bin[..|bin|] == bin;
  }

  /** Before byte i the first place is free, and after it the buffer still holds
      the number. */
  lemma EncodeRoom(bin: seq<uint8>, i: nat, buf: seq<nat>)
    requires i < |bin| && |buf| == |bin| * 138 / 100 + 1 && Horner(58, buf) == Horner(256, bin[..i])
    ensures buf[0] == 0 && 256 * Horner(58, buf) + bin[i] < Pow(58, |buf|)
  {
    hide Horner, Pow;
    HornerBound(256, bin[..i]);
    BufferSlack(|bin|, i);
    TopZero(58, buf);
    assert bin[..i + 1] == bin[..i] + [bin[i]];
    HornerPush(256, bin[..i], bin[i]);
    HornerBound(256, bin[..i + 1]);
    BufferHolds(|bin|);
    PowMonotoneExp(256, i + 1, |bin|);
  }

  /** Counts the copies of x a string starts with. */
  method CountLeading(s: seq<uint8>, x: uint8) returns (z: nat)
    ensures z == Leading(s, x)
  {
    z := 0;
    while z < |s| && s[z] == x
      invariant z <= |s| && forall k :: 0 <= k < z ==> s[k] == x
    {
      z := z + 1;
    }
    LeadingUnique(s, x, z);
  }

  /** Writes the encoding and its terminating zero if they fit; the size returned
      is the size that is needed either way. */
  method Encode(bin: seq<uint8>, capacity: nat) returns (ok: bool, b58: seq<uint8>, size: nat)
    ensures ok == (capacity > |Encoded(bin)|) && size == |Encoded(bin)| + 1
    ensures ok ==> b58 == Encoded(bin) + [0]
  {
    hide Horner, Digits, Leading;
    var zcount := CountLeading(bin, 0);
    StripZeros(bin);
    var buf := ToBase58(bin[zcount..]);
    var j := CountLeading(buf[..], 0);
    ghost var digits: seq<nat> := buf[j..];
    assert buf[..] == buf[..j] + buf[j..];
    HornerZeros(58, buf[..j], buf[j..]);
    DigitsUnique(58, digits);
    if capacity <= zcount + buf.Length - j {
      return false, [], zcount + buf.Length - j + 1;
    }
    b58 := Repeat<uint8>(49, zcount);
    ghost var start := j;
    while j < buf.Length
      invariant start <= j <= buf.Length
      invariant b58 == Repeat<uint8>(49, zcount) + ToLetters(digits)[..j - start]
    {
      b58 := b58 + [Letter(buf[j])];
      j := j + 1;
    }
    b58 := b58 + [0];
    size := |b58|;
    ok := true;
  }

  // ----------------------------------------------------------------- decoding

  /** out = 58 out + digit in 32-bit words and in place; c is the carry out. */
  method TimesDigit(out: array<uint32>, digit: uint32) returns (c: uint32)
    requires digit < 58
    modifies out
    ensures Horner(WORD, out[..]) + c * Pow(WORD, out.Length) == 58 * old(Horner(WORD, out[..])) + digit
  {
    hide Horner, Pow;
    ghost var was := out[..];
    c := digit;
    var j: nat := out.Length;
    WordsStart(was, digit);
    while j > 0
      invariant j <= out.Length && c < 58
      invariant forall k :: 0 <= k < j ==> out[k] == was[k]
      invariant Horner(WORD, out[j..]) + c * Pow(WORD, out.Length - j) == 58 * Horner(WORD, was[j..]) + digit
    {
      ghost var news := out[j..];
      CarryStep(WORD, 58, news, was[j..], out[j - 1], c, digit);
      j := j - 1;
      WordCarry(out[j], c);
      var t: uint64 := (c as int) + 58 * (out[j] as int);
      c := t / WORD;
      out[j] := t % WORD;
      assert out[j..] == [out[j]] + news && was[j..] == [was[j]] + was[j + 1..];
    }
    assert out[0..] == out[..] && was[0..] == was;
  }

  lemma WordCarry(x: nat, c: nat)
    requires x < WORD && c < 58
    ensures c + 58 * x < 0x1_0000_0000_0000_0000 && (c + 58 * x) / WORD < 58
  {}

  lemma WordsStart(was: seq<nat>, digit: nat)
    ensures Horner(WORD, was[|was|..]) + digit * Pow(WORD, 0) == 58 * Horner(WORD, was[|was|..]) + digit
  {
    PowDef(WORD, 0);
  }

  /** Appends the low k bytes of a word, most significant first. */
  method WriteBytes(bin: array<uint8>, pos: nat, word: uint32, k: nat)
    requires pos + k <= bin.Length && word < Pow(256, k)
    modifies bin
    ensures bin[..pos] == old(bin[..pos])
    ensures Horner(256, bin[..pos + k]) == old(Horner(256, bin[..pos])) * Pow(256, k) + word
  {
    hide Horner, Pow;
    ghost var start := Horner(256, bin[..pos]);
    var i: nat := k;
    BytesStart(word, k, start);
    while i > 0
      invariant i <= k && bin[..pos] == old(bin[..pos]) && Pow(256, i) > 0
      invariant Horner(256, bin[..pos + (k - i)]) == start * Pow(256, k - i) + word / Pow(256, i)
    {
      PowPositive(256, i - 1);
      BytesStep(word, i, start, Pow(256, k - i));
      PowDef(256, k - i);
      ghost var before := bin[..pos + (k - i)];
      bin[pos + (k - i)] := (word as int / Pow(256, i - 1)) % 256;
      assert bin[..pos + (k - (i - 1))] == before + [bin[pos + (k - i)]];
      HornerPush(256, before, bin[pos + (k - i)]);
      i := i - 1;
    }
    PowDef(256, 0);
    assert word / Pow(256, 0) == word;
  }

  lemma BytesStart(word: nat, k: nat, start: nat)
    requires word < Pow(256, k)
    ensures Pow(256, k) > 0 && start == start * Pow(256, 0) + word / Pow(256, k)
  {
    hide Pow;
    PowPositive(256, k);
    PowDef(256, 0);
    ModUnique(word, 0, word, Pow(256, k));
  }

  lemma BytesStep(word: nat, i: nat, start: nat, w: int)
    requires i > 0 && Pow(256, i - 1) > 0 && Pow(256, i) > 0
    ensures var b := (word / Pow(256, i - 1)) % 256;
            256 * (start * w + word / Pow(256, i)) + b == start * (256 * w) + word / Pow(256, i - 1)
  {
    hide Pow;
    PowDef(256, i - 1);
    var p := Pow(256, i - 1);
    var x, y := word / p, word % p;
    Division(word, p);
    Division(x, 256);
    ByteInts(word, p, x, y, x / 256, x % 256);
    ModUnique(word, x / 256, (x % 256) * p + y, 256 * p);
  }

  lemma ByteInts(word: int, p: int, x: int, y: int, q: int, r: int)
    requires word == p * x + y && 0 <= y < p && x == 256 * q + r && 0 <= r < 256
    ensures word == q * (256 * p) + (r * p + y) && 0 <= r * p + y < 256 * p
  {
    MulLe(r + 1, 256, p);
    MulLe(0, r, p);
  }

  lemma WordPow(k: nat)
    ensures Pow(WORD, k) == Pow(256, 4 * k) && Pow(256, 4) == WORD
  {
    PowSmall(256);
    PowMul(256, 4, k);
  }

  /** The words hold n bytes exactly when the mask test on the first word passes. */
  lemma WordsFit(out: seq<nat>, n: nat)
    requires n > 0 && |out| == (n + 3) / 4 && Below(out, WORD)
    ensures Pow(256, n % 4) > 0 && Pow(256, n) > 0
    ensures n % 4 == 0 || out[0] / Pow(256, n % 4) == 0 <==> Horner(WORD, out) < Pow(256, n)
  {
    hide Pow, Horner;
    var left, rest := n % 4, out[1..];
    assert out == [out[0]] + rest;
    HornerFront(WORD, out[0], rest);
    HornerBound(WORD, rest);
    HornerBound(WORD, out);
    WordPow(|out|);
    WordPow(|rest|);
    PowPositive(256, left);
    PowPositive(256, n);
    if left != 0 {
      PowAdd(256, 4 * |rest|, left);
      FitInts(out[0], Horner(WORD, rest), Pow(WORD, |rest|), Pow(256, left));
    }
  }

  lemma FitInts(d: nat, h: nat, w: int, p: int)
    requires h < w && p > 0
    ensures d / p == 0 <==> d * w + h < w * p
  {
    Division(d, p);
    if d < p {
      ModUnique(d, 0, d, p);
      MulLe(d + 1, p, w);
    } else {
      MulLe(p, d, w);
    }
  }

  /** The number the digits spell, word by word; fails on an invalid digit and on
      a number that does not fit into n bytes. */
  method ReadDigits(s: seq<uint8>, out: array<uint32>, n: nat) returns (ok: bool)
    requires n > 0 && out.Length == (n + 3) / 4 && forall k :: 0 <= k < out.Length ==> out[k] == 0
    modifies out
    ensures ok == (AllValid(s) && Horner(58, ToDigits(s)) < Pow(256, n))
    ensures ok ==> Horner(WORD, out[..]) == Horner(58, ToDigits(s))
  {
    hide Horner, Pow;
    ZerosSpell(WORD, out[..]);
    ZerosSpell(58, ToDigits(s[..0]));
    PowPositive(256, n);
    for i := 0 to |s|
      invariant AllValid(s[..i]) && Horner(WORD, out[..]) == Horner(58, ToDigits(s[..i])) < Pow(256, n)
    {
      if DigitOf(s[i]) == -1 {
        return false;
      }
      DigitsPush(s, i);
      var c := TimesDigit(out, DigitOf(s[i]));
      WordsFit(out[..], n);
      NextFits(s, i, out[..], c, n);
      if c != 0 {
        return false;
      }
      if n % 4 != 0 && out[0] as int / Pow(256, n % 4) != 0 {
        return false;
      }
    }
    assert s[..|s|] == s;
    ok := true;
  }

  lemma DigitsPush(s: seq<uint8>, i: nat)
    requires i < |s| && AllValid(s[..i]) && DigitOf(s[i]) != -1
    ensures AllValid(s[..i + 1]) && 0 <= DigitOf(s[i]) < 58
    ensures Horner(58, ToDigits(s[..i + 1])) == 58 * Horner(58, ToDigits(s[..i])) + DigitOf(s[i])
    ensures AllValid(s) ==> Horner(58, ToDigits(s)) >= Horner(58, ToDigits(s[..i + 1]))
  {
    hide Horner;
    AlphabetInverse(0, s[i]);
    assert ToDigits(s[..i + 1]) == ToDigits(s[..i]) + [DigitOf(s[i])];
    HornerPush(58, ToDigits(s[..i]), DigitOf(s[i]));
    if AllValid(s) {
      assert ToDigits(s) == ToDigits(s[..i + 1]) + ToDigits(s[i + 1..]);
      PrefixLess(58, ToDigits(s[..i + 1]), ToDigits(s[i + 1..]));
    }
  }

  lemma PrefixLess(base: nat, x: seq<nat>, y: seq<nat>)
    requires base > 0
    ensures Horner(base, x + y) >= Horner(base, x)
  {
    hide Horner, Pow;
    HornerConcat(base, x, y);
    PowPositive(base, |y|);
    MulLe(1, Pow(base, |y|), Horner(base, x));
  }

  /** A carry out of the words means the number is too large for n bytes. */
  lemma NextFits(s: seq<uint8>, i: nat, out: seq<nat>, c: nat, n: nat)
    requires i < |s| && AllValid(s[..i + 1]) && |out| == (n + 3) / 4
    requires Horner(WORD, out) + c * Pow(WORD, |out|) == Horner(58, ToDigits(s[..i + 1]))
    ensures c != 0 ==> Horner(58, ToDigits(s[..i + 1])) >= Pow(256, n)
  {
    hide Horner, Pow;
    if c != 0 {
      WordPow(|out|);
      PowMonotoneExp(256, n, 4 * |out|);
      MulLe(1, c, Pow(WORD, |out|));
    }
  }

  /** Writes the words into n bytes, big-endian. */
  method WriteWords(out: array<uint32>, bin: array<uint8>)
    requires bin.Length > 0 && out.Length == (bin.Length + 3) / 4 && Horner(WORD, out[..]) < Pow(256, bin.Length)
    modifies bin
    ensures Horner(256, bin[..]) == Horner(WORD, out[..])
  {
    hide Horner, Pow;
    ghost var words: seq<nat> := out[..];
    var left := bin.Length % 4;
    var j, pos := 0, 0;
    ZerosSpell(256, bin[..0]);
    ZerosSpell(WORD, words[..0]);
    WordsFit(out[..], bin.Length);
    if left != 0 {
      TopWord(words, left);
      WriteBytes(bin, 0, out[0], left);
      j, pos := 1, left;
    }
    while j < out.Length
      invariant j <= out.Length && pos + 4 * (out.Length - j) == bin.Length
      invariant Horner(256, bin[..pos]) == Horner(WORD, words[..j])
    {
      WordPow(1);
      NextWord(words, j);
      WriteBytes(bin, pos, out[j], 4);
      j, pos := j + 1, pos + 4;
    }
    assert bin[..pos] == bin[..] && words[..j] == words;
  }

  lemma NextWord(words: seq<nat>, j: nat)
    requires j < |words|
    ensures Horner(WORD, words[..j + 1]) == WORD * Horner(WORD, words[..j]) + words[j]
  {
    hide Horner;
    assert words[..j + 1] == words[..j] + [words[j]];
    HornerPush(WORD, words[..j], words[j]);
  }

  lemma TopWord(words: seq<nat>, left: nat)
    requires words != [] && Pow(256, left) > 0 && words[0] / Pow(256, left) == 0
    ensures words[0] < Pow(256, left) && Horner(WORD, words[..1]) == words[0]
  {
    hide Pow;
    Division(words[0], Pow(256, left));
    assert words[..1][..0] == [];
  }

  /** Decodes into the end of bin; the size is that of the decoded string. */
  method Decode(b58: seq<uint8>, bin: array<uint8>) returns (ok: bool, size: nat)
    modifies bin
    ensures ok == Decoded(b58, bin.Length).Some?
    ensures ok ==> size <= bin.Length && bin[bin.Length - size..] == Decoded(b58, bin.Length).value
  {
    hide Horner, Pow, Digits, Leading, AllValid, ToDigits;
    var n := bin.Length;
    if n == 0 {
      return false, 0;
    }
    var out := new uint32[(n + 3) / 4](_ => 0);
    var zerocount := CountLeading(b58, 49);
    var s := b58[zerocount..];
    ok := ReadDigits(s, out, n);
    if !ok {
      if AllValid(s) { DigitsLength(256, Horner(58, ToDigits(s)), n); }
      return false, 0;
    }
    WriteWords(out, bin);
    var i := CountLeading(bin[..], 0);
    StripZeros(bin[..]);
    assert |bin[..][i..]| == n - i;
    if zerocount > i {
      return false, 0;
    }
    size := n - i + zerocount;
    assert bin[n - size..] == Repeat<uint8>(0, zerocount) + bin[..][i..];
  }
}
