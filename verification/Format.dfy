/** Division by small numbers and decimal output in libs/crypto/bignum.c. */
module Format {
  import opened Arith
  import opened Limbs
  import opened Bignum
  import opened Recode
  import opened Field
  import opened Radix
  import opened Wrappers

  // ------------------------------------------------------------- long division

  lemma DivideBounds(r: nat, x: nat, d: nat)
    requires 1 <= d < 61304 && r < d && x < BASE
    ensures r * (BASE % d) <= 61303 * 61303
    ensures var acc := r * (BASE % d) + x;
            && r * (BASE / d) >= 0 && r * (BASE / d) + acc / d < BASE && (r * (BASE / d) + acc / d) * d + acc % d == r * BASE + x
  {
    var b, e := BASE / d, BASE % d;
    MulLe(r, 61303, e);
    MulLe(e, 61303, 61303);
    DivideInts(r, x, d, b, e);
  }

  lemma DivideInts(r: nat, x: nat, d: nat, b: nat, e: nat)
    requires d > 0 && BASE == d * b + e && r < d && x < BASE
    ensures var acc := r * e + x;
            acc >= 0 && r * b >= 0 && r * b + acc / d < BASE && (r * b + acc / d) * d + acc % d == r * BASE + x
  {
    var acc := r * e + x;
    MulLe(0, r, e);
    MulLe(0, r, b);
    Division(acc, d);
    var q := acc / d;
    assert (r * b + q) * d == r * (d * b) + d * q;
    assert r * (d * b) + r * e == r * BASE by { assert r * (d * b + e) == r * (d * b) + r * e; }
    if r * b + q >= BASE {
      MulLe(BASE, r * b + q, d);
      MulLe(r + 1, d, BASE);
    }
  }

  /** One limb of the division, with no overflow of 32 bits. */
  method DivideLimb(r: uint32, x: uint32, d: uint32) returns (q: uint32, r': uint32)
    requires 1 <= d < 61304 && r < d && x < BASE
    ensures q < BASE && r' < d && q * (d as int) + r' == r * BASE + x
  {
    DivideBounds(r, x, d);
    var acc: uint32 := r * (BASE % d) + x;
    q := r * (BASE / d) + acc / d;
    r' := acc % d;
  }

  /** q = x / d, and the remainder; q may be x itself. */
  method LongDivision(x: Num, d: uint32, q: Num) returns (r: uint32)
    requires Norm(x.val) && 1 <= d < 61304
    modifies q
    ensures Norm(q.val) && r < d && Val(q.val) == old(Val(x.val)) / d && r == old(Val(x.val)) % d
  {
    hide Lo, PowB, Val, Hi;
    ghost var xs := x.val;
    TopLimb(xs[8], d);
    r := x.val[8] % d;
    q.val := q.val[8 := x.val[8] / d];
    HiTop(xs);
    HiTop(q.val);
    for i := 8 downto 0
      invariant r < d && (forall j :: 0 <= j < i ==> x.val[j] == xs[j]) && (forall j :: i <= j < 9 ==> q.val[j] < BASE)
      invariant Hi(xs, i) == Hi(q.val, i) * d + r
    {
      ghost var before, r0 := q.val, r;
      var limb;
      limb, r := DivideLimb(r, x.val[i], d);
      q.val := q.val[i := limb];
      DivideStep(xs, before, q.val, i, d, r0, r);
    }
    HiAll(xs);
    HiAll(q.val);
    ModUnique(Val(xs), Val(q.val), r, d);
  }

  lemma TopLimb(x: nat, d: nat)
    requires d >= 1 && x < BASE
    ensures x / d < BASE && x == (x / d) * d + x % d && x % d < d
  {
    Division(x, d);
    if x / d >= BASE { MulLe(1, d, x / d); }
  }

  lemma HiTop(s: seq<int>)
    requires |s| == 9
    ensures Hi(s, 8) == s[8]
  {}

  lemma DivideStep(xs: seq<int>, q: seq<int>, q': seq<int>, i: nat, d: int, r: int, r': int)
    requires |xs| == |q| == |q'| == 9 && i < 9 && q' == q[i := q'[i]]
    requires Hi(xs, i + 1) == Hi(q, i + 1) * d + r && q'[i] * d + r' == r * BASE + xs[i]
    ensures Hi(xs, i) == Hi(q', i) * d + r'
  {
    hide Hi;
    HiSame(q, q', i + 1);
    HiDef(xs, i);
    HiDef(q', i);
    StepInts(Hi(q', i + 1), q'[i], d);
  }

  lemma StepInts(h: int, a: int, d: int)
    ensures (a + BASE * h) * d == a * d + BASE * (h * d)
  {}

  lemma {:induction false} HiSame(s: seq<int>, t: seq<int>, i: nat)
    requires i <= |s| == |t| && forall j :: i <= j < |s| ==> s[j] == t[j]
    ensures Hi(s, i) == Hi(t, i)
    decreases |s| - i
  {
    if i < |s| { HiSame(s, t, i + 1); }
  }

  lemma HiAll(s: Limbs9)
    ensures Hi(s, 0) == Val(s)
  {
    LoHi(s, 0);
  }

  /** x = x / 10, and the last digit. */
  method DivMod10(x: Num) returns (digit: uint32)
    requires Norm(x.val)
    modifies x
    ensures Norm(x.val) && digit < 10 && Val(x.val) == old(Val(x.val)) / 10 && digit == old(Val(x.val)) % 10
  {
    digit := LongDivision(x, 10, x);
  }

  // ---------------------------------------------- the Python prototype's result

  function Digit(d: nat): char
    requires d < 10
  {
    '0' + d as char
  }

  function Dec(n: nat): string {
    if n < 10 then [Digit(n)] else Dec(n / 10) + [Digit(n % 10)]
  }

  /** A separator before every group of three digits. */
  function Grouped(s: string, sep: char): string {
    if |s| <= 3 then s else Grouped(s[..|s| - 3], sep) + [sep] + s[|s| - 3..]
  }

  function IntegerText(n: nat, sep: char): string {
    if sep == '\0' then Dec(n) else Grouped(Dec(n), sep)
  }

  function PadZero(s: string, n: nat): string {
    if |s| >= n then s else Repeat('0', n - |s|) + s
  }

  function RightStrip(s: string, c: char): string {
    if s != [] && s[|s| - 1] == c then RightStrip(s[..|s| - 1], c) else s
  }

  function FractionText(m: nat, decimals: nat, trailing: bool): string {
    if decimals == 0 then ""
    else
      var t := "." + PadZero(Dec(m), decimals);
      if trailing then t else RightStrip(RightStrip(t, '0'), '.')
  }

  function TenTo(n: nat): (p: nat)
    ensures p > 0
  {
    PowPositive(10, n);
    Pow(10, n)
  }

  /** The text of an amount, as the prototype in the source's comment builds it. */
  function Formatted(amount: nat, prefix: string, suffix: string, decimals: nat, exponent: int, trailing: bool, sep: char): string {
    var a := if exponent >= 0 then amount * TenTo(exponent) else amount / TenTo(-exponent);
    prefix + IntegerText(a / TenTo(decimals), sep) + FractionText(a % TenTo(decimals), decimals, trailing) + suffix
  }

  // ------------------------------------------------- the text from its last digit

  /** The integer part above k digits that are already written. */
  function Upward(t: nat, k: nat, sep: char): string {
    if t < 10 then [Digit(t)]
    else Upward(t / 10, k + 1, sep) + (if sep != '\0' && (k + 1) % 3 == 0 then [sep] else []) + [Digit(t % 10)]
  }

  function FixedDec(n: nat, t: nat): (s: string)
    ensures |s| == n
  {
    if n == 0 then "" else FixedDec(n - 1, t / 10) + [Digit(t % 10)]
  }

  /** The same without its last zeros. */
  function Stripped(n: nat, t: nat): string {
    if n == 0 then "" else if t % 10 != 0 then FixedDec(n, t) else Stripped(n - 1, t / 10)
  }

  /** The fraction of n digits from t and z more zeros. */
  function Fraction(n: nat, t: nat, z: nat, trailing: bool): string {
    var digits := if trailing then FixedDec(n, t) + Repeat('0', z) else Stripped(n, t);
    if digits == "" then "" else "." + digits
  }

  lemma {:induction false} UpwardShift(t: nat, k: nat, sep: char)
    ensures Upward(t, k + 3, sep) == Upward(t, k, sep)
    decreases t
  {
    if t >= 10 { UpwardShift(t / 10, k + 1, sep); }
  }

  lemma {:induction false} UpwardPlain(t: nat, k: nat)
    ensures Upward(t, k, '\0') == Dec(t)
    decreases t
  {
    if t >= 10 { UpwardPlain(t / 10, k + 1); }
  }

  lemma DecThree(n: nat)
    requires n >= 1000
    ensures Dec(n) == Dec(n / 1000) + [Digit(n / 100 % 10), Digit(n / 10 % 10), Digit(n % 10)]
  {
    DivTens(n);
    assert Dec(n) == Dec(n / 10) + [Digit(n % 10)];
    assert Dec(n / 10) == Dec(n / 100) + [Digit(n / 10 % 10)];
    assert Dec(n / 100) == Dec(n / 1000) + [Digit(n / 100 % 10)];
  }

  lemma DivTens(n: nat)
    ensures n / 10 / 10 == n / 100 && n / 100 / 10 == n / 1000
  {}

  lemma UpwardThree(n: nat, sep: char)
    requires n >= 1000 && sep != '\0'
    ensures Upward(n, 0, sep) == Upward(n / 1000, 3, sep) + [sep] + [Digit(n / 100 % 10), Digit(n / 10 % 10), Digit(n % 10)]
  {
    DivTens(n);
    assert Upward(n, 0, sep) == Upward(n / 10, 1, sep) + [] + [Digit(n % 10)];
    assert Upward(n / 10, 1, sep) == Upward(n / 100, 2, sep) + [] + [Digit(n / 10 % 10)];
    assert Upward(n / 100, 2, sep) == Upward(n / 1000, 3, sep) + [sep] + [Digit(n / 100 % 10)];
  }

  lemma ShortDec(n: nat)
    requires n < 1000
    ensures |Dec(n)| <= 3
  {
    if n >= 10 {
      assert Dec(n) == Dec(n / 10) + [Digit(n % 10)];
      if n >= 100 {
        assert Dec(n / 10) == Dec(n / 10 / 10) + [Digit(n / 10 % 10)];
      }
    }
  }

  /** Writing digits from the last one groups them as grouping the text does. */
  lemma {:induction false} UpwardGroups(n: nat, sep: char)
    requires sep != '\0'
    ensures Upward(n, 0, sep) == Grouped(Dec(n), sep)
    decreases n
  {
    if n < 1000 {
      ShortDec(n);
      UpwardShort(n, sep);
    } else {
      hide Upward, Dec;
      var m := n / 1000;
      UpwardGroups(m, sep);
      UpwardThree(n, sep);
      UpwardShift(m, 0, sep);
      DecThree(n);
      var three := [Digit(n / 100 % 10), Digit(n / 10 % 10), Digit(n % 10)];
      DecLong(m);
      assert Dec(n)[..|Dec(n)| - 3] == Dec(m) && Dec(n)[|Dec(n)| - 3..] == three;
    }
  }

  lemma DecLong(m: nat)
    ensures |Dec(m)| > 0
  {}

  lemma UpwardShort(n: nat, sep: char)
    requires n < 1000 && sep != '\0'
    ensures Upward(n, 0, sep) == Dec(n)
  {
    if n >= 10 {
      assert Upward(n, 0, sep) == Upward(n / 10, 1, sep) + [] + [Digit(n % 10)];
      if n >= 100 {
        DivTens(n);
        assert Upward(n / 10, 1, sep) == Upward(n / 100, 2, sep) + [] + [Digit(n / 10 % 10)];
        assert Dec(n / 10) == Dec(n / 100) + [Digit(n / 10 % 10)];
      }
    }
  }

  lemma IntegerIsUpward(n: nat, sep: char)
    ensures Upward(n, 0, sep) == IntegerText(n, sep)
  {
    if sep == '\0' { UpwardPlain(n, 0); } else { UpwardGroups(n, sep); }
  }

  lemma {:induction false} FixedZero(n: nat)
    ensures FixedDec(n, 0) == Repeat('0', n)
  {
    if n > 0 { FixedZero(n - 1); }
  }

  lemma TenToDef(n: nat)
    ensures TenTo(0) == 1 && TenTo(n + 1) == 10 * TenTo(n)
  {}

  /** A number of n digits, padded on the left. */
  lemma {:induction false} FixedIsPadded(n: nat, m: nat)
    requires m < TenTo(n) && n > 0
    ensures FixedDec(n, m) == PadZero(Dec(m), n)
    decreases n
  {
    hide TenTo;
    TenToDef(n - 1);
    if m < 10 {
      FixedZero(n - 1);
    } else {
      TenToDef(0);
      if n == 1 {
        assert false;
      }
      FixedIsPadded(n - 1, m / 10);
      DecFits(n - 1, m / 10);
    }
  }

  lemma {:induction false} DecFits(n: nat, m: nat)
    requires m < TenTo(n) && n > 0
    ensures |Dec(m)| <= n
    decreases n
  {
    hide TenTo;
    TenToDef(n - 1);
    TenToDef(0);
    if m >= 10 {
      if n == 1 {
        assert false;
      }
      DecFits(n - 1, m / 10);
    }
  }

  /** Only the last n digits count. */
  lemma {:induction false} FixedMod(n: nat, t: nat)
    ensures FixedDec(n, t % TenTo(n)) == FixedDec(n, t)
    decreases n
  {
    hide TenTo;
    if n > 0 {
      FixedMod(n - 1, t / 10);
      TenToDef(n - 1);
      ModTen(t, TenTo(n - 1));
    }
  }

  lemma ModTen(t: nat, p: nat)
    requires p > 0
    ensures t % (10 * p) / 10 == t / 10 % p && t % (10 * p) % 10 == t % 10 && t / (10 * p) == t / 10 / p
  {
    var q := t / 10;
    Division(q, p);
    TenParts(t, q, q / p, q % p, p);
    ModUnique(t, q / p, 10 * (q % p) + t % 10, 10 * p);
  }

  lemma TenParts(t: int, q: int, a: int, b: int, p: int)
    requires q == p * a + b && q == t / 10 && 0 <= b < p
    ensures t == a * (10 * p) + (10 * b + t % 10) && 0 <= 10 * b + t % 10 < 10 * p
  {}

  /** Stripping the padded digits from the right is skipping zeros from the last. */
  lemma {:induction false} StripIs(n: nat, t: nat)
    ensures RightStrip(RightStrip("." + FixedDec(n, t), '0'), '.') == if Stripped(n, t) == "" then "" else "." + Stripped(n, t)
    decreases n
  {
    var s := "." + FixedDec(n, t);
    if n == 0 {
      assert s == ".";
      assert s[..0] == "";
    } else {
      assert s[..|s| - 1] == "." + FixedDec(n - 1, t / 10) && s[|s| - 1] == Digit(t % 10);
      if t % 10 == 0 {
        StripIs(n - 1, t / 10);
      } else {
        assert s[|s| - 1] != '0';
        assert s[|s| - 1] != '.';
      }
    }
  }

  lemma FractionIs(n: nat, m: nat, trailing: bool)
    requires m < TenTo(n)
    ensures FractionText(m, n, trailing) == Fraction(n, m, 0, trailing)
  {
    hide TenTo, Stripped, FixedDec, RightStrip;
    if n > 0 {
      FixedIsPadded(n, m);
      StripIs(n, m);
      assert FixedDec(n, m) + Repeat('0', 0) == FixedDec(n, m);
    } else {
      NoPlaces(m);
    }
  }

  lemma NoPlaces(m: nat)
    ensures Stripped(0, m) == "" && FixedDec(0, m) == "" && Repeat('0', 0) == ""
  {}

  lemma {:induction false} StrippedMod(n: nat, t: nat)
    ensures Stripped(n, t % TenTo(n)) == Stripped(n, t)
    decreases n
  {
    hide TenTo;
    if n > 0 {
      TenToDef(n - 1);
      ModTen(t, TenTo(n - 1));
      if t % 10 != 0 {
        FixedMod(n, t);
      } else {
        StrippedMod(n - 1, t / 10);
      }
    }
  }

  /** A factor 10^e puts z zeros at the end of the fraction. */
  lemma {:induction false} DigitsShift(n: nat, t: nat, e: nat, z: nat)
    requires z <= n && z <= e
    ensures FixedDec(n, t * TenTo(e)) == FixedDec(n - z, t * TenTo(e - z)) + Repeat('0', z)
    ensures Stripped(n, t * TenTo(e)) == Stripped(n - z, t * TenTo(e - z))
    ensures t * TenTo(e) / TenTo(n) == t * TenTo(e - z) / TenTo(n - z)
    decreases z
  {
    hide TenTo, FixedDec, Stripped;
    if z == 0 {
      assert FixedDec(n, t * TenTo(e)) + Repeat('0', 0) == FixedDec(n, t * TenTo(e));
    } else {
      var w := t * TenTo(e - 1);
      DigitsShift(n - 1, t, e - 1, z - 1);
      TenToDef(e - 1);
      TenToDef(n - 1);
      TimesTen(t, TenTo(e - 1));
      ShiftOne(n, w);
      ModTen(10 * w, TenTo(n - 1));
      assert Repeat('0', z) == Repeat('0', z - 1) + "0";
    }
  }

  lemma TimesTen(t: nat, p: nat)
    ensures t * (10 * p) == 10 * (t * p) && t * p >= 0 && 10 * (t * p) / 10 == t * p
  {
    var w := t * p;
    MulLe(0, t, p);
    assert 10 * w / 10 == w;
  }

  lemma ShiftOne(n: nat, w: nat)
    requires n > 0
    ensures FixedDec(n, 10 * w) == FixedDec(n - 1, w) + "0" && Stripped(n, 10 * w) == Stripped(n - 1, w)
  {
    assert 10 * w / 10 == w && 10 * w % 10 == 0;
  }

  /** The text, in the pieces the code writes: z zeros of the fraction come from the
      exponent, the others and the integer part from the amount. */
  lemma FormattedParts(amount: nat, prefix: string, suffix: string, decimals: nat, e: nat, trailing: bool, sep: char)
    ensures var z := if decimals < e then decimals else e;
            Formatted(amount, prefix, suffix, decimals, e, trailing, sep) ==
              prefix + Upward(amount * TenTo(e - z) / TenTo(decimals - z), 0, sep)
              + Fraction(decimals - z, amount * TenTo(e - z), z, trailing) + suffix
  {
    hide TenTo, Upward, IntegerText, FractionText, FixedDec, Stripped;
    var z := if decimals < e then decimals else e;
    var a := amount * TenTo(e);
    DigitsShift(decimals, amount, e, z);
    IntegerIsUpward(a / TenTo(decimals), sep);
    Division(a, TenTo(decimals));
    FractionIs(decimals, a % TenTo(decimals), trailing);
    FixedMod(decimals, a);
    StrippedMod(decimals, a);
    assert FixedDec(decimals, a) + Repeat('0', 0) == FixedDec(decimals, a);
  }

  // ------------------------------------------------------------------ the output

  /** Adds one character in front, if there is room: goal is the whole text and
      rest what is still missing of it. */
  method Put(output: array<char>, position: nat, c: char, ghost rest: string, ghost goal: string) returns (ok: bool, next: nat)
    requires position <= output.Length && goal == rest + [c] + output[position..]
    modifies output
    ensures next <= output.Length
    ensures ok ==> goal == rest + output[next..]
    ensures !ok ==> |goal| > output.Length
  {
    if position == 0 {
      return false, 0;
    }
    next := position - 1;
    output[next] := c;
    assert output[next..] == [c] + output[position..];
    ok := true;
  }

  method PutText(output: array<char>, position: nat, text: string, ghost rest: string, ghost goal: string) returns (ok: bool, next: nat)
    requires position <= output.Length && goal == rest + text + output[position..]
    modifies output
    ensures next <= output.Length
    ensures ok ==> goal == rest + output[next..]
    ensures !ok ==> |goal| > output.Length
  {
    next := position;
    ok := true;
    for i := |text| downto 0
      invariant ok && next <= output.Length && goal == rest + text[..i] + output[next..]
    {
      assert text[..i + 1] == text[..i] + [text[i]];
      assert rest + text[..i + 1] == (rest + text[..i]) + [text[i]];
      ok, next := Put(output, next, text[i], rest + text[..i], goal);
      if !ok {
        return;
      }
    }
  }

  /** What is missing of the fraction when k digits of t are left. */
  function Pending(k: nat, t: nat, started: bool, trailing: bool): string {
    if started then "." + FixedDec(k, t) else Fraction(k, t, 0, trailing)
  }

  lemma PendingStep(k: nat, t: nat, started: bool, trailing: bool)
    requires k > 0
    ensures started || t % 10 != 0 || trailing ==> Pending(k, t, started, trailing) == "." + FixedDec(k - 1, t / 10) + [Digit(t % 10)]
    ensures !(started || t % 10 != 0 || trailing) ==> Pending(k, t, started, trailing) == Pending(k - 1, t / 10, started, trailing)
  {
    assert FixedDec(k, t) + Repeat('0', 0) == FixedDec(k, t);
  }

  lemma {:induction false} StrippedZero(k: nat)
    ensures Stripped(k, 0) == ""
  {
    if k > 0 { StrippedZero(k - 1); }
  }

  lemma PendingEnd(k: nat, t: nat, trailing: bool)
    ensures Pending(0, t, true, trailing) == "." && Pending(0, t, false, trailing) == "" && Pending(k, 0, false, false) == ""
  {
    StrippedZero(k);
    assert FixedDec(0, t) + Repeat('0', 0) == "";
  }

  lemma FractionStart(n: nat, t: nat, z: nat, trailing: bool)
    ensures if trailing && z > 0 then Fraction(n, t, z, trailing) == Pending(n, t, true, trailing) + Repeat('0', z)
            else Fraction(n, t, z, trailing) == Pending(n, t, false, trailing)
  {
    if trailing && z > 0 {
      assert "." + (FixedDec(n, t) + Repeat('0', z)) == "." + FixedDec(n, t) + Repeat('0', z);
    }
  }

  lemma DivStep(t: nat, k: nat)
    ensures t / TenTo(k) / 10 == t / TenTo(k + 1) && t / TenTo(0) == t
  {
    hide TenTo;
    TenToDef(k);
    var p := TenTo(k);
    Division(t, p);
    var q := t / p;
    TensOver(t, p, q, t % p);
    ModUnique(t, q / 10, (q % 10) * p + t % p, 10 * p);
  }

  lemma TensOver(t: int, p: int, q: int, r: int)
    requires t == p * q + r && 0 <= r < p
    ensures t == (q / 10) * (10 * p) + ((q % 10) * p + r) && 0 <= (q % 10) * p + r < 10 * p
  {
    var a, b := q / 10, q % 10;
    assert p * (10 * a + b) == a * (10 * p) + b * p;
    MulLe(b, 9, p);
    MulLe(0, b, p);
  }

  lemma SmallQuotient(t: nat, j: nat, n: nat)
    requires j <= n && t / TenTo(j) == 0
    ensures t / TenTo(n) == 0
    decreases n - j
  {
    if j < n {
      DivStep(t, j);
      SmallQuotient(t, j + 1, n);
    }
  }

  /** Writes the fraction with its point, and leaves the integer part in temp. */
  method PutFraction(output: array<char>, position: nat, temp: Num, n: nat, z: nat, trailing: bool, ghost rest: string, ghost goal: string)
    returns (ok: bool, next: nat)
    requires Norm(temp.val) && Val(temp.val) >= 0 && position <= output.Length
    requires goal == rest + Fraction(n, Val(temp.val), z, trailing) + output[position..]
    modifies output, temp
    ensures next <= output.Length && Norm(temp.val) && Val(temp.val) >= 0
    ensures ok ==> goal == rest + output[next..] && Val(temp.val) == old(Val(temp.val)) / TenTo(n)
    ensures !ok ==> |goal| > output.Length
  {
    hide Norm, Val, Fraction, Pending, TenTo, FixedDec, Stripped;
    ghost var t0 := Val(temp.val);
    FractionStart(n, t0, z, trailing);
    DivStep(t0, 0);
    next := position;
    var started := false;
    ok := true;
    if trailing && z > 0 {
      started := true;
      assert rest + (Pending(n, t0, true, trailing) + Repeat('0', z)) == (rest + Pending(n, t0, true, trailing)) + Repeat('0', z);
      ok, next := PutText(output, next, Repeat('0', z), rest + Pending(n, t0, true, trailing), goal);
      if !ok {
        return;
      }
    }
    var k: nat := n;
    while k > 0
      invariant k <= n && ok && next <= output.Length && Norm(temp.val) && 0 <= Val(temp.val) == t0 / TenTo(n - k)
      invariant goal == rest + Pending(k, Val(temp.val), started, trailing) + output[next..]
    {
      ghost var t := Val(temp.val);
      PendingStep(k, t, started, trailing);
      DivStep(t0, n - k);
      var digit := DivMod10(temp);
      k := k - 1;
      if started || digit != 0 || trailing {
        started := true;
        PendingStarted(k, t / 10, trailing);
        assert rest + (Pending(k, t / 10, true, trailing) + [Digit(digit)]) == (rest + Pending(k, t / 10, true, trailing)) + [Digit(digit)];
        ok, next := Put(output, next, Digit(digit), rest + Pending(k, t / 10, true, trailing), goal);
        if !ok {
          return;
        }
      } else {
        var zero := IsZero(temp);
        if zero {
          SmallQuotient(t0, n - k, n);
          PendingEnd(k, 0, trailing);
          break;
        }
      }
    }
    PendingEnd(k, Val(temp.val), trailing);
    if started {
      ok, next := Put(output, next, '.', rest, goal);
    } else {
      assert rest + "" == rest;
    }
  }

  lemma PendingStarted(k: nat, t: nat, trailing: bool)
    ensures Pending(k, t, true, trailing) == "." + FixedDec(k, t)
  {}

  lemma UpwardZero(t: nat, x: nat, k: nat, sep: char)
    requires t > 0 && x > 0
    ensures Upward(t * TenTo(x), k, sep) ==
            Upward(t * TenTo(x - 1), k + 1, sep) + (if sep != '\0' && (k + 1) % 3 == 0 then [sep] else []) + ['0']
  {
    hide TenTo;
    TenToDef(x - 1);
    TimesTen(t, TenTo(x - 1));
    var w := t * TenTo(x - 1);
    MulPositive(t, TenTo(x - 1));
    assert 10 * w >= 10 && 10 * w / 10 == w && 10 * w % 10 == 0;
  }

  lemma UpwardDef(t: nat, k: nat, sep: char)
    ensures Upward(t, k, sep) == if t / 10 == 0 then [Digit(t % 10)]
            else Upward(t / 10, k + 1, sep) + (if sep != '\0' && (k + 1) % 3 == 0 then [sep] else []) + [Digit(t % 10)]
  {}

  /** Writes a digit and, if one is due, the separator left of it. */
  method PutDigit(output: array<char>, position: nat, c: char, due: bool, sep: char, ghost rest: string, ghost goal: string)
    returns (ok: bool, next: nat)
    requires position <= output.Length && goal == rest + (if due then [sep] else []) + [c] + output[position..]
    modifies output
    ensures next <= output.Length
    ensures ok ==> goal == rest + output[next..]
    ensures !ok ==> |goal| > output.Length
  {
    ok, next := Put(output, position, c, rest + (if due then [sep] else []), goal);
    if ok && due {
      ok, next := Put(output, next, sep, rest, goal);
    } else if ok {
      assert rest + [] == rest;
    }
  }

  /** Writes the integer part temp 10^exponent with its separators. */
  method PutInteger(output: array<char>, position: nat, temp: Num, exponent: nat, sep: char, ghost rest: string, ghost goal: string)
    returns (ok: bool, next: nat)
    requires Norm(temp.val) && Val(temp.val) >= 0 && position <= output.Length && Val(temp.val) * TenTo(exponent) >= 0
    requires goal == rest + Upward(Val(temp.val) * TenTo(exponent), 0, sep) + output[position..]
    modifies output, temp
    ensures next <= output.Length
    ensures ok ==> goal == rest + output[next..]
    ensures !ok ==> |goal| > output.Length
  {
    hide Norm, Val, Upward, TenTo;
    ghost var t := Val(temp.val);
    next := position;
    ok := true;
    var digits := 0;
    TenToDef(0);
    var zero := IsZero(temp);
    if !zero {
      for x := exponent downto 0
        invariant ok && next <= output.Length && t * TenTo(x) >= 0
        invariant goal == rest + Upward(t * TenTo(x), digits, sep) + output[next..]
        modifies output
      {
        UpwardZero(t, x + 1, digits, sep);
        TimesTen(t, TenTo(x));
        ghost var more := Upward(t * TenTo(x), digits + 1, sep);
        digits := digits + 1;
        var due := sep != '\0' && digits % 3 == 0;
        assert rest + (more + (if due then [sep] else []) + ['0']) == (rest + more) + (if due then [sep] else []) + ['0'];
        ok, next := PutDigit(output, next, '0', due, sep, rest + more, goal);
        if !ok {
          return;
        }
      }
    }
    ok, next := PutDigits(output, next, temp, digits, sep, rest, goal);
  }

  /** Writes the digits of temp, at least one. */
  method PutDigits(output: array<char>, position: nat, temp: Num, written: nat, sep: char, ghost rest: string, ghost goal: string)
    returns (ok: bool, next: nat)
    requires Norm(temp.val) && Val(temp.val) >= 0 && position <= output.Length
    requires goal == rest + Upward(Val(temp.val), written, sep) + output[position..]
    modifies output, temp
    ensures next <= output.Length
    ensures ok ==> goal == rest + output[next..]
    ensures !ok ==> |goal| > output.Length
  {
    hide Norm, Val, Upward;
    next := position;
    ok := true;
    var digits := written;
    var zero := false;
    while !zero
      invariant ok && next <= output.Length && Norm(temp.val) && Val(temp.val) >= 0
      invariant goal == rest + (if zero then "" else Upward(Val(temp.val), digits, sep)) + output[next..]
      decreases if zero then 0 else Val(temp.val) + 1
    {
      ghost var t := Val(temp.val);
      UpwardDef(t, digits, sep);
      digits := digits + 1;
      var digit := DivMod10(temp);
      zero := IsZero(temp);
      var due := sep != '\0' && !zero && digits % 3 == 0;
      ghost var more := if zero then "" else Upward(t / 10, digits, sep);
      assert rest + (more + (if due then [sep] else []) + [Digit(digit)]) == (rest + more) + (if due then [sep] else []) + [Digit(digit)];
      assert "" + [] + [Digit(digit)] == [Digit(digit)];
      ok, next := PutDigit(output, next, Digit(digit), due, sep, rest + more, goal);
      if !ok {
        return;
      }
    }
    assert rest + "" == rest;
  }

  /** temp / 10^k, stopping early at zero. */
  method DropDigits(temp: Num, k: nat)
    requires Norm(temp.val) && Val(temp.val) >= 0
    modifies temp
    ensures Norm(temp.val) && Val(temp.val) >= 0 && Val(temp.val) == old(Val(temp.val)) / TenTo(k)
  {
    hide Norm, Val, TenTo;
    ghost var t0 := Val(temp.val);
    DivStep(t0, 0);
    for i := 0 to k
      invariant Norm(temp.val) && 0 <= Val(temp.val) == t0 / TenTo(i)
    {
      var zero := IsZero(temp);
      if zero {
        SmallQuotient(t0, i, k);
        return;
      }
      DivStep(t0, i);
      var digit := DivMod10(temp);
    }
  }

  /** Writes the text and a zero at the start of output, if they fit, and returns the
      text's length; otherwise clears output and returns 0. */
  method FormatAmount(amount: Limbs9, prefix: string, suffix: string, decimals: nat, exponent: int, trailing: bool, sep: char, output: array<char>)
    returns (length: nat)
    requires Norm(amount) && Val(amount) >= 0
    modifies output
    ensures var text := Formatted(Val(amount), prefix, suffix, decimals, exponent, trailing, sep);
            if |text| + 1 <= output.Length then length == |text| && output[..length + 1] == text + ['\0']
            else length == 0 && forall i :: 0 <= i < output.Length ==> output[i] == '\0'
  {
    hide Norm, Val, Formatted;
    ghost var text := Formatted(Val(amount), prefix, suffix, decimals, exponent, trailing, sep);
    var ok, position := WriteBackward(amount, prefix, suffix, decimals, exponent, trailing, sep, output, text + ['\0']);
    if !ok {
      for i := 0 to output.Length
        invariant forall j :: 0 <= j < i ==> output[j] == '\0'
      {
        output[i] := '\0';
      }
      return 0;
    }
    ghost var all := output[position..];
    length := output.Length - position;
    for i := 0 to length
      invariant forall j :: 0 <= j < i ==> output[j] == all[j]
      invariant forall j :: i <= j < length ==> output[position + j] == all[j]
    {
      output[i] := output[position + i];
    }
    assert output[..length] == all;
    length := length - 1;
  }

  /** Writes the goal from its end; fails exactly when it does not fit. */
  method WriteBackward(amount: Limbs9, prefix: string, suffix: string, decimals: nat, exponent: int, trailing: bool, sep: char,
                       output: array<char>, ghost goal: string)
    returns (ok: bool, next: nat)
    requires Norm(amount) && Val(amount) >= 0
    requires goal == Formatted(Val(amount), prefix, suffix, decimals, exponent, trailing, sep) + ['\0']
    modifies output
    ensures next <= output.Length
    ensures ok ==> goal == output[next..]
    ensures !ok ==> |goal| > output.Length
  {
    hide Norm, Val, Upward, Fraction, TenTo, Formatted;
    var temp := Copy(amount);
    var e := exponent;
    ghost var a := if exponent < 0 then Val(amount) / TenTo(-exponent) else Val(amount);
    AmountPart(Val(amount), prefix, suffix, decimals, exponent, trailing, sep);
    FormattedParts(a, prefix, suffix, decimals, if exponent < 0 then 0 else exponent, trailing, sep);
    ghost var number := NumberText(a, prefix, decimals, if exponent < 0 then 0 else exponent, trailing, sep);
    assert output[output.Length..] == [];
    assert goal == number + suffix + ['\0'] + output[output.Length..];
    ok, next := Put(output, output.Length, '\0', number + suffix, goal);
    if !ok { return; }
    ok, next := PutText(output, next, suffix, number, goal);
    if !ok { return; }
    if e < 0 {
      DropDigits(temp, -e);
      e := 0;
    }
    ok, next := PutNumber(output, next, temp, prefix, decimals, e, trailing, sep, goal);
  }

  ghost function NumberText(a: nat, prefix: string, decimals: nat, e: nat, trailing: bool, sep: char): string {
    var z := if decimals < e then decimals else e;
    prefix + Upward(a * TenTo(e - z) / TenTo(decimals - z), 0, sep) + Fraction(decimals - z, a * TenTo(e - z), z, trailing)
  }

  /** The fraction, the integer part and the prefix. */
  method PutNumber(output: array<char>, position: nat, temp: Num, prefix: string, decimals: nat, e: nat, trailing: bool, sep: char, ghost goal: string)
    returns (ok: bool, next: nat)
    requires Norm(temp.val) && Val(temp.val) >= 0 && position <= output.Length
    requires goal == NumberText(Val(temp.val), prefix, decimals, e, trailing, sep) + output[position..]
    modifies output, temp
    ensures next <= output.Length
    ensures ok ==> goal == output[next..]
    ensures !ok ==> |goal| > output.Length
  {
    hide Norm, Val, Upward, Fraction, TenTo;
    ghost var a := Val(temp.val);
    var z := if decimals < e then decimals else e;
    ghost var whole := Upward(a * TenTo(e - z) / TenTo(decimals - z), 0, sep);
    FractionArg(a, e - z, decimals - z, z, trailing);
    ok, next := PutFraction(output, position, temp, decimals - z, z, trailing, prefix + whole, goal);
    if !ok { return; }
    IntegerArg(a, e - z, decimals - z);
    ok, next := PutInteger(output, next, temp, e - z, sep, prefix, goal);
    if !ok { return; }
    ghost var none: string := "";
    assert goal == none + prefix + output[next..];
    ok, next := PutText(output, next, prefix, none, goal);
    assert none + output[next..] == output[next..];
  }

  lemma AmountPart(amount: nat, prefix: string, suffix: string, decimals: nat, exponent: int, trailing: bool, sep: char)
    ensures exponent < 0 ==> Formatted(amount, prefix, suffix, decimals, exponent, trailing, sep)
                             == Formatted(amount / TenTo(-exponent), prefix, suffix, decimals, 0, trailing, sep)
  {
    TenToDef(0);
  }

  /** When the exponent is used up, the amount's own digits follow. */
  lemma FractionArg(a: nat, x: nat, n: nat, z: nat, trailing: bool)
    requires x == 0 || n == 0
    ensures a * TenTo(x) >= 0 && Fraction(n, a * TenTo(x), z, trailing) == Fraction(n, a, z, trailing)
  {
    hide TenTo;
    TenToDef(0);
    MulLe(0, a, TenTo(x));
  }

  lemma IntegerArg(a: nat, x: nat, n: nat)
    requires x == 0 || n == 0
    ensures a / TenTo(n) * TenTo(x) >= 0 && a * TenTo(x) >= 0 && a * TenTo(x) / TenTo(n) == a / TenTo(n) * TenTo(x)
  {
    hide TenTo;
    TenToDef(0);
    MulLe(0, a, TenTo(x));
  }
}
