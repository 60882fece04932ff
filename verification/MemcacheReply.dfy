/** The incremental reply parser of src/server/cache.c: after every read the whole
    buffer is examined again. */
module MemcacheReply {
  import opened Limbs
  import opened Radix
  import opened Wrappers

  type Bytes = seq<uint8>

  const CR: uint8 := 13
  const LF: uint8 := 10
  const SPACE: uint8 := 32

  function Crlf(): Bytes { [CR, LF] }
  function EndLine(): Bytes { [69, 78, 68, CR, LF] }
  function ValueWord(): Bytes { [86, 65, 76, 85, 69] }

  /** size_t has 64 bits, and the length of a byte string 32. */
  const SIZE: nat := 0x1_0000_0000_0000_0000
  const LENGTH: nat := 0x1_0000_0000

  /** What the parser makes of the bytes read so far.  Beyond hands over a slice that
      does not lie in the buffer; Astray compares bytes before the buffer. */
  datatype Verdict = More | Miss | Hit(value: Bytes) | Beyond(start: nat, length: nat) | Astray | Bad

  // ------------------------------------------------------------ header lines

  predicate IsSpace(c: uint8) { c == 32 || 9 <= c <= 13 }

  predicate IsDigit(c: uint8) { 48 <= c <= 57 }

  /** The first index at or after i that is not white space. */
  function SkipSpace(s: Bytes, i: nat): (r: nat)
    requires i <= |s|
    ensures i <= r <= |s|
    decreases |s| - i
  {
    if i < |s| && IsSpace(s[i]) then SkipSpace(s, i + 1) else i
  }

  /** The end of a word of at most max characters that starts at i. */
  function WordEnd(s: Bytes, i: nat, max: nat): (r: nat)
    requires i <= |s|
    ensures i <= r <= |s|
    decreases max
  {
    if max > 0 && i < |s| && !IsSpace(s[i]) then WordEnd(s, i + 1, max - 1) else i
  }

  function DigitsEnd(s: Bytes, i: nat): (r: nat)
    requires i <= |s|
    ensures i <= r <= |s| && forall j :: i <= j < r ==> IsDigit(s[j])
    decreases |s| - i
  {
    if i < |s| && IsDigit(s[i]) then DigitsEnd(s, i + 1) else i
  }

  function DigitValue(c: uint8): nat
    requires IsDigit(c)
  {
    c - 48
  }

  function DigitValues(s: Bytes): seq<nat>
    requires forall i :: 0 <= i < |s| ==> IsDigit(s[i])
  {
    seq(|s|, i requires 0 <= i < |s| => DigitValue(s[i]))
  }

  /** %zu: an optional sign and decimal digits, as a 64-bit number. */
  function ScanSize(s: Bytes, i: nat): (r: int)
    requires i <= |s|
    ensures -1 <= r < SIZE
  {
    var neg := i < |s| && s[i] == 45;
    var j := if i < |s| && (s[i] == 43 || s[i] == 45) then i + 1 else i;
    var e := DigitsEnd(s, j);
    if e == j then -1
    else
      var v := Horner(10, DigitValues(s[j..e]));
      if v >= SIZE then SIZE - 1 else if neg then (SIZE - v) % SIZE else v
  }

  /** A C string ends at the first zero byte. */
  function CString(s: Bytes): Bytes {
    if s == [] || s[0] == 0 then [] else [s[0]] + CString(s[1..])
  }

  lemma {:induction false} CStringPrefix(s: Bytes)
    ensures CString(s) <= s
  {
    if s != [] && s[0] != 0 {
      CStringPrefix(s[1..]);
      assert s == [s[0]] + s[1..];
    }
  }

  /** sscanf with the format VALUE %255s %31s %zu: the third field, or -1 when
      fewer than three fields were read. */
  function ScanHeader(line: Bytes): (r: int)
    ensures -1 <= r < SIZE && (r >= 0 ==> ValueWord() <= line)
  {
    var s := CString(line);
    CStringPrefix(line);
    if !(ValueWord() <= s) then -1
    else
      var k := SkipSpace(s, 5);
      var ke := WordEnd(s, k, 255);
      var f := SkipSpace(s, ke);
      var fe := WordEnd(s, f, 31);
      if ke == k || fe == f then -1 else ScanSize(s, SkipSpace(s, fe))
  }

  // --------------------------------------------------------------- the parser

  /** The first CR LF, or the length. */
  function HeaderEnd(s: Bytes, i: nat): (r: nat)
    requires i <= |s|
    ensures i <= r <= |s| && (r < |s| ==> r + 1 < |s| && s[r] == CR && s[r + 1] == LF)
    ensures forall j :: i <= j < r && j + 1 < |s| ==> !(s[j] == CR && s[j + 1] == LF)
    decreases |s| - i
  {
    if i + 1 < |s| then
      if s[i] == CR && s[i + 1] == LF then i else HeaderEnd(s, i + 1)
    else |s|
  }

  predicate At(s: Bytes, e: nat, t: Bytes) { e + |t| <= |s| && s[e..e + |t|] == t }

  /** The end of the value would lie one or two bytes before the buffer: the pointer
      has wrapped in its last test but not in itself. */
  predicate Outside(o: nat, n: nat) { o + n < SIZE <= o + n + 2 }

  /** The tests after a header that ends before o and announces n bytes, with sums
      modulo 2^64. */
  function Tail(s: Bytes, o: nat, n: nat): Verdict {
    var e := (o + n) % SIZE;
    if |s| < (o + n + 2) % SIZE then More
    else if Outside(o, n) then Astray
    else if !At(s, e, Crlf()) || |s| < (o + n + 7) % SIZE || !At(s, e + 2, EndLine()) then More
    else if o + n <= |s| then Hit(s[o..o + n])
    else Beyond(o, n % LENGTH)
  }

  function Parse(s: Bytes): Verdict {
    if s == [] then More
    else if EndLine() <= s then Miss
    else
      var h := HeaderEnd(s, 0);
      if h == |s| then More
      else
        var n := ScanHeader(s[..h]);
        if n < 0 then Bad else Tail(s, h + 2, n)
  }

  /** The search for the end of the header line. */
  method FindHeaderEnd(s: Bytes) returns (h: nat)
    ensures h == HeaderEnd(s, 0)
  {
    var i := 0;
    while i + 1 < |s|
      invariant i <= |s| && HeaderEnd(s, 0) == HeaderEnd(s, i)
    {
      if s[i] == CR && s[i + 1] == LF {
        return i;
      }
      i := i + 1;
    }
    h := |s|;
  }

  /** The examination of the buffer after a read. */
  method Examine(s: Bytes) returns (v: Verdict)
    ensures v == Parse(s)
  {
    hide HeaderEnd, ScanHeader;
    if |s| == 0 {
      return More;
    }
    var h := FindHeaderEnd(s);
    if |s| >= 5 && s[..5] == EndLine() {
      return Miss;
    }
    assert !(EndLine() <= s);
    if h == |s| {
      return More;
    }
    var n := ScanHeader(s[..h]);
    if n < 0 {
      return Bad;
    }
    v := ExamineTail(s, h + 2, n);
  }

  /** The tests of value, CR LF and END line. */
  method ExamineTail(s: Bytes, o: nat, n: nat) returns (v: Verdict)
    requires n < SIZE
    ensures v == Tail(s, o, n)
  {
    var end: nat := (o + n) % SIZE;
    if |s| < (o + n + 2) % SIZE {
      return More;
    }
    if o + n < SIZE <= o + n + 2 {
      return Astray;
    }
    if !(end + 2 <= |s| && s[end..end + 2] == Crlf()) {
      return More;
    }
    if |s| < (o + n + 7) % SIZE {
      return More;
    }
    if !(end + 7 <= |s| && s[end + 2..end + 7] == EndLine()) {
      return More;
    }
    if o + n <= |s| {
      return Hit(s[o..o + n]);
    }
    v := Beyond(o, n % LENGTH);
  }

  // ------------------------------------------------------- well-formed replies

  /** A word of the protocol: no white space and no control character. */
  predicate Word(s: Bytes, max: nat) {
    0 < |s| <= max && forall i :: 0 <= i < |s| ==> s[i] != 0 && !IsSpace(s[i])
  }

  /** The decimal spelling of a length, possibly with leading zeros. */
  predicate Spells(s: Bytes, n: nat) {
    && s != [] && (forall i :: 0 <= i < |s| ==> IsDigit(s[i]))
    && Horner(10, DigitValues(s)) == n
  }

  function Header(key: Bytes, flags: Bytes, size: Bytes): Bytes {
    ValueWord() + [SPACE] + key + [SPACE] + flags + [SPACE] + size
  }

  /** The reply to a get that finds the key, and to one that does not. */
  function HitReply(key: Bytes, flags: Bytes, size: Bytes, value: Bytes): Bytes {
    Header(key, flags, size) + Crlf() + value + Crlf() + EndLine()
  }

  function MissReply(): Bytes { EndLine() }

  /** Keys have at most 250 bytes and flags are 32-bit decimals in the protocol. */
  predicate Fields(key: Bytes, flags: Bytes, size: Bytes, n: nat) {
    Word(key, 250) && Word(flags, 10) && Spells(size, n) && n < 0x1_0000_0000_0000_0000
  }

  lemma {:induction false} CStringAll(s: Bytes)
    requires forall i :: 0 <= i < |s| ==> s[i] != 0
    ensures CString(s) == s
  {
    if s != [] {
      CStringAll(s[1..]);
      assert s == [s[0]] + s[1..];
    }
  }

  lemma {:induction false} WordEndAt(s: Bytes, i: nat, max: nat, w: nat)
    requires i + w <= |s| && w <= max && (i + w < |s| ==> IsSpace(s[i + w]))
    requires forall j :: i <= j < i + w ==> !IsSpace(s[j])
    ensures WordEnd(s, i, max) == i + w
    decreases w
  {
    if w > 0 { WordEndAt(s, i + 1, max - 1, w - 1); }
  }

  lemma {:induction false} DigitsEndAt(s: Bytes, i: nat)
    requires i <= |s| && forall j :: i <= j < |s| ==> IsDigit(s[j])
    ensures DigitsEnd(s, i) == |s|
    decreases |s| - i
  {
    if i < |s| { DigitsEndAt(s, i + 1); }
  }

  /** Where the three fields of a header stand. */
  ghost predicate Layout(s: Bytes, key: Bytes, flags: Bytes, size: Bytes) {
    var k, f, z := 6, 7 + |key|, 8 + |key| + |flags|;
    && |s| == z + |size| && ValueWord() <= s && s[5] == SPACE && s[f - 1] == SPACE && s[z - 1] == SPACE
    && s[k..f - 1] == key && s[f..z - 1] == flags && s[z..] == size
  }

  lemma HeaderLayout(key: Bytes, flags: Bytes, size: Bytes)
    ensures Layout(Header(key, flags, size), key, flags, size)
  {
    var s := Header(key, flags, size);
    assert s == ValueWord() + ([SPACE] + key + [SPACE] + flags + [SPACE] + size);
  }

  /** No byte of a header is zero or ends a line. */
  lemma HeaderBytes(s: Bytes, key: Bytes, flags: Bytes, size: Bytes, n: nat)
    requires Layout(s, key, flags, size) && Fields(key, flags, size, n)
    ensures forall j :: 0 <= j < |s| ==> s[j] != 0 && s[j] != CR
    ensures forall j :: 6 <= j < 6 + |key| || 7 + |key| <= j < 7 + |key| + |flags| ==> !IsSpace(s[j])
    ensures forall j :: 8 + |key| + |flags| <= j < |s| ==> IsDigit(s[j])
  {
    hide Horner;
    FieldBytes(s, 6, key);
    FieldBytes(s, 7 + |key|, flags);
    SizeBytes(s, 8 + |key| + |flags|, size);
    assert s[..5] == ValueWord();
    forall j | 0 <= j < |s| ensures s[j] != 0 && s[j] != CR {
      if j < 5 { assert s[j] == ValueWord()[j]; }
    }
  }

  /** The header of a hit is read for its length. */
  lemma ScanFinds(key: Bytes, flags: Bytes, size: Bytes, n: nat)
    requires Fields(key, flags, size, n)
    ensures ScanHeader(Header(key, flags, size)) == n
  {
    hide Horner, Header, CString, SkipSpace, WordEnd, ScanSize;
    var s := Header(key, flags, size);
    var k, f, z := 6, 7 + |key|, 8 + |key| + |flags|;
    HeaderLayout(key, flags, size);
    HeaderBytes(s, key, flags, size, n);
    CStringAll(s);
    WordEndAt(s, k, 255, |key|);
    WordEndAt(s, f, 31, |flags|);
    SkipOne(s, 5);
    SkipOne(s, f - 1);
    SkipOne(s, z - 1);
    ScanSizeAt(s, z, size, n);
  }

  lemma SkipOne(s: Bytes, i: nat)
    requires i + 1 < |s| && IsSpace(s[i]) && !IsSpace(s[i + 1])
    ensures SkipSpace(s, i) == i + 1
  {}

  lemma ScanSizeAt(s: Bytes, z: nat, size: Bytes, n: nat)
    requires z <= |s| && s[z..] == size && Spells(size, n) && n < 0x1_0000_0000_0000_0000
    ensures ScanSize(s, z) == n
  {
    hide Horner;
    SizeBytes(s, z, size);
    DigitsEndAt(s, z);
    assert s[z..|s|] == size;
  }

  lemma FieldBytes(s: Bytes, i: nat, w: Bytes)
    requires i + |w| <= |s| && s[i..i + |w|] == w && Word(w, 250)
    ensures forall j :: i <= j < i + |w| ==> s[j] != 0 && !IsSpace(s[j])
  {
    forall j | i <= j < i + |w| ensures s[j] != 0 && !IsSpace(s[j]) {
      assert s[j] == w[j - i];
    }
  }

  lemma SizeBytes(s: Bytes, i: nat, w: Bytes)
    requires i <= |s| && s[i..] == w && forall j :: 0 <= j < |w| ==> IsDigit(w[j])
    ensures forall j :: i <= j < |s| ==> IsDigit(s[j])
  {
    forall j | i <= j < |s| ensures IsDigit(s[j]) {
      assert s[j] == w[j - i];
    }
  }

  lemma {:induction false} HeaderEndAt(s: Bytes, h: nat, i: nat)
    requires i <= h <= |s| && (h < |s| ==> h + 1 < |s| && s[h] == CR && s[h + 1] == LF)
    requires forall j :: i <= j < h && j + 1 < |s| ==> !(s[j] == CR && s[j + 1] == LF)
    ensures HeaderEnd(s, i) == h
    decreases h - i
  {
    if i < h { HeaderEndAt(s, h, i + 1); }
  }

  /** Where the parts of a hit stand. */
  lemma HitParts(key: Bytes, flags: Bytes, size: Bytes, value: Bytes)
    ensures var s, h := HitReply(key, flags, size, value), |Header(key, flags, size)|;
            && |s| == h + 2 + |value| + 7 && s[..h] == Header(key, flags, size) && s[h..h + 2] == Crlf()
            && s[h + 2..h + 2 + |value|] == value && s[h + 2 + |value|..h + 4 + |value|] == Crlf()
            && s[h + 4 + |value|..] == EndLine()
  {}

  /** Before the last byte of a hit the parser waits, and with it it answers with
      exactly the stored bytes, whatever they are. */
  lemma HitPrefix(key: Bytes, flags: Bytes, size: Bytes, value: Bytes, m: nat)
    requires Fields(key, flags, size, |value|) && m <= |HitReply(key, flags, size, value)| < LENGTH
    ensures var s := HitReply(key, flags, size, value);
            Parse(s[..m]) == if m == |s| then Hit(value) else More
  {
    hide ScanHeader, HeaderEnd, Header, Parse;
    var s, line := HitReply(key, flags, size, value), Header(key, flags, size);
    var h := |line|;
    HitParts(key, flags, size, value);
    HeaderLayout(key, flags, size);
    HeaderBytes(line, key, flags, size, |value|);
    assert forall j :: 0 <= j < h ==> s[j] == line[j];
    if m < h + 2 {
      ShortPrefix(s, h, m);
    } else {
      assert s[h] == s[h..h + 2][0] && s[h + 1] == s[h..h + 2][1];
      ScanFinds(key, flags, size, |value|);
      LongPrefix(s, h, |value|, m);
    }
  }

  lemma ShortPrefix(s: Bytes, h: nat, m: nat)
    requires 6 <= h && m < h + 2 <= |s| && s[0] == ValueWord()[0] && forall j :: 0 <= j < h ==> s[j] != CR
    ensures Parse(s[..m]) == More
  {
    hide HeaderEnd, ScanHeader;
    HeaderEndAt(s[..m], m, 0);
  }

  lemma LongPrefix(s: Bytes, h: nat, n: nat, m: nat)
    requires 6 <= h && h + 2 <= m <= |s| == h + 9 + n < SIZE && s[0] == ValueWord()[0]
    requires (forall j :: 0 <= j < h ==> s[j] != CR) && s[h] == CR && s[h + 1] == LF
    requires ScanHeader(s[..h]) == n && s[h + 2 + n..h + 4 + n] == Crlf() && s[h + 4 + n..] == EndLine()
    ensures Parse(s[..m]) == if m == |s| then Hit(s[h + 2..h + 2 + n]) else More
  {
    hide HeaderEnd, ScanHeader;
    HeaderEndAt(s[..m], h, 0);
    assert s[..m][..h] == s[..h];
    NoWrap(h + 2 + n);
    if m == |s| {
      assert s[..m] == s && s[h + 4 + n..h + 9 + n] == EndLine();
    }
  }

  lemma NoWrap(x: nat)
    requires x + 7 < SIZE
    ensures x % SIZE == x && (x + 2) % SIZE == x + 2 && (x + 7) % SIZE == x + 7
  {}

  lemma MissPrefix(m: nat)
    requires m <= |MissReply()|
    ensures Parse(MissReply()[..m]) == if m == |MissReply()| then Miss else More
  {
    var p := MissReply()[..m];
    if m < 5 {
      HeaderEndAt(p, m, 0);
    }
  }

  // ------------------------------------------------------------ split replies

  /** Feeds chunks to the parser until it finishes; the verdict and the chunks that
      were not looked at. */
  function Feed(buffer: Bytes, chunks: seq<Bytes>): (Verdict, seq<Bytes>)
    decreases |chunks|
  {
    if chunks == [] then (More, [])
    else
      var b := buffer + chunks[0];
      if Parse(b).More? || Parse(b).Astray? then Feed(b, chunks[1..]) else (Parse(b), chunks[1..])
  }

  /** A reply that is recognised exactly when complete is recognised on the read
      that completes it, however it is cut. */
  lemma {:induction false} FeedSplit(reply: Bytes, answer: Verdict, buffer: Bytes, chunks: seq<Bytes>)
    requires !answer.More? && !answer.Astray? && (forall m :: 0 <= m <= |reply| ==> Parse(reply[..m]) == if m == |reply| then answer else More)
    requires buffer + Joined(chunks) == reply && |buffer| < |reply| && forall i :: 0 <= i < |chunks| ==> chunks[i] != []
    ensures Feed(buffer, chunks) == (answer, [])
    decreases |chunks|
  {
    hide Parse;
    var b, rest := buffer + chunks[0], chunks[1..];
    assert b + Joined(rest) == reply;
    assert b == reply[..|b|];
    if |b| == |reply| {
      assert Joined(rest) == [];
    } else {
      FeedSplit(reply, answer, b, rest);
    }
  }

  /** Every way of cutting a hit into chunks ends on the last read with the value. */
  lemma SplitHit(key: Bytes, flags: Bytes, size: Bytes, value: Bytes, chunks: seq<Bytes>)
    requires Fields(key, flags, size, |value|) && Joined(chunks) == HitReply(key, flags, size, value) && |Joined(chunks)| < LENGTH
    requires forall i :: 0 <= i < |chunks| ==> chunks[i] != []
    ensures Feed([], chunks) == (Hit(value), [])
  {
    hide Parse, Fields;
    var s := HitReply(key, flags, size, value);
    forall m | 0 <= m <= |s| ensures Parse(s[..m]) == if m == |s| then Hit(value) else More {
      HitPrefix(key, flags, size, value, m);
    }
    FeedSplit(s, Hit(value), [], chunks);
  }

  lemma SplitMiss(chunks: seq<Bytes>)
    requires Joined(chunks) == MissReply() && forall i :: 0 <= i < |chunks| ==> chunks[i] != []
    ensures Feed([], chunks) == (Miss, [])
  {
    hide Parse;
    var s := MissReply();
    forall m | 0 <= m <= |s| ensures Parse(s[..m]) == if m == |s| then Miss else More {
      MissPrefix(m);
    }
    FeedSplit(s, Miss, [], chunks);
  }

  // ------------------------------------------------- what the verdicts mean exactly

  /** The first line ends at h and announces n bytes. */
  ghost predicate Announces(s: Bytes, h: nat, n: int) {
    && h + 2 <= |s| && s[h] == CR && s[h + 1] == LF
    && (forall j :: 0 <= j < h ==> !(s[j] == CR && s[j + 1] == LF))
    && ScanHeader(s[..h]) == n && !(EndLine() <= s)
  }

  /** The parser reads the first line of every buffer. */
  lemma FirstLine(s: Bytes, h: nat, n: int)
    requires Announces(s, h, n)
    ensures HeaderEnd(s, 0) == h && Parse(s) == if n < 0 then Bad else Tail(s, h + 2, n)
    ensures Ideal(s) == if n < 0 then Bad else IdealTail(s, h + 2, n)
  {
    hide ScanHeader, HeaderEnd, Tail, IdealTail;
    HeaderEndAt(s, h, 0);
  }

  lemma NeedsLine(s: Bytes)
    requires !Parse(s).More? && !Parse(s).Miss?
    ensures Announces(s, HeaderEnd(s, 0), ScanHeader(s[..HeaderEnd(s, 0)]))
  {
    hide ScanHeader, Tail;
  }

  /** An announced value, its bytes, and the END line after them. */
  ghost predicate HitAt(s: Bytes, v: Bytes, h: nat) {
    Announces(s, h, |v|) && At(s, h + 2, v) && At(s, h + 2 + |v|, Crlf() + EndLine())
  }

  lemma AtJoin(s: Bytes, e: nat)
    ensures At(s, e, Crlf() + EndLine()) <==> At(s, e, Crlf()) && At(s, e + 2, EndLine())
  {
    if e + 7 <= |s| {
      var t := s[e..e + 7];
      assert t == s[e..e + 2] + s[e + 2..e + 7];
      assert t[..2] == s[e..e + 2] && t[2..] == s[e + 2..e + 7];
    }
    assert (Crlf() + EndLine())[..2] == Crlf() && (Crlf() + EndLine())[2..] == EndLine();
  }

  /** Behind the first CR LF, the tests look at a place where the sums have wrapped
      only for the announced length 2^64 - 2: no other wrapped place holds CR LF. */
  lemma WrappedPlace(s: Bytes, h: nat, n: nat)
    requires Announces(s, h, n) && |s| < LENGTH && h + 2 + n >= SIZE && At(s, (h + 2 + n) % SIZE, Crlf())
    ensures n == SIZE - 2
  {
    hide ScanHeader;
    var e := h + 2 + n - SIZE;
    ModSmall(h + 2 + n, e);
    assert s[e..e + 2][0] == s[e] && s[e..e + 2][1] == s[e + 1];
  }

  lemma ModSmall(x: nat, e: nat)
    requires x == SIZE + e && e < SIZE
    ensures x % SIZE == e
  {}

  /** The last tests with unbounded sums, as one would write them. */
  function IdealTail(s: Bytes, o: nat, n: nat): Verdict {
    if At(s, o + n, Crlf() + EndLine()) then Hit(s[o..o + n]) else More
  }

  /** Sums that do not wrap: the value and the line after it. */
  lemma TailFlat(s: Bytes, o: nat, n: nat)
    requires o + n + 7 < SIZE
    ensures Tail(s, o, n) == IdealTail(s, o, n)
  {
    NoWrap(o + n);
    AtJoin(s, o + n);
  }

  /** Sums that wrap. */
  lemma TailWrapped(s: Bytes, h: nat, n: nat)
    requires Announces(s, h, n) && |s| < LENGTH && h + 2 + n >= SIZE
    ensures Tail(s, h + 2, n) == if n == SIZE - 2 && At(s, h + 2, EndLine()) then Beyond(h + 2, LENGTH - 2) else More
  {
    hide ScanHeader;
    var e := h + 2 + n - SIZE;
    ModSmall(h + 2 + n, e);
    ModSmall(h + 4 + n, e + 2);
    ModSmall(h + 9 + n, e + 7);
    if n == SIZE - 2 {
      assert s[h..h + 2] == Crlf();
      assert n % LENGTH == LENGTH - 2;
    } else if At(s, e, Crlf()) {
      WrappedPlace(s, h, n);
    }
  }

  /** The outcomes of the tests, for a buffer whose length fits its field. */
  lemma TailCases(s: Bytes, h: nat, n: nat)
    requires Announces(s, h, n) && |s| < LENGTH
    ensures Tail(s, h + 2, n) ==
            if n == SIZE - (h + 3) || n == SIZE - (h + 4) then Astray
            else if n == SIZE - 2 && At(s, h + 2, EndLine()) then Beyond(h + 2, LENGTH - 2)
            else IdealTail(s, h + 2, n)
  {
    hide ScanHeader;
    var x := h + 2 + n;
    if x + 7 < SIZE {
      hide Tail, IdealTail, At;
      TailFlat(s, h + 2, n);
    } else if x + 2 < SIZE {
      hide Crlf, EndLine;
      assert (x + 2) % SIZE == x + 2;
    } else if x < SIZE {
      hide Crlf, EndLine;
      ModSmall(x + 2, x + 2 - SIZE);
    } else {
      hide Tail;
      TailWrapped(s, h, n);
    }
  }

  /** A hit is reported exactly for an announced value followed by the END line. */
  lemma HitExact(s: Bytes, v: Bytes)
    requires |s| < LENGTH
    ensures Parse(s) == Hit(v) <==> exists h: nat :: HitAt(s, v, h)
  {
    hide ScanHeader, HeaderEnd, Tail, Announces, Parse;
    if Parse(s) == Hit(v) {
      var h := HeaderEnd(s, 0);
      var n := ScanHeader(s[..h]);
      NeedsLine(s);
      FirstLine(s, h, n);
      TailCases(s, h, n);
      assert HitAt(s, v, h);
    }
    if h: nat :| HitAt(s, v, h) {
      FirstLine(s, h, |v|);
      TailCases(s, h, |v|);
    }
  }

  /** The announced length is 2^64 - 2, and the END line follows the header. */
  ghost predicate BeyondAt(s: Bytes, h: nat) { Announces(s, h, SIZE - 2) && At(s, h + 2, EndLine()) }

  /** A slice that does not lie in the buffer is handed over exactly when the length
      2^64 - 2 is announced and the END line follows the header. */
  lemma BeyondExact(s: Bytes)
    requires |s| < LENGTH
    ensures Parse(s).Beyond? <==> exists h: nat :: BeyondAt(s, h)
    ensures Parse(s).Beyond? ==> Parse(s).length == LENGTH - 2
  {
    hide ScanHeader, HeaderEnd, Tail, Announces, Parse;
    if Parse(s).Beyond? {
      var h := HeaderEnd(s, 0);
      var n := ScanHeader(s[..h]);
      NeedsLine(s);
      FirstLine(s, h, n);
      TailCases(s, h, n);
      assert BeyondAt(s, h);
    }
    if h: nat :| BeyondAt(s, h) {
      FirstLine(s, h, SIZE - 2);
      TailCases(s, h, SIZE - 2);
    }
  }

  ghost predicate AstrayAt(s: Bytes, h: nat) { Announces(s, h, SIZE - (h + 3)) || Announces(s, h, SIZE - (h + 4)) }

  /** Bytes before the buffer are compared exactly for these two announced lengths. */
  lemma AstrayExact(s: Bytes)
    requires |s| < LENGTH
    ensures Parse(s).Astray? <==> exists h: nat :: AstrayAt(s, h)
  {
    hide ScanHeader, HeaderEnd, Tail, Announces, Parse;
    if Parse(s).Astray? {
      var h := HeaderEnd(s, 0);
      var n := ScanHeader(s[..h]);
      NeedsLine(s);
      FirstLine(s, h, n);
      TailCases(s, h, n);
      assert AstrayAt(s, h);
    }
    if h: nat :| AstrayAt(s, h) {
      LineFits(s, h);
      var n := if Announces(s, h, SIZE - (h + 3)) then SIZE - (h + 3) else SIZE - (h + 4);
      FirstLine(s, h, n);
      TailCases(s, h, n);
    }
  }

  lemma LineFits(s: Bytes, h: nat)
    requires |s| < LENGTH && AstrayAt(s, h)
    ensures h + 2 < LENGTH
  {}

  /** Whatever the two bytes before the buffer are, those comparisons do not succeed,
      so the parser goes on reading. */
  lemma AstrayGoesOn(s: Bytes, h: nat, n: nat, before: Bytes)
    requires Announces(s, h, n) && |before| == 2 && (n == SIZE - (h + 3) || n == SIZE - (h + 4))
    ensures !At(before + s, h + 4 + n - SIZE, Crlf() + EndLine())
  {
    hide ScanHeader;
    var e, t := h + 4 + n - SIZE, before + s;
    AtJoin(t, e);
    assert s[0] == s[..h][0] == ValueWord()[0];
    assert |t| >= e + 2 ==> t[e..e + 2][1] == t[e + 1];
    assert |t| >= e + 7 ==> t[e + 2..e + 7] == s[e..e + 5];
  }

  /** The parser with unbounded sums. */
  function Ideal(s: Bytes): Verdict {
    if s == [] then More
    else if EndLine() <= s then Miss
    else
      var h := HeaderEnd(s, 0);
      if h == |s| then More
      else
        var n := ScanHeader(s[..h]);
        if n < 0 then Bad else IdealTail(s, h + 2, n)
  }

  /** They agree with the code for every announced length that does not make the sums
      wrap. */
  lemma IdealAgrees(s: Bytes)
    requires var h := HeaderEnd(s, 0); h < |s| ==> h + 9 + ScanHeader(s[..h]) < SIZE
    ensures Parse(s) == Ideal(s)
  {
    hide ScanHeader, HeaderEnd, Tail, IdealTail, EndLine;
    var h := HeaderEnd(s, 0);
    if h < |s| && ScanHeader(s[..h]) >= 0 {
      TailFlat(s, h + 2, ScanHeader(s[..h]));
    }
  }

  /** VALUE k 0 -2, CR LF and an END line. */
  function NegativeReply(): Bytes {
    ValueWord() + [SPACE, 107, SPACE, 48, SPACE, 45, 50] + Crlf() + EndLine()
  }

  /** A reply that announces -2 bytes is answered with 2^32 - 2 bytes from the END
      line on, where unbounded sums would wait for more. */
  lemma NegativeLength()
    ensures Parse(NegativeReply()) == Beyond(14, LENGTH - 2) && Ideal(NegativeReply()) == More
  {
    hide ScanHeader, HeaderEnd, Tail, Parse, Ideal, Announces;
    NegativeAnnounced();
    var s := NegativeReply();
    FirstLine(s, 12, SIZE - 2);
    assert At(s, 14, EndLine());
    TailCases(s, 12, SIZE - 2);
  }

  lemma NegativeAnnounced()
    ensures Announces(NegativeReply(), 12, SIZE - 2)
  {
    hide ScanHeader;
    var s := NegativeReply();
    var line := s[..12];
    assert line == ValueWord() + [SPACE, 107, SPACE, 48, SPACE, 45, 50];
    CStringAll(line);
    SkipOne(line, 5);
    WordEndAt(line, 6, 255, 1);
    SkipOne(line, 7);
    WordEndAt(line, 8, 31, 1);
    SkipOne(line, 9);
    NegativeTwo(line);
    ScanLine(line, 6, 7, 8, 9, 10);
  }

  /** The scan, given where its fields begin and end. */
  lemma ScanLine(s: Bytes, k: nat, ke: nat, f: nat, fe: nat, z: nat)
    requires CString(s) == s && ValueWord() <= s && k < ke <= f < fe <= z <= |s|
    requires SkipSpace(s, 5) == k && WordEnd(s, k, 255) == ke && SkipSpace(s, ke) == f && WordEnd(s, f, 31) == fe && SkipSpace(s, fe) == z
    ensures ScanHeader(s) == ScanSize(s, z)
  {}

  lemma NegativeTwo(line: Bytes)
    requires |line| == 12 && line[10] == 45 && line[11] == 50
    ensures ScanSize(line, 10) == SIZE - 2
  {
    DigitsEndAt(line, 11);
    assert line[11..12] == [50] && DigitValues([50]) == [2];
    assert [2][..0] == [];
    assert Horner(10, [2]) == 2;
  }
}
