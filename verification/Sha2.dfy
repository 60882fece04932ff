/** Streaming and padding of libs/crypto/sha2.c, with the compression function as
    a parameter.  Word size 4 gives SHA-256, word size 8 gives SHA-512. */
module Sha2 {
  import opened Arith
  import opened Limbs
  import opened Radix
  import opened Wrappers

  type Bytes = seq<uint8>
  type Compression = (seq<nat>, seq<nat>) -> seq<nat>

  predicate WordSize(w: nat) { w == 4 || w == 8 }

  // ---------------------------------------------------------- words and bytes

  /** Big-endian words of w bytes, and back. */
  function Words(w: nat, b: Bytes): seq<nat>
    requires w > 0
    decreases |b|
  {
    if |b| < w then [] else [Horner(256, b[..w])] + Words(w, b[w..])
  }

  function Unwords(w: nat, ws: seq<nat>): (b: Bytes)
    ensures |b| == w * |ws|
  {
    if ws == [] then [] else Fixed(w, ws[0]) + Unwords(w, ws[1..])
  }

  lemma {:induction false} WordsConcat(w: nat, x: Bytes, y: Bytes)
    requires w > 0 && |x| % w == 0
    ensures Words(w, x + y) == Words(w, x) + Words(w, y)
    decreases |x|
  {
    if |x| < w {
      SmallMultiple(|x|, w);
      assert x + y == y;
    } else {
      LessMultiple(|x|, w);
      WordsConcat(w, x[w..], y);
      assert (x + y)[..w] == x[..w] && (x + y)[w..] == x[w..] + y;
    }
  }

  lemma SmallMultiple(n: nat, w: nat)
    requires w > 0 && n < w && n % w == 0
    ensures n == 0
  {
    ModUnique(n, 0, n, w);
  }

  lemma LessMultiple(n: nat, w: nat)
    requires w > 0 && n >= w && n % w == 0
    ensures (n - w) % w == 0
  {
    Division(n, w);
    ModUnique(n - w, n / w - 1, 0, w);
  }

  /** A word that fits survives the round trip through bytes. */
  lemma {:induction false} WordsUnwords(w: nat, ws: seq<nat>)
    requires w > 0 && Below(ws, Range(w))
    ensures Words(w, Unwords(w, ws)) == ws
    decreases |ws|
  {
    hide Pow, Horner;
    if ws != [] {
      WordsUnwords(w, ws[1..]);
      FixedSpells(w, ws[0]);
      ModUnique(ws[0], 0, ws[0], Range(w));
      var b := Unwords(w, ws);
      assert b[..w] == Fixed(w, ws[0]) && b[w..] == Unwords(w, ws[1..]);
    }
  }

  // ------------------------------------------------------------ specification

  /** The compression function over all whole blocks of 16 words. */
  function Fold(f: Compression, w: nat, st: seq<nat>, b: Bytes): seq<nat>
    requires w > 0
    decreases |b|
  {
    if |b| < 16 * w then st else Fold(f, w, f(st, Words(w, b[..16 * w])), b[16 * w..])
  }

  /** How many zero bytes come between the end mark and the length. */
  function Zeros(w: nat, n: nat): nat
    requires w > 0
  {
    (14 * w - 1 - n) % (16 * w)
  }

  /** Sections 5.1.1 and 5.1.2 of FIPS 180-4, for whole bytes: a one bit, zeros, and
      the length in bits in two words. */
  function Padded(w: nat, m: Bytes): Bytes
    requires w > 0
  {
    m + [0x80] + Repeat<uint8>(0, Zeros(w, |m|)) + Fixed(2 * w, 8 * |m|)
  }

  /** The digest of a message. */
  function Digest(f: Compression, w: nat, iv: seq<nat>, m: Bytes): Bytes
    requires w > 0
  {
    Unwords(w, Fold(f, w, iv, Padded(w, m)))
  }

  lemma {:induction false} FoldConcat(f: Compression, w: nat, st: seq<nat>, x: Bytes, y: Bytes)
    requires w > 0 && |x| % (16 * w) == 0
    ensures Fold(f, w, st, x + y) == Fold(f, w, Fold(f, w, st, x), y)
    decreases |x|
  {
    if |x| < 16 * w {
      SmallMultiple(|x|, 16 * w);
      assert x + y == y;
    } else {
      LessMultiple(|x|, 16 * w);
      assert (x + y)[..16 * w] == x[..16 * w] && (x + y)[16 * w..] == x[16 * w..] + y;
      FoldConcat(f, w, f(st, Words(w, x[..16 * w])), x[16 * w..], y);
    }
  }

  lemma FoldBlock(f: Compression, w: nat, st: seq<nat>, b: Bytes)
    requires w > 0 && |b| == 16 * w
    ensures Fold(f, w, st, b) == f(st, Words(w, b))
  {
    assert b[..16 * w] == b;
  }

  // -------------------------------------------------------- host byte order

  function Backward(b: Bytes): (r: Bytes)
    ensures |r| == |b|
  {
    if b == [] then [] else Backward(b[1..]) + [b[0]]
  }

  /** Every word with its bytes in the opposite order. */
  function Swapped(w: nat, b: Bytes): (r: Bytes)
    requires w > 0
    ensures |r| == |b|
    decreases |b|
  {
    if |b| < w then b else Backward(b[..w]) + Swapped(w, b[w..])
  }

  /** The words a little-endian host reads from memory. */
  function HostWords(w: nat, b: Bytes): seq<nat>
    requires w > 0
    decreases |b|
  {
    if |b| < w then [] else [Horner(256, Backward(b[..w]))] + HostWords(w, b[w..])
  }

  lemma {:induction false} BackwardPush(b: Bytes, x: uint8)
    ensures Backward(b + [x]) == [x] + Backward(b)
  {
    if b != [] {
      assert (b + [x])[1..] == b[1..] + [x];
      BackwardPush(b[1..], x);
    }
  }

  lemma {:induction false} BackwardTwice(b: Bytes)
    ensures Backward(Backward(b)) == b
  {
    if b != [] {
      BackwardTwice(b[1..]);
      BackwardPush(Backward(b[1..]), b[0]);
    }
  }

  lemma {:induction false} BackwardAt(b: Bytes, k: nat)
    requires k < |b|
    ensures Backward(b)[k] == b[|b| - 1 - k]
  {
    if k < |b| - 1 { BackwardAt(b[1..], k); }
  }

  /** On such a host the words of the swapped bytes are the big-endian words. */
  lemma {:induction false} HostOrderWords(w: nat, b: Bytes)
    requires w > 0
    ensures HostWords(w, Swapped(w, b)) == Words(w, b)
    decreases |b|
  {
    if |b| >= w {
      var x, y := Backward(b[..w]), Swapped(w, b[w..]);
      assert (x + y)[..w] == x && (x + y)[w..] == y;
      BackwardTwice(b[..w]);
      HostOrderWords(w, b[w..]);
    }
  }

  lemma {:induction false} SwappedPush(w: nat, x: Bytes, y: Bytes)
    requires w > 0 && |x| % w == 0 && |y| == w
    ensures Swapped(w, x + y) == Swapped(w, x) + Backward(y)
    decreases |x|
  {
    if x == [] {
      assert x + y == y && y[..w] == y && y[w..] == [];
    } else {
      WholeWord(|x|, w);
      assert (x + y)[..w] == x[..w] && (x + y)[w..] == x[w..] + y;
      SwappedPush(w, x[w..], y);
    }
  }

  lemma WholeWord(n: nat, w: nat)
    requires w > 0 && n > 0 && n % w == 0
    ensures n >= w && (n - w) % w == 0
  {
    var q := n / w;
    assert n == w * q;
    if q >= 1 { MulLe(1, q, w); }
    assert n - w == (q - 1) * w + 0;
    ModUnique(n - w, q - 1, 0, w);
  }

  // ---------------------------------------------------------------- the context

  /** The bytes of a message past its last whole block. */
  function Fill(w: nat, n: nat): (r: nat)
    requires w > 0
    ensures r <= n && r < 16 * w
  {
    Division(n, 16 * w);
    n % (16 * w)
  }

  /** A hash context on a little-endian host: the words of the buffer are turned to
      host order before every transform. */
  class Context {
    const f: Compression
    const w: nat
    const buffer: array<uint8>
    var state: seq<nat>
    var low: uint64
    var high: uint64

    /** The counter of message bits: one 64-bit word, or two. */
    ghost function Bits(): int
      reads this
    {
      if w == 4 then low else low + high * 0x1_0000_0000_0000_0000
    }

    ghost predicate Valid()
      reads this
    {
      WordSize(w) && buffer.Length == 16 * w
    }

    /** Everything hashed so far is m, starting from the chaining value iv. */
    ghost predicate Holds(iv: seq<nat>, m: Bytes)
      reads this, buffer
    {
      && Valid() && Bits() == (8 * |m|) % Range(2 * w)
      && var n := Fill(w, |m|);
      && state == Fold(f, w, iv, m[..|m| - n]) && buffer[..n] == m[|m| - n..]
    }

    constructor (f: Compression, w: nat, iv: seq<nat>)
      requires WordSize(w)
      ensures this.f == f && this.w == w && fresh(buffer) && Holds(iv, []) && state == iv
    {
      this.f := f;
      this.w := w;
      buffer := new uint8[16 * w](_ => 0);
      state, low, high := iv, 0, 0;
      new;
    }

    /** The counter grows by n bits, with a carry into the second word. */
    method AddBits(n: uint64)
      requires Valid() && n < 0x1_0000_0000
      modifies this`low, this`high
      ensures Bits() == (old(Bits()) + n) % Range(2 * w)
    {
      var old0 := low;
      low := (low as int + n) % 0x1_0000_0000_0000_0000;
      CountRange();
      if w == 8 && low < n {
        high := (high as int + 1) % 0x1_0000_0000_0000_0000;
      }
      CarryCount(old0, old(high), n, low, high);
    }

    /** Copies data to the buffer from a given place. */
    method CopyIn(at: nat, data: Bytes)
      requires at + |data| <= buffer.Length
      modifies buffer
      ensures buffer[..] == old(buffer[..at]) + data + old(buffer[at + |data|..])
    {
      for i := 0 to |data|
        invariant forall k :: 0 <= k < buffer.Length ==>
                    buffer[k] == if at <= k < at + i then data[k - at] else old(buffer[k])
      {
        buffer[at + i] := data[i];
      }
    }

    /** Turns the bytes of one word around. */
    method ReverseWord(at: nat)
      requires Valid() && at + w <= buffer.Length
      modifies buffer
      ensures buffer[..] == old(buffer[..at]) + Backward(old(buffer[at..at + w])) + old(buffer[at + w..])
    {
      hide Backward;
      ghost var was := buffer[at..at + w];
      var word := buffer[at..at + w];
      for i := 0 to w
        invariant forall k :: 0 <= k < buffer.Length ==>
                    buffer[k] == if at <= k < at + i then word[w - 1 - (k - at)] else old(buffer[k])
      {
        buffer[at + i] := word[w - 1 - i];
      }
      forall k | 0 <= k < w ensures Backward(was)[k] == buffer[at + k] {
        BackwardAt(was, k);
      }
      assert buffer[at..at + w] == Backward(was) && buffer[..at] == old(buffer[..at]) && buffer[at + w..] == old(buffer[at + w..]);
      assert buffer[..] == buffer[..at] + buffer[at..at + w] + buffer[at + w..];
    }

    /** Turns the first words of the buffer to host order, in place. */
    method ToHostOrder(count: nat)
      requires Valid() && count <= 16
      modifies buffer
      ensures w * count <= buffer.Length && HostWords(w, buffer[..w * count]) == Words(w, old(buffer[..w * count]))
    {
      hide Backward, Swapped, HostWords, Words;
      ghost var was := buffer[..];
      MulLe(count, 16, w);
      SwappedNone(w);
      for j := 0 to count
        invariant 0 <= w * j <= w * count && buffer[w * j..] == was[w * j..]
        invariant buffer[..w * j] == Swapped(w, was[..w * j])
      {
        WordPlace(w, j, count);
        ghost var x, y := was[..w * j], was[w * j..w * j + w];
        assert was[..w * (j + 1)] == x + y && buffer[w * j..w * j + w] == y;
        SwappedPush(w, x, y);
        ReverseWord(w * j);
        assert buffer[..w * (j + 1)] == Swapped(w, x) + Backward(y);
        assert buffer[w * (j + 1)..] == was[w * (j + 1)..];
      }
      HostOrderWords(w, was[..w * count]);
    }

    /** The bytes waiting in the buffer. */
    method UsedSpace(ghost iv: seq<nat>, ghost m: Bytes) returns (n: nat)
      requires Holds(iv, m)
      ensures n == Fill(w, |m|)
    {
      CountRange();
      UsedCount(|m|, low, if w == 4 then 0 else high, w);
      n := (low / 8) as int % (16 * w);
    }

    /** Adds data that leaves the buffer short of a block. */
    method AddPart(n: nat, data: Bytes, ghost iv: seq<nat>, ghost m: Bytes)
      requires Holds(iv, m) && n == Fill(w, |m|) && n + |data| < 16 * w
      modifies this`low, this`high, buffer
      ensures Holds(iv, m + data)
    {
      hide Fold, Range;
      PartJoins(w, m, data);
      CountJoins(|m|, |data|, w);
      CopyIn(n, data);
      AddBits(8 * |data|);
      assert buffer[..n + |data|] == old(buffer[..n]) + data;
    }

    /** Completes a block and transforms it. */
    method AddBlock(n: nat, data: Bytes, ghost iv: seq<nat>, ghost m: Bytes)
      requires Holds(iv, m) && n == Fill(w, |m|) && n + |data| == 16 * w
      modifies this, buffer
      ensures Holds(iv, m + data) && Fill(w, |m + data|) == 0
    {
      hide Fold, Range;
      BlockJoins(f, w, iv, m, data);
      CountJoins(|m|, |data|, w);
      CopyIn(n, data);
      AddBits(8 * |data|);
      assert buffer[..] == old(buffer[..n]) + data;
      assert buffer[..w * 16] == buffer[..];
      ToHostOrder(16);
      assert buffer[..w * 16] == buffer[..];
      state := f(state, HostWords(w, buffer[..]));
      assert buffer[..0] == (m + data)[|m + data|..];
    }

    /** Adds data of any length. */
    method Update(data: Bytes, ghost iv: seq<nat>, ghost m: Bytes)
      requires Holds(iv, m)
      modifies this, buffer
      ensures Holds(iv, m + data)
    {
      hide Holds;
      if data == [] {
        assert m + data == m;
        return;
      }
      HoldsValid(iv, m);
      var used := UsedSpace(iv, m);
      var rest := data;
      ghost var done := m;
      if used > 0 {
        var space := 16 * w - used;
        if |data| < space {
          AddPart(used, data, iv, m);
          return;
        }
        AddBlock(used, data[..space], iv, m);
        rest, done := data[space..], m + data[..space];
      }
      while |rest| >= 16 * w
        invariant WordSize(w) && Holds(iv, done) && Fill(w, |done|) == 0 && done + rest == m + data
        decreases |rest|
      {
        AddBlock(0, rest[..16 * w], iv, done);
        rest, done := rest[16 * w..], done + rest[..16 * w];
      }
      if |rest| > 0 {
        AddPart(0, rest, iv, done);
      } else {
        assert done == m + data;
      }
    }

    /** Clears the buffer from one place up to another. */
    method Clear(from: nat, to: nat)
      requires from <= to <= buffer.Length
      modifies buffer
      ensures buffer[..] == old(buffer[..from]) + Repeat<uint8>(0, to - from) + old(buffer[to..])
    {
      for i := from to to
        invariant forall k :: 0 <= k < buffer.Length ==>
                    buffer[k] == if from <= k < i then 0 else old(buffer[k])
      {
        buffer[i] := 0;
      }
    }

    /** Sets the end mark; if the length has no room after it, fills the block up
        and transforms it. */
    method Mark(ghost iv: seq<nat>, ghost m: Bytes) returns (used: nat)
      requires Holds(iv, m)
      modifies this`state, buffer
      ensures var n := Fill(w, |m|);
              var marked := m[|m| - n..] + [0x80];
              if n + 1 > 14 * w then
                used == 0 && state == f(Fold(f, w, iv, m[..|m| - n]), Words(w, marked + Repeat<uint8>(0, 16 * w - (n + 1))))
              else used == n + 1 && state == old(state) && buffer[..used] == marked
    {
      hide Fold, Range, Words;
      used := UsedSpace(iv, m);
      ghost var tail := m[|m| - used..];
      buffer[used] := 0x80;
      assert buffer[..used + 1] == tail + [0x80];
      used := used + 1;
      if used > 14 * w {
        Clear(used, 16 * w);
        assert buffer[..] == tail + [0x80] + Repeat<uint8>(0, 16 * w - used);
        assert buffer[..w * 16] == buffer[..];
        ToHostOrder(16);
        assert buffer[..w * 16] == buffer[..];
        state := f(state, HostWords(w, buffer[..]));
        used := 0;
      }
    }

    /** Pads the message, in one block or in two, and returns the digest. */
    method Final(ghost iv: seq<nat>, ghost m: Bytes) returns (digest: Bytes)
      requires Holds(iv, m)
      modifies this, buffer
      ensures digest == Digest(f, w, iv, m)
    {
      hide Fold, Range, Words, Unwords, Padded;
      var used := Mark(iv, m);
      ghost var marked := buffer[..used];
      Clear(used, 14 * w);
      assert buffer[..14 * w] == marked + Repeat<uint8>(0, 14 * w - used);
      assert used == 0 ==> buffer[..14 * w] == Repeat<uint8>(0, 14 * w);
      LongTail(f, w, iv, m);
      var hi, lo := if w == 4 then (low / 0x1_0000_0000) as int else high, if w == 4 then (low % 0x1_0000_0000) as int else low;
      LengthWords(w, 8 * |m|, low, high, hi, lo);
      ToHostOrder(14);
      state := f(state, HostWords(w, buffer[..14 * w]) + [hi, lo]);
      digest := Unwords(w, state);
    }

    lemma HoldsValid(iv: seq<nat>, m: Bytes)
      requires Holds(iv, m)
      ensures Valid()
    {}
  }

  lemma SwappedNone(w: nat)
    requires w > 0
    ensures Swapped(w, []) == []
  {}

  lemma WordPlace(w: nat, j: nat, count: nat)
    requires w > 0 && j < count
    ensures w * j + w == w * (j + 1) <= w * count && (w * j) % w == 0
  {
    MulLe(j + 1, count, w);
    ModUnique(w * j, j, 0, w);
  }

  lemma CountRange()
    ensures Range(8) == 0x1_0000_0000_0000_0000 && Range(16) == 0x1_0000_0000_0000_0000 * 0x1_0000_0000_0000_0000
  {
    hide Pow;
    assert Pow(256, 4) == 0x1_0000_0000 by {
      PowDef(256, 0);
      PowDef(256, 1);
      PowDef(256, 2);
      PowDef(256, 3);
    }
    PowAdd(256, 4, 4);
    PowAdd(256, 8, 8);
  }

  /** Adding with the carry test of ADDINC128 is addition modulo 2^128. */
  lemma CarryCount(low: nat, high: nat, n: nat, low': nat, high': nat)
    requires low < 0x1_0000_0000_0000_0000 && high < 0x1_0000_0000_0000_0000 && n < 0x1_0000_0000
    requires low' == (low + n) % 0x1_0000_0000_0000_0000
    ensures high' == (if low' < n then (high + 1) % 0x1_0000_0000_0000_0000 else high) ==>
              low' + high' * 0x1_0000_0000_0000_0000
              == (low + high * 0x1_0000_0000_0000_0000 + n) % (0x1_0000_0000_0000_0000 * 0x1_0000_0000_0000_0000)
  {}

  lemma UsedCount(n: nat, low: nat, high: nat, w: nat)
    requires WordSize(w) && low < 0x1_0000_0000_0000_0000
    requires low + high * 0x1_0000_0000_0000_0000 == (8 * n) % Range(2 * w) && (w == 4 ==> high == 0)
    ensures (low / 8) % (16 * w) == n % (16 * w)
  {
    hide Pow;
    CountRange();
    var p := Range(2 * w);
    Division(8 * n, p);
    var k := 8 * n / p;
    if w == 4 {
      assert low / 8 == n - k * 0x2000_0000_0000_0000;
      ModUnique(low / 8, n / 64 - k * 0x80_0000_0000_0000, n % 64, 64);
    } else {
      var j := k * 0x1_0000_0000_0000_0000 + high;
      assert 8 * n == j * 0x1_0000_0000_0000_0000 + low;
      assert low / 8 == n - j * 0x2000_0000_0000_0000;
      ModUnique(low / 8, n / 128 - j * 0x40_0000_0000_0000, n % 128, 128);
    }
  }

  lemma CountJoins(n: nat, d: nat, w: nat)
    ensures ((8 * n) % Range(2 * w) + 8 * d) % Range(2 * w) == (8 * (n + d)) % Range(2 * w)
  {
    AddMod(8 * n, 8 * d, Range(2 * w));
  }

  lemma AddMod(a: nat, b: nat, p: nat)
    requires p > 0
    ensures (a % p + b) % p == (a + b) % p
  {
    var c := a % p + b;
    Division(a, p);
    Division(c, p);
    AddParts(a / p, c / p, p);
    ModUnique(a + b, a / p + c / p, c % p, p);
  }

  lemma AddParts(x: int, y: int, p: int)
    ensures (x + y) * p == p * x + p * y
  {}

  lemma PartJoins(w: nat, m: Bytes, data: Bytes)
    requires w > 0 && Fill(w, |m|) + |data| < 16 * w
    ensures var n := Fill(w, |m|);
            Fill(w, |m + data|) == n + |data| && (m + data)[..|m| - n] == m[..|m| - n]
            && (m + data)[|m| - n..] == m[|m| - n..] + data
  {
    var b, n := 16 * w, Fill(w, |m|);
    Division(|m|, b);
    ModUnique(|m| + |data|, |m| / b, n + |data|, b);
  }

  lemma BlockJoins(f: Compression, w: nat, iv: seq<nat>, m: Bytes, data: Bytes)
    requires w > 0 && Fill(w, |m|) + |data| == 16 * w
    ensures var n := Fill(w, |m|);
            Fill(w, |m + data|) == 0
            && Fold(f, w, iv, (m + data)[..|m + data|]) == f(Fold(f, w, iv, m[..|m| - n]), Words(w, m[|m| - n..] + data))
  {
    hide Fold;
    var b, n := 16 * w, Fill(w, |m|);
    Division(|m|, b);
    ModUnique(|m| + |data|, |m| / b + 1, 0, b);
    ModUnique(|m| - n, |m| / b, 0, b);
    assert (m + data)[..|m + data|] == m[..|m| - n] + (m[|m| - n..] + data);
    FoldConcat(f, w, iv, m[..|m| - n], m[|m| - n..] + data);
    FoldBlock(f, w, Fold(f, w, iv, m[..|m| - n]), m[|m| - n..] + data);
  }

  lemma {:induction false} FixedSplit(a: nat, b: nat, v: nat)
    ensures Fixed(a + b, v) == Fixed(a, v / Range(b)) + Fixed(b, v)
    decreases b
  {
    hide Pow;
    PowDef(256, 0);
    if b > 0 {
      FixedSplit(a, b - 1, v / 256);
      PowDef(256, b - 1);
      DivTwice(v, Range(b - 1));
      assert a + b - 1 == a + (b - 1);
    }
  }

  lemma DivTwice(v: nat, p: nat)
    requires p > 0
    ensures (v / 256) / p == v / (256 * p)
  {
    var q := v / 256;
    Division(q, p);
    ByteParts(v, q, q / p, q % p, p);
    ModUnique(v, q / p, 256 * (q % p) + v % 256, 256 * p);
  }

  /** The length field as the two last words of a block. */
  lemma LengthField(w: nat, x: Bytes, v: nat)
    requires w > 0 && |x| == 14 * w
    ensures Words(w, x + Fixed(2 * w, v)) == Words(w, x) + [v / Range(w) % Range(w), v % Range(w)]
  {
    hide Pow, Range, Horner, Fixed;
    FixedSplit(w, w, v);
    var u := v / Range(w);
    FixedSpells(w, u);
    FixedSpells(w, v);
    ModUnique(14 * w, 14, 0, w);
    WordsConcat(w, x, Fixed(2 * w, v));
    TwoWords(w, Fixed(w, u), Fixed(w, v));
  }

  lemma TwoWords(w: nat, a: Bytes, b: Bytes)
    requires w > 0 && |a| == |b| == w
    ensures Words(w, a + b) == [Horner(256, a), Horner(256, b)]
  {
    hide Horner;
    assert (a + b)[..w] == a && (a + b)[w..] == b && b[..w] == b && b[w..] == [];
    assert Words(w, b) == [Horner(256, b)] + Words(w, b[w..]);
  }

  lemma SplitCount(v: nat, k: nat, p: nat, hi: nat, lo: nat)
    requires v == (p * p) * k + (hi * p + lo) && hi < p && lo < p
    ensures v / p % p == hi && v % p == lo
  {
    assert (p * p) * k == (k * p) * p;
    assert (k * p + hi) * p == (k * p) * p + hi * p;
    ModUnique(v, k * p + hi, lo, p);
    ModUnique(k * p + hi, k, hi, p);
  }

  /** The two words the code takes from its bit counter. */
  lemma LengthWords(w: nat, v: nat, low: nat, high: nat, hi: nat, lo: nat)
    requires WordSize(w) && low < 0x1_0000_0000_0000_0000 && high < 0x1_0000_0000_0000_0000
    requires (if w == 4 then low else low + high * 0x1_0000_0000_0000_0000) == v % Range(2 * w)
    requires hi == (if w == 4 then low / 0x1_0000_0000 else high) && lo == (if w == 4 then low % 0x1_0000_0000 else low)
    ensures hi == v / Range(w) % Range(w) && lo == v % Range(w)
  {
    hide Pow;
    WordRange();
    PowAdd(256, w, w);
    Division(v, Range(2 * w));
    SplitCount(v, v / Range(2 * w), Range(w), hi, lo);
  }

  lemma WordRange()
    ensures Range(4) == 0x1_0000_0000 && Range(8) == 0x1_0000_0000_0000_0000
  {
    CountRange();
    PowAdd(256, 4, 4);
    assert Pow(256, 4) == 0x1_0000_0000;
  }

  /** The padded message from its last partial block on: one block or two. */
  lemma LongTail(f: Compression, w: nat, iv: seq<nat>, m: Bytes)
    requires w > 0
    ensures var n := Fill(w, |m|);
            var tail, start := m[|m| - n..], Fold(f, w, iv, m[..|m| - n]);
            var field := [8 * |m| / Range(w) % Range(w), 8 * |m| % Range(w)];
            Fold(f, w, iv, Padded(w, m)) ==
              if n + 1 > 14 * w then
                f(f(start, Words(w, tail + [0x80] + Repeat<uint8>(0, 16 * w - (n + 1)))), Words(w, Repeat<uint8>(0, 14 * w)) + field)
              else f(start, Words(w, tail + [0x80] + Repeat<uint8>(0, 14 * w - (n + 1))) + field)
  {
    hide Fold, Range, Words, Fixed;
    var n, b := Fill(w, |m|), 16 * w;
    var tail, x := m[|m| - n..], m[..|m| - n];
    var len := Fixed(2 * w, 8 * |m|);
    Division(|m|, b);
    ModUnique(|m| - n, |m| / b, 0, b);
    ZerosNeeded(w, |m|);
    if n + 1 > 14 * w {
      var one, two := tail + [0x80] + Repeat<uint8>(0, 16 * w - (n + 1)), Repeat<uint8>(0, 14 * w) + len;
      assert Repeat<uint8>(0, Zeros(w, |m|)) == Repeat<uint8>(0, 16 * w - (n + 1)) + Repeat<uint8>(0, 14 * w);
      assert Padded(w, m) == x + (one + two);
      FoldConcat(f, w, iv, x, one + two);
      ModUnique(b, 1, 0, b);
      FoldConcat(f, w, Fold(f, w, iv, x), one, two);
      FoldBlock(f, w, Fold(f, w, iv, x), one);
      FoldBlock(f, w, Fold(f, w, Fold(f, w, iv, x), one), two);
      LengthField(w, Repeat<uint8>(0, 14 * w), 8 * |m|);
    } else {
      var one := tail + [0x80] + Repeat<uint8>(0, 14 * w - (n + 1));
      assert Padded(w, m) == x + (one + len);
      FoldConcat(f, w, iv, x, one + len);
      FoldBlock(f, w, Fold(f, w, iv, x), one + len);
      LengthField(w, one, 8 * |m|);
    }
  }

  lemma ZerosNeeded(w: nat, len: nat)
    requires w > 0
    ensures var n := Fill(w, len); Zeros(w, len) == if n + 1 > 14 * w then 30 * w - (n + 1) else 14 * w - (n + 1)
  {
    var b, n := 16 * w, Fill(w, len);
    Division(len, b);
    var q := len / b;
    assert q * b == b * q;
    assert -q * b == -(q * b) && (-q - 1) * b == -(q * b) - b;
    if n + 1 > 14 * w {
      ModUnique(14 * w - 1 - len, -q - 1, 30 * w - (n + 1), b);
    } else {
      ModUnique(14 * w - 1 - len, -q, 14 * w - (n + 1), b);
    }
  }

  // ------------------------------------------------------------ cut messages

  /** Any sequence of updates gives the digest of the whole message. */
  method HashChunks(f: Compression, w: nat, iv: seq<nat>, chunks: seq<Bytes>) returns (digest: Bytes)
    requires WordSize(w)
    ensures digest == Digest(f, w, iv, Joined(chunks))
  {
    hide Digest;
    var ctx := new Context(f, w, iv);
    ghost var m := [];
    var rest := chunks;
    while rest != []
      invariant fresh(ctx) && fresh(ctx.buffer) && ctx.f == f && ctx.w == w && ctx.Holds(iv, m)
      invariant m + Joined(rest) == Joined(chunks)
      decreases |rest|
    {
      ctx.Update(rest[0], iv, m);
      m := m + rest[0];
      rest := rest[1..];
    }
    assert m == Joined(chunks);
    digest := ctx.Final(iv, m);
  }
}
