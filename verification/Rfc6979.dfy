/** The nonces of libs/crypto/rfc6979.c and signing with them. */
module Rfc6979 {
  import opened Arith
  import opened Limbs
  import opened Bignum
  import opened Affine
  import opened Field
  import opened Scalar
  import opened Bytes
  import opened Radix
  import opened Ecdsa
  import Drbg = HmacDrbg
  import Sha2

  // ------------------------------------------------------------ specification

  /** The state before candidate i in step h of section 3.2 of RFC 6979: after each
      candidate that is not taken, K and V are stepped. */
  ghost function Before(f: Sha2.Compression, iv: seq<nat>, s: Drbg.Gen, i: nat): (r: Drbg.Gen)
    requires Drbg.GenOk(s) && Drbg.HashOk(f, iv)
    ensures Drbg.GenOk(r)
    decreases i
  {
    if i == 0 then s
    else
      Drbg.HmacLength(f, iv, s.K, s.V);
      Before(f, iv, Drbg.Stepped(f, iv, Drbg.NextV(f, iv, s)), i - 1)
  }

  /** Candidate i: the next V, as a number. */
  ghost function Candidate(f: Sha2.Compression, iv: seq<nat>, s: Drbg.Gen, i: nat): nat
    requires Drbg.GenOk(s) && Drbg.HashOk(f, iv)
  {
    BeVal(Drbg.NextV(f, iv, Before(f, iv, s, i)).V)
  }

  /** The seed of steps d and f: the key and the digest reduced modulo the order. */
  ghost function Seed(n: int, priv: seq<uint8>, digest: seq<uint8>): seq<uint8>
    requires n > 0
  {
    priv + Fixed(32, BeVal(digest) % n)
  }

  // ----------------------------------------------------- the generator's outputs

  lemma OneBlock(f: Sha2.Compression, iv: seq<nat>, s: Drbg.Gen)
    requires Drbg.GenOk(s) && Drbg.HashOk(f, iv)
    ensures Drbg.Output(f, iv, s, 32) == Drbg.NextV(f, iv, s).V && |Drbg.NextV(f, iv, s).V| == 32
    ensures Drbg.Advanced(f, iv, s, Drbg.Rounds(32)) == Drbg.NextV(f, iv, s)
  {
    hide Drbg.Hmac, Drbg.HashOk;
    Drbg.HmacLength(f, iv, s.K, s.V);
    var a := Drbg.NextV(f, iv, s);
    assert Drbg.Advanced(f, iv, a, 0) == a;
    assert Drbg.Advanced(f, iv, s, 1) == Drbg.Advanced(f, iv, a, 0);
    assert Drbg.Stream(f, iv, a, 0) == [];
    assert Drbg.Stream(f, iv, s, 1) == a.V + Drbg.Stream(f, iv, a, 0);
  }

  function Lengths(count: nat): seq<nat> { seq(count, _ => 32) }

  lemma {:induction false} OutputsAre(f: Sha2.Compression, iv: seq<nat>, s: Drbg.Gen, count: nat, i: nat)
    requires Drbg.GenOk(s) && Drbg.HashOk(f, iv) && i < count
    ensures var outs := Drbg.Outputs(f, iv, s, Lengths(count));
            |outs| == count && outs[i] == Drbg.NextV(f, iv, Before(f, iv, s, i)).V && |outs[i]| == 32
    decreases count
  {
    hide Drbg.Hmac, Drbg.HashOk, Drbg.Output, Drbg.Advanced, Drbg.Stepped;
    var lens := Lengths(count);
    assert lens[1..] == Lengths(count - 1);
    OneBlock(f, iv, s);
    var next := Drbg.Stepped(f, iv, Drbg.NextV(f, iv, s));
    if i > 0 {
      OutputsAre(f, iv, next, count - 1, i - 1);
    } else {
      OutputsCount(f, iv, next, Lengths(count - 1));
    }
  }

  lemma {:induction false} OutputsCount(f: Sha2.Compression, iv: seq<nat>, s: Drbg.Gen, lens: seq<nat>)
    requires Drbg.GenOk(s) && Drbg.HashOk(f, iv)
    ensures |Drbg.Outputs(f, iv, s, lens)| == |lens|
    decreases |lens|
  {
    hide Drbg.HashOk, Drbg.Output, Drbg.Advanced, Drbg.Stepped;
    if lens != [] {
      OutputsCount(f, iv, Drbg.Stepped(f, iv, Drbg.Advanced(f, iv, s, Drbg.Rounds(lens[0]))), lens[1..]);
    }
  }

  // --------------------------------------------------------------- the program

  /** The digest reduced by one conditional subtraction, as 32 bytes. */
  method ReducedDigest(c: EcdsaCurve, digest: seq<uint8>) returns (r: seq<uint8>)
    requires PrimeField(c.order, Val(c.order)) && |digest| == 32
    ensures Val(c.order) > 0 && r == Fixed(32, BeVal(digest) % Val(c.order))
  {
    hide Norm, Val, BeVal, Prime, PrimeField, Fixed;
    PrimeFits(c.order, Val(c.order));
    var h := ReadBe(digest);
    var hn := Copy(h);
    var on := Copy(c.order);
    ghost var x, n := Val(h), Val(c.order);
    Mod(hn, on);
    ModUnique(x, if x < n then 0 else 1, if x < n then x else x - n, n);
    ValBound(hn.val);
    r := WriteBe(hn.val);
    SpellBytes(r);
  }

  /** init_rfc6979, and count calls of generate_k_rfc6979. */
  method Nonces(c: EcdsaCurve, priv: seq<uint8>, digest: seq<uint8>, count: nat, f: Sha2.Compression, iv: seq<nat>) returns (ks: seq<Limbs9>)
    requires PrimeField(c.order, Val(c.order)) && |priv| == 32 && |digest| == 32 && Drbg.HashOk(f, iv)
    ensures |ks| == count && Val(c.order) > 0
    ensures forall i :: 0 <= i < count ==>
              Norm(ks[i]) && Val(ks[i]) == Candidate(f, iv, Drbg.Seeded(f, iv, Seed(Val(c.order), priv, digest)), i)
  {
    hide Norm, Val, BeVal, PrimeField, Fixed, Drbg.HashOk, Drbg.Seeded, Drbg.Outputs, Drbg.NextV, Before;
    var reduced := ReducedDigest(c, digest);
    var outs := Drbg.Session(f, iv, priv, reduced, Lengths(count));
    ghost var start := Drbg.Seeded(f, iv, Seed(Val(c.order), priv, digest));
    OutputsCount(f, iv, start, Lengths(count));
    ks := [];
    for i := 0 to count
      invariant |ks| == i
      invariant forall j :: 0 <= j < i ==> Norm(ks[j]) && Val(ks[j]) == Candidate(f, iv, start, j)
    {
      OutputsAre(f, iv, start, count, i);
      var k := ReadBe(outs[i]);
      ks := ks + [k];
    }
  }

  /** The attempts of a signing: nonces from the generator, the other random numbers
      from outside. */
  ghost predicate Drawn(tries: seq<Attempt>, f: Sha2.Compression, iv: seq<nat>, s: Drbg.Gen)
    requires Drbg.GenOk(s) && Drbg.HashOk(f, iv)
  {
    |tries| == 10000 && forall i :: 0 <= i < |tries| ==> Val(tries[i].nonce) == Candidate(f, iv, s, i)
  }

  /** ecdsa_sign_digest with the deterministic nonces: the first candidate of RFC 6979
      that is not skipped decides, and the signature is the one it determines. */
  method Sign(c: EcdsaCurve, cp: seq<seq<Coords>>, priv: seq<uint8>, digest: seq<uint8>, randoms: seq<(Limbs9, Limbs9)>,
              isCanonical: (int, seq<uint8>) -> bool, f: Sha2.Compression, iv: seq<nat>, ghost g: int -> Aff)
    returns (ret: int, sig: seq<uint8>, recid: int, ghost tries: seq<Attempt>, ghost used: nat)
    requires Setting(g, c, cp) && |priv| == 32 && |digest| == 32 && Drbg.HashOk(f, iv)
    requires |randoms| == 10000 && forall i :: 0 <= i < 10000 ==>
               && Norm(randoms[i].0) && InRange(Val(randoms[i].0), Val(c.order))
               && Norm(randoms[i].1) && InRange(Val(randoms[i].1), Val(c.prime))
    ensures Val(c.order) > 0 && Drawn(tries, f, iv, Drbg.Seeded(f, iv, Seed(Val(c.order), priv, digest)))
    ensures ret == 0 || ret == 1 || ret == 2 || ret == -1
    ensures ret == 1 <==> BeVal(digest) == 0
    ensures ret == -1 <==> BeVal(digest) != 0 && AllSkipped(g, Val(c.order), BeVal(priv), BeVal(digest), tries, isCanonical)
    ensures ret == 2 <==> BeVal(digest) != 0 && !InRange(BeVal(priv), Val(c.order))
                          && exists i :: 0 <= i < |tries| && NonceUsable(g, Val(c.order), Val(tries[i].nonce))
    ensures ret == 0 ==> InRange(BeVal(priv), Val(c.order)) && isCanonical(recid, sig)
    ensures ret == 0 || ret == 2 ==> FirstOpen(g, Val(c.order), BeVal(priv), BeVal(digest), tries, isCanonical, used)
    ensures ret == 0 ==> GoodSignature(g, Val(c.order), BeVal(priv), BeVal(digest),
                                       Candidate(f, iv, Drbg.Seeded(f, iv, Seed(Val(c.order), priv, digest)), used), sig, recid)
  {
    hide Norm, Val, BeVal, Multiples, PowerTable, Cofactor1, PrimeField, Drbg.HashOk, Drbg.Seeded, Candidate, Seed, AllSkipped, Skipped, GoodSignature;
    var ks := Nonces(c, priv, digest, 10000, f, iv);
    var all := seq(10000, i requires 0 <= i < |ks| && 0 <= i < |randoms| => Attempt(ks[i], randoms[i].0, randoms[i].1));
    tries := all;
    ret, sig, recid, used := SignDigest(c, cp, priv, digest, all, isCanonical, g);
  }

  /** Attempts with the same nonces are skipped alike. */
  lemma SkippedAlike(g: int -> Aff, n: int, d: int, z: int, x: seq<Attempt>, y: seq<Attempt>, isCanonical: (int, seq<uint8>) -> bool)
    requires n > 0 && |x| == |y| && (forall i :: 0 <= i < |x| ==> Val(x[i].nonce) == Val(y[i].nonce))
    requires AllSkipped(g, n, d, z, x, isCanonical)
    ensures AllSkipped(g, n, d, z, y, isCanonical)
  {
    hide Skipped, Val;
    forall i | 0 <= i < |y| ensures Skipped(g, n, d, z, Val(y[i].nonce), isCanonical) {
      assert Val(x[i].nonce) == Val(y[i].nonce);
    }
  }

  lemma NotLater(g: int -> Aff, n: int, d: int, z: int, x: seq<Attempt>, y: seq<Attempt>, isCanonical: (int, seq<uint8>) -> bool, i: nat, j: nat)
    requires n > 0 && |x| == |y| && (forall k :: 0 <= k < |x| ==> Val(x[k].nonce) == Val(y[k].nonce))
    requires FirstOpen(g, n, d, z, x, isCanonical, i) && FirstOpen(g, n, d, z, y, isCanonical, j)
    ensures i >= j
  {
    hide Skipped, Val;
    var front := y[..j];
    assert forall k :: 0 <= k < |front| ==> front[k] == y[k];
    assert Val(x[i].nonce) == Val(y[i].nonce);
  }

  /** The random numbers that blind the computation change nothing: key and digest
      determine the result. */
  method SignTwice(c: EcdsaCurve, cp: seq<seq<Coords>>, priv: seq<uint8>, digest: seq<uint8>, randoms: seq<(Limbs9, Limbs9)>, others: seq<(Limbs9, Limbs9)>,
                   isCanonical: (int, seq<uint8>) -> bool, f: Sha2.Compression, iv: seq<nat>, ghost g: int -> Aff)
    returns (ret: int, sig: seq<uint8>, recid: int, ret': int, sig': seq<uint8>, recid': int)
    requires Setting(g, c, cp) && |priv| == 32 && |digest| == 32 && Drbg.HashOk(f, iv)
    requires |randoms| == |others| == 10000 && forall i :: 0 <= i < 10000 ==>
               && Norm(randoms[i].0) && InRange(Val(randoms[i].0), Val(c.order)) && Norm(randoms[i].1) && InRange(Val(randoms[i].1), Val(c.prime))
               && Norm(others[i].0) && InRange(Val(others[i].0), Val(c.order)) && Norm(others[i].1) && InRange(Val(others[i].1), Val(c.prime))
    ensures ret == ret' && (ret == 0 ==> sig == sig' && recid == recid')
  {
    hide Norm, Val, BeVal, Setting, Prime, Drbg.HashOk, Drbg.Seeded, Candidate, Seed, AllSkipped, FirstOpen, GoodSignature;
    OrderPositive(g, c, cp);
    ghost var x, y, i, j;
    ret, sig, recid, x, i := Sign(c, cp, priv, digest, randoms, isCanonical, f, iv, g);
    ret', sig', recid', y, j := Sign(c, cp, priv, digest, others, isCanonical, f, iv, g);
    ghost var n, d, z := Val(c.order), BeVal(priv), BeVal(digest);
    if ret == -1 { SkippedAlike(g, n, d, z, x, y, isCanonical); }
    if ret' == -1 { SkippedAlike(g, n, d, z, y, x, isCanonical); }
    if ret == 0 {
      NotLater(g, n, d, z, x, y, isCanonical, i, j);
      NotLater(g, n, d, z, y, x, isCanonical, j, i);
      ghost var k := Candidate(f, iv, Drbg.Seeded(f, iv, Seed(n, priv, digest)), i);
      SignatureUnique(g, n, d, z, k, sig, recid, sig', recid');
    }
  }
}
