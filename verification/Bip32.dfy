/** Child key derivation of libs/crypto/bip32.c.  HMAC-SHA512 is a parameter. */
module Bip32 {
  import opened Arith
  import opened Limbs
  import opened Bignum
  import opened Field
  import opened Affine
  import opened Curve
  import opened Scalar
  import opened Bytes
  import opened PublicKey
  import opened Ecdsa
  import opened Wrappers

  type Octets = seq<uint8>
  type Mac = (Octets, Octets) -> Octets

  const HARDENED: nat := 0x8000_0000

  ghost predicate MacOk(mac: Mac) {
    forall k: Octets, d: Octets :: |mac(k, d)| == 64
  }

  // ------------------------------------------------------------ specification

  /** The left half of a MAC as a number. */
  function Left(I: Octets): nat
    requires |I| == 64
  {
    BeVal(I[..32])
  }

  /** The first acceptable MAC and the number of tries before it.  The retry feeds
      the right half back in; limit bounds the tries. */
  function Search(mac: Mac, chain: Octets, data: Octets, index: Octets, ok: Octets -> bool, limit: nat, t: nat): (r: Option<(Octets, nat)>)
    requires forall k: Octets, d: Octets :: |mac(k, d)| == 64
    ensures r.Some? ==> |r.value.0| == 64 && ok(r.value.0) && t <= r.value.1 < t + limit
    decreases limit
  {
    if limit == 0 then None
    else
      var I := mac(chain, data + index);
      if ok(I) then Some((I, t)) else Search(mac, chain, [1] + I[32..], index, ok, limit - 1, t + 1)
  }

  lemma SearchNext(mac: Mac, chain: Octets, data: Octets, index: Octets, ok: Octets -> bool, limit: nat, t: nat)
    requires MacOk(mac)
    ensures Search(mac, chain, data, index, ok, 0, t) == None
    ensures limit > 0 ==>
              var I := mac(chain, data + index);
              Search(mac, chain, data, index, ok, limit, t) ==
                if ok(I) then Some((I, t)) else Search(mac, chain, [1] + I[32..], index, ok, limit - 1, t + 1)
  {}

  /** The MAC of try u. */
  function NthMac(mac: Mac, chain: Octets, data: Octets, index: Octets, u: nat): Octets
    requires forall k: Octets, d: Octets :: |mac(k, d)| == 64
    decreases u
  {
    var I := mac(chain, data + index);
    if u == 0 then I else NthMac(mac, chain, [1] + I[32..], index, u - 1)
  }

  /** The search stops at the first acceptable MAC among the tries it has, and finds
      none exactly if none of them is acceptable. */
  lemma {:induction false} SearchFirst(mac: Mac, chain: Octets, data: Octets, index: Octets, ok: Octets -> bool, limit: nat, t: nat)
    requires MacOk(mac)
    ensures match Search(mac, chain, data, index, ok, limit, t)
            case None => forall u :: 0 <= u < limit ==> !ok(NthMac(mac, chain, data, index, u))
            case Some(r) => r.0 == NthMac(mac, chain, data, index, r.1 - t) && forall u :: 0 <= u < r.1 - t ==> !ok(NthMac(mac, chain, data, index, u))
    decreases limit
  {
    if limit > 0 {
      var I := mac(chain, data + index);
      if !ok(I) {
        var next := [1] + I[32..];
        SearchFirst(mac, chain, next, index, ok, limit - 1, t + 1);
        NthNext(mac, chain, data, index);
      }
    }
  }

  lemma NthNext(mac: Mac, chain: Octets, data: Octets, index: Octets)
    requires MacOk(mac)
    ensures var I := mac(chain, data + index);
            && NthMac(mac, chain, data, index, 0) == I
            && forall u: nat :: u > 0 ==> NthMac(mac, chain, data, index, u) == NthMac(mac, chain, [1] + I[32..], index, u - 1)
  {}

  /** What is found with some tries is found with more: the limit never decides the
      result of the endless loop. */
  lemma {:induction false} SearchLonger(mac: Mac, chain: Octets, data: Octets, index: Octets, ok: Octets -> bool, limit: nat, more: nat, t: nat)
    requires MacOk(mac) && limit <= more && Search(mac, chain, data, index, ok, limit, t).Some?
    ensures Search(mac, chain, data, index, ok, more, t) == Search(mac, chain, data, index, ok, limit, t)
    decreases limit
  {
    var I := mac(chain, data + index);
    if !ok(I) {
      SearchLonger(mac, chain, [1] + I[32..], index, ok, limit - 1, more - 1, t + 1);
    }
  }

  /** A MAC the private derivation accepts for the key a. */
  ghost function PrivateOk(n: int, a: int): Octets -> bool
    requires n > 0
  {
    (I: Octets) => |I| == 64 && Left(I) < n && (Left(I) + a) % n != 0
  }

  /** A MAC the public derivation accepts for the key a G. */
  ghost function PublicOk(g: int -> Aff, n: int, a: int): Octets -> bool {
    (I: Octets) => |I| == 64 && Left(I) < n && g(Left(I) + a).Pt?
  }

  /** The two derivations accept the same MACs. */
  lemma SameMacs(g: int -> Aff, n: int, a: int, b: int, p: int, key: int, I: Octets)
    requires CyclicGroup(g, n, a, b, p)
    ensures n > 0 && PrivateOk(n, key)(I) == PublicOk(g, n, key)(I)
  {
    hide CyclicGroup, BeVal;
    GroupAt(g, n, a, b, p, 0);
    if |I| == 64 {
      var x := Left(I) + key;
      GroupAt(g, n, a, b, p, x);
      CongMod(x, 0, n);
      ModUnique(0, 0, 0, n);
    }
  }

  /** So they stop after the same number of tries with the same MAC. */
  lemma {:induction false} SameSearch(mac: Mac, chain: Octets, data: Octets, index: Octets, x: Octets -> bool, y: Octets -> bool, limit: nat, t: nat)
    requires MacOk(mac) && forall I: Octets :: x(I) == y(I)
    ensures Search(mac, chain, data, index, x, limit, t) == Search(mac, chain, data, index, y, limit, t)
    decreases limit
  {
    if limit > 0 {
      var I := mac(chain, data + index);
      assert x(I) == y(I);
      if !x(I) {
        SameSearch(mac, chain, [1] + I[32..], index, x, y, limit - 1, t + 1);
      }
    }
  }

  /** The 33 bytes of a compressed point. */
  ghost predicate Compressed(Q: Aff, pub: Octets) {
    Q.Pt? && |pub| == 33 && pub[0] == 2 + Q.y % 2 && BeVal(pub[1..]) == Q.x
  }

  lemma CompressedUnique(Q: Aff, x: Octets, y: Octets)
    requires Compressed(Q, x) && Compressed(Q, y)
    ensures x == y
  {
    BeInjective(x[1..], y[1..]);
    assert x == [x[0]] + x[1..] && y == [y[0]] + y[1..];
  }

  // ------------------------------------------------------------------ the keys

  /** The compressed form of a finite point. */
  method Compress(P: Point, ghost p: int) returns (pub: Octets)
    requires ARange(P.x, P.y, p) && p <= P256 && AffOf(P.x, P.y).Pt?
    ensures Compressed(AffOf(P.x, P.y), pub)
  {
    hide Norm, Val, BeVal;
    ValSum(P.y);
    var x := WriteBe(P.x);
    pub := [2 + P.y[0] % 2] + x;
    assert pub[1..] == x;
  }

  method GetPublicKey33(c: EcdsaCurve, cp: seq<seq<Coords>>, priv: Octets, z: Limbs9, ghost g: int -> Aff) returns (code: int, pub: Octets)
    requires Setting(g, c, cp) && |priv| == 32 && Norm(z) && InRange(Val(z), Val(c.prime))
    ensures |pub| == 33
    ensures if InRange(BeVal(priv), Val(c.order)) then code == 0 && Compressed(g(BeVal(priv)), pub)
            else code == -1 && forall i :: 0 <= i < 33 ==> pub[i] == 0
  {
    hide Norm, Val, Cong, Prime, PrimeField, CyclicGroup, RootCurve, PowerTable, Cofactor1, BeVal, AffOf;
    ghost var p, n := Val(c.prime), Val(c.order);
    PrimeFits(c.prime, p);
    PrimeFits(c.order, n);
    var k := ReadBe(priv);
    var bad := IsInvalidScalar(k, c.order);
    if bad {
      return -1, seq(33, _ => 0);
    }
    SmallNonZero(Val(k), n);
    GroupAt(g, n, c.a, Val(c.b), p, Val(k));
    var R := new Point(Zero9, Zero9);
    var r := ScalarMultiply(c, k, cp, R, z, g);
    pub := Compress(R, p);
    code := 0;
  }

  /** One try of the private derivation: the child key if the MAC is acceptable. */
  method TryPrivate(c: EcdsaCurve, key: Octets, I: Octets) returns (ok: bool, child: Octets)
    requires PrimeField(c.order, Val(c.order)) && |key| == 32 && InRange(BeVal(key), Val(c.order)) && |I| == 64
    ensures Val(c.order) > 0 && ok == PrivateOk(Val(c.order), BeVal(key))(I)
    ensures ok ==> |child| == 32 && BeVal(child) == (Left(I) + BeVal(key)) % Val(c.order)
  {
    hide Norm, Val, Prime, PrimeField, BeVal;
    ghost var n := Val(c.order);
    PrimeFits(c.order, n);
    child := [];
    var a := ReadBe(key);
    var b := ReadBe(I[..32]);
    var bn := Copy(b);
    var on := Copy(c.order);
    var less := IsLess(bn, on);
    if !less {
      return false, [];
    }
    ValBound(b);
    ghost var sum := Left(I) + BeVal(key);
    var an := Copy(a);
    Add(bn, an);
    Mod(bn, on);
    ModUnique(sum, if sum < n then 0 else 1, if sum < n then sum else sum - n, n);
    ValBound(bn.val);
    var zero := IsZero(bn);
    if zero {
      return false, [];
    }
    child := WriteBe(bn.val);
    ok := true;
  }

  /** The retry loop of the private derivation. */
  method SearchPrivate(c: EcdsaCurve, key: Octets, chain: Octets, data: Octets, tail: Octets, mac: Mac, limit: nat)
    returns (ok: bool, child: Octets, I: Octets)
    requires PrimeField(c.order, Val(c.order)) && |key| == 32 && InRange(BeVal(key), Val(c.order)) && MacOk(mac)
    ensures Val(c.order) > 0
    ensures var r := Search(mac, chain, data, tail, PrivateOk(Val(c.order), BeVal(key)), limit, 0);
            ok == r.Some? && (ok ==> I == r.value.0 && |child| == 32 && BeVal(child) == (Left(I) + BeVal(key)) % Val(c.order))
  {
    hide Val, BeVal, PrimeField, Left, Search, PrivateOk;
    ghost var n, a := Val(c.order), BeVal(key);
    PrimeFits(c.order, n);
    var head := data;
    for t := 0 to limit
      invariant Search(mac, chain, data, tail, PrivateOk(n, a), limit, 0) == Search(mac, chain, head, tail, PrivateOk(n, a), limit - t, t)
    {
      SearchNext(mac, chain, head, tail, PrivateOk(n, a), limit - t, t);
      I := mac(chain, head + tail);
      ok, child := TryPrivate(c, key, I);
      if ok {
        return;
      }
      head := [1] + I[32..];
    }
    SearchNext(mac, chain, head, tail, PrivateOk(n, a), 0, limit);
    return false, [], [];
  }

  /** What a derivation leaves in a node: the child's number and depth. */
  function NextDepth(depth: uint32): uint32 { (depth as int + 1) % 0x1_0000_0000 }

  /** A private node: a valid key, and a public key that is unset or right. */
  ghost predicate PrivateNode(n: int, g: int -> Aff, chain: Octets, key: Octets, pub: Octets) {
    |chain| == 32 && |key| == 32 && |pub| == 33 && InRange(BeVal(key), n) && (pub[0] == 0 || Compressed(g(BeVal(key)), pub))
  }

  /** data is what a child's first MAC is taken over, before the index. */
  ghost predicate FirstData(g: int -> Aff, i: uint32, key: Octets, data: Octets) {
    if i >= HARDENED then data == [0] + key else Compressed(g(BeVal(key)), data)
  }

  /** The child of a private key and chain code: the key plus the left half of the
      first acceptable MAC, and its right half. */
  ghost predicate PrivateChild(n: int, mac: Mac, i: uint32, limit: nat, data: Octets, chain: Octets, key: Octets,
                               ok: bool, chain': Octets, key': Octets)
    requires MacOk(mac) && n > 0
  {
    var r := Search(mac, chain, data, WordBytes(i), PrivateOk(n, BeVal(key)), limit, 0);
    ok == r.Some? && (ok ==> |key'| == 32 && BeVal(key') == (Left(r.value.0) + BeVal(key)) % n && chain' == r.value.0[32..])
  }

  // --------------------------------------------------------- public derivation

  /** One try of the public derivation: child = parent + Left(I) G if that is a
      point. */
  method TryPublic(c: EcdsaCurve, cp: seq<seq<Coords>>, parent: Point, I: Octets, child: Point, z: Limbs9, ghost g: int -> Aff, ghost key: int)
    returns (ok: bool)
    requires Setting(g, c, cp) && Norm(z) && InRange(Val(z), Val(c.prime)) && |I| == 64
    requires parent != child && Holds(parent, g, key, Val(c.prime))
    modifies child
    ensures ok == PublicOk(g, Val(c.order), key)(I)
    ensures ok ==> Holds(child, g, Left(I) + key, Val(c.prime))
  {
    hide Norm, Val, Cong, Prime, PrimeField, CyclicGroup, RootCurve, PowerTable, Cofactor1, BeVal, AffOf, ARange;
    PrimeFits(c.order, Val(c.order));
    var k := ReadBe(I[..32]);
    var kn := Copy(k);
    var on := Copy(c.order);
    var less := IsLess(kn, on);
    if !less {
      return false;
    }
    ValBound(k);
    var r := ScalarMultiply(c, k, cp, child, z, g);
    AddMultiples(parent, child, c, g, key, Val(k));
    NormOf(child, Val(c.prime));
    var inf := IsInfinity(child);
    ok := !inf;
  }

  lemma NormOf(P: Point, p: int)
    requires ARange(P.x, P.y, p)
    ensures Norm(P.x) && Norm(P.y)
  {}

  /** The child of a public key and chain code. */
  ghost predicate PublicChild(g: int -> Aff, n: int, mac: Mac, i: uint32, limit: nat, data: Octets, chain: Octets, key: int,
                              ok: bool, chain': Octets, child: Aff)
    requires MacOk(mac)
  {
    var r := Search(mac, chain, data, WordBytes(i), PublicOk(g, n, key), limit, 0);
    ok == (i < HARDENED && r.Some?) && (ok ==> child == g(Left(r.value.0) + key) && child.Pt? && chain' == r.value.0[32..])
  }

  method PublicCkdPoint(c: EcdsaCurve, cp: seq<seq<Coords>>, parent: Point, chain: Octets, i: uint32, child: Point,
                        mac: Mac, zs: seq<Limbs9>, ghost g: int -> Aff, ghost key: int)
    returns (ok: bool, childChain: Octets, ghost data: Octets)
    requires Setting(g, c, cp) && MacOk(mac) && (forall t :: 0 <= t < |zs| ==> Norm(zs[t]) && InRange(Val(zs[t]), Val(c.prime)))
    requires parent != child && Holds(parent, g, key, Val(c.prime)) && g(key).Pt?
    modifies child
    ensures Compressed(g(key), data)
    ensures PublicChild(g, Val(c.order), mac, i, |zs|, data, chain, key, ok, childChain, AffOf(child.x, child.y))
    ensures ok ==> ARange(child.x, child.y, Val(c.prime))
  {
    hide Setting, Norm, Val, BeVal, Left, AffOf, ARange, Compressed, WordBytes, Search;
    PrimeBound(c, cp, g);
    var head := Compress(parent, Val(c.prime));
    data := head;
    if i >= HARDENED {
      return false, [], data;
    }
    var tail := WordBytes(i);
    for t := 0 to |zs|
      invariant Holds(parent, g, key, Val(c.prime))
      invariant Search(mac, chain, data, tail, PublicOk(g, Val(c.order), key), |zs|, 0)
             == Search(mac, chain, head, tail, PublicOk(g, Val(c.order), key), |zs| - t, t)
    {
      SearchNext(mac, chain, head, tail, PublicOk(g, Val(c.order), key), |zs| - t, t);
      var I := mac(chain, head + tail);
      ok := TryPublic(c, cp, parent, I, child, zs[t], g, key);
      if ok {
        return true, I[32..], data;
      }
      head := [1] + I[32..];
    }
    SearchNext(mac, chain, head, tail, PublicOk(g, Val(c.order), key), 0, |zs|);
    return false, [], data;
  }

  lemma PrimeBound(c: EcdsaCurve, cp: seq<seq<Coords>>, g: int -> Aff)
    requires Setting(g, c, cp)
    ensures Val(c.prime) <= P256
  {
    PrimeFits(c.prime, Val(c.prime));
  }

  /** A node of the tree, on a curve with parameters. */
  class HDNode {
    var depth: uint32
    var childNum: uint32
    var chainCode: Octets
    var privateKey: Octets
    var publicKey: Octets

    ghost predicate Private(n: int, g: int -> Aff)
      reads this
    {
      PrivateNode(n, g, chainCode, privateKey, publicKey)
    }

    method FillPublicKey(c: EcdsaCurve, cp: seq<seq<Coords>>, z: Limbs9, ghost g: int -> Aff) returns (code: int)
      requires Setting(g, c, cp) && Norm(z) && InRange(Val(z), Val(c.prime)) && Private(Val(c.order), g)
      modifies this`publicKey
      ensures code == 0 && Private(Val(c.order), g) && Compressed(g(BeVal(privateKey)), publicKey)
    {
      hide Setting, Norm, Val, BeVal;
      if publicKey[0] != 0 {
        return 0;
      }
      code, publicKey := GetPublicKey33(c, cp, privateKey, z, g);
    }

    /** Private derivation, with at most limit tries. */
    method PrivateCkd(c: EcdsaCurve, cp: seq<seq<Coords>>, i: uint32, mac: Mac, limit: nat, z: Limbs9, ghost g: int -> Aff)
      returns (ok: bool, ghost data: Octets)
      requires Setting(g, c, cp) && Norm(z) && InRange(Val(z), Val(c.prime)) && Private(Val(c.order), g) && MacOk(mac)
      modifies this
      ensures Val(c.order) > 0 && FirstData(g, i, old(privateKey), data)
      ensures PrivateChild(Val(c.order), mac, i, limit, data, old(chainCode), old(privateKey), ok, chainCode, privateKey)
      ensures ok ==> Private(Val(c.order), g) && publicKey == seq(33, _ => 0) && childNum == i && depth == NextDepth(old(depth))
    {
      hide Setting, Norm, Val, BeVal, PrimeField, Compressed, WordBytes, Left, Search;
      OrderPrime(c, cp, g);
      ghost var n := Val(c.order);
      var head: Octets;
      if i >= HARDENED {
        head := [0] + privateKey;
      } else {
        var code := FillPublicKey(c, cp, z, g);
        head := publicKey;
      }
      data := head;
      var child, I;
      ok, child, I := SearchPrivate(c, privateKey, chainCode, head, WordBytes(i), mac, limit);
      if ok {
        ModRange(Left(I) + BeVal(privateKey), n);
        privateKey := child;
        chainCode := I[32..];
        depth := NextDepth(depth);
        childNum := i;
        publicKey := seq(33, _ => 0);
      }
    }

    /** Public derivation, with a try for each of the given random numbers: fails on
        an invalid key, and otherwise derives from the scalar key that names it.  A key
        marked as uncompressed is read on into the bytes behind it in the node. */
    method PublicCkd(c: EcdsaCurve, cp: seq<seq<Coords>>, i: uint32, mac: Mac, zs: seq<Limbs9>, behind: Octets, ghost g: int -> Aff)
      returns (ok: bool, ghost key: int, ghost data: Octets)
      requires Setting(g, c, cp) && MacOk(mac) && (forall t :: 0 <= t < |zs| ==> Norm(zs[t]) && InRange(Val(zs[t]), Val(c.prime)))
      requires |publicKey| == 33 && |behind| == 32
      modifies this
      ensures (forall Q: Aff :: !PubEncodes(old(publicKey) + behind, Q, c)) ==> !ok
      ensures forall Q: Aff :: PubEncodes(old(publicKey) + behind, Q, c) ==>
                && Q == g(key) && Compressed(Q, data)
                && exists child: Aff ::
                     && PublicChild(g, Val(c.order), mac, i, |zs|, data, old(chainCode), key, ok, chainCode, child)
                     && (ok ==> Compressed(child, publicKey))
      ensures ok ==> childNum == i && depth == NextDepth(old(depth)) && privateKey == seq(32, _ => 0)
      ensures !ok ==> chainCode == old(chainCode)
    {
      hide Norm, Val, BeVal, Compressed, AffOf, WordBytes, Left, RootCurve, PubEncodes, Search, Multiples, PowerTable, PrimeField;
      data, key := [], 0;
      PrimeBound(c, cp, g);
      var parent := new Point(Zero9, Zero9);
      var child := new Point(Zero9, Zero9);
      var read := ReadPubkey(c, publicKey + behind, parent);
      if !read {
        return false, key, data;
      }
      ghost var P := AffOf(parent.x, parent.y);
      EncodesValid(publicKey + behind, P, c);
      key :| g(key) == P;
      var chain;
      ok, chain, data := PublicCkdPoint(c, cp, parent, chainCode, i, child, mac, zs, g, key);
      ghost var Q := AffOf(child.x, child.y);
      assert PublicChild(g, Val(c.order), mac, i, |zs|, data, chainCode, key, ok, chain, Q);
      if ok {
        chainCode := chain;
        privateKey := seq(32, _ => 0);
        depth := NextDepth(depth);
        childNum := i;
        publicKey := Compress(child, Val(c.prime));
      } else {
        assert PublicChild(g, Val(c.order), mac, i, |zs|, data, chainCode, key, ok, chainCode, Q);
      }
    }
  }

  lemma CompressedMark(Q: Aff, pub: Octets)
    requires Compressed(Q, pub)
    ensures |pub| == 33 && pub[0] != 4 && Q.Pt?
  {}

  lemma CompressedEncodes(c: EcdsaCurve, cp: seq<seq<Coords>>, g: int -> Aff, key: int, pub: Octets, behind: Octets)
    requires Setting(g, c, cp) && Compressed(g(key), pub)
    ensures PubEncodes(pub + behind, g(key), c) && RootCurve(c)
  {
    hide CyclicGroup, BeVal, OnCurve;
    GroupAt(g, Val(c.order), c.a, Val(c.b), Val(c.prime), key);
    assert (pub + behind)[1..33] == pub[1..];
  }

  lemma ModRange(x: int, n: int)
    requires n > 0
    ensures 0 <= x % n < n
  {}

  lemma OrderPrime(c: EcdsaCurve, cp: seq<seq<Coords>>, g: int -> Aff)
    requires Setting(g, c, cp)
    ensures PrimeField(c.order, Val(c.order)) && Val(c.order) > 0
  {
    PrimeFits(c.order, Val(c.order));
  }

  // ------------------------------------------------------- the commuting diagram

  /** Scalars of the same point accept the same MACs and lead to the same child. */
  lemma SameKey(g: int -> Aff, n: int, a: int, b: int, p: int, x: int, y: int, I: Octets)
    requires CyclicGroup(g, n, a, b, p) && g(x) == g(y)
    ensures PublicOk(g, n, x)(I) == PublicOk(g, n, y)(I)
    ensures |I| == 64 ==> g(Left(I) + x) == g(Left(I) + y)
  {
    hide CyclicGroup, Cong, BeVal;
    if |I| == 64 {
      GroupInjective(g, n, a, b, p, x, y);
      CongRefl(Left(I), n);
      CongAdd(Left(I), Left(I), x, y, n);
      GroupPeriod(g, n, a, b, p, Left(I) + x, Left(I) + y);
    }
  }

  /** Private and public derivation of the same key find the same MAC after the same
      number of retries. */
  lemma SearchesAgree(g: int -> Aff, n: int, a: int, b: int, p: int, mac: Mac, chain: Octets, data: Octets, tail: Octets, x: int, y: int, limit: nat)
    requires CyclicGroup(g, n, a, b, p) && MacOk(mac) && g(x) == g(y)
    ensures n > 0 && Search(mac, chain, data, tail, PrivateOk(n, x), limit, 0) == Search(mac, chain, data, tail, PublicOk(g, n, y), limit, 0)
  {
    hide CyclicGroup, PrivateOk, PublicOk;
    forall I: Octets ensures n > 0 && PrivateOk(n, x)(I) == PublicOk(g, n, y)(I) {
      SameMacs(g, n, a, b, p, x, I);
      SameKey(g, n, a, b, p, x, y, I);
    }
    var none: Octets := [];
    SameMacs(g, n, a, b, p, x, none);
    SameSearch(mac, chain, data, tail, PrivateOk(n, x), PublicOk(g, n, y), limit, 0);
  }

  /** The private child's point is the public child. */
  lemma ChildrenAgree(g: int -> Aff, n: int, a: int, b: int, p: int, I: Octets, x: int, y: int)
    requires CyclicGroup(g, n, a, b, p) && |I| == 64 && g(x) == g(y)
    ensures n > 0 && g((Left(I) + x) % n) == g(Left(I) + y)
  {
    hide CyclicGroup, Cong, BeVal;
    GroupAt(g, n, a, b, p, 0);
    SameKey(g, n, a, b, p, x, y, I);
    CongModSelf(Left(I) + x, n);
    GroupPeriod(g, n, a, b, p, (Left(I) + x) % n, Left(I) + x);
  }

  /** For every index that is not hardened, deriving the private child and taking
      its public key gives what deriving from the public key gives. */
  method DeriveBothWays(prv: HDNode, pub: HDNode, c: EcdsaCurve, cp: seq<seq<Coords>>, i: uint32, mac: Mac, zs: seq<Limbs9>, behind: Octets, z: Limbs9, ghost g: int -> Aff)
    returns (ok1: bool, ok2: bool)
    requires prv != pub && Setting(g, c, cp) && MacOk(mac) && Norm(z) && InRange(Val(z), Val(c.prime))
    requires forall t :: 0 <= t < |zs| ==> Norm(zs[t]) && InRange(Val(zs[t]), Val(c.prime))
    requires prv.Private(Val(c.order), g) && Compressed(g(BeVal(prv.privateKey)), pub.publicKey)
    requires pub.chainCode == prv.chainCode && pub.depth == prv.depth && i < HARDENED && |behind| == 32
    modifies prv, pub
    ensures ok1 == ok2
    ensures ok1 ==> prv.publicKey == pub.publicKey && prv.chainCode == pub.chainCode && prv.depth == pub.depth && prv.childNum == pub.childNum
  {
    hide Norm, Val, BeVal, Compressed, PubEncodes, PrivateOk, PublicOk, Left, WordBytes, RootCurve, PowerTable, Cofactor1, CyclicGroup, PrimeField, Search;
    ghost var n, a, b, p := Val(c.order), c.a, Val(c.b), Val(c.prime);
    ghost var x := BeVal(prv.privateKey);
    ghost var chain := prv.chainCode;
    CompressedEncodes(c, cp, g, x, pub.publicKey, behind);
    CompressedMark(g(x), pub.publicKey);
    ghost var d1, d2, y;
    ok1, d1 := prv.PrivateCkd(c, cp, i, mac, |zs|, z, g);
    ok2, y, d2 := pub.PublicCkd(c, cp, i, mac, zs, behind, g);
    CompressedUnique(g(x), d1, d2);
    SearchesAgree(g, n, a, b, p, mac, chain, d1, WordBytes(i), x, y, |zs|);
    if ok1 {
      ghost var r := Search(mac, chain, d1, WordBytes(i), PrivateOk(n, x), |zs|, 0);
      ChildrenAgree(g, n, a, b, p, r.value.0, x, y);
      var code := prv.FillPublicKey(c, cp, z, g);
      CompressedUnique(g(BeVal(prv.privateKey)), prv.publicKey, pub.publicKey);
    }
  }
}
