/** Nodes as values: the children that hdnode_private_ckd gives, the derivation along a
    path, and what the cache of derived parents gives for them. */
module Bip32Tree {
  import opened Arith
  import opened Limbs
  import opened Affine
  import opened Curve
  import opened Scalar
  import opened Bytes
  import opened Radix
  import opened Ecdsa
  import opened Bip32
  import opened Bip32Cache
  import opened Wrappers

  datatype Node = Node(depth: uint32, childNum: uint32, chain: Octets, key: Octets, pub: Octets)

  // ------------------------------------------------------------ keys as bytes

  ghost function PublicOf(Q: Aff): Octets {
    if Q.Pt? && Q.x >= 0 then [2 + Q.y % 2] + Fixed(32, Q.x) else []
  }

  lemma PublicOfCompressed(Q: Aff, p: int)
    requires Holdable(Q, p) && Q.Pt? && p <= P256
    ensures Compressed(Q, PublicOf(Q))
  {
    hide BeVal;
    Pow256Bytes();
    FixedVal(32, Q.x);
    assert PublicOf(Q)[1..] == Fixed(32, Q.x);
  }

  // ------------------------------------------------------------------ children

  /** The order of the curve, the multiples of its base point, the MAC and the tries
      of each derivation. */
  datatype Tree = Tree(n: int, g: int -> Aff, mac: Mac, limit: nat)

  ghost predicate Rooted(t: Tree) { t.n > 0 && MacOk(t.mac) }

  ghost predicate Proper(t: Tree, x: Node) { PrivateNode(t.n, t.g, x.chain, x.key, x.pub) }

  ghost function First(t: Tree, x: Node, i: uint32): Octets {
    if i >= HARDENED then [0] + x.key else PublicOf(t.g(BeVal(x.key)))
  }

  /** The child of a node, if its key is valid and an acceptable MAC is found. */
  ghost function Child(t: Tree, x: Node, i: uint32): Option<Node>
    requires Rooted(t)
  {
    if !Proper(t, x) then None
    else
      match Search(t.mac, x.chain, First(t, x, i), WordBytes(i), PrivateOk(t.n, BeVal(x.key)), t.limit, 0)
      case None => None
      case Some(r) =>
        Some(Node(NextDepth(x.depth), i, r.0[32..], Fixed(32, (Left(r.0) + BeVal(x.key)) % t.n), seq(33, _ => 0)))
  }

  /** A node with its public key completed. */
  ghost function Filled(t: Tree, x: Node): Node {
    if Proper(t, x) && x.pub[0] == 0 then x.(pub := PublicOf(t.g(BeVal(x.key)))) else x
  }

  /** The setting of a tree on a curve. */
  ghost predicate Grows(t: Tree, c: EcdsaCurve, cp: seq<seq<Coords>>) {
    Setting(t.g, c, cp) && MacOk(t.mac) && t.n == Val(c.order) && t.n > 0
  }

  lemma KeyPoint(t: Tree, c: EcdsaCurve, cp: seq<seq<Coords>>, key: Octets)
    requires Grows(t, c, cp) && InRange(BeVal(key), t.n)
    ensures Compressed(t.g(BeVal(key)), PublicOf(t.g(BeVal(key))))
  {
    hide Val, BeVal, Cong, CyclicGroup, PowerTable, Cofactor1, Compressed, PublicOf, OnCurve;
    PrimeBound(c, cp, t.g);
    SmallNonZero(BeVal(key), t.n);
    GroupAt(t.g, t.n, c.a, Val(c.b), Val(c.prime), BeVal(key));
    PublicOfCompressed(t.g(BeVal(key)), Val(c.prime));
  }

  /** Completing the public key changes no child. */
  lemma FilledKeeps(t: Tree, c: EcdsaCurve, cp: seq<seq<Coords>>, x: Node, i: uint32)
    requires Grows(t, c, cp)
    ensures Child(t, Filled(t, x), i) == Child(t, x, i)
  {
    hide Setting, Val, BeVal, Search, Compressed, PublicOf, Fixed;
    if Proper(t, x) {
      KeyPoint(t, c, cp, x.key);
      CompressedMark(t.g(BeVal(x.key)), PublicOf(t.g(BeVal(x.key))));
    }
  }

  // --------------------------------------------------------------- the program

  function View(node: HDNode): Node
    reads node
  {
    Node(node.depth, node.childNum, node.chainCode, node.privateKey, node.publicKey)
  }

  /** One call of hdnode_private_ckd replaces a node with its child. */
  method DeriveChild(node: HDNode, c: EcdsaCurve, cp: seq<seq<Coords>>, i: uint32, z: Limbs9, mac: Mac, limit: nat, ghost t: Tree) returns (ok: bool)
    requires Grows(t, c, cp) && t.mac == mac && t.limit == limit && Norm(z) && InRange(Val(z), Val(c.prime)) && Proper(t, View(node))
    modifies node
    ensures var r := Child(t, old(View(node)), i); ok == r.Some? && (ok ==> View(node) == r.value && Proper(t, View(node)))
  {
    hide Setting, Norm, Val, BeVal, Search, Compressed, PublicOf, Fixed, WordBytes, Left, PrivateOk;
    ghost var x := View(node);
    KeyPoint(t, c, cp, x.key);
    ghost var data;
    ok, data := node.PrivateCkd(c, cp, i, mac, limit, z, t.g);
    if i < HARDENED {
      CompressedUnique(t.g(BeVal(x.key)), data, PublicOf(t.g(BeVal(x.key))));
    }
    if ok {
      SpellBytes(node.privateKey);
    }
  }

  /** Derivation along a path, call by call. */
  method DerivePath(node: HDNode, c: EcdsaCurve, cp: seq<seq<Coords>>, path: seq<uint32>, z: Limbs9, mac: Mac, limit: nat, ghost t: Tree, ghost ckd: Ckd<Node>)
    returns (ok: bool)
    requires Grows(t, c, cp) && t.mac == mac && t.limit == limit && Norm(z) && InRange(Val(z), Val(c.prime)) && Proper(t, View(node))
    requires forall x: Node, i: uint32 :: ckd(x, i) == Child(t, x, i)
    modifies node
    ensures var r := Fold(ckd, old(View(node)), path); ok == r.Some? && (ok ==> View(node) == r.value)
  {
    hide Grows, Setting, Norm, Val, Proper, Child, Fold;
    ghost var root := View(node);
    FoldStart(ckd, root);
    for k := 0 to |path|
      invariant Proper(t, View(node)) && Fold(ckd, root, path[..k]) == Some(View(node))
    {
      FoldPush(ckd, root, path[..k], path[k]);
      assert path[..k + 1] == path[..k] + [path[k]];
      ok := DeriveChild(node, c, cp, path[k], z, mac, limit, t);
      if !ok {
        FoldFails(ckd, root, path, k + 1);
        return false;
      }
    }
    assert path[..|path|] == path;
    ok := true;
  }

  lemma FoldStart(ckd: Ckd<Node>, root: Node)
    ensures Fold(ckd, root, []) == Some(root)
  {}

  /** With these children, and a mark that completes public keys, derivation through
      the cache is derivation along the whole path. */
  lemma CachedIsFold(t: Tree, c: EcdsaCurve, cp: seq<seq<Coords>>, ckd: Ckd<Node>, mark: Mark<Node>, root: Node, path: seq<uint32>, want: bool)
    requires Grows(t, c, cp)
    requires (forall x: Node, i: uint32 :: ckd(x, i) == Child(t, x, i)) && forall x: Node :: mark(x).0 == Filled(t, x)
    ensures Plain(ckd, mark, root, path, want).Derived? <==> Fold(ckd, root, path).Some?
    ensures Plain(ckd, mark, root, path, want).Derived? ==> Fold(ckd, root, path) == Some(Plain(ckd, mark, root, path, want).node)
  {
    hide Grows, Child, Filled, Plain, Fold;
    forall x: Node, i: uint32 ensures ckd(mark(x).0, i) == ckd(x, i) {
      RootedOf(t, c, cp);
      FilledKeeps(t, c, cp, x, i);
    }
    PlainIsFold(ckd, mark, root, path, want);
  }

  lemma RootedOf(t: Tree, c: EcdsaCurve, cp: seq<seq<Coords>>)
    requires Grows(t, c, cp)
    ensures Rooted(t)
  {}
}
