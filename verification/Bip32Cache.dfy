/** The cache of derived parents in libs/crypto/bip32.c.  Nodes are any values;
    derivation of a child, the fingerprint and the curve of a node are parameters. */
module Bip32Cache {
  import opened Limbs
  import opened Wrappers

  const SLOTS: nat := 10
  const MAXDEPTH: nat := 8

  type Ckd<!T> = (T, uint32) -> Option<T>

  /** The fingerprint of a node; computing it may complete the node's public key. */
  type Mark<!T> = T -> (T, uint32)

  // ------------------------------------------------------------ specification

  /** Plain derivation along a path. */
  function Fold<T>(ckd: Ckd<T>, node: T, path: seq<uint32>): Option<T>
    decreases |path|
  {
    if path == [] then Some(node)
    else
      match ckd(node, path[0])
      case None => None
      case Some(child) => Fold(ckd, child, path[1..])
  }

  lemma {:induction false} FoldPush<T>(ckd: Ckd<T>, node: T, path: seq<uint32>, i: uint32)
    ensures Fold(ckd, node, path + [i]) ==
            match Fold(ckd, node, path) { case None => None case Some(m) => ckd(m, i) }
    decreases |path|
  {
    if path == [] {
      assert ([i])[1..] == [];
    } else {
      assert (path + [i])[1..] == path[1..] + [i];
      match ckd(node, path[0])
      case None =>
      case Some(child) => FoldPush(ckd, child, path[1..], i);
    }
  }

  /** A derived node and the fingerprint of its parent, if wanted. */
  datatype Derived<T> = Failed | Derived(node: T, parentMark: Option<uint32>)

  /** The last step of a derivation. */
  function LastStep<T>(ckd: Ckd<T>, mark: Mark<T>, parent: T, i: uint32, want: bool): Derived<T> {
    var p := if want then mark(parent) else (parent, 0);
    match ckd(p.0, i)
    case None => Failed
    case Some(child) => Derived(child, if want then Some(p.1) else None)
  }

  /** Derivation without a cache. */
  function Plain<T>(ckd: Ckd<T>, mark: Mark<T>, root: T, path: seq<uint32>, want: bool): Derived<T> {
    if path == [] then Derived(root, None)
    else
      match Fold(ckd, root, path[..|path| - 1])
      case None => Failed
      case Some(parent) => LastStep(ckd, mark, parent, path[|path| - 1], want)
  }

  /** Completing a node's public key does not change its children. */
  ghost predicate Harmless<T(!new)>(ckd: Ckd<T>, mark: Mark<T>) {
    forall x: T, i: uint32 :: ckd(mark(x).0, i) == ckd(x, i)
  }

  /** So derivation is the fold over the whole path, with or without a fingerprint. */
  lemma PlainIsFold<T(!new)>(ckd: Ckd<T>, mark: Mark<T>, root: T, path: seq<uint32>, want: bool)
    requires Harmless(ckd, mark)
    ensures match Plain(ckd, mark, root, path, want)
            case Failed => Fold(ckd, root, path).None?
            case Derived(node, parentMark) =>
              Fold(ckd, root, path) == Some(node) && (parentMark.Some? <==> want && path != [])
  {
    if path != [] {
      var n := |path| - 1;
      FoldPush(ckd, root, path[..n], path[n]);
      assert path[..n] + [path[n]] == path;
    }
  }

  // ------------------------------------------------------------------ the cache

  datatype Slot<T> = Empty | Slot(path: seq<uint32>, node: T)

  class Cache<T(==)> {
    const ckd: Ckd<T>
    const mark: Mark<T>
    const curve: T -> nat
    var root: Option<T>
    var index: nat
    var slots: seq<Slot<T>>

    /** Every set slot holds the node that plain derivation from the current root
        reaches along the slot's path. */
    ghost predicate Valid()
      reads this
    {
      && index < SLOTS && |slots| == SLOTS
      && forall j :: 0 <= j < SLOTS && slots[j].Slot? ==>
           root.Some? && |slots[j].path| <= MAXDEPTH && Fold(ckd, root.value, slots[j].path) == Some(slots[j].node)
    }

    constructor (ckd: Ckd<T>, mark: Mark<T>, curve: T -> nat)
      ensures Valid() && this.ckd == ckd && this.mark == mark && root == None
    {
      this.ckd, this.mark, this.curve := ckd, mark, curve;
      root, index, slots := None, 0, seq(SLOTS, _ => Empty);
    }

    predicate Serves(slot: Slot<T>, node: T, parentPath: seq<uint32>) {
      slot.Slot? && slot.path == parentPath && curve(slot.node) == curve(node)
    }

    method Clear()
      modifies this
      ensures Valid() && root == None
    {
      root, index, slots := None, 0, seq(SLOTS, _ => Empty);
    }

    /** Looks for the parent on the path; a different root empties the cache. */
    method FindParent(node: T, parentPath: seq<uint32>) returns (found: Option<T>)
      requires Valid()
      modifies this
      ensures Valid() && root == Some(node)
      ensures found.Some? ==> Fold(ckd, node, parentPath) == found
      ensures if old(root) == Some(node) then
                && index == old(index) && slots == old(slots)
                && (found.None? ==> forall j :: 0 <= j < SLOTS ==> !Serves(slots[j], node, parentPath))
              else index == 0 && found.None? && forall j :: 0 <= j < SLOTS ==> slots[j].Empty?
    {
      if root.None? || root.value != node {
        index, slots := 0, seq(SLOTS, _ => Empty);
        root := Some(node);
        return None;
      }
      for j := 0 to SLOTS
        invariant Valid() && root == Some(node) && index == old(index) && slots == old(slots)
        invariant forall k :: 0 <= k < j ==> !Serves(slots[k], node, parentPath)
      {
        if slots[j].Slot? && slots[j].path == parentPath && curve(slots[j].node) == curve(node) {
          return Some(slots[j].node);
        }
      }
      return None;
    }

    /** Derives the parent step by step and saves it in the next slot. */
    method DeriveParent(node: T, parentPath: seq<uint32>) returns (parent: Option<T>)
      requires Valid() && root == Some(node) && |parentPath| <= MAXDEPTH
      modifies this
      ensures Valid() && parent == Fold(ckd, node, parentPath)
      ensures if parent.None? then slots == old(slots) && index == old(index)
              else slots == old(slots)[old(index) := Slot(parentPath, parent.value)] && index == (old(index) + 1) % SLOTS
    {
      var current := node;
      for k := 0 to |parentPath|
        invariant Valid() && root == Some(node) && slots == old(slots) && index == old(index)
        invariant Fold(ckd, node, parentPath[..k]) == Some(current)
      {
        FoldPush(ckd, node, parentPath[..k], parentPath[k]);
        assert parentPath[..k + 1] == parentPath[..k] + [parentPath[k]];
        var next := ckd(current, parentPath[k]);
        if next.None? {
          FoldFails(ckd, node, parentPath, k + 1);
          return None;
        }
        current := next.value;
      }
      assert parentPath[..|parentPath|] == parentPath;
      slots := slots[index := Slot(parentPath, current)];
      index := (index + 1) % SLOTS;
      parent := Some(current);
    }

    /** hdnode_private_ckd_cached: gives what derivation without the cache gives. */
    method Derive(node: T, path: seq<uint32>, want: bool) returns (r: Derived<T>)
      requires Valid() && |path| <= MAXDEPTH + 1
      modifies this
      ensures Valid() && r == Plain(ckd, mark, node, path, want)
    {
      if |path| == 0 {
        return Derived(node, None);
      }
      var parent := Some(node);
      if |path| > 1 {
        var parentPath := path[..|path| - 1];
        parent := FindParent(node, parentPath);
        if parent.None? {
          parent := DeriveParent(node, parentPath);
          if parent.None? {
            return Failed;
          }
        }
      }
      var last := parent.value;
      var p := 0;
      if want {
        var q := mark(last);
        last, p := q.0, q.1;
      }
      var child := ckd(last, path[|path| - 1]);
      if child.None? {
        return Failed;
      }
      r := Derived(child.value, if want then Some(p) else None);
    }
  }

  /** A failure on the way is a failure. */
  lemma {:induction false} FoldFails<T>(ckd: Ckd<T>, node: T, path: seq<uint32>, k: nat)
    requires k <= |path| && Fold(ckd, node, path[..k]).None?
    ensures Fold(ckd, node, path).None?
    decreases |path|
  {
    if k > 0 {
      assert path[..k][0] == path[0] && path[..k][1..] == path[1..][..k - 1];
      match ckd(node, path[0])
      case None =>
      case Some(child) => FoldFails(ckd, child, path[1..], k - 1);
    }
  }

  /** Any series of calls, with changing roots, gives what plain derivation gives. */
  method DeriveAll<T(==)>(cache: Cache<T>, calls: seq<(T, seq<uint32>, bool)>) returns (results: seq<Derived<T>>)
    requires cache.Valid() && forall i :: 0 <= i < |calls| ==> |calls[i].1| <= MAXDEPTH + 1
    modifies cache
    ensures cache.Valid() && |results| == |calls|
    ensures forall i :: 0 <= i < |calls| ==> results[i] == Plain(cache.ckd, cache.mark, calls[i].0, calls[i].1, calls[i].2)
  {
    results := [];
    for i := 0 to |calls|
      invariant cache.Valid() && |results| == i
      invariant forall j :: 0 <= j < i ==> results[j] == Plain(cache.ckd, cache.mark, calls[j].0, calls[j].1, calls[j].2)
    {
      var r := cache.Derive(calls[i].0, calls[i].1, calls[i].2);
      results := results + [r];
    }
  }
}
