/** The node record shared by the tree builder and the tree differ, and the
    shape predicates both of them are stated with. */
module MerkleNode {

  datatype Option<T> = None | Some(value: T)

  /** The digest used to combine two child hashes (SHA-256 of the UTF-8 bytes,
      as a hex string, in the source). It is a parameter: nothing proved here
      depends on which function it is. */
  type Hasher = string -> string

  /** A node: `val` is the hash (a raw key at a leaf), `Nil` stands for a
      missing child. */
  datatype Tree = Nil | Node(val: string, left: Tree, right: Tree)

  function Leaf(k: string): Tree {
    Node(k, Nil, Nil)
  }

  /** The hash of a tree's root, or None when there is no root. */
  function RootHash(t: Tree): (h: Option<string>)
    ensures h.None? <==> t.Nil?
    ensures h.Some? ==> h.value == t.val
  {
    if t.Node? then Some(t.val) else None
  }

  function Size(t: Tree): nat {
    match t
    case Nil => 0
    case Node(_, l, r) => 1 + Size(l) + Size(r)
  }

  /** The raw keys at the bottom of a tree, left to right. */
  function Leaves(t: Tree): seq<string> {
    match t
    case Nil => []
    case Node(v, l, r) => if l.Nil? && r.Nil? then [v] else Leaves(l) + Leaves(r)
  }

  /** The leaves of a whole level of trees, left to right. */
  function Flatten(level: seq<Tree>): seq<string> {
    if level == [] then [] else Leaves(level[0]) + Flatten(level[1..])
  }

  /** Every leaf of `t` sits at depth `h`, and every node above has two children. */
  predicate Perfect(t: Tree, h: nat) {
    match t
    case Nil => false
    case Node(_, l, r) =>
      if h == 0 then l.Nil? && r.Nil? else Perfect(l, h - 1) && Perfect(r, h - 1)
  }

  /** The hash invariant: every node is a leaf, or has two children and stores
      the digest of its children's hashes, left one first. */
  predicate HashInv(t: Tree, d: Hasher) {
    match t
    case Nil => true
    case Node(v, l, r) =>
      (l.Nil? && r.Nil?) ||
      (l.Node? && r.Node? && v == d(l.val + r.val) && HashInv(l, d) && HashInv(r, d))
  }

  /** No node has exactly one child. */
  predicate Full(t: Tree) {
    match t
    case Nil => true
    case Node(_, l, r) => l.Nil? == r.Nil? && Full(l) && Full(r)
  }

  /** `x` and `y` have the same nodes in the same places, whatever their hashes. */
  predicate SameShape(x: Tree, y: Tree) {
    match x
    case Nil => y.Nil?
    case Node(_, xl, xr) => y.Node? && SameShape(xl, y.left) && SameShape(xr, y.right)
  }

  function Pow2(n: nat): nat {
    if n == 0 then 1 else 2 * Pow2(n - 1)
  }

  /** The floor of the base-2 logarithm. */
  function Log2(n: nat): nat
    requires n >= 1
  {
    if n == 1 then 0 else 1 + Log2(n / 2)
  }

  lemma {:induction false} Log2Bounds(n: nat)
    requires n >= 1
    ensures Pow2(Log2(n)) <= n < 2 * Pow2(Log2(n))
  {
    if n > 1 {
      Log2Bounds(n / 2);
    }
  }

  lemma {:induction false} Log2OfPow2(h: nat)
    ensures Pow2(h) >= 1 && Log2(Pow2(h)) == h
  {
    if h > 0 {
      Log2OfPow2(h - 1);
      assert Pow2(h) / 2 == Pow2(h - 1);
    }
  }

  /** A perfect tree of height h has 2^h leaves. */
  lemma {:induction false} PerfectLeafCount(t: Tree, h: nat)
    requires Perfect(t, h)
    ensures |Leaves(t)| == Pow2(h)
  {
    if h > 0 {
      PerfectLeafCount(t.left, h - 1);
      PerfectLeafCount(t.right, h - 1);
    }
  }

  /** Two perfect trees of the same height have the same shape. */
  lemma {:induction false} PerfectSameShape(x: Tree, y: Tree, h: nat)
    requires Perfect(x, h) && Perfect(y, h)
    ensures SameShape(x, y)
  {
    if h > 0 {
      PerfectSameShape(x.left, y.left, h - 1);
      PerfectSameShape(x.right, y.right, h - 1);
    }
  }

  /** A tree that keeps the hash invariant has no half-filled node. */
  lemma {:induction false} HashInvFull(t: Tree, d: Hasher)
    requires HashInv(t, d)
    ensures Full(t)
  {
    if t.Node? && t.left.Node? {
      HashInvFull(t.left, d);
      HashInvFull(t.right, d);
    }
  }

  lemma {:induction false} SameShapeReflexive(t: Tree)
    ensures SameShape(t, t)
  {
    if t.Node? {
      SameShapeReflexive(t.left);
      SameShapeReflexive(t.right);
    }
  }

  /** Under the hash invariant a perfect tree is determined by its leaves. */
  lemma {:induction false} PerfectDeterminedByLeaves(x: Tree, y: Tree, h: nat, d: Hasher)
    requires Perfect(x, h) && Perfect(y, h)
    requires HashInv(x, d) && HashInv(y, d)
    requires Leaves(x) == Leaves(y)
    ensures x == y
  {
    if h > 0 {
      PerfectLeafCount(x.left, h - 1);
      PerfectLeafCount(y.left, h - 1);
      var n := Pow2(h - 1);
      assert Leaves(x.left) == Leaves(x)[..n];
      assert Leaves(y.left) == Leaves(y)[..n];
      assert Leaves(x.right) == Leaves(x)[n..];
      assert Leaves(y.right) == Leaves(y)[n..];
      PerfectDeterminedByLeaves(x.left, y.left, h - 1, d);
      PerfectDeterminedByLeaves(x.right, y.right, h - 1, d);
    }
  }

  lemma {:induction false} FlattenAppend(a: seq<Tree>, b: seq<Tree>)
    ensures Flatten(a + b) == Flatten(a) + Flatten(b)
  {
    if a == [] {
      assert a + b == b;
    } else {
      assert (a + b)[1..] == a[1..] + b;
      FlattenAppend(a[1..], b);
    }
  }
}
