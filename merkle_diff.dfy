/** The tree differ: `compare` and `compareN` walk two trees of the same shape
    in lockstep and list, root first and then depth-first left before right,
    the pairs of hashes that differ, never going below a pair that matches.
    Compare is stated here on the two trees' roots. */
module MerkleDiff {
  import opened MerkleNode

  type HashPair = (string, string)

  /** compareN: the mismatching pairs strictly below two nodes. */
  function CompareN(x: Tree, y: Tree): (r: seq<HashPair>)
    requires x.Node? && y.Node? && SameShape(x, y) && Full(x)
    ensures forall i :: 0 <= i < |r| ==> r[i].0 != r[i].1
    ensures |r| < Size(x)
    ensures x.val == y.val || x.left.Nil? ==> r == []
  {
    if x.val != y.val && x.left.Node? then
      assert SameShape(x.left, y.left) && SameShape(x.right, y.right);
      (if x.left.val != y.left.val
       then [(x.left.val, y.left.val)] + CompareN(x.left, y.left)
       else [])
      +
      (if x.right.val != y.right.val
       then [(x.right.val, y.right.val)] + CompareN(x.right, y.right)
       else [])
    else
      []
  }

  /** compare, applied to the roots of the two trees. */
  function Compare(x: Tree, y: Tree): (r: seq<HashPair>)
    requires SameShape(x, y) && Full(x)
    ensures r == [] <==> RootHash(x) == RootHash(y)
    ensures r != [] ==> x.Node? && y.Node? && r[0] == (x.val, y.val)
    ensures forall i :: 0 <= i < |r| ==> r[i].0 != r[i].1
    ensures |r| <= Size(x)
  {
    if RootHash(x) == RootHash(y) then []
    else [(x.val, y.val)] + CompareN(x, y)
  }

  // A reference definition of the diff, independent of the walk: the nodes of
  // a tree are named by their paths from the root, listed in pre-order, and
  // the diff keeps the path of every node whose whole root path mismatches.

  datatype Dir = L | R

  function Child(t: Tree, dir: Dir): Tree
    requires t.Node?
  {
    if dir == L then t.left else t.right
  }

  function Prefixed(dir: Dir, paths: seq<seq<Dir>>): seq<seq<Dir>> {
    seq(|paths|, i requires 0 <= i < |paths| => [dir] + paths[i])
  }

  /** The path of every node of `t`, in pre-order. */
  function Paths(t: Tree): seq<seq<Dir>> {
    match t
    case Nil => []
    case Node(_, l, r) => [[]] + Prefixed(L, Paths(l)) + Prefixed(R, Paths(r))
  }

  /** Every node on `p`, from the roots down to the end of `p`, exists in both
      trees and holds different hashes in them. */
  predicate Diverges(x: Tree, y: Tree, p: seq<Dir>)
    decreases |p|
  {
    x.Node? && y.Node? && x.val != y.val &&
    (p == [] || Diverges(Child(x, p[0]), Child(y, p[0]), p[1..]))
  }

  /** The two hashes at the end of a diverging path. */
  function PairAt(x: Tree, y: Tree, p: seq<Dir>): HashPair
    requires Diverges(x, y, p)
    decreases |p|
  {
    if p == [] then (x.val, y.val) else PairAt(Child(x, p[0]), Child(y, p[0]), p[1..])
  }

  /** The pairs at the ends of those of `paths` that diverge, in order. */
  function DivergentPairs(x: Tree, y: Tree, paths: seq<seq<Dir>>): seq<HashPair> {
    if paths == [] then []
    else
      (if Diverges(x, y, paths[0]) then [PairAt(x, y, paths[0])] else [])
      + DivergentPairs(x, y, paths[1..])
  }

  lemma {:induction false} DivergentPairsAppend(x: Tree, y: Tree, a: seq<seq<Dir>>, b: seq<seq<Dir>>)
    ensures DivergentPairs(x, y, a + b) == DivergentPairs(x, y, a) + DivergentPairs(x, y, b)
  {
    if a == [] {
      assert a + b == b;
    } else {
      assert (a + b)[1..] == a[1..] + b;
      DivergentPairsAppend(x, y, a[1..], b);
    }
  }

  /** Going one step down: a path below a child diverges exactly when the
      parents differ and the rest of the path diverges below the children. */
  lemma {:induction false} DivergentPairsPrefixed(x: Tree, y: Tree, dir: Dir, paths: seq<seq<Dir>>)
    requires x.Node? && y.Node?
    ensures DivergentPairs(x, y, Prefixed(dir, paths)) ==
      if x.val != y.val then DivergentPairs(Child(x, dir), Child(y, dir), paths) else []
  {
    if paths != [] {
      var p := [dir] + paths[0];
      assert Prefixed(dir, paths)[0] == p;
      assert p[0] == dir && p[1..] == paths[0];
      assert Prefixed(dir, paths)[1..] == Prefixed(dir, paths[1..]);
      DivergentPairsPrefixed(x, y, dir, paths[1..]);
    }
  }

  /** compareN lists exactly the diverging paths strictly below the roots. */
  lemma {:induction false} CompareNMatchesReference(x: Tree, y: Tree)
    requires x.Node? && y.Node? && SameShape(x, y) && Full(x)
    ensures CompareN(x, y) == DivergentPairs(x, y, Paths(x)[1..])
    decreases x, 0
  {
    var pl, pr := Prefixed(L, Paths(x.left)), Prefixed(R, Paths(x.right));
    assert Paths(x)[1..] == pl + pr;
    DivergentPairsAppend(x, y, pl, pr);
    DivergentPairsPrefixed(x, y, L, Paths(x.left));
    DivergentPairsPrefixed(x, y, R, Paths(x.right));
    if x.val != y.val && x.left.Node? {
      CompareMatchesReference(x.left, y.left);
      CompareMatchesReference(x.right, y.right);
    }
  }

  /** The diff of two trees is, in pre-order, the pair of hashes at every node
      whose path from the root mismatches at every step, and nothing else. */
  lemma {:induction false} CompareMatchesReference(x: Tree, y: Tree)
    requires SameShape(x, y) && Full(x)
    ensures Compare(x, y) == DivergentPairs(x, y, Paths(x))
    decreases x, 1
  {
    if x.Node? {
      var ps := Paths(x);
      assert ps[0] == [] && ps == [[]] + ps[1..];
      CompareNMatchesReference(x, y);
    }
  }

  /** A diverging path of `x` is never missed by the diff. */
  lemma {:induction false} DivergentPairsComplete(x: Tree, y: Tree, paths: seq<seq<Dir>>, p: seq<Dir>)
    requires p in paths && Diverges(x, y, p)
    ensures PairAt(x, y, p) in DivergentPairs(x, y, paths)
  {
    if paths[0] != p {
      DivergentPairsComplete(x, y, paths[1..], p);
    }
  }

  lemma CompareComplete(x: Tree, y: Tree, p: seq<Dir>)
    requires SameShape(x, y) && Full(x)
    requires p in Paths(x) && Diverges(x, y, p)
    ensures PairAt(x, y, p) in Compare(x, y)
  {
    CompareMatchesReference(x, y);
    DivergentPairsComplete(x, y, Paths(x), p);
  }

  /** A tree compared with itself has no differences. */
  lemma CompareIdentity(t: Tree)
    requires Full(t)
    ensures SameShape(t, t) && Compare(t, t) == []
  {
    SameShapeReflexive(t);
  }
}
