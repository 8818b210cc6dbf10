/** The tree builder: `MerkleTrees.build` pads the key list, hashes adjacent
    keys into a first level of internal nodes, and `recur` pairs levels until
    one node is left. The functions here specify that process level by level;
    the class runs it with loops, as the source does. */
module MerkleBuild {
  import opened MerkleNode

  /** The key list after the padding step of build: an odd-length list gets one
      copy of its last key appended, an even-length list is left alone. */
  function Padded(keys: seq<string>): (p: seq<string>)
    ensures |p| % 2 == 0 && |keys| <= |p|
    ensures p[..|keys|] == keys
    ensures |keys| % 2 == 0 ==> p == keys
    ensures |keys| % 2 == 1 ==> |p| == |keys| + 1 && p[|keys|] == keys[|keys| - 1]
  {
    if |keys| % 2 != 0 then keys + [keys[|keys| - 1]] else keys
  }

  /** The first level of internal nodes: one per adjacent pair of keys, with
      the two keys themselves as unhashed leaves. */
  function LeafLevel(keys: seq<string>, d: Hasher): seq<Tree> {
    seq(|keys| / 2, i requires 0 <= i < |keys| / 2 =>
      Node(d(keys[2 * i] + keys[2 * i + 1]), Leaf(keys[2 * i]), Leaf(keys[2 * i + 1])))
  }

  /** The internal node recur makes from two adjacent nodes. */
  function Join(l: Tree, r: Tree, d: Hasher): Tree
    requires l.Node? && r.Node?
  {
    Node(d(l.val + r.val), l, r)
  }

  predicate AllNodes(level: seq<Tree>) {
    forall i :: 0 <= i < |level| ==> level[i].Node?
  }

  /** One pass of recur: the nodes at 2i and 2i+1 become the children of node i;
      an unpaired last node has no partner and is not carried up. */
  function Combine(level: seq<Tree>, d: Hasher): seq<Tree>
    requires AllNodes(level)
  {
    seq(|level| / 2, i requires 0 <= i < |level| / 2 => Join(level[2 * i], level[2 * i + 1], d))
  }

  /** The node recur finally assigns to root: None when it is given no nodes
      (root is then left as it was). */
  function Reduce(level: seq<Tree>, d: Hasher): (r: Option<Tree>)
    requires AllNodes(level)
    ensures r.Some? <==> |level| > 0
    ensures r.Some? ==> r.value.Node?
    decreases |level|
  {
    if |level| == 0 then None
    else if |level| == 1 then Some(level[0])
    else Reduce(Combine(level, d), d)
  }

  /** The root that build(keys) assigns, or None when it assigns none. */
  function MerkleRoot(keys: seq<string>, d: Hasher): Option<Tree> {
    Reduce(LeafLevel(Padded(keys), d), d)
  }

  /** The loop of build over the padded keys. */
  method PairKeys(keys: seq<string>, d: Hasher) returns (temp: seq<Tree>)
    ensures |temp| == |keys| / 2
    ensures forall i :: 0 <= i < |temp| ==>
      temp[i].Node? && temp[i].val == d(keys[2 * i] + keys[2 * i + 1]) &&
      temp[i].left == Leaf(keys[2 * i]) && temp[i].right == Leaf(keys[2 * i + 1])
    ensures temp == LeafLevel(keys, d)
  {
    temp := [];
    var index := 0;
    while index < |keys| - 1
      invariant 0 <= index <= |keys| && index % 2 == 0
      invariant |temp| == index / 2
      invariant forall i :: 0 <= i < |temp| ==>
        temp[i] == Node(d(keys[2 * i] + keys[2 * i + 1]), Leaf(keys[2 * i]), Leaf(keys[2 * i + 1]))
    {
      var left := keys[index];
      var right := keys[index + 1];
      var combine := left + right;
      var root := d(combine);
      temp := temp + [Node(root, Leaf(left), Leaf(right))];
      index := index + 2;
    }
  }

  /** The loop of recur over one level. */
  method PairNodes(level: seq<Tree>, d: Hasher) returns (temp: seq<Tree>)
    requires AllNodes(level)
    ensures |temp| == |level| / 2
    ensures forall i :: 0 <= i < |temp| ==>
      temp[i].Node? && temp[i].val == d(level[2 * i].val + level[2 * i + 1].val) &&
      temp[i].left == level[2 * i] && temp[i].right == level[2 * i + 1]
    ensures temp == Combine(level, d)
  {
    temp := [];
    var index := 0;
    while index < |level| - 1
      invariant 0 <= index <= |level| && index % 2 == 0
      invariant |temp| == index / 2
      invariant forall i :: 0 <= i < |temp| ==> temp[i] == Join(level[2 * i], level[2 * i + 1], d)
    {
      var left := level[index];
      var right := level[index + 1];
      var combine := left.val + right.val;
      var root := d(combine);
      temp := temp + [Node(root, left, right)];
      index := index + 2;
    }
  }

  class MerkleTrees {
    /** The digest this tree combines hashes with. */
    const digest: Hasher
    var root: Tree
    /** The keys of the mapping the tree was last built from. */
    var txns: Option<seq<string>>

    constructor (digest: Hasher)
      ensures this.digest == digest && root == Nil && txns == None
    {
      this.digest := digest;
      root := Nil;
      txns := None;
    }

    function GetRootHash(): (h: Option<string>)
      reads this
      ensures h.None? <==> root.Nil?
      ensures h.Some? ==> h.value == root.val
    {
      RootHash(root)
    }

    method Build(txns: seq<string>)
      modifies this`root, this`txns
      ensures this.txns == Some(txns)
      ensures root == match MerkleRoot(txns, digest) case Some(t) => t case None => old(root)
      ensures |txns| > 0 ==> root.Node?
    {
      this.txns := Some(txns);
      var txnsList := txns;
      if |txnsList| % 2 != 0 {
        txnsList := txnsList + [txnsList[|txnsList| - 1]];
      }
      var temp := PairKeys(txnsList, digest);
      Recur(temp);
    }

    /** recur, with its tail call turned into a loop over levels. */
    method Recur(level: seq<Tree>)
      requires AllNodes(level)
      modifies this`root
      ensures root == match Reduce(level, digest) case Some(t) => t case None => old(root)
    {
      var current := level;
      while |current| > 1
        invariant AllNodes(current)
        invariant Reduce(current, digest) == Reduce(level, digest)
        invariant root == old(root)
        decreases |current|
      {
        current := PairNodes(current, digest);
      }
      if |current| == 1 {
        assert Reduce(current, digest) == Some(current[0]);
        root := current[0];
      }
    }
  }

  /** get_root_hash on a fresh object after build(keys). */
  method RootHashAfterBuild(keys: seq<string>, d: Hasher) returns (h: Option<string>)
    ensures h.None? <==> |keys| == 0
    ensures h.Some? ==> MerkleRoot(keys, d).Some? && h.value == MerkleRoot(keys, d).value.val
  {
    var tree := new MerkleTrees(d);
    tree.Build(keys);
    h := tree.GetRootHash();
  }

  /** A leaf for each key, in order. */
  function LeafNodes(keys: seq<string>): seq<Tree> {
    seq(|keys|, i requires 0 <= i < |keys| => Leaf(keys[i]))
  }

  /** The first level build makes is one pass of recur over the keys as leaves. */
  lemma LeafLevelIsCombine(keys: seq<string>, d: Hasher)
    ensures AllNodes(LeafNodes(keys))
    ensures LeafLevel(keys, d) == Combine(LeafNodes(keys), d)
  {
  }

  lemma {:induction false} FlattenLeafNodes(keys: seq<string>)
    ensures Flatten(LeafNodes(keys)) == keys
  {
    if keys != [] {
      assert LeafNodes(keys)[1..] == LeafNodes(keys[1..]);
      FlattenLeafNodes(keys[1..]);
    }
  }

  lemma CombineCons(level: seq<Tree>, d: Hasher)
    requires AllNodes(level) && |level| >= 2
    ensures AllNodes(level[2..])
    ensures Combine(level, d) == [Join(level[0], level[1], d)] + Combine(level[2..], d)
  {
    var rest := level[2..];
    forall i | 0 <= i < |rest| / 2
      ensures Combine(level, d)[i + 1] == Combine(rest, d)[i]
    {
      assert rest[2 * i] == level[2 * (i + 1)] && rest[2 * i + 1] == level[2 * (i + 1) + 1];
    }
  }

  lemma FlattenTwo(a: Tree, b: Tree)
    ensures Flatten([a, b]) == Leaves(a) + Leaves(b)
  {
    assert [a, b][1..] == [b];
    assert Flatten([b]) == Leaves(b) + Flatten([]);
  }

  lemma LeavesJoin(a: Tree, b: Tree, d: Hasher)
    requires a.Node? && b.Node?
    ensures Flatten([Join(a, b, d)]) == Leaves(a) + Leaves(b)
  {
    assert Flatten([Join(a, b, d)]) == Leaves(Join(a, b, d)) + Flatten([]);
  }

  /** On an even level, a pass of recur keeps every leaf, in order. */
  lemma {:induction false} CombineFlattenEven(level: seq<Tree>, d: Hasher)
    requires AllNodes(level) && |level| % 2 == 0
    ensures Flatten(Combine(level, d)) == Flatten(level)
    decreases |level|
  {
    if level == [] {
      assert Combine(level, d) == [];
    } else {
      var rest := level[2..];
      var j := Join(level[0], level[1], d);
      CombineCons(level, d);
      CombineFlattenEven(rest, d);
      FlattenAppend([j], Combine(rest, d));
      LeavesJoin(level[0], level[1], d);
      assert level == [level[0], level[1]] + rest;
      FlattenAppend([level[0], level[1]], rest);
      FlattenTwo(level[0], level[1]);
    }
  }

  /** A pass of recur only looks at the paired nodes. */
  lemma CombinePaired(level: seq<Tree>, d: Hasher)
    requires AllNodes(level)
    ensures Combine(level, d) == Combine(level[..2 * (|level| / 2)], d)
  {
    var paired := level[..2 * (|level| / 2)];
    forall i | 0 <= i < |level| / 2
      ensures Combine(level, d)[i] == Combine(paired, d)[i]
    {
      assert paired[2 * i] == level[2 * i] && paired[2 * i + 1] == level[2 * i + 1];
    }
  }

  /** A pass of recur keeps the leaves of every paired node, in order, and
      loses those of an unpaired last node. */
  lemma CombineFlatten(level: seq<Tree>, d: Hasher)
    requires AllNodes(level)
    ensures Flatten(Combine(level, d)) == Flatten(level[..2 * (|level| / 2)])
  {
    CombinePaired(level, d);
    CombineFlattenEven(level[..2 * (|level| / 2)], d);
  }

  /** An odd trailing node is dropped by a pass of recur, not paired with itself. */
  lemma CombineDropsUnpaired(level: seq<Tree>, d: Hasher)
    requires AllNodes(level) && |level| % 2 == 1
    ensures Combine(level, d) == Combine(level[..|level| - 1], d)
  {
    CombinePaired(level, d);
    CombinePaired(level[..|level| - 1], d);
    assert level[..|level| - 1][..2 * (|level| / 2)] == level[..2 * (|level| / 2)];
  }

  /** Every tree of the level is perfect of height h and keeps the hash invariant. */
  predicate UniformLevel(level: seq<Tree>, h: nat, d: Hasher) {
    forall i :: 0 <= i < |level| ==> Perfect(level[i], h) && HashInv(level[i], d)
  }

  /** A pass of recur over a uniform level gives a uniform level one higher. */
  lemma CombineUniform(level: seq<Tree>, h: nat, d: Hasher)
    requires UniformLevel(level, h, d)
    ensures AllNodes(level)
    ensures UniformLevel(Combine(level, d), h + 1, d)
  {
    forall i | 0 <= i < |level| ensures level[i].Node? {
      assert Perfect(level[i], h);
    }
    var next := Combine(level, d);
    forall i | 0 <= i < |next| ensures Perfect(next[i], h + 1) && HashInv(next[i], d) {
      assert Perfect(level[2 * i], h) && HashInv(level[2 * i], d);
      assert Perfect(level[2 * i + 1], h) && HashInv(level[2 * i + 1], d);
    }
  }

  /** The leaves of a pass of recur begin the leaves of the level it was given. */
  lemma CombineLeavesPrefix(level: seq<Tree>, d: Hasher)
    requires AllNodes(level)
    ensures Flatten(Combine(level, d)) <= Flatten(level)
  {
    var k := 2 * (|level| / 2);
    CombineFlatten(level, d);
    assert level == level[..k] + level[k..];
    FlattenAppend(level[..k], level[k..]);
  }

  lemma PrefixTransitive(a: seq<string>, b: seq<string>, c: seq<string>)
    requires a <= b && b <= c
    ensures a <= c
  {
    assert c[..|b|][..|a|] == c[..|a|];
  }

  /** Pairing a uniform level of height h ends in one perfect tree,
      floor(log2 n) levels higher, that keeps the hash invariant. */
  lemma {:induction false} ReduceShape(level: seq<Tree>, h: nat, d: Hasher)
    requires |level| >= 1
    requires UniformLevel(level, h, d)
    ensures AllNodes(level) && Reduce(level, d).Some?
    ensures Perfect(Reduce(level, d).value, h + Log2(|level|))
    ensures HashInv(Reduce(level, d).value, d)
    decreases |level|
  {
    CombineUniform(level, h, d);
    if |level| > 1 {
      var next := Combine(level, d);
      assert Reduce(level, d) == Reduce(next, d);
      assert Log2(|level|) == 1 + Log2(|next|);
      ReduceShape(next, h + 1, d);
      var t := Reduce(next, d).value;
      assert Perfect(t, h + Log2(|level|)) by {
        assert h + 1 + Log2(|next|) == h + Log2(|level|);
      }
    } else {
      assert Reduce(level, d) == Some(level[0]) && Log2(|level|) == 0;
    }
  }

  /** The leaves of the root recur ends with begin the leaves of the level it
      was given. */
  lemma {:induction false} ReduceLeavesPrefix(level: seq<Tree>, d: Hasher)
    requires |level| >= 1 && AllNodes(level)
    ensures Leaves(Reduce(level, d).value) <= Flatten(level)
    decreases |level|
  {
    if |level| > 1 {
      var next := Combine(level, d);
      assert Reduce(level, d) == Reduce(next, d);
      ReduceLeavesPrefix(next, d);
      CombineLeavesPrefix(level, d);
      PrefixTransitive(Leaves(Reduce(next, d).value), Flatten(next), Flatten(level));
    } else {
      assert Reduce(level, d) == Some(level[0]);
      assert Flatten(level) == Leaves(level[0]) + Flatten(level[1..]);
    }
  }

  /** build then recur is recur over the padded keys taken as leaves. */
  lemma MerkleRootFromLeaves(keys: seq<string>, d: Hasher)
    requires |keys| > 0
    ensures AllNodes(LeafNodes(Padded(keys)))
    ensures MerkleRoot(keys, d) == Reduce(LeafNodes(Padded(keys)), d)
  {
    var leaves := LeafNodes(Padded(keys));
    LeafLevelIsCombine(Padded(keys), d);
    assert Reduce(leaves, d) == Reduce(Combine(leaves, d), d);
  }

  lemma LeavesUniform(keys: seq<string>, d: Hasher)
    ensures UniformLevel(LeafNodes(keys), 0, d)
  {
  }

  lemma PrefixIsSlice(a: seq<string>, b: seq<string>)
    requires a <= b
    ensures a == b[..|a|]
  {
  }

  /** recur over keys taken as leaves ends in a perfect tree of height
      floor(log2 n) that keeps the hash invariant and holds the first 2^h keys. */
  lemma RootOfLeaves(keys: seq<string>, d: Hasher)
    requires |keys| >= 1
    ensures AllNodes(LeafNodes(keys)) && Reduce(LeafNodes(keys), d).Some?
    ensures var t := Reduce(LeafNodes(keys), d).value;
      Perfect(t, Log2(|keys|)) && HashInv(t, d) &&
      |Leaves(t)| == Pow2(Log2(|keys|)) <= |keys| &&
      Leaves(t) == keys[..Pow2(Log2(|keys|))]
  {
    var leaves := LeafNodes(keys);
    var h := Log2(|keys|);
    LeavesUniform(keys, d);
    ReduceShape(leaves, 0, d);
    ReduceLeavesPrefix(leaves, d);
    FlattenLeafNodes(keys);
    var t := Reduce(leaves, d).value;
    PerfectLeafCount(t, h);
    PrefixIsSlice(Leaves(t), keys);
  }

  /** For any non-empty key list the built root is a perfect tree of height
      h = floor(log2 |p|), p being the padded keys; it keeps the hash
      invariant, and its leaves are the first 2^h padded keys. */
  lemma BuildShape(keys: seq<string>, d: Hasher)
    requires |keys| > 0
    ensures MerkleRoot(keys, d).Some?
    ensures var p := Padded(keys);
      var h := Log2(|p|);
      var t := MerkleRoot(keys, d).value;
      Perfect(t, h) && HashInv(t, d) &&
      Pow2(h) <= |p| < 2 * Pow2(h) &&
      Leaves(t) == p[..Pow2(h)]
  {
    var p := Padded(keys);
    MerkleRootFromLeaves(keys, d);
    RootOfLeaves(p, d);
    Log2Bounds(|p|);
  }

  /** When the padded key count is a power of two, every key ends up as a leaf. */
  lemma PowerOfTwoKeys(keys: seq<string>, h: nat, d: Hasher)
    requires |Padded(keys)| == Pow2(h)
    ensures MerkleRoot(keys, d).Some?
    ensures Perfect(MerkleRoot(keys, d).value, h)
    ensures HashInv(MerkleRoot(keys, d).value, d)
    ensures Leaves(MerkleRoot(keys, d).value) == Padded(keys)
  {
    Log2OfPow2(h);
    BuildShape(keys, d);
  }

  /** A key list of 2^h keys, h >= 1, needs no padding and all of it becomes leaves. */
  lemma FullPowerOfTwo(keys: seq<string>, h: nat, d: Hasher)
    requires h >= 1 && |keys| == Pow2(h)
    ensures MerkleRoot(keys, d).Some?
    ensures Perfect(MerkleRoot(keys, d).value, h)
    ensures HashInv(MerkleRoot(keys, d).value, d)
    ensures Leaves(MerkleRoot(keys, d).value) == keys
  {
    assert Pow2(h) == 2 * Pow2(h - 1);
    assert Padded(keys) == keys;
    PowerOfTwoKeys(keys, h, d);
  }

  /** Keys past the first 2^h padded keys do not reach the tree: building from
      that prefix alone gives the same root. */
  lemma UnpairedTailIgnored(keys: seq<string>, d: Hasher)
    requires |keys| > 0
    ensures Pow2(Log2(|Padded(keys)|)) <= |Padded(keys)|
    ensures var p := Padded(keys);
      MerkleRoot(keys, d) == MerkleRoot(p[..Pow2(Log2(|p|))], d)
  {
    var p := Padded(keys);
    var h := Log2(|p|);
    BuildShape(keys, d);
    var q := p[..Pow2(h)];
    assert h >= 1;
    FullPowerOfTwo(q, h, d);
    var t1, t2 := MerkleRoot(keys, d).value, MerkleRoot(q, d).value;
    PerfectDeterminedByLeaves(t1, t2, h, d);
  }

  /** A single key is padded to two, so the root is an internal node over two
      copies of the key, not a leaf. */
  lemma SingleKeyRoot(k: string, d: Hasher)
    ensures MerkleRoot([k], d) == Some(Node(d(k + k), Leaf(k), Leaf(k)))
  {
    assert Padded([k]) == [k, k];
    assert LeafLevel([k, k], d) == [Node(d(k + k), Leaf(k), Leaf(k))];
  }

  /** Padding is the only thing build does to an odd key list: it builds the
      same tree as the list with its last key written twice. */
  lemma DuplicationRule(keys: seq<string>, d: Hasher)
    requires |keys| % 2 == 1
    ensures MerkleRoot(keys, d) == MerkleRoot(keys + [keys[|keys| - 1]], d)
  {
  }
}
