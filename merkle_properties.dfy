/** Properties that join the builder and the differ: trees built from key
    lists of one length meet the differ's precondition, and what the diff
    then reports for a few key lists. */
module MerkleProperties {
  import opened MerkleNode
  import opened MerkleBuild
  import opened MerkleDiff

  /** Trees built from two key lists of the same length have the same shape
      and no half-filled node, so they may be compared. */
  lemma BuiltTreesComparable(keys1: seq<string>, keys2: seq<string>, d: Hasher)
    requires |keys1| == |keys2| > 0
    ensures MerkleRoot(keys1, d).Some? && MerkleRoot(keys2, d).Some?
    ensures SameShape(MerkleRoot(keys1, d).value, MerkleRoot(keys2, d).value)
    ensures Full(MerkleRoot(keys1, d).value) && Full(MerkleRoot(keys2, d).value)
  {
    BuildShape(keys1, d);
    BuildShape(keys2, d);
    var t1, t2 := MerkleRoot(keys1, d).value, MerkleRoot(keys2, d).value;
    PerfectSameShape(t1, t2, Log2(|Padded(keys1)|));
    HashInvFull(t1, d);
    HashInvFull(t2, d);
  }

  /** Comparing the trees built twice from one key list reports nothing. */
  lemma CompareRebuilt(keys: seq<string>, d: Hasher)
    requires |keys| > 0
    ensures MerkleRoot(keys, d).Some?
    ensures Full(MerkleRoot(keys, d).value)
    ensures SameShape(MerkleRoot(keys, d).value, MerkleRoot(keys, d).value)
    ensures Compare(MerkleRoot(keys, d).value, MerkleRoot(keys, d).value) == []
  {
    BuiltTreesComparable(keys, keys, d);
  }

  /** With five keys the fifth does not reach the tree: changing it changes
      neither the root nor anything the diff reports. */
  lemma FifthKeyUndetected(keys: seq<string>, z: string, d: Hasher)
    requires |keys| == 5
    ensures MerkleRoot(keys, d) == MerkleRoot(keys[4 := z], d)
    ensures MerkleRoot(keys, d).Some? && Full(MerkleRoot(keys, d).value)
    ensures SameShape(MerkleRoot(keys, d).value, MerkleRoot(keys, d).value)
    ensures Compare(MerkleRoot(keys, d).value, MerkleRoot(keys[4 := z], d).value) == []
  {
    var other := keys[4 := z];
    assert Log2(6) == 2;
    assert Pow2(2) == 4;
    UnpairedTailIgnored(keys, d);
    UnpairedTailIgnored(other, d);
    assert Padded(keys)[..4] == Padded(other)[..4];
    CompareRebuilt(keys, d);
  }

  /** The tree built from four keys. */
  lemma FourKeysRoot(k0: string, k1: string, k2: string, k3: string, d: Hasher)
    ensures MerkleRoot([k0, k1, k2, k3], d) ==
      Some(Join(Node(d(k0 + k1), Leaf(k0), Leaf(k1)), Node(d(k2 + k3), Leaf(k2), Leaf(k3)), d))
  {
    var keys := [k0, k1, k2, k3];
    var n1 := Node(d(k0 + k1), Leaf(k0), Leaf(k1));
    var n2 := Node(d(k2 + k3), Leaf(k2), Leaf(k3));
    assert Padded(keys) == keys;
    assert LeafLevel(keys, d) == [n1, n2];
    assert Combine([n1, n2], d) == [Join(n1, n2, d)];
    assert Reduce([n1, n2], d) == Reduce([Join(n1, n2, d)], d);
  }

  /** Changing the last of four keys: the diff is the root pair, the pair of
      the right-hand internal nodes and the pair of changed keys; the left-hand
      subtree, which is the same in both, contributes nothing. */
  lemma ChangedLastKeyLocalized(d: Hasher)
    requires d("c" + "d") != d("c" + "X")
    requires d(d("a" + "b") + d("c" + "d")) != d(d("a" + "b") + d("c" + "X"))
    ensures MerkleRoot(["a", "b", "c", "d"], d).Some? && MerkleRoot(["a", "b", "c", "X"], d).Some?
    ensures var x, y := MerkleRoot(["a", "b", "c", "d"], d).value, MerkleRoot(["a", "b", "c", "X"], d).value;
      SameShape(x, y) && Full(x) &&
      Compare(x, y) == [(x.val, y.val), (d("c" + "d"), d("c" + "X")), ("d", "X")]
  {
    BuiltTreesComparable(["a", "b", "c", "d"], ["a", "b", "c", "X"], d);
    FourKeysRoot("a", "b", "c", "d", d);
    FourKeysRoot("a", "b", "c", "X", d);
    var n2 := Node(d("c" + "d"), Leaf("c"), Leaf("d"));
    var n3 := Node(d("c" + "X"), Leaf("c"), Leaf("X"));
    assert CompareN(n2, n3) == [("d", "X")];
  }
}
