# Merkle tree builder and differ

This project models `merkle_trees.py`. That file builds a binary hash tree (Merkle tree) over the ordered keys of a dictionary. Each key is a content digest of a file. The file also compares two such trees and lists the node hashes that differ.

- **Builder** (`MerkleTrees.build`, `MerkleTrees.recur`). An odd-length key list gets its last key appended once. Adjacent keys are paired into internal nodes whose hash is `sha256(left + right)`. The two raw keys become unhashed leaves. `recur` then pairs adjacent nodes level by level until one node is left, and that node becomes `root`.
- **Differ** (`MerkleTrees.compare`, `MerkleTrees.compareN`). It walks two trees of the same shape in lockstep. It lists the root pair, then, depth-first and left before right, every child pair whose hashes differ. It never goes below a pair whose hashes match.

Layout:

- `merkle_node.dfy` (module `MerkleNode`): the node datatype `Tree = Nil | Node(val, left, right)`, where `Nil` plays the role of Python's `None` child. It also holds the shape predicates (`Perfect`, `Full`, `SameShape`), the hash invariant `HashInv`, the leaf list `Leaves`, and lemmas about them.
- `merkle_build.dfy` (module `MerkleBuild`): the specification of the builder, level by level (`Padded`, `LeafLevel`, `Combine`, `Reduce`, `MerkleRoot`). It has the two pairing loops as methods, the class `MerkleTrees` with its `root` and `txns` fields, and the lemmas about the tree that gets built.
- `merkle_diff.dfy` (module `MerkleDiff`): `CompareN` and `Compare` as recursive functions. It also has a reference definition of the diff that does not follow the walk: the pre-order list of node paths, filtered to those whose every node mismatches. A theorem says the two agree.
- `merkle_properties.dfy` (module `MerkleProperties`): facts that connect builder and differ.

The digest is a parameter `d: Hasher` (`string -> string`). The class stores it in a constant field. Nothing proved here depends on which function it is. In particular, nothing assumes collision resistance.

Where the code and its design description disagree, the model follows the code:

- A single key is padded to two, so the root is an internal node over two copies of the key, not a leaf (`SingleKeyRoot`).
- At the levels above the leaves, an unpaired last node is dropped, not paired with itself (`CombineDropsUnpaired`). So only the first `2^h` padded keys reach the tree, where `h = floor(log2 |padded keys|)` (`BuildShape`, `UnpairedTailIgnored`). With five keys, the fifth key changes neither the root nor the diff (`FifthKeyUndetected`).
- An empty key list raises no error. `recur` is given no nodes and never assigns `root`. On a fresh object, `get_root_hash` then returns `None` (`RootHashAfterBuild`).
- The differ does not check shapes. Equal shape is a precondition of `Compare` and `CompareN`.

## Model

| member | source | states |
|---|---|---|
| `MerkleBuild.MerkleTrees.constructor` | merkle_trees.py:19-22 | a new tree has no root and no stored mapping |
| `MerkleBuild.MerkleTrees.GetRootHash` | merkle_trees.py:25-26 | the root's hash when there is a root, None exactly when there is none |
| `MerkleBuild.MerkleTrees.Build` | merkle_trees.py:28-47 | stores the keys; root becomes the root that padding, pairing the keys and recur produce; when that is none (empty key list), root keeps its old value; non-empty keys always give a root |
| `MerkleBuild.MerkleTrees.Recur` | merkle_trees.py:49-62 | the level loop ends with root set to the single node left; given no nodes it leaves root untouched |
| `MerkleBuild.RootHashAfterBuild` | merkle_trees.py:19-62 | on a fresh object, get_root_hash after build is None exactly when the key list is empty; otherwise it is the built root's hash |
| `MerkleBuild.Padded` | merkle_trees.py:34-36 | the padded list has even length and starts with the keys; an even list is unchanged; an odd list gets exactly one extra element, a copy of its last key |
| `MerkleBuild.PairKeys` | merkle_trees.py:37-45 | the first level has len/2 nodes; node i has hash d(k[2i] + k[2i+1]) and two leaf children holding the raw keys k[2i] and k[2i+1] |
| `MerkleBuild.PairNodes` | merkle_trees.py:50-61 | a recur level has floor(n/2) nodes; node i has hash d(left.val + right.val) and the level's nodes 2i and 2i+1 as children |
| `MerkleBuild.Reduce` | merkle_trees.py:49-62 | recur ends with a root exactly when it is given at least one node, and that root is a node |
| `MerkleBuild.LeafLevelIsCombine` | merkle_trees.py:37-45 | build's first level equals one pass of recur over the keys taken as leaves |
| `MerkleBuild.CombineCons` | merkle_trees.py:54-61 | a pass of recur is the node over the first two nodes followed by the pass over the rest |
| `MerkleBuild.CombinePaired` | merkle_trees.py:54 | a pass of recur depends only on the paired nodes, the first 2 * floor(n/2) |
| `MerkleBuild.CombineFlattenEven` | merkle_trees.py:54-61 | on an even level a pass of recur keeps every leaf, in order |
| `MerkleBuild.CombineFlatten` | merkle_trees.py:54-61 | a pass of recur keeps, in order, the leaves of every paired node and loses those of an unpaired last node |
| `MerkleBuild.CombineDropsUnpaired` | merkle_trees.py:54-57 | on an odd level the last node is dropped: the pass gives the same level as without that node |
| `MerkleBuild.CombineUniform` | merkle_trees.py:54-61 | pairing perfect trees of height h that keep the hash invariant gives perfect trees of height h+1 that keep it |
| `MerkleBuild.ReduceShape` | merkle_trees.py:49-62 | recur over such a level ends in one perfect tree, floor(log2 n) levels higher, that keeps the hash invariant |
| `MerkleBuild.ReduceLeavesPrefix` | merkle_trees.py:49-62 | the leaves of the root recur ends with are a prefix of the leaves of the level it was given |
| `MerkleBuild.MerkleRootFromLeaves` | merkle_trees.py:34-47 | build's result is recur run over the padded keys taken as leaves |
| `MerkleBuild.RootOfLeaves` | merkle_trees.py:49-62 | recur over n keys taken as leaves gives a perfect tree of height floor(log2 n) that keeps the hash invariant and holds exactly the first 2^h keys as leaves |
| `MerkleBuild.BuildShape` | merkle_trees.py:34-62 | for non-empty keys the root is a perfect tree of height h = floor(log2 of the padded length) that keeps the hash invariant; its leaves are the first 2^h padded keys |
| `MerkleBuild.PowerOfTwoKeys` | merkle_trees.py:34-62 | when the padded key count is 2^h, the root is perfect of height h and its leaves, left to right, are exactly the padded keys |
| `MerkleBuild.FullPowerOfTwo` | merkle_trees.py:34-62 | a list of exactly 2^h keys (h at least 1) is not padded and every key becomes a leaf |
| `MerkleBuild.UnpairedTailIgnored` | merkle_trees.py:54-62 | building from all the keys gives the same root as building from the first 2^h padded keys alone |
| `MerkleBuild.SingleKeyRoot` | merkle_trees.py:35-52 | one key k gives root Node(d(k + k), leaf k, leaf k), not a leaf |
| `MerkleBuild.DuplicationRule` | merkle_trees.py:34-36 | an odd key list builds the same root as the list with its last key written twice |
| `MerkleNode.PerfectDeterminedByLeaves` | merkle_trees.py:54-61 | two perfect trees of one height that keep the hash invariant and have the same leaves are equal |
| `MerkleDiff.CompareN` | merkle_trees.py:126-141 | every reported pair has unequal components; fewer pairs than x has nodes; nothing is reported below equal nodes or below a leaf |
| `MerkleDiff.Compare` | merkle_trees.py:92-123 | empty exactly when the root hashes are equal; otherwise starts with the root pair; every pair unequal; at most as many pairs as x has nodes |
| `MerkleDiff.DivergentPairsPrefixed` | merkle_trees.py:128-139 | one step down the walk: a path below a child counts exactly when the parents differ and the rest of the path counts below the children |
| `MerkleDiff.CompareNMatchesReference` | merkle_trees.py:126-141 | compareN lists, in pre-order, the hashes at exactly those nodes below the root whose every ancestor and themselves mismatch |
| `MerkleDiff.CompareMatchesReference` | merkle_trees.py:104-123 | compare lists, in pre-order, the pair at every node whose whole root path mismatches, and nothing else |
| `MerkleDiff.CompareComplete` | merkle_trees.py:104-141 | no node whose whole root path mismatches is missed |
| `MerkleDiff.CompareIdentity` | merkle_trees.py:104-105 | a tree compared with itself gives no differences |
| `MerkleProperties.BuiltTreesComparable` | merkle_trees.py:97 | trees built from key lists of one length have the same shape and no half-filled node, so they meet compare's precondition |
| `MerkleProperties.CompareRebuilt` | merkle_trees.py:104-105 | comparing two builds of one key list reports nothing |
| `MerkleProperties.FifthKeyUndetected` | merkle_trees.py:54 | with five keys, changing the fifth changes neither the root nor the diff |
| `MerkleProperties.FourKeysRoot` | merkle_trees.py:34-62 | keys k0..k3 give root d(H1 + H2) with H1 = d(k0 + k1) and H2 = d(k2 + k3) over leaves k0..k3 |
| `MerkleProperties.ChangedLastKeyLocalized` | merkle_trees.py:121-141 | changing the last of four keys gives exactly the root pair, the right internal pair and the changed key pair; the unchanged left subtree is absent |

## Left out

- SHA-256 (merkle_trees.py:42, 59) is the hasher parameter `d`. Encoding to bytes and hex is not modelled. Equal hash implying equal subtree relies on collision resistance, so it is not stated.
- The `txns` payloads (file paths) are never read by either algorithm. The model stores and takes the keys only, as a sequence, in dictionary order.
- `print_level_order`, `print_child` and `Node.__str__` (merkle_trees.py:14-15, 65-88) are console output and are not modelled.
- Python nodes are mutable objects shared by reference between a level list and their parent. They are never changed after construction, so the model uses immutable datatype values. Object identity and aliasing are not modelled.
- `recur`'s tail recursion is a loop over levels in `MerkleTrees.Recur`. Python's recursion-depth limit is not modelled.
- `compare` takes two `MerkleTrees` objects. `Compare` takes their roots (the `root` fields).
- MerkleDiff.CompareN: requires `Full(x)` (no node with exactly one child) as well as equal shape. The Python guard only needs a right child wherever there is a left one. A node with only a right child would be skipped silently by the code. Such nodes cannot be built.
- MerkleDiff.Compare: requires the same `Full` and equal-shape condition as `CompareN`. A shape mismatch is a precondition, not an error result. The code has no check and either raises `AttributeError` or skips the mismatch.
- The unused `dataclass` import, the unused `trip` variable and the commented-out block (merkle_trees.py:2, 103, 109-119) are not modelled.
