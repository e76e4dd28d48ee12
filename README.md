# merkle-tree-solidity: a verified model of `index.js`

`index.js` builds a sorted-pair binary Merkle tree. It is the JavaScript port of
Raiden's `mtree.py`, and the same scheme is checked on chain by `MerkleProof.sol`.

- **Construction.** The constructor keeps the truthy inputs and removes duplicates.
  It rejects anything that is not 32 bytes. It sorts the leaves with
  `Buffer.compare`, then stacks layers. Each layer is built by combining
  adjacent pairs with `combinedHash`, and a lone last node is carried up as it
  is. An empty input gives the sentinel tree `[['']]`.
- **`combinedHash`** hashes the two buffers in sorted order (`bufSortJoin`). This
  makes it commutative, so a proof is just the list of sibling nodes and needs no
  left/right markers.
- **Proofs.** `getProof` walks the layers, takes the sibling at each level when
  there is one, and halves the index.
- **Verification.** `checkProof` folds `combinedHash` over the proof, starting
  from the element, and compares the result with the root.

The model has five modules, one per part of the file:

| file | module | contents |
|---|---|---|
| `byte_order.dfy` | `ByteOrder` | `Buffer.compare` as a lexicographic order on byte strings; the ascending listing `Canonical(S)` of a set, and the fact that any strictly ascending listing equals it |
| `hashing.dfy` | `Hashing` | `bufSortJoin`, `combinedHash`, and what falsy and truthy values are |
| `layers.dfy` | `MerkleLayers` | `getNextLayer` and `getLayers` as loops proved against the recursive definitions `NextLayer` and `LayersFrom`; the root; the layer count |
| `proof.dfy` | `MerkleProof` | `getPair`; `getProof` as a loop proved against `ProofFor`; `checkProof` as the fold `Fold`; soundness |
| `tree.dfy` | `MerkleTreeModel` | the `MerkleTree` class (`elements` and `layers` fields), deduplication, sorting, `indexOf`, `getRoot`, `getProof(element)`, `merkleRoot`, and the order-independence and small-tree properties |

**The hash is a parameter.** Keccak-256 (`sha3` from ethereumjs-util) is passed
in as `h: Hasher`, a function from byte strings to byte strings. Every property
holds for every such function. The statements about 32-byte nodes and roots
additionally assume `Digest256(h)`, which says every digest is 32 bytes.

**JavaScript values.** A value handed to `combinedHash` is `Value = Absent | Buf(bytes)`.
`Absent` stands for a falsy value (`undefined` past the end of an array, `null`,
`''`). `Buf` stands for a Buffer, which is truthy whatever its length.

**The empty tree follows the code.** An empty input has no natural 32-byte
root. The model follows the code: zero leaves give the layers `[['']]`. The
sentinel `''` is the empty byte string, so `GetRoot()` of an empty tree is `[]`.

**The constructor is split in two.** `new MerkleTree(inputs)` can throw, and a
Dafny constructor cannot fail. So `MerkleTree.Build` performs the filtering,
deduplication and 32-byte check and returns a `Result`. On success it calls the
class constructor, which sorts the elements and builds the layers.

## Model

| member | source | states |
|---|---|---|
| ByteOrder.Compare | index.js:133 | Buffer.compare returns -1, 0 or 1, and 0 only for strings of equal length |
| ByteOrder.CompareFlip | index.js:133 | swapping the buffers negates the comparison |
| ByteOrder.CompareZeroIffEqual | index.js:133 | the comparison is 0 exactly when the two buffers hold the same bytes |
| ByteOrder.CompareTransitive | index.js:17 | the comparator is transitive, so sorting with it is well defined |
| ByteOrder.LtTransitive | index.js:17 | strictly-less is transitive |
| ByteOrder.LtTotal | index.js:17 | any two distinct buffers are strictly ordered one way, and never both ways |
| ByteOrder.StrictlySortedIsDistinct | index.js:13-17 | a strictly ascending list has no duplicates |
| ByteOrder.LeastExists | index.js:17 | every non-empty finite set of buffers has a least element |
| ByteOrder.LeastUnique | index.js:17 | the least element is unique |
| ByteOrder.CanonicalElems | index.js:13-17 | the ascending listing of a set holds exactly its members, each once |
| ByteOrder.CanonicalIsSorted | index.js:17 | the ascending listing of a set is strictly ascending |
| ByteOrder.SortedIsCanonical | index.js:17 | every strictly ascending list is the ascending listing of its own elements, so sorting a duplicate-free array has exactly one outcome |
| ByteOrder.SortedUnique | index.js:17 | two strictly ascending lists with the same elements are equal |
| Hashing.SortJoin | index.js:128-134 | bufSortJoin concatenates the two buffers, the one that compares lower first |
| Hashing.SortJoinCommutes | index.js:128-134 | bufSortJoin does not depend on the order of its arguments |
| Hashing.SortJoinSmallerFirst | index.js:128-134 | when a < b, both argument orders give a ++ b |
| Hashing.CombinedHash | index.js:73-81 | if either argument is a buffer, the result is a buffer |
| Hashing.CombinedHashCarries | index.js:73-79 | a falsy partner on either side returns the other argument unchanged |
| Hashing.CombinedHashOfPair | index.js:80 | two buffers a < b combine to hash(a ++ b), in either order |
| Hashing.CombinedHashCommutes | index.js:73-81 | combinedHash(a, b) == combinedHash(b, a) for all values |
| Hashing.CombinedHashIs32 | index.js:10-11 | with a 256-bit hash, 32-byte arguments combine to a 32-byte result |
| MerkleLayers.NextLayer | index.js:83-90 | the next layer of n nodes has ceil(n/2) nodes |
| MerkleLayers.NextLayerAt | index.js:83-90 | entry k of the next layer is combinedHash(l[2k], l[2k+1]), with l[2k+1] undefined past the end |
| MerkleLayers.OddNodeCarried | index.js:27-28 | on a layer of odd length the last node is carried up unchanged |
| MerkleLayers.GetNextLayer | index.js:83-90 | the reduce computes exactly the next layer |
| MerkleLayers.LayersFrom | index.js:96-101 | every tree from a non-empty layer starts with that layer and ends with a layer of one node |
| MerkleLayers.Layers | index.js:92-102 | no elements give [['']]; otherwise layer 0 is the elements and the last layer has one node |
| MerkleLayers.Root | index.js:34-36 | the root is the sole node of the last layer |
| MerkleLayers.LayersStep | index.js:98-99 | every layer below the last has more than one node, and the layer above it is its next layer |
| MerkleLayers.LayersEndAtSingleNode | index.js:98 | the first layer with at most one node is the last layer |
| MerkleLayers.LayersCount | index.js:98-100 | n leaves give exactly Depth(n) + 1 layers |
| MerkleLayers.DepthIsCeilLog2 | index.js:98-100 | Depth(n) is ceil(log2 n): the least d with n <= 2^d |
| MerkleLayers.NextLayerKeeps32 | index.js:10-11 | with a 256-bit hash, a layer of 32-byte nodes has a next layer of 32-byte nodes |
| MerkleLayers.LayersKeep32 | index.js:10-11 | with a 256-bit hash and 32-byte leaves, every node of every layer is 32 bytes |
| MerkleLayers.RootIs32 | index.js:34-36 | with a 256-bit hash, the root over 32-byte leaves is 32 bytes |
| MerkleLayers.GetLayers | index.js:92-102 | the while loop computes exactly Layers(elements), including the empty-input sentinel |
| MerkleProof.GetPair | index.js:115-122 | the pair is the other node of the same pair (index xor 1); it is missing exactly when index is the last node and even |
| MerkleProof.PairEntry | index.js:106-109 | a layer adds at most one entry to a proof |
| MerkleProof.ProofFor | index.js:104-113 | a proof has at most one entry per layer |
| MerkleProof.GetProof | index.js:104-113 | the reduce with its mutable index computes exactly ProofFor(index, layers) |
| MerkleProof.Fold | index.js:47-49 | the reduce over the proof: with no entries it is the start value, and starting from a buffer it stays a buffer |
| MerkleProof.CheckProof | index.js:46-50 | checkProof is root == the left fold of combinedHash over the proof, starting from the element; with an empty proof it holds exactly when root == element |
| MerkleProof.CheckEmptyProof | index.js:46-50 | with an empty proof, checkProof holds exactly when root == element |
| MerkleProof.FoldAppend | index.js:46-50 | folding over a concatenation folds over the parts in turn |
| MerkleProof.FoldStep | index.js:46-50 | folding a node with its layer's proof entry gives its parent, whichever side of the pair it sits on |
| MerkleProof.FoldReachesRoot | index.js:104-113 | folding the proof of any node of a layer ends at the root above that layer |
| MerkleProof.ProofSound | index.js:46-50 | soundness: for every leaf i of a non-empty tree, checkProof(getProof(i, layers), root, leaf) is true |
| MerkleProof.ProofShorterThanLayers | index.js:104-113 | the root layer adds no entry, so a proof is shorter than the number of layers |
| MerkleTreeModel.Dedup | index.js:13 | the filter and Set keep every present input value exactly once |
| MerkleTreeModel.InsertSorted | index.js:17 | inserting a new node keeps a list strictly ascending and adds exactly that node |
| MerkleTreeModel.SortNodes | index.js:17 | sorting duplicate-free elements gives a strictly ascending permutation |
| MerkleTreeModel.IndexOf | index.js:39 | indexOf is -1 exactly for a non-member, otherwise the first position holding the element |
| MerkleTreeModel.MerkleTree.constructor | index.js:17-18 | the elements are sorted, strictly ascending, a permutation of the input, and the layers are theirs |
| MerkleTreeModel.MerkleTree.Build | index.js:12-19 | fails exactly when a present input is not 32 bytes; otherwise the leaves are the present inputs in ascending order, each once, and the tree is valid |
| MerkleTreeModel.MerkleTree.GetRoot | index.js:34-36 | the root of the tree over the leaves: the sentinel for none, the leaf itself for one |
| MerkleTreeModel.MerkleTree.GetProof | index.js:38-44 | fails exactly for a non-member; otherwise returns the proof of the element's index, which checks against getRoot() and is shorter than the layers |
| MerkleTreeModel.RootIs32 | index.js:34-36 | with a 256-bit hash, a tree with leaves has a 32-byte root |
| MerkleTreeModel.MerkleRoot | index.js:52-54 | merkleRoot fails exactly when the constructor does, and otherwise returns the root of the canonical leaves of the inputs |
| MerkleTreeModel.RootIgnoresOrderAndRepeats | index.js:13-17 | inputs with the same values, in any order and with any repetition, give the same leaves, the same failure and the same root |
| MerkleTreeModel.RootOfPermutation | index.js:13-17 | permuting the inputs does not change the root |
| MerkleTreeModel.RootOfRepeated | index.js:13 | merkleRoot(xs ++ xs) == merkleRoot(xs) |
| MerkleTreeModel.RootIgnoresAbsent | index.js:13 | a falsy input does not change the root |
| MerkleTreeModel.SingleElementTree | index.js:34-36 | one leaf e: the leaves are [e], the root is e, its proof is empty, and checkProof([], e, e) holds |
| MerkleTreeModel.TwoLeaves | index.js:13-17 | two leaves a < b, given in either order, are sorted to [a, b] |
| MerkleTreeModel.TwoElementTree | index.js:80-86 | two leaves a < b: the root is hash(a ++ b), getProof(a) == [b], getProof(b) == [a], and both proofs check |
| MerkleTreeModel.ThreeElementTree | index.js:83-99 | three leaves a < b < c: layer 1 is [hash(a ++ b), c], the root is combinedHash(hash(a ++ b), c), and the proof of c is [hash(a ++ b)] |

## Left out

- `checkProofSolidityFactory` and `bufToHex` (index.js:58-65, 124-126) only hex-encode values and hand them to an external contract method. They are not modelled.
- Keccak-256 (`sha3` from ethereumjs-util) is a foreign call. It is a parameter of every operation, and its 32-byte output is the hypothesis `Digest256`.
- `Buffer.isBuffer` (index.js:14) is a runtime type test. Dafny's types make it unnecessary: every present input is a byte string.
- `new Set` (index.js:13) and `indexOf` (index.js:39) compare Buffer objects by identity. The model compares by bytes. So a byte-equal but distinct Buffer is deduplicated and found by the model, where the code would keep it twice or throw "element not found".
- `MerkleTreeModel.Dedup`: its contract does not state that first occurrences keep their input order. Only the set of values it keeps is stated, because the sort that follows discards the order.
- `MerkleTreeModel.SortNodes` stands for the engine's in-place `Array.prototype.sort`. It is an insertion sort on a sequence. Only its outcome is modelled; `SortedIsCanonical` shows the outcome is the same for any correct sort.
- The empty tree's root is the string `''`. `''.equals` is not a function, so `checkProof` against that root throws a TypeError. The model compares the empty byte string instead.
- `MerkleProof.CheckProof` takes the proof entries and the element as byte strings. A caller-supplied falsy proof entry, which `combinedHash` skips (index.js:74-75), is not modelled. Neither is a falsy element: there `combinedHash(undefined, p)` returns `p` (index.js:77-78), so the fold would start from the first proof entry.
- The negative case (a proof for one element does not verify another) holds only with overwhelming probability, under collision resistance of the hash. It is not a property of every `Hasher`, so it is not stated.
- The module and export boilerplate and the source-map comment (index.js:1-6, 67-70, 136) are not modelled.
