/**
 * Inclusion proofs: `getPair` and `getProof` extract the sibling path of a
 * leaf, `checkProof` folds `combinedHash` along it and compares with the root.
 * Soundness: the proof of every leaf checks against the root of its tree.
 */
module MerkleProof {
  import opened ByteOrder
  import opened Hashing
  import opened MerkleLayers

  /** getPair(index, layer): the other node of the pair holding `index`
      (index - 1 when odd, index + 1 when even), or `null` past the end. */
  function GetPair(index: nat, layer: Layer): (r: Value)
    ensures r.Buf? ==> exists j :: 0 <= j < |layer| && j != index && j / 2 == index / 2 && r.bytes == layer[j]
    ensures index < |layer| ==> (r.Absent? <==> index % 2 == 0 && index == |layer| - 1)
  {
    var pairIndex := if index % 2 == 1 then index - 1 else index + 1;
    if pairIndex < |layer| then Buf(layer[pairIndex]) else Absent
  }

  /** Reference definition of getProof(index, layers): at each layer the
      partner of the running index when there is one, then the index halves. */
  function ProofFor(index: nat, layers: seq<Layer>): (r: seq<Node>)
    ensures |r| <= |layers|
    decreases |layers|
  {
    if |layers| == 0 then []
    else
      PairEntry(index, layers[0]) + ProofFor(index / 2, layers[1..])
  }

  /** getProof: a reduce over the layers that pushes each truthy pair and
      halves the index after every layer. */
  method GetProof(index: nat, layers: seq<Layer>) returns (proof: seq<Node>)
    ensures proof == ProofFor(index, layers)
  {
    proof := [];
    var i := index;
    for k := 0 to |layers|
      invariant proof + ProofFor(i, layers[k..]) == ProofFor(index, layers)
    {
      ProofForSuffix(i, layers, k);
      ghost var before := proof;
      var pair := GetPair(i, layers[k]);
      if pair.Buf? {
        proof := proof + [pair.bytes];
      }
      assert proof == before + PairEntry(i, layers[k]);
      ConcatAssoc(before, PairEntry(i, layers[k]), ProofFor(i / 2, layers[k + 1..]));
      i := i / 2;
    }
  }

  /** The running value of checkProof's reduce: combinedHash of the value so
      far with each proof entry in turn. */
  function Fold(h: Hasher, acc: Value, proof: seq<Node>): (r: Value)
    ensures acc.Buf? || |proof| > 0 ==> r.Buf?
    ensures |proof| == 0 ==> r == acc
    decreases |proof|
  {
    if |proof| == 0 then acc else Fold(h, CombinedHash(h, acc, Buf(proof[0])), proof[1..])
  }

  /** checkProof(proof, root, element): the fold, started from the element,
      ends at the root. */
  function CheckProof(h: Hasher, proof: seq<Node>, root: Node, element: Node): (r: bool)
    ensures |proof| == 0 ==> (r <==> root == element)
  {
    Fold(h, Buf(element), proof) == Buf(root)
  }

  /** With no proof entries the element must itself be the root. */
  lemma CheckEmptyProof(h: Hasher, root: Node, element: Node)
    ensures CheckProof(h, [], root, element) <==> root == element
  {
  }

  /** Folding over a concatenation folds over the parts in turn. */
  lemma {:induction false} FoldAppend(h: Hasher, acc: Value, p: seq<Node>, q: seq<Node>)
    ensures Fold(h, acc, p + q) == Fold(h, Fold(h, acc, p), q)
    decreases |p|
  {
    if |p| > 0 {
      assert (p + q)[1..] == p[1..] + q;
      FoldAppend(h, CombinedHash(h, acc, Buf(p[0])), p[1..], q);
    } else {
      assert p + q == q;
    }
  }

  lemma FoldOne(h: Hasher, acc: Value, x: Node)
    ensures Fold(h, acc, [x]) == CombinedHash(h, acc, Buf(x))
  {
    assert [x][1..] == [];
  }

  /** The entry a layer contributes to a proof: the partner, when there is one. */
  function PairEntry(index: nat, layer: Layer): (r: seq<Node>)
    ensures |r| <= 1
  {
    var pair := GetPair(index, layer);
    if pair.Buf? then [pair.bytes] else []
  }

  /** One layer of the fold: a leaf combined with its partner (if any) is its
      parent in the next layer, whichever side the leaf is on. */
  lemma FoldStep(h: Hasher, l: Layer, i: nat)
    requires i < |l|
    ensures Fold(h, Buf(l[i]), PairEntry(i, l)) == Buf(NextLayer(h, l)[i / 2])
  {
    var k := i / 2;
    if i % 2 == 1 {
      assert i == 2 * k + 1;
      FoldStepOdd(h, l, k);
    } else if i + 1 < |l| {
      assert i == 2 * k;
      FoldStepEven(h, l, k);
    } else {
      assert i == 2 * k;
      FoldStepLast(h, l, k);
    }
  }

  /** A right-hand node is combined with its left partner, and combinedHash commutes. */
  lemma FoldStepOdd(h: Hasher, l: Layer, k: nat)
    requires 2 * k + 1 < |l|
    ensures Fold(h, Buf(l[2 * k + 1]), PairEntry(2 * k + 1, l)) == Buf(NextLayer(h, l)[k])
  {
    var left, right := l[2 * k], l[2 * k + 1];
    PairOfRight(l, k);
    FoldOne(h, Buf(right), left);
    CombinedHashCommutes(h, Buf(right), Buf(left));
    ParentOfPair(h, l, k);
    NextLayerAt(h, l, k);
  }

  /** A left-hand node with a right partner is combined with it. */
  lemma FoldStepEven(h: Hasher, l: Layer, k: nat)
    requires 2 * k + 1 < |l|
    ensures Fold(h, Buf(l[2 * k]), PairEntry(2 * k, l)) == Buf(NextLayer(h, l)[k])
  {
    var left, right := l[2 * k], l[2 * k + 1];
    PairOfLeft(l, k);
    FoldOne(h, Buf(left), right);
    ParentOfPair(h, l, k);
    NextLayerAt(h, l, k);
  }

  /** A lone last node has no partner and is carried up as it is. */
  lemma FoldStepLast(h: Hasher, l: Layer, k: nat)
    requires 2 * k + 1 == |l|
    ensures Fold(h, Buf(l[2 * k]), PairEntry(2 * k, l)) == Buf(NextLayer(h, l)[k])
  {
    PairOfLast(l, k);
    NextLayerAt(h, l, k);
    assert At(l, 2 * k + 1) == Absent;
  }

  lemma ParentOfPair(h: Hasher, l: Layer, k: nat)
    requires 2 * k + 1 < |l|
    ensures Buf(Parent(h, l, k)) == CombinedHash(h, Buf(l[2 * k]), Buf(l[2 * k + 1]))
  {
    assert At(l, 2 * k + 1) == Buf(l[2 * k + 1]);
  }

  lemma PairOfLeft(l: Layer, k: nat)
    requires 2 * k + 1 < |l|
    ensures PairEntry(2 * k, l) == [l[2 * k + 1]]
  {
    Parity(k);
  }

  lemma PairOfRight(l: Layer, k: nat)
    requires 2 * k + 1 < |l|
    ensures PairEntry(2 * k + 1, l) == [l[2 * k]]
  {
    Parity(k);
  }

  lemma PairOfLast(l: Layer, k: nat)
    requires 2 * k + 1 == |l|
    ensures PairEntry(2 * k, l) == []
  {
    Parity(k);
  }

  /** Parity of 2k and 2k + 1, stated on its own: inside the larger proofs
      above the solver does not find it unaided. */
  lemma Parity(k: nat)
    ensures (2 * k) % 2 == 0 && (2 * k + 1) % 2 == 1
  {
  }

  /** Associativity of concatenation, called by GetProof: supplying it keeps
      the loop's proof small and stable. */
  lemma ConcatAssoc(a: seq<Node>, b: seq<Node>, c: seq<Node>)
    ensures (a + b) + c == a + (b + c)
  {
  }

  lemma ProofForSuffix(index: nat, layers: seq<Layer>, k: nat)
    requires k < |layers|
    ensures ProofFor(index, layers[k..]) == PairEntry(index, layers[k]) + ProofFor(index / 2, layers[k + 1..])
  {
    assert layers[k..][1..] == layers[k + 1..];
  }

  lemma ProofForStep(index: nat, l: Layer, rest: seq<Layer>)
    ensures ProofFor(index, [l] + rest) == PairEntry(index, l) + ProofFor(index / 2, rest)
  {
    assert ([l] + rest)[1..] == rest;
  }

  /** Folding the proof of node i of layer l reaches the root above l: the
      running value is the ancestor of node i at every layer. */
  lemma {:induction false} FoldReachesRoot(h: Hasher, l: Layer, i: nat)
    requires i < |l|
    ensures Fold(h, Buf(l[i]), ProofFor(i, LayersFrom(h, l))) == Buf(Root(LayersFrom(h, l)))
    decreases |l|
  {
    if |l| > 1 {
      var next := NextLayer(h, l);
      var rest := LayersFrom(h, next);
      LayersFromStep(h, l);
      ProofForStep(i, l, rest);
      FoldAppend(h, Buf(l[i]), PairEntry(i, l), ProofFor(i / 2, rest));
      FoldStep(h, l, i);
      FoldReachesRoot(h, next, i / 2);
      RootOfConsLayer(l, rest);
    }
  }

  lemma RootOfConsLayer(l: Layer, rest: seq<Layer>)
    requires |rest| >= 1 && |rest[|rest| - 1]| >= 1
    ensures Root([l] + rest) == Root(rest)
  {
    assert ([l] + rest)[|rest|] == rest[|rest| - 1];
  }

  /** Soundness: over any non-empty leaf layer, the proof extracted for every
      leaf checks against the root. */
  lemma ProofSound(h: Hasher, elements: Layer, i: nat)
    requires i < |elements|
    ensures CheckProof(h, ProofFor(i, Layers(h, elements)), Root(Layers(h, elements)), elements[i])
  {
    FoldReachesRoot(h, elements, i);
  }

  /** At most one entry per layer, and none from the root layer: a proof is
      shorter than the number of layers. */
  lemma {:induction false} ProofShorterThanLayers(h: Hasher, l: Layer, i: nat)
    requires i < |l|
    ensures |ProofFor(i, LayersFrom(h, l))| < |LayersFrom(h, l)|
    decreases |l|
  {
    if |l| > 1 {
      var next := NextLayer(h, l);
      LayersFromStep(h, l);
      ProofForStep(i, l, LayersFrom(h, next));
      ProofShorterThanLayers(h, next, i / 2);
    }
  }
}
