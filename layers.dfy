/**
 * The layers of the tree: `getNextLayer` pairs up adjacent nodes, `getLayers`
 * stacks layers from the leaves until one node is left, `getRoot` reads it.
 */
module MerkleLayers {
  import opened ByteOrder
  import opened Hashing

  type Node = seq<byte>
  type Layer = seq<Node>

  /** `arr[j]` in JavaScript: the node at j, or `undefined` past the end. */
  function At(l: Layer, j: nat): Value {
    if j < |l| then Buf(l[j]) else Absent
  }

  /** The k-th node of the next layer: `combinedHash(l[2k], l[2k + 1])`. */
  function Parent(h: Hasher, l: Layer, k: nat): Node
    requires 2 * k < |l|
  {
    CombinedHash(h, Buf(l[2 * k]), At(l, 2 * k + 1)).bytes
  }

  /** Reference definition of the next layer, pair by pair from the front:
      a lone last node is kept as it is. */
  function NextLayer(h: Hasher, l: Layer): (r: Layer)
    ensures |r| == (|l| + 1) / 2
  {
    if |l| == 0 then []
    else if |l| == 1 then [l[0]]
    else [CombinedHash(h, Buf(l[0]), Buf(l[1])).bytes] + NextLayer(h, l[2..])
  }

  lemma ParentShift(h: Hasher, l: Layer, k: nat)
    requires 0 < k && 2 * k < |l|
    ensures Parent(h, l[2..], k - 1) == Parent(h, l, k)
  {
    assert l[2..][2 * (k - 1)] == l[2 * k];
    assert At(l[2..], 2 * (k - 1) + 1) == At(l, 2 * k + 1);
  }

  /** Entry k of the next layer combines the pair (2k, 2k + 1). */
  lemma {:induction false} NextLayerAt(h: Hasher, l: Layer, k: nat)
    requires 2 * k < |l|
    ensures NextLayer(h, l)[k] == Parent(h, l, k)
    decreases k
  {
    if k > 0 {
      NextLayerAt(h, l[2..], k - 1);
      assert NextLayer(h, l)[k] == NextLayer(h, l[2..])[k - 1];
      ParentShift(h, l, k);
    }
  }

  /** On a layer of odd length the last node is carried up unchanged. */
  lemma OddNodeCarried(h: Hasher, l: Layer)
    requires |l| % 2 == 1
    ensures NextLayer(h, l)[|l| / 2] == l[|l| - 1]
  {
    NextLayerAt(h, l, |l| / 2);
  }

  /** getNextLayer: a reduce over the layer that pushes, at every even index,
      the combination of that node with the next one. */
  method GetNextLayer(h: Hasher, elements: Layer) returns (layer: Layer)
    ensures layer == NextLayer(h, elements)
  {
    layer := [];
    for index := 0 to |elements|
      invariant index % 2 == 0 ==> 2 * |layer| == index
      invariant index % 2 == 1 ==> 2 * |layer| == index + 1
      invariant forall k :: 0 <= k < |layer| ==> layer[k] == Parent(h, elements, k)
    {
      if index % 2 == 0 {
        var combined := CombinedHash(h, Buf(elements[index]), At(elements, index + 1));
        assert combined.bytes == Parent(h, elements, |layer|);
        layer := layer + [combined.bytes];
      }
    }
    forall k | 0 <= k < |layer| ensures layer[k] == NextLayer(h, elements)[k] {
      NextLayerAt(h, elements, k);
    }
  }

  /** The layers from l upwards: l itself, then the next layer of each one,
      until a layer of a single node. */
  function LayersFrom(h: Hasher, l: Layer): (r: seq<Layer>)
    requires |l| >= 1
    ensures |r| >= 1 && r[0] == l
    ensures |r[|r| - 1]| == 1
    decreases |l|
  {
    if |l| == 1 then [l] else [l] + LayersFrom(h, NextLayer(h, l))
  }

  /** getLayers: no elements give the sentinel tree `[['']]`, whose one node is
      the empty string, here the empty byte string. */
  function Layers(h: Hasher, elements: Layer): (r: seq<Layer>)
    ensures |r| >= 1 && |r[|r| - 1]| == 1
    ensures |elements| > 0 ==> r[0] == elements
    ensures |elements| == 0 ==> r == [[[]]]
  {
    if |elements| == 0 then [[[]]] else LayersFrom(h, elements)
  }

  /** getRoot: the only node of the last layer. */
  function Root(layers: seq<Layer>): (r: Node)
    requires |layers| >= 1 && |layers[|layers| - 1]| >= 1
    ensures |layers[|layers| - 1]| == 1 ==> layers[|layers| - 1] == [r]
  {
    layers[|layers| - 1][0]
  }

  /** The number of halvings (rounding up) that bring n down to 1: ceil(log2 n). */
  function Depth(n: nat): nat
    decreases n
  {
    if n <= 1 then 0 else 1 + Depth((n + 1) / 2)
  }

  function Pow2(d: nat): nat {
    if d == 0 then 1 else 2 * Pow2(d - 1)
  }

  /** Depth(n) is the least d with n <= 2^d. */
  lemma {:induction false} DepthIsCeilLog2(n: nat)
    requires n >= 1
    ensures n <= Pow2(Depth(n))
    ensures Depth(n) > 0 ==> Pow2(Depth(n) - 1) < n
    decreases n
  {
    if n > 1 {
      DepthIsCeilLog2((n + 1) / 2);
    }
  }

  /** One unfolding of LayersFrom, as a lemma so that the inductive proofs
      call it instead of letting the solver unfold the definition. */
  lemma LayersFromStep(h: Hasher, l: Layer)
    requires |l| > 1
    ensures LayersFrom(h, l) == [l] + LayersFrom(h, NextLayer(h, l))
  {
  }

  /** getLayers stops after ceil(log2 n) + 1 layers. */
  lemma {:induction false} LayersCount(h: Hasher, l: Layer)
    requires |l| >= 1
    ensures |LayersFrom(h, l)| == Depth(|l|) + 1
    decreases |l|
  {
    if |l| > 1 {
      LayersFromStep(h, l);
      LayersCount(h, NextLayer(h, l));
    }
  }

  /** Every layer below the last has more than one node, and the layer above
      it is its next layer. */
  lemma {:induction false} LayersStep(h: Hasher, l: Layer, k: nat)
    requires |l| >= 1 && k + 1 < |LayersFrom(h, l)|
    ensures |LayersFrom(h, l)[k]| > 1
    ensures LayersFrom(h, l)[k + 1] == NextLayer(h, LayersFrom(h, l)[k])
    decreases k
  {
    LayersFromStep(h, l);
    if k > 0 {
      LayersStep(h, NextLayer(h, l), k - 1);
    }
  }

  /** The first layer of a single node is the last layer. */
  lemma LayersEndAtSingleNode(h: Hasher, l: Layer, n: nat)
    requires |l| >= 1 && 1 <= n <= |LayersFrom(h, l)|
    requires |LayersFrom(h, l)[n - 1]| <= 1
    ensures n == |LayersFrom(h, l)|
  {
    if n < |LayersFrom(h, l)| {
      LayersStep(h, l, n - 1);
    }
  }

  predicate All32(l: Layer) {
    forall x :: x in l ==> |x| == 32
  }

  /** Combining 32-byte nodes gives 32-byte nodes. */
  lemma {:induction false} NextLayerKeeps32(h: Hasher, l: Layer)
    requires Digest256(h) && All32(l)
    ensures All32(NextLayer(h, l))
  {
    if |l| > 1 {
      assert All32(l[2..]) by {
        forall x | x in l[2..] ensures |x| == 32 {
          var j :| 0 <= j < |l[2..]| && l[2..][j] == x;
          assert l[j + 2] == x;
        }
      }
      NextLayerKeeps32(h, l[2..]);
    }
  }

  /** Over 32-byte leaves every node of every layer, the root included, is 32 bytes. */
  lemma {:induction false} LayersKeep32(h: Hasher, l: Layer, k: nat)
    requires Digest256(h) && |l| >= 1 && All32(l)
    requires k < |LayersFrom(h, l)|
    ensures All32(LayersFrom(h, l)[k])
    decreases k
  {
    if k > 0 {
      LayersFromStep(h, l);
      NextLayerKeeps32(h, l);
      LayersKeep32(h, NextLayer(h, l), k - 1);
    }
  }

  /** With a 256-bit hash, the root of a tree of 32-byte leaves is 32 bytes. */
  lemma RootIs32(h: Hasher, elements: Layer)
    requires Digest256(h) && |elements| > 0 && All32(elements)
    ensures |Root(Layers(h, elements))| == 32
  {
    var all := LayersFrom(h, elements);
    var top := all[|all| - 1];
    LayersKeep32(h, elements, |all| - 1);
    assert Root(Layers(h, elements)) == top[0];
    assert top[0] in top;
  }

  /** The step of GetLayers' prefix invariant; stated on its own, it keeps the
      loop's proof small and stable. */
  lemma PrefixGrows(all: seq<Layer>, layers: seq<Layer>, next: Layer)
    requires |layers| < |all| && layers == all[..|layers|] && next == all[|layers|]
    ensures layers + [next] == all[..|layers| + 1]
  {
  }

  /** getLayers: push the elements, then keep pushing the next layer of the
      last one while it has more than one node. */
  method GetLayers(h: Hasher, elements: Layer) returns (layers: seq<Layer>)
    ensures layers == Layers(h, elements)
  {
    if |elements| == 0 {
      return [[[]]];
    }
    ghost var all := LayersFrom(h, elements);
    layers := [elements];
    while |layers[|layers| - 1]| > 1
      invariant 1 <= |layers| <= |all|
      invariant layers == all[..|layers|]
      decreases |all| - |layers|
    {
      if |layers| == |all| {
        assert false;
      }
      LayersStep(h, elements, |layers| - 1);
      var next := GetNextLayer(h, layers[|layers| - 1]);
      PrefixGrows(all, layers, next);
      layers := layers + [next];
    }
    LayersEndAtSingleNode(h, elements, |layers|);
  }
}
