/**
 * The `MerkleTree` object: construction from arbitrary inputs (drop falsy
 * values, remove duplicates, reject anything that is not 32 bytes, sort, build
 * the layers), `getRoot`, `getProof(element)` and `merkleRoot`.
 */
module MerkleTreeModel {
  import opened ByteOrder
  import opened Hashing
  import opened MerkleLayers
  import opened MerkleProof

  /** The two errors the tree throws. */
  datatype Error = InvalidElement | ElementNotFound

  datatype Result<T> = Success(value: T) | Failure(error: Error)

  /** The byte strings among the truthy inputs: what `filter(a => a)` keeps. */
  ghost function Present(inputs: seq<Value>): set<Node> {
    set v | v in inputs && v.Buf? :: v.bytes
  }

  /** Some kept input is not 32 bytes long: the constructor throws. */
  ghost predicate HasInvalid(inputs: seq<Value>) {
    exists v :: v in inputs && v.Buf? && |v.bytes| != 32
  }

  /** The leaves of the tree built from `inputs`: its present values in ascending order. */
  ghost function TreeElements(inputs: seq<Value>): seq<Node> {
    Canonical(Present(inputs))
  }

  /** merkleRoot(inputs) when the construction succeeds. */
  ghost function RootOf(h: Hasher, inputs: seq<Value>): Node {
    Root(Layers(h, TreeElements(inputs)))
  }

  lemma PresentSnoc(inputs: seq<Value>, i: nat)
    requires i < |inputs|
    ensures Present(inputs[..i + 1]) == Present(inputs[..i]) + (if inputs[i].Buf? then {inputs[i].bytes} else {})
  {
    assert inputs[..i + 1] == inputs[..i] + [inputs[i]];
  }

  /** Array.from(new Set(inputs.filter(a => a))): every present value once. */
  method Dedup(inputs: seq<Value>) returns (out: seq<Node>)
    ensures Distinct(out)
    ensures Elems(out) == Present(inputs)
  {
    out := [];
    for i := 0 to |inputs|
      invariant Distinct(out)
      invariant Elems(out) == Present(inputs[..i])
    {
      PresentSnoc(inputs, i);
      var v := inputs[i];
      if v.Buf? && v.bytes !in out {
        out := out + [v.bytes];
      }
    }
    assert inputs[..|inputs|] == inputs;
  }

  /** Putting x at the first position whose node is greater keeps the
      sequence strictly ascending. */
  lemma InsertKeepsSorted(s: seq<Node>, x: Node, i: nat)
    requires StrictlySorted(s) && x !in s && i <= |s|
    requires forall j :: 0 <= j < i ==> Lt(s[j], x)
    requires i < |s| ==> !Lt(s[i], x)
    ensures StrictlySorted(s[..i] + [x] + s[i..])
  {
    var r := s[..i] + [x] + s[i..];
    forall j | i <= j < |s| ensures Lt(x, s[j]) {
      LtTotal(s[i], x);
      if j > i {
        LtTransitive(x, s[i], s[j]);
      }
    }
    forall a, b | 0 <= a < b < |r| ensures Lt(r[a], r[b]) {
      if b < i {
        assert r[a] == s[a] && r[b] == s[b];
      } else if b == i {
        assert r[a] == s[a] && r[b] == x;
      } else if a < i {
        assert r[a] == s[a] && r[b] == s[b - 1];
      } else if a == i {
        assert r[a] == x && r[b] == s[b - 1];
      } else {
        assert r[a] == s[a - 1] && r[b] == s[b - 1];
      }
    }
  }

  /** One step of the sort: insert a new node into a strictly ascending sequence. */
  method InsertSorted(s: seq<Node>, x: Node) returns (r: seq<Node>)
    requires StrictlySorted(s) && x !in s
    ensures StrictlySorted(r)
    ensures multiset(r) == multiset(s) + multiset{x}
  {
    var i := 0;
    while i < |s| && Lt(s[i], x)
      invariant 0 <= i <= |s|
      invariant forall j :: 0 <= j < i ==> Lt(s[j], x)
    {
      i := i + 1;
    }
    InsertKeepsSorted(s, x, i);
    r := s[..i] + [x] + s[i..];
    assert s == s[..i] + s[i..];
  }

  /** elements.sort(Buffer.compare) on duplicate-free elements: a strictly
      ascending permutation. */
  method SortNodes(s: seq<Node>) returns (r: seq<Node>)
    requires Distinct(s)
    ensures StrictlySorted(r)
    ensures multiset(r) == multiset(s)
  {
    r := [];
    for k := 0 to |s|
      invariant StrictlySorted(r)
      invariant multiset(r) == multiset(s[..k])
    {
      assert s[..k + 1] == s[..k] + [s[k]];
      assert s[k] !in s[..k];
      assert s[k] !in multiset(r);
      r := InsertSorted(r, s[k]);
    }
    assert s[..|s|] == s;
  }

  /** Sequences with the same multiset hold the same elements. */
  lemma SameMultisetSameElems(a: seq<Node>, b: seq<Node>)
    requires multiset(a) == multiset(b)
    ensures Elems(a) == Elems(b)
  {
    forall x ensures x in a <==> x in b {
      assert x in a <==> x in multiset(a);
      assert x in b <==> x in multiset(b);
    }
  }

  /** elements.indexOf(element): the first position holding it, or -1. */
  function IndexOf(s: seq<Node>, x: Node): (r: int)
    ensures -1 <= r < |s|
    ensures r == -1 <==> x !in s
    ensures r >= 0 ==> s[r] == x && x !in s[..r]
  {
    if |s| == 0 then -1
    else if s[0] == x then 0
    else
      var k := IndexOf(s[1..], x);
      if k == -1 then -1
      else
        assert s[..k + 1] == [s[0]] + s[1..][..k];
        k + 1
  }

  class MerkleTree {
    const hash: Hasher
    var elements: seq<Node>
    var layers: seq<Layer>

    /** The leaves are 32 bytes, strictly ascending, and `layers` are their layers. */
    ghost predicate Valid()
      reads this
    {
      StrictlySorted(elements) && All32(elements) && layers == Layers(hash, elements)
    }

    /** Sorts the validated, duplicate-free elements and builds their layers. */
    constructor (hash: Hasher, elements: seq<Node>)
      requires Distinct(elements) && All32(elements)
      ensures this.hash == hash
      ensures StrictlySorted(this.elements) && multiset(this.elements) == multiset(elements)
      ensures Valid()
    {
      var sorted := SortNodes(elements);
      SameMultisetSameElems(sorted, elements);
      assert All32(sorted) by {
        forall x | x in sorted ensures |x| == 32 {
          assert x in Elems(sorted);
        }
      }
      var built := GetLayers(hash, sorted);
      this.hash := hash;
      this.elements := sorted;
      this.layers := built;
    }

    /** new MerkleTree(inputs): fails exactly when a present input is not 32
        bytes; otherwise its leaves are the present inputs, once each, ascending. */
    static method Build(hash: Hasher, inputs: seq<Value>) returns (r: Result<MerkleTree>)
      ensures r.Failure? <==> HasInvalid(inputs)
      ensures r.Failure? ==> r.error == InvalidElement
      ensures r.Success? ==> fresh(r.value) && r.value.hash == hash && r.value.Valid()
      ensures r.Success? ==> r.value.elements == TreeElements(inputs)
    {
      var elements := Dedup(inputs);
      if !All32(elements) {
        var x :| x in elements && |x| != 32;
        assert x in Present(inputs);
        return Failure(InvalidElement);
      }
      forall v | v in inputs && v.Buf? ensures |v.bytes| == 32 {
        assert v.bytes in Present(inputs);
      }
      var t := new MerkleTree(hash, elements);
      SameMultisetSameElems(t.elements, elements);
      SortedIsCanonical(t.elements);
      return Success(t);
    }

    /** getRoot: the root of the tree over the leaves; the sentinel (empty) for
        no leaves, the leaf itself for one (32 bytes otherwise: RootIs32). */
    function GetRoot(): (r: Node)
      reads this
      requires Valid()
      ensures r == Root(Layers(hash, elements))
      ensures |elements| == 0 ==> r == []
      ensures |elements| == 1 ==> r == elements[0]
    {
      layers[|layers| - 1][0]
    }

    /** getProof(element): fails exactly for a non-member; otherwise the proof
        of its position, which checks against the root and has fewer entries
        than the tree has layers. */
    method GetProof(element: Node) returns (r: Result<seq<Node>>)
      requires Valid()
      ensures r.Failure? <==> element !in elements
      ensures r.Failure? ==> r.error == ElementNotFound
      ensures r.Success? ==> r.value == ProofFor(IndexOf(elements, element), layers)
      ensures r.Success? ==> CheckProof(hash, r.value, GetRoot(), element)
      ensures r.Success? ==> |r.value| < |layers|
    {
      var index := IndexOf(elements, element);
      if index == -1 {
        return Failure(ElementNotFound);
      }
      var proof := MerkleProof.GetProof(index, layers);
      ProofSound(hash, elements, index);
      ProofShorterThanLayers(hash, elements, index);
      return Success(proof);
    }
  }

  /** With a 256-bit hash, the root of a valid tree with leaves is 32 bytes. */
  lemma RootIs32(t: MerkleTree)
    requires t.Valid() && Digest256(t.hash) && |t.elements| > 0
    ensures |t.GetRoot()| == 32
  {
    MerkleLayers.RootIs32(t.hash, t.elements);
  }

  /** merkleRoot(inputs) = new MerkleTree(inputs).getRoot(). */
  method MerkleRoot(hash: Hasher, inputs: seq<Value>) returns (r: Result<Node>)
    ensures r.Failure? <==> HasInvalid(inputs)
    ensures r.Failure? ==> r.error == InvalidElement
    ensures r.Success? ==> r.value == RootOf(hash, inputs)
  {
    var t := MerkleTree.Build(hash, inputs);
    if t.Failure? {
      return Failure(t.error);
    }
    return Success(t.value.GetRoot());
  }

  /** Order independence: inputs holding the same values in any order, with
      any repetition, give the same leaves and the same root. */
  lemma RootIgnoresOrderAndRepeats(h: Hasher, a: seq<Value>, b: seq<Value>)
    requires forall v :: v in a <==> v in b
    ensures TreeElements(a) == TreeElements(b)
    ensures HasInvalid(a) <==> HasInvalid(b)
    ensures RootOf(h, a) == RootOf(h, b)
  {
    assert Present(a) == Present(b);
  }

  /** A permutation of the inputs gives the same root. */
  lemma RootOfPermutation(h: Hasher, a: seq<Value>, b: seq<Value>)
    requires multiset(a) == multiset(b)
    ensures RootOf(h, a) == RootOf(h, b)
  {
    forall v ensures v in a <==> v in b {
      assert v in a <==> v in multiset(a);
      assert v in b <==> v in multiset(b);
    }
    RootIgnoresOrderAndRepeats(h, a, b);
  }

  /** Duplicate idempotence: repeating the inputs does not change the root. */
  lemma RootOfRepeated(h: Hasher, a: seq<Value>)
    ensures RootOf(h, a + a) == RootOf(h, a)
  {
    RootIgnoresOrderAndRepeats(h, a + a, a);
  }

  /** Absent inputs are dropped: they do not change the root. */
  lemma RootIgnoresAbsent(h: Hasher, a: seq<Value>)
    ensures RootOf(h, a + [Absent]) == RootOf(h, a)
  {
    assert Present(a + [Absent]) == Present(a);
  }

  /** A one-leaf tree: the root is the leaf, its proof is empty and checks. */
  lemma SingleElementTree(h: Hasher, e: Node)
    ensures TreeElements([Buf(e)]) == [e]
    ensures RootOf(h, [Buf(e)]) == e
    ensures ProofFor(0, Layers(h, [e])) == []
    ensures CheckProof(h, [], e, e)
  {
    assert Present([Buf(e)]) == {e};
    assert Elems([e]) == {e};
    SortedIsCanonical([e]);
  }

  lemma TwoLeaves(a: Node, b: Node)
    requires Lt(a, b)
    ensures TreeElements([Buf(a), Buf(b)]) == [a, b]
    ensures TreeElements([Buf(b), Buf(a)]) == [a, b]
  {
    LtTotal(a, b);
    assert StrictlySorted([a, b]);
    assert Present([Buf(a), Buf(b)]) == {a, b} == Elems([a, b]);
    assert Present([Buf(b), Buf(a)]) == {a, b};
    SortedIsCanonical([a, b]);
  }

  /** A two-leaf tree a < b: the root is hash(a ++ b), and each leaf's proof
      is the other leaf. */
  lemma TwoElementTree(h: Hasher, a: Node, b: Node)
    requires Lt(a, b)
    ensures RootOf(h, [Buf(a), Buf(b)]) == h(a + b)
    ensures RootOf(h, [Buf(b), Buf(a)]) == h(a + b)
    ensures ProofFor(0, Layers(h, [a, b])) == [b]
    ensures ProofFor(1, Layers(h, [a, b])) == [a]
    ensures CheckProof(h, [b], h(a + b), a) && CheckProof(h, [a], h(a + b), b)
  {
    TwoLeaves(a, b);
    CombinedHashOfPair(h, a, b);
    var l := [a, b];
    var next := NextLayer(h, l);
    assert next == [h(a + b)];
    LayersFromStep(h, l);
    assert Layers(h, l) == [l, next];
    FoldOne(h, Buf(a), b);
    FoldOne(h, Buf(b), a);
  }

  /** A three-leaf tree a < b < c: the odd leaf c is carried to the second
      layer, and its proof is the single entry hash(a ++ b). */
  lemma ThreeElementTree(h: Hasher, a: Node, b: Node, c: Node)
    requires Lt(a, b) && Lt(b, c)
    ensures Layers(h, [a, b, c])[1] == [h(a + b), c]
    ensures Root(Layers(h, [a, b, c])) == CombinedHash(h, Buf(h(a + b)), Buf(c)).bytes
    ensures ProofFor(2, Layers(h, [a, b, c])) == [h(a + b)]
  {
    CombinedHashOfPair(h, a, b);
    var l := [a, b, c];
    var l1 := NextLayer(h, l);
    assert l[2..] == [c];
    assert NextLayer(h, l[2..]) == [c];
    assert l1 == [h(a + b), c];
    var l2 := NextLayer(h, l1);
    assert l2 == [CombinedHash(h, Buf(h(a + b)), Buf(c)).bytes];
    LayersFromStep(h, l);
    LayersFromStep(h, l1);
    assert Layers(h, l) == [l, l1, l2];
    assert ProofFor(2, [l, l1, l2]) == [] + ProofFor(1, [l1, l2]);
    assert ProofFor(1, [l1, l2]) == [h(a + b)] + ProofFor(0, [l2]);
  }
}
