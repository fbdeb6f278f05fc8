/**
 * The sorted-pair Merkle tree of utils/merkle-tree.ts: a whitelist of
 * leaves is filtered, sorted and de-duplicated, hashed pairwise layer by
 * layer up to a single root, and each leaf gets a proof made of one sibling
 * per layer. Keccak-256 is not modelled: every operation takes the hash as
 * a function `hash` on byte strings, with no known properties.
 */
module Merkle {
  import opened Wrappers
  import opened ByteOrder

  /** The hash function applied to concatenated pairs (keccak256 in the source). */
  type Hash = Bytes -> Bytes

  /** The message `getProof` throws for a leaf that is not in the tree. */
  const ElementNotFound: string := "Element does not exist in Merkle tree"

  // ---------------------------------------------------------------------
  // Leaves
  // ---------------------------------------------------------------------

  /** `elements.filter(el => el)`: drops the missing entries; every buffer, even an empty one, is kept. */
  function Present(input: seq<Option<Bytes>>): (r: seq<Bytes>)
    ensures forall x :: x in r <==> Some(x) in input
  {
    if input == [] then []
    else
      assert input == [input[0]] + input[1..];
      (if input[0].Some? then [input[0].value] else []) + Present(input[1..])
  }

  /** The leaves the constructor keeps: present, sorted by `Buffer.compare`, de-duplicated. */
  function Leaves(input: seq<Option<Bytes>>): (r: seq<Bytes>)
    ensures StrictlySorted(r)
    ensures forall x :: x in r <==> Some(x) in input
  {
    var sorted := Sort(Present(input));
    assert forall x :: x in sorted <==> x in multiset(Present(input));
    DedupSorted(sorted);
    Dedup(sorted)
  }

  // ---------------------------------------------------------------------
  // Pair hashing
  // ---------------------------------------------------------------------

  /** `sortAndConcat(a, b)`: the two operands concatenated, smaller first. */
  function SortAndConcat(a: Bytes, b: Bytes): (r: Bytes)
    ensures (r == a + b && Le(a, b)) || (r == b + a && Le(b, a))
  {
    LeTotal(a, b);
    if Le(a, b) then a + b else b + a
  }

  /** The order of the operands does not matter to `sortAndConcat`. */
  lemma SortAndConcatSymmetric(a: Bytes, b: Bytes)
    ensures SortAndConcat(a, b) == SortAndConcat(b, a)
  {
    CompareAntisymmetric(a, b);
    CompareZeroIffEqual(a, b);
  }

  /** The parent of two present nodes. */
  function NodeHash(hash: Hash, a: Bytes, b: Bytes): Bytes
  {
    hash(SortAndConcat(a, b))
  }

  /** `combinedHash(first, second)`: a missing operand yields the other one unchanged. */
  function CombinedHash(hash: Hash, first: Option<Bytes>, second: Option<Bytes>): (r: Option<Bytes>)
    ensures r.None? <==> first.None? && second.None?
    ensures first.None? ==> r == second
    ensures first.Some? && second.None? ==> r == first
    ensures first.Some? && second.Some? ==> r == Some(NodeHash(hash, first.value, second.value))
  {
    if first.None? then second
    else if second.None? then first
    else Some(NodeHash(hash, first.value, second.value))
  }

  /** `combinedHash` is symmetric, whether or not its operands are present. */
  lemma CombinedHashSymmetric(hash: Hash, a: Option<Bytes>, b: Option<Bytes>)
    ensures CombinedHash(hash, a, b) == CombinedHash(hash, b, a)
  {
    if a.Some? && b.Some? {
      SortAndConcatSymmetric(a.value, b.value);
    }
  }

  // ---------------------------------------------------------------------
  // Layers
  // ---------------------------------------------------------------------

  /**
   * `getNextLayer`: each even index yields one node, the combined hash of
   * that node and the one after it, which is missing past the end; the
   * layer halves, rounding up.
   */
  function NextLayer(hash: Hash, layer: seq<Bytes>): (r: seq<Bytes>)
    ensures |r| == (|layer| + 1) / 2
    decreases |layer|
  {
    if |layer| == 0 then []
    else if |layer| == 1 then [CombinedHash(hash, Some(layer[0]), None).value]
    else [CombinedHash(hash, Some(layer[0]), Some(layer[1])).value] + NextLayer(hash, layer[2..])
  }

  /**
   * Node `k` of the next layer hashes nodes `2k` and `2k + 1`, or is node
   * `2k` unchanged when `2k + 1` is past the end.
   */
  lemma {:induction false} NextLayerNode(hash: Hash, layer: seq<Bytes>, k: nat)
    requires k < (|layer| + 1) / 2
    ensures NextLayer(hash, layer)[k]
         == if 2 * k + 1 < |layer| then NodeHash(hash, layer[2 * k], layer[2 * k + 1]) else layer[2 * k]
    decreases k
  {
    if |layer| == 1 {
      assert NextLayer(hash, layer) == [layer[0]];
    } else {
      var tail := layer[2..];
      assert NextLayer(hash, layer) == [NodeHash(hash, layer[0], layer[1])] + NextLayer(hash, tail);
      if k > 0 {
        NextLayerNode(hash, tail, k - 1);
        PairAfterFirst(layer, k);
      }
    }
  }

  /** Pair `k` of a layer is pair `k - 1` of the layer without its first two nodes. */
  lemma PairAfterFirst(layer: seq<Bytes>, k: nat)
    requires 0 < k && 2 * k < |layer|
    ensures layer[2..][2 * (k - 1)] == layer[2 * k]
    ensures 2 * (k - 1) + 1 < |layer[2..]| <==> 2 * k + 1 < |layer|
    ensures 2 * k + 1 < |layer| ==> layer[2..][2 * (k - 1) + 1] == layer[2 * k + 1]
  {
  }

  /** The layers from a non-empty layer up to the root. */
  function BuildLayers(hash: Hash, layer: seq<Bytes>): (ls: seq<seq<Bytes>>)
    requires layer != []
    ensures |ls| >= 1 && ls[0] == layer && |ls[|ls| - 1]| == 1
    decreases |layer|
  {
    if |layer| == 1 then [layer]
    else [layer] + BuildLayers(hash, NextLayer(hash, layer))
  }

  /** One more layer pushed: the remaining layers start with the next layer. */
  lemma BuildLayersStep(hash: Hash, below: seq<seq<Bytes>>, last: seq<Bytes>)
    requires |last| > 1
    ensures below + BuildLayers(hash, last) == (below + [last]) + BuildLayers(hash, NextLayer(hash, last))
  {
  }

  /** Above a layer of several nodes come the layers built from its next layer. */
  /** A single node is already the root layer. */
  lemma BuildLayersSingle(hash: Hash, layer: seq<Bytes>)
    requires |layer| == 1
    ensures BuildLayers(hash, layer) == [layer]
  {
  }

  lemma BuildLayersUnfold(hash: Hash, layer: seq<Bytes>)
    requires |layer| > 1
    ensures BuildLayers(hash, layer) == [layer] + BuildLayers(hash, NextLayer(hash, layer))
  {
  }

  /**
   * The layers `getLayers` computes: the element list first, ending in a
   * single node; no elements give the one layer holding the empty buffer.
   */
  function LayersOf(hash: Hash, elements: seq<Bytes>): (ls: seq<seq<Bytes>>)
    ensures |ls| >= 1 && |ls[|ls| - 1]| == 1
    ensures elements == [] ==> ls == [[[]]]
    ensures elements != [] ==> ls[0] == elements
  {
    if elements == [] then [[[]]] else BuildLayers(hash, elements)
  }

  /**
   * Every layer below the root has more than one node and is followed by its
   * next layer, so sizes halve (rounding up) from the leaves to the root.
   */
  lemma {:induction false} LayersShape(hash: Hash, layer: seq<Bytes>, i: nat)
    requires layer != []
    requires i + 1 < |BuildLayers(hash, layer)|
    ensures var ls := BuildLayers(hash, layer);
      |ls[i]| > 1 && ls[i + 1] == NextLayer(hash, ls[i]) && |ls[i + 1]| == (|ls[i]| + 1) / 2
    decreases i
  {
    var ls := BuildLayers(hash, layer);
    assert |layer| > 1;
    var upper := BuildLayers(hash, NextLayer(hash, layer));
    assert ls == [layer] + upper;
    if i > 0 {
      LayersShape(hash, NextLayer(hash, layer), i - 1);
      assert ls[i] == upper[i - 1] && ls[i + 1] == upper[i];
    }
  }

  // ---------------------------------------------------------------------
  // Proofs
  // ---------------------------------------------------------------------

  /** The index of a node's parent in the next layer. */
  function Parent(i: nat): nat
  {
    i / 2
  }

  /**
   * `getPairElement(idx, layer)`: the other node of the layer that shares the
   * parent of `idx`, or null when there is none.
   */
  function GetPairElement(idx: nat, layer: seq<Bytes>): (r: Option<Bytes>)
    ensures r.Some? ==> exists j :: 0 <= j < |layer| && j != idx && Parent(j) == Parent(idx) && layer[j] == r.value
    ensures r.None? ==> forall j :: 0 <= j < |layer| && j != idx ==> Parent(j) != Parent(idx)
  {
    var pairIdx := if idx % 2 == 0 then idx + 1 else idx - 1;
    if pairIdx < |layer| then
      assert Parent(pairIdx) == Parent(idx);
      Some(layer[pairIdx])
    else None
  }

  /** The pair element of `idx` as a proof fragment: one sibling or none. */
  function Sibling(idx: nat, layer: seq<Bytes>): (r: seq<Bytes>)
    ensures |r| <= 1
  {
    match GetPairElement(idx, layer)
    case Some(p) => [p]
    case None => []
  }

  /** The siblings `getProof` collects walking `layers` from the leaf at `idx`. */
  function ProofFrom(layers: seq<seq<Bytes>>, idx: nat): (r: seq<Bytes>)
    ensures |r| <= |layers|
  {
    if layers == [] then []
    else Sibling(idx, layers[0]) + ProofFrom(layers[1..], Parent(idx))
  }

  /** Hashing a leaf with each proof element in turn, as an on-chain verifier does. */
  function FoldProof(hash: Hash, leaf: Bytes, proof: seq<Bytes>): Bytes
    decreases |proof|
  {
    if proof == [] then leaf else FoldProof(hash, NodeHash(hash, leaf, proof[0]), proof[1..])
  }

  /** Folding in the sibling of a node yields its parent in the next layer. */
  lemma FoldSibling(hash: Hash, layer: seq<Bytes>, idx: nat, rest: seq<Bytes>)
    requires 1 < |layer| && idx < |layer|
    ensures Parent(idx) < |NextLayer(hash, layer)|
    ensures FoldProof(hash, layer[idx], Sibling(idx, layer) + rest)
         == FoldProof(hash, NextLayer(hash, layer)[Parent(idx)], rest)
  {
    var next := NextLayer(hash, layer);
    var k := Parent(idx);
    NextLayerNode(hash, layer, k);
    if idx % 2 == 0 {
      assert 2 * k == idx;
    } else {
      assert 2 * k + 1 == idx;
    }
    match GetPairElement(idx, layer)
    case Some(p) =>
      assert ([p] + rest)[1..] == rest;
      if idx % 2 == 1 {
        SortAndConcatSymmetric(layer[idx], p);
      }
      assert NodeHash(hash, layer[idx], p) == next[k];
    case None =>
      assert [] + rest == rest;
  }

  /**
   * Folding the proof collected for the leaf at `idx` reproduces the root,
   * and the proof has at most one element per layer below the root.
   */
  lemma {:induction false} ProofReproducesRoot(hash: Hash, layer: seq<Bytes>, idx: nat, ls: seq<seq<Bytes>>)
    requires idx < |layer| && ls == BuildLayers(hash, layer)
    ensures FoldProof(hash, layer[idx], ProofFrom(ls, idx)) == ls[|ls| - 1][0]
    ensures |ProofFrom(ls, idx)| <= |ls| - 1
    decreases |layer|
  {
    if |layer| > 1 {
      var next := NextLayer(hash, layer);
      var upper := BuildLayers(hash, next);
      var k := Parent(idx);
      BuildLayersUnfold(hash, layer);
      assert ls[1..] == upper;
      var rest := ProofFrom(upper, k);
      var proof := ProofFrom(ls, idx);
      assert proof == Sibling(idx, layer) + rest;
      FoldSibling(hash, layer, idx, rest);
      ProofReproducesRoot(hash, next, k, upper);
      calc {
        FoldProof(hash, layer[idx], proof);
        FoldProof(hash, next[k], rest);
        upper[|upper| - 1][0];
      }
    } else {
      BuildLayersSingle(hash, layer);
      assert Sibling(idx, layer) == [];
      assert ls[1..] == [];
      assert ProofFrom(ls, idx) == [];
    }
  }

  /** One step of the walk: the sibling in layer `i`, then the rest from the parent. */
  lemma ProofFromStep(layers: seq<seq<Bytes>>, i: nat, idx: nat)
    requires i < |layers|
    ensures ProofFrom(layers[i..], idx) == Sibling(idx, layers[i]) + ProofFrom(layers[i + 1..], Parent(idx))
  {
    assert layers[i..][1..] == layers[i + 1..];
  }

  /** The proof collected so far, extended by one layer's sibling, still leads to the same whole proof. */
  lemma ProofWalkStep(layers: seq<seq<Bytes>>, i: nat, idx: nat, proof: seq<Bytes>)
    requires i < |layers|
    ensures (proof + Sibling(idx, layers[i])) + ProofFrom(layers[i + 1..], Parent(idx))
         == proof + ProofFrom(layers[i..], idx)
  {
    ProofFromStep(layers, i, idx);
    ConcatAssociative(proof, Sibling(idx, layers[i]), ProofFrom(layers[i + 1..], Parent(idx)));
  }

  /** Concatenation regroups freely. */
  lemma ConcatAssociative(a: seq<Bytes>, b: seq<Bytes>, c: seq<Bytes>)
    ensures a + (b + c) == (a + b) + c
  {
  }

  /**
   * The `reduce` of `getProof`: walks the layers from the leaf at `leaf`,
   * pushing the pair element of the current index where there is one and
   * halving the index after every layer.
   */
  method CollectProof(layers: seq<seq<Bytes>>, leaf: nat) returns (proof: seq<Bytes>)
    ensures proof == ProofFrom(layers, leaf)
  {
    var idx := leaf;
    proof := [];
    for i := 0 to |layers|
      invariant proof + ProofFrom(layers[i..], idx) == ProofFrom(layers, leaf)
    {
      var pairElement := GetPairElement(idx, layers[i]);
      ghost var extended := if pairElement.Some? then proof + [pairElement.value] else proof;
      assert extended + ProofFrom(layers[i + 1..], idx / 2) == ProofFrom(layers, leaf) by {
        ProofWalkStep(layers, i, idx, proof);
        assert extended == proof + Sibling(idx, layers[i]);
      }
      if pairElement.Some? {
        proof := proof + [pairElement.value];
      }
      idx := idx / 2;
    }
    assert layers[|layers|..] == [];
  }

  /**
   * The proof of any leaf of a tree folds back to its root: for the layers
   * built from `elements`, the leaf at `idx` and the proof collected for it.
   */
  lemma ProofOfLeaf(hash: Hash, elements: seq<Bytes>, layers: seq<seq<Bytes>>, idx: nat, leaf: Bytes, proof: seq<Bytes>)
    requires idx < |elements| && layers == LayersOf(hash, elements)
    requires leaf == elements[idx] && proof == ProofFrom(layers, idx)
    ensures |proof| <= |layers| - 1
    ensures FoldProof(hash, leaf, proof) == layers[|layers| - 1][0]
  {
    ProofReproducesRoot(hash, elements, idx, layers);
  }

  /** `bufIndexOf` searches for the element itself if it is 32 bytes long, else for its hash. */
  function SearchKey(hash: Hash, el: Bytes): (r: Bytes)
    ensures |el| == 32 ==> r == el
    ensures |el| != 32 ==> r == hash(el)
  {
    if |el| != 32 then hash(el) else el
  }

  /** The first index holding `key`, or -1. */
  function IndexOf(arr: seq<Bytes>, key: Bytes): (r: int)
    ensures -1 <= r < |arr|
    ensures r == -1 <==> key !in arr
    ensures r >= 0 ==> arr[r] == key && key !in arr[..r]
  {
    if arr == [] then -1
    else if arr[0] == key then 0
    else
      var k := IndexOf(arr[1..], key);
      assert arr == [arr[0]] + arr[1..];
      if k == -1 then -1
      else
        assert arr[..k + 1] == [arr[0]] + arr[1..][..k];
        k + 1
  }

  /** `bufArrToHexArr`: every buffer rendered as `0x`-prefixed hex, each of which reads back as that buffer. */
  function BufArrToHexArr(arr: seq<Bytes>): (r: seq<string>)
    ensures |r| == |arr|
    ensures forall i :: 0 <= i < |arr| ==> ParseHex(r[i]) == Some(arr[i])
  {
    if arr == [] then []
    else
      ToHexRoundTrip(arr[0]);
      [ToHex(arr[0])] + BufArrToHexArr(arr[1..])
  }

  // ---------------------------------------------------------------------
  // The tree object
  // ---------------------------------------------------------------------

  class MerkleTree {
    const hash: Hash
    var elements: seq<Bytes>
    var layers: seq<seq<Bytes>>

    /** The elements are strictly ascending and the layers are built from them. */
    ghost predicate Valid()
      reads this
    {
      StrictlySorted(elements) && layers == LayersOf(hash, elements)
    }

    /** Filters, sorts and de-duplicates the leaves, then builds the layers. */
    constructor (hash: Hash, input: seq<Option<Bytes>>)
      ensures Valid() && this.hash == hash
      ensures elements == Leaves(input)
    {
      this.hash := hash;
      elements := Present(input);
      layers := [];
      new;
      elements := Sort(elements);
      elements := Dedup(elements);
      assert elements == Leaves(input);
      layers := GetLayers(elements);
    }

    /** `getLayers`: pushes next layers until the last one has a single node. */
    method GetLayers(elements: seq<Bytes>) returns (layers: seq<seq<Bytes>>)
      ensures layers == LayersOf(hash, elements)
    {
      if |elements| == 0 {
        return [[[]]];
      }
      var last := elements;
      ghost var below: seq<seq<Bytes>> := [];
      layers := [elements];
      while |last| > 1
        invariant layers == below + [last] && |last| >= 1
        invariant BuildLayers(hash, elements) == below + BuildLayers(hash, last)
        decreases |last|
      {
        BuildLayersStep(hash, below, last);
        below := layers;
        last := NextLayer(hash, last);
        layers := layers + [last];
      }
    }

    /** `getRoot`: the single node of the last layer. */
    function Root(): (r: Bytes)
      reads this
      requires Valid()
      ensures layers[|layers| - 1] == [r]
      ensures elements == [] ==> r == []
      ensures |elements| == 1 ==> r == elements[0]
    {
      layers[|layers| - 1][0]
    }

    /** `getHexRoot`. */
    function HexRoot(): (r: string)
      reads this
      requires Valid()
      ensures ParseHex(r) == Some(Root())
    {
      ToHexRoundTrip(Root());
      ToHex(Root())
    }

    /** `bufIndexOf`: the first index of `el` (hashed unless 32 bytes long) in `arr`, or -1. */
    method BufIndexOf(el: Bytes, arr: seq<Bytes>) returns (r: int)
      ensures r == IndexOf(arr, SearchKey(hash, el))
    {
      var key := SearchKey(hash, el);
      for i := 0 to |arr|
        invariant key !in arr[..i]
      {
        if key == arr[i] {
          assert key in arr;
          return i;
        }
      }
      assert arr[..|arr|] == arr;
      return -1;
    }

    /**
     * `getProof`: fails for a leaf not in the tree; otherwise collects one
     * sibling per layer where the current index has one, halving the index
     * at each layer, so that folding the proof from the leaf gives the root.
     */
    method GetProof(el: Bytes) returns (r: Result<seq<Bytes>, string>)
      requires Valid()
      ensures r.Err? <==> SearchKey(hash, el) !in elements
      ensures r.Err? ==> r.error == ElementNotFound
      ensures r.Ok? ==> r.value == ProofFrom(layers, IndexOf(elements, SearchKey(hash, el)))
      ensures r.Ok? ==> |r.value| <= |layers| - 1
      ensures r.Ok? ==> FoldProof(hash, SearchKey(hash, el), r.value) == layers[|layers| - 1][0]
    {
      var idx := BufIndexOf(el, elements);
      if idx == -1 {
        return Err(ElementNotFound);
      }
      ghost var key := SearchKey(hash, el);
      assert idx < |elements| && elements[idx] == key;
      var proof := CollectProof(layers, idx);
      ProofOfLeaf(hash, elements, layers, idx, key, proof);
      return Ok(proof);
    }

    /** `getHexProof`: the proof of `el` rendered as hex strings. */
    method GetHexProof(el: Bytes) returns (r: Result<seq<string>, string>)
      requires Valid()
      ensures r.Err? <==> SearchKey(hash, el) !in elements
      ensures r.Err? ==> r.error == ElementNotFound
      ensures r.Ok? ==> r.value == BufArrToHexArr(ProofFrom(layers, IndexOf(elements, SearchKey(hash, el))))
      ensures r.Ok? ==> FoldProof(hash, SearchKey(hash, el), ProofFrom(layers, IndexOf(elements, SearchKey(hash, el)))) == Root()
    {
      var proof := GetProof(el);
      match proof
      case Err(e) => return Err(e);
      case Ok(p) => return Ok(BufArrToHexArr(p));
    }
  }
}
