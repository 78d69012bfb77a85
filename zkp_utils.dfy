/**
 * The Merkle-membership and commitment helpers of src/lib/zkpUtils.js. Poseidon is an
 * abstract function from a list of field inputs to the decimal text of the field element
 * it yields (`poseidon.F.toString`); the fixed-depth tree is the one fixed-merkle-tree builds,
 * written out over its layers.
 */
module ZkpUtils {
  import opened Results
  import opened Powers
  import JsText

  /** A field element as poseidonHash returns it: its decimal text. */
  type Field = string

  /** Poseidon over a list of inputs. A number and its decimal text are the same input. */
  type Hasher = seq<Field> -> Field

  const TREE_LEVELS: nat := 8

  /** 2^TREE_LEVELS leaf positions. */
  const CAPACITY: nat := 256

  /** The value of an empty leaf position. */
  const ZERO_ELEMENT: Field := "0"

  /** A catalogue entry as the tree sees it: the book's id (its text) and its price in cents. */
  datatype CatalogBook = CatalogBook(id: string, priceCents: int)

  /** The leaf of a book: `poseidonHash([book.id, book.price_cents])`. */
  function LeafHash(h: Hasher, book: CatalogBook): Field {
    h([book.id, JsText.IntToString(book.priceCents)])
  }

  /** An inner node: `hashFunction(left, right) = poseidonHash([left, right])`. */
  function NodeHash(h: Hasher, left: Field, right: Field): Field {
    h([left, right])
  }

  // ---------------------------------------------------------------- tree

  /** The layer above: node i hashes children 2i and 2i+1. */
  function ParentLayer(h: Hasher, layer: seq<Field>): (r: seq<Field>)
    ensures |r| == |layer| / 2
    ensures forall i :: 0 <= i < |r| ==> r[i] == NodeHash(h, layer[2 * i], layer[2 * i + 1])
  {
    seq(|layer| / 2, i requires 0 <= i < |layer| / 2 => NodeHash(h, layer[2 * i], layer[2 * i + 1]))
  }

  /** Layers from the leaves up: each layer is the parent layer of the one below, the last is the root alone. */
  ghost predicate IsTree(h: Hasher, layers: seq<seq<Field>>) {
    if |layers| == 0 then false
    else if |layers| == 1 then |layers[0]| == 1
    else |layers[0]| == 2 * |layers[1]| && layers[1] == ParentLayer(h, layers[0]) && IsTree(h, layers[1..])
  }

  /** The shape alone: every layer is twice as long as the one above it, and the top is one node. */
  predicate Halving(layers: seq<seq<Field>>) {
    if |layers| == 0 then false
    else if |layers| == 1 then |layers[0]| == 1
    else |layers[0]| == 2 * |layers[1]| && Halving(layers[1..])
  }

  /** The single node of the top layer. */
  function Top(layers: seq<seq<Field>>): Field
    requires Halving(layers)
    decreases |layers|
  {
    if |layers| == 1 then layers[0][0] else Top(layers[1..])
  }

  lemma {:induction false} TreeIsHalving(h: Hasher, layers: seq<seq<Field>>)
    requires IsTree(h, layers)
    ensures Halving(layers)
    decreases |layers|
  {
    if |layers| > 1 { TreeIsHalving(h, layers[1..]); }
  }

  /** n is 2^k for some k. */
  predicate PowerOfTwo(n: nat) {
    n == 1 || (n >= 2 && n % 2 == 0 && PowerOfTwo(n / 2))
  }

  /** The layers of the tree over a full bottom layer, the bottom layer first and the root last. */
  function BuildLayers(h: Hasher, layer: seq<Field>): (r: seq<seq<Field>>)
    requires PowerOfTwo(|layer|)
    ensures r != [] && r[0] == layer
    ensures IsTree(h, r)
    decreases |layer|
  {
    if |layer| == 1 then [layer]
    else
      var parent := ParentLayer(h, layer);
      var rest := BuildLayers(h, parent);
      var r := [layer] + rest;
      assert r[1..] == rest;
      r
  }

  /** A bottom layer of 2^levels nodes gives levels + 1 layers. */
  lemma {:induction false} BuildLayersDepth(h: Hasher, layer: seq<Field>, levels: nat)
    requires |layer| == Pow2(levels)
    ensures PowerOfTwo(|layer|)
    ensures |BuildLayers(h, layer)| == levels + 1
    decreases levels
  {
    if levels > 0 {
      var parent := ParentLayer(h, layer);
      assert |layer| == 2 * Pow2(levels - 1);
      assert |parent| == Pow2(levels - 1);
      BuildLayersDepth(h, parent, levels - 1);
      assert PowerOfTwo(|layer|);
      assert BuildLayers(h, layer) == [layer] + BuildLayers(h, parent);
    }
  }

  /** The tree of a catalogue: its layers, leaves first. */
  datatype MerkleTree = MerkleTree(leafCount: nat, layers: seq<seq<Field>>) {
    /** `tree.root`. */
    function Root(): Field
      requires Halving(layers)
    {
      Top(layers)
    }
  }

  /** The leaves of a catalogue, in catalogue order, padded with the zero element to `size` positions. */
  function PaddedLeaves(h: Hasher, books: seq<CatalogBook>, size: nat): (r: seq<Field>)
    requires |books| <= size
    ensures |r| == size
    ensures forall i :: 0 <= i < |books| ==> r[i] == LeafHash(h, books[i])
    ensures forall i :: |books| <= i < |r| ==> r[i] == ZERO_ELEMENT
  {
    seq(size, i requires 0 <= i < size => if i < |books| then LeafHash(h, books[i]) else ZERO_ELEMENT)
  }

  /**
   * A tree of the given depth over the catalogue's leaves; more books than leaf positions is
   * the "Tree is full" error of the tree library.
   */
  function BuildTree(h: Hasher, books: seq<CatalogBook>, levels: nat): (r: Result<MerkleTree>)
    ensures r.Ok? <==> |books| <= Pow2(levels)
    ensures r.Err? ==> r.error == TreeFull
    ensures r.Ok? ==> r.value.leafCount == |books| && |r.value.layers| == levels + 1
                      && IsTree(h, r.value.layers) && Halving(r.value.layers)
    ensures r.Ok? ==> r.value.layers[0] == PaddedLeaves(h, books, Pow2(levels))
  {
    if |books| > Pow2(levels) then Err(TreeFull)
    else
      var leaves := PaddedLeaves(h, books, Pow2(levels));
      BuildLayersDepth(h, leaves, levels);
      var layers := BuildLayers(h, leaves);
      TreeIsHalving(h, layers);
      Ok(MerkleTree(|books|, layers))
  }

  /** buildMerkleTree: the depth-8 tree, which holds at most 256 books. */
  function BuildMerkleTree(h: Hasher, books: seq<CatalogBook>): (r: Result<MerkleTree>)
    ensures r.Ok? <==> |books| <= CAPACITY
    ensures r.Err? ==> r.error == TreeFull
    ensures r.Ok? ==> r.value.leafCount == |books| && |r.value.layers| == TREE_LEVELS + 1
                      && Halving(r.value.layers) && |r.value.layers[0]| == CAPACITY
    ensures r.Ok? ==> IsTree(h, r.value.layers) && r.value.layers[0] == PaddedLeaves(h, books, CAPACITY)
  {
    assert Pow2(TREE_LEVELS) == CAPACITY;
    BuildTree(h, books, TREE_LEVELS)
  }

  // ---------------------------------------------------------------- proofs

  /** A membership proof: the sibling at every level and whether the path went right (1) or left (0). */
  datatype MerkleProof = MerkleProof(pathElements: seq<Field>, pathIndices: seq<int>)

  /** The path of node `index` of the bottom layer, sibling by sibling up to the root. */
  function PathFrom(layers: seq<seq<Field>>, index: nat): (p: MerkleProof)
    requires Halving(layers) && index < |layers[0]|
    ensures |p.pathElements| == |p.pathIndices| == |layers| - 1
    ensures forall l :: 0 <= l < |p.pathIndices| ==> p.pathIndices[l] == Bit(index, l)
    decreases |layers|
  {
    if |layers| == 1 then MerkleProof([], [])
    else
      var sibling := if index % 2 == 0 then index + 1 else index - 1;
      var rest := PathFrom(layers[1..], index / 2);
      var p := MerkleProof([layers[0][sibling]] + rest.pathElements, [index % 2] + rest.pathIndices);
      assert forall l :: 1 <= l < |p.pathIndices| ==> p.pathIndices[l] == rest.pathIndices[l - 1];
      p
  }

  /**
   * getMerkleProof: a negative index is rejected by the caller's guard; the tree rejects an
   * index past its leaves.
   */
  function GetMerkleProof(tree: MerkleTree, leafIndex: int): (r: Result<MerkleProof>)
    requires Halving(tree.layers) && |tree.layers[0]| >= tree.leafCount
    ensures leafIndex < 0 ==> r == Err(BookLeafNotFound)
    ensures leafIndex >= tree.leafCount ==> r == Err(IndexOutOfBounds(leafIndex))
    ensures r.Ok? <==> 0 <= leafIndex < tree.leafCount
    ensures r.Ok? ==> r.value == PathFrom(tree.layers, leafIndex)
  {
    if leafIndex < 0 then Err(BookLeafNotFound)
    else if leafIndex >= tree.leafCount then Err(IndexOutOfBounds(leafIndex))
    else Ok(PathFrom(tree.layers, leafIndex))
  }

  /** One step of the verifier: index 0 puts the running hash on the left, otherwise on the right. */
  function FoldStep(h: Hasher, current: Field, element: Field, index: int): Field {
    if index == 0 then NodeHash(h, current, element) else NodeHash(h, element, current)
  }

  /** The proof check the tests and the circuit run: fold the path from the leaf upwards. */
  function FoldPath(h: Hasher, leaf: Field, elements: seq<Field>, indices: seq<int>): Field
    requires |elements| == |indices|
    decreases |elements|
  {
    if elements == [] then leaf
    else FoldPath(h, FoldStep(h, leaf, elements[0], indices[0]), elements[1..], indices[1..])
  }

  /** Folding the path of any node reproduces the root. */
  lemma {:induction false} PathFoldsToRoot(h: Hasher, layers: seq<seq<Field>>, index: nat)
    requires IsTree(h, layers) && index < |layers[0]|
    ensures Halving(layers)
    ensures var p := PathFrom(layers, index);
      FoldPath(h, layers[0][index], p.pathElements, p.pathIndices) == Top(layers)
    decreases |layers|
  {
    TreeIsHalving(h, layers);
    if |layers| > 1 {
      var p := PathFrom(layers, index);
      var up := layers[1..];
      var rest := PathFrom(up, index / 2);
      assert p.pathElements[1..] == rest.pathElements;
      assert p.pathIndices[1..] == rest.pathIndices;
      var parent := up[0][index / 2];
      LeafStepIsParent(h, layers, index);
      assert FoldStep(h, layers[0][index], p.pathElements[0], p.pathIndices[0]) == parent;
      PathFoldsToRoot(h, up, index / 2);
    }
  }

  /** One step up from node `index`: its sibling and its side give the parent node. */
  lemma {:induction false} LeafStepIsParent(h: Hasher, layers: seq<seq<Field>>, index: nat)
    requires IsTree(h, layers) && |layers| > 1 && index < |layers[0]|
    ensures index / 2 < |layers[1]|
    ensures var sibling := if index % 2 == 0 then index + 1 else index - 1;
      0 <= sibling < |layers[0]| &&
      FoldStep(h, layers[0][index], layers[0][sibling], index % 2) == layers[1][index / 2]
  {
    ParentOfNode(h, layers[0], index);
  }

  lemma {:induction false} ParentOfNode(h: Hasher, layer: seq<Field>, index: nat)
    requires index < |layer| && |layer| % 2 == 0
    ensures index / 2 < |ParentLayer(h, layer)|
    ensures var sibling := if index % 2 == 0 then index + 1 else index - 1;
      0 <= sibling < |layer| &&
      FoldStep(h, layer[index], layer[sibling], index % 2) == ParentLayer(h, layer)[index / 2]
  {
    var i := index / 2;
    if index % 2 == 0 {
      assert index == 2 * i;
    } else {
      assert index == 2 * i + 1;
    }
  }

  /** In a tree of any depth, every book has a proof, and folding it from the book's leaf reproduces the root. */
  lemma {:induction false} MembershipProofAtDepth(h: Hasher, books: seq<CatalogBook>, levels: nat, leafIndex: nat)
    requires |books| <= Pow2(levels) && leafIndex < |books|
    ensures BuildTree(h, books, levels).Ok?
    ensures var tree := BuildTree(h, books, levels).value;
      var proof := GetMerkleProof(tree, leafIndex);
      proof.Ok? && |proof.value.pathElements| == levels &&
      FoldPath(h, LeafHash(h, books[leafIndex]), proof.value.pathElements, proof.value.pathIndices) == tree.Root()
  {
    var tree := BuildTree(h, books, levels).value;
    PathFoldsToRoot(h, tree.layers, leafIndex);
  }

  /** Every book of the catalogue has an 8-step proof, and folding it from the book's leaf reproduces the root. */
  lemma {:induction false} MembershipProof(h: Hasher, books: seq<CatalogBook>, leafIndex: nat)
    requires |books| <= CAPACITY && leafIndex < |books|
    ensures BuildMerkleTree(h, books).Ok?
    ensures var tree := BuildMerkleTree(h, books).value;
      var proof := GetMerkleProof(tree, leafIndex);
      proof.Ok? && |proof.value.pathElements| == TREE_LEVELS &&
      FoldPath(h, LeafHash(h, books[leafIndex]), proof.value.pathElements, proof.value.pathIndices) == tree.Root()
  {
    assert Pow2(TREE_LEVELS) == CAPACITY;
    assert BuildMerkleTree(h, books) == BuildTree(h, books, TREE_LEVELS);
    MembershipProofAtDepth(h, books, TREE_LEVELS, leafIndex);
  }

  // ---------------------------------------------------------------- circuit inputs

  /** The inputs of snarkjs.fullProve, one field per circuit signal. */
  datatype ZkpInputs = ZkpInputs(
    bookId: string,
    nonce: string,
    merkleProof: seq<Field>,
    merklePathIndices: seq<int>,
    merkleRoot: Field,
    price: string,
    commitment: Field)

  /** generateZkpInputs: the book's id and price as text, the rest passed through. */
  function GenerateZkpInputs(book: CatalogBook, nonce: string, proof: MerkleProof, merkleRoot: Field, commitment: Field): (r: ZkpInputs)
    ensures r.bookId == book.id && r.price == JsText.IntToString(book.priceCents)
    ensures r.nonce == nonce && r.merkleRoot == merkleRoot && r.commitment == commitment
    ensures r.merkleProof == proof.pathElements && r.merklePathIndices == proof.pathIndices
  {
    ZkpInputs(book.id, nonce, proof.pathElements, proof.pathIndices, merkleRoot, JsText.IntToString(book.priceCents), commitment)
  }

  /** What the circuit checks about membership: the leaf of (book_id, price) folds to merkle_root. */
  ghost predicate MembershipHolds(h: Hasher, inputs: ZkpInputs) {
    |inputs.merkleProof| == |inputs.merklePathIndices| &&
    FoldPath(h, h([inputs.bookId, inputs.price]), inputs.merkleProof, inputs.merklePathIndices) == inputs.merkleRoot
  }

  /** The inputs packaged for a catalogue book satisfy the circuit's membership relation. */
  lemma {:induction false} PackagedInputsProveMembership(h: Hasher, books: seq<CatalogBook>, leafIndex: nat, nonce: string, commitment: Field)
    requires |books| <= CAPACITY && leafIndex < |books|
    ensures BuildMerkleTree(h, books).Ok?
    ensures var tree := BuildMerkleTree(h, books).value;
      GetMerkleProof(tree, leafIndex).Ok? &&
      MembershipHolds(h, GenerateZkpInputs(books[leafIndex], nonce, GetMerkleProof(tree, leafIndex).value, tree.Root(), commitment))
  {
    MembershipProof(h, books, leafIndex);
  }

  // ---------------------------------------------------------------- the Poseidon instance

  /** The module-level `poseidon` variable, filled once by getPoseidon. */
  class PoseidonCache {
    var poseidon: Option<Hasher>

    constructor ()
      ensures poseidon == None
    {
      poseidon := None;
    }

    /**
     * getPoseidon: the first call stores the instance buildPoseidon yields (`built`);
     * later calls return the stored one and ignore `built`.
     */
    method GetPoseidon(built: Hasher) returns (p: Hasher)
      modifies this
      ensures old(poseidon).Some? ==> p == old(poseidon).value && poseidon == old(poseidon)
      ensures old(poseidon).None? ==> p == built && poseidon == Some(built)
      ensures poseidon == Some(p)
    {
      if poseidon.None? {
        poseidon := Some(built);
      }
      p := poseidon.value;
    }

    /** poseidonHash: calling the hasher before getPoseidon fails (`poseidon` is undefined). */
    function PoseidonHash(inputs: seq<Field>): (r: Result<Field>)
      reads this
      ensures poseidon.None? <==> r == Err(PoseidonNotInitialised)
      ensures poseidon.Some? ==> r == Ok(poseidon.value(inputs))
    {
      match poseidon
      case None => Err(PoseidonNotInitialised)
      case Some(h) => Ok(h(inputs))
    }
  }
}
