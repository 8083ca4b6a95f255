/**
 * `MerkleTreesApplication`: builds a test composite, picks one of its
 * composites at random, builds the hash tree, extracts the reduced hash
 * tree from the root to the picked composite's node, and packages it with
 * a timestamp over the root hash as an RFC 4998 archive timestamp.
 *
 * The random draw (`ThreadLocalRandom.nextInt`) is the parameter `index`;
 * the RFC 3161 timestamp authority reached over HTTP is the parameter
 * `tsa`, a function from a request to either the token's `ContentInfo`
 * or the message of the exception `requestTimeStamp` throws.
 */
module MerkleTreesApplication {
  import opened Wrappers
  import opened ByteOrder
  import opened ArraysToString
  import opened CryptoUtils
  import opened TestComposite
  import opened MerkleTreeNode

  // ---------------------------------------------------------------------
  // flatten, pickRandomAncestor, generateTestComposite
  // ---------------------------------------------------------------------

  /**
   * `flatten(input)`: a fresh list holding `input`, then the flattening
   * of each child in order; that is the pre-order enumeration, one entry
   * per composite of the tree, starting with `input`.
   */
  method Flatten(input: Composite) returns (flattened: seq<Composite>)
    ensures flattened == Preorder(input)
    ensures |flattened| == Size(input)
    ensures flattened[0] == input
    decreases input
  {
    flattened := [input];
    var i := 0;
    while i < |input.children|
      invariant 0 <= i <= |input.children|
      invariant flattened == [input] + PreorderAll(input.children[..i])
    {
      var child := input.children[i];
      var sub := Flatten(child);
      assert input.children[..i + 1] == input.children[..i] + [child];
      PreorderAllAppend(input.children[..i], [child]);
      assert PreorderAll([child]) == Preorder(child) + PreorderAll([]);
      flattened := flattened + sub;
      i := i + 1;
    }
    assert input.children[..i] == input.children;
    PreorderLength(input);
  }

  /**
   * `pickRandomAncestor(input)`, with the value `nextInt(size)` drew as
   * `index`: the entry at that position of the flattening, so a composite
   * of the tree, reachable from `input` through child positions.
   */
  method PickRandomAncestor(input: Composite, index: nat) returns (r: Composite)
    requires index < Size(input)
    ensures r in Preorder(input)
    ensures exists idx :: IsCompositePath(input, idx) && SubtreeAt(input, idx) == r
    ensures index < |Preorder(input)| && r == Preorder(input)[index]
  {
    var ancestors := Flatten(input);
    r := ancestors[index];
    PreorderIsSubtrees(input, r);
  }

  /** The number of children of each composite in a list. */
  function Arities(cs: seq<Composite>): (r: seq<nat>)
    ensures |r| == |cs|
    ensures forall i :: 0 <= i < |cs| ==> r[i] == |cs[i].children|
  {
    seq(|cs|, i requires 0 <= i < |cs| => |cs[i].children|)
  }

  /**
   * `generateTestComposite()`: a fixed ten-composite tree. The root has
   * three children (left, right, a leaf); left has two (leftLeft, a leaf);
   * leftLeft and right have two leaves each. The one-argument
   * `TestComposite` constructor it calls chooses each composite's content
   * itself; `contentOf(k)` is the content of the k-th composite created.
   */
  method GenerateTestComposite(contentOf: nat -> string) returns (root: Composite)
    ensures Size(root) == 10
    ensures Arities(Preorder(root)) == [3, 2, 2, 0, 0, 0, 2, 0, 0, 0]
  {
    var leftLeftChildren: seq<Composite> := [];
    leftLeftChildren := leftLeftChildren + [Composite(contentOf(0), [])];
    leftLeftChildren := leftLeftChildren + [Composite(contentOf(1), [])];
    var leftLeft := Composite(contentOf(2), leftLeftChildren);

    var rightChildren: seq<Composite> := [];
    rightChildren := rightChildren + [Composite(contentOf(3), [])];
    rightChildren := rightChildren + [Composite(contentOf(4), [])];
    var right := Composite(contentOf(5), rightChildren);

    var leftChildren: seq<Composite> := [];
    leftChildren := leftChildren + [leftLeft];
    leftChildren := leftChildren + [Composite(contentOf(6), [])];
    var left := Composite(contentOf(7), leftChildren);

    var rootChildren: seq<Composite> := [];
    rootChildren := rootChildren + [left];
    rootChildren := rootChildren + [right];
    rootChildren := rootChildren + [Composite(contentOf(8), [])];
    root := Composite(contentOf(9), rootChildren);

    LeafPreorder(leftLeftChildren[0]);
    LeafPreorder(leftLeftChildren[1]);
    LeafPreorder(rightChildren[0]);
    LeafPreorder(rightChildren[1]);
    LeafPreorder(leftChildren[1]);
    LeafPreorder(rootChildren[2]);
    TwoLeavesPreorder(leftLeft);
    TwoLeavesPreorder(right);
    PairPreorder(leftChildren);
    TripletPreorder(rootChildren);
    PreorderLength(root);
  }

  lemma LeafPreorder(c: Composite)
    requires c.children == []
    ensures Preorder(c) == [c]
  {
  }

  lemma PairPreorder(cs: seq<Composite>)
    requires |cs| == 2
    ensures PreorderAll(cs) == Preorder(cs[0]) + Preorder(cs[1])
  {
    var tail := cs[1..];
    assert tail[0] == cs[1] && tail[1..] == [];
    assert PreorderAll(tail) == Preorder(cs[1]) + PreorderAll([]);
  }

  lemma TripletPreorder(cs: seq<Composite>)
    requires |cs| == 3
    ensures PreorderAll(cs) == Preorder(cs[0]) + Preorder(cs[1]) + Preorder(cs[2])
  {
    PairPreorder(cs[1..]);
  }

  lemma TwoLeavesPreorder(c: Composite)
    requires |c.children| == 2 && c.children[0].children == [] && c.children[1].children == []
    ensures Preorder(c) == [c, c.children[0], c.children[1]]
  {
    PairPreorder(c.children);
  }

  // ---------------------------------------------------------------------
  // createArchiveTimestamp
  // ---------------------------------------------------------------------

  /** What `TimeStampRequestGenerator.generate(oid, digest)` asks for: a timestamp over `messageImprint`. */
  datatype TimeStampRequest = TimeStampRequest(hashAlgorithm: Oid, messageImprint: Bytes)

  /** The DER encoding of the CMS `ContentInfo` of a timestamp token. */
  datatype ContentInfo = ContentInfo(encoded: Bytes)

  /** An X.509 `AlgorithmIdentifier` without parameters. */
  datatype AlgorithmIdentifier = AlgorithmIdentifier(algorithm: Oid)

  /** RFC 4998 `ArchiveTimeStamp`: digest algorithm, reduced hash tree, and the timestamp. */
  datatype ArchiveTimeStamp = ArchiveTimeStamp(
    digestAlgorithm: AlgorithmIdentifier,
    reducedHashTree: seq<PartialHashtree>,
    timeStamp: ContentInfo)

  /** The timestamp authority: the token for a request, or the message of the failure. */
  type TimestampAuthority = TimeStampRequest -> Result<ContentInfo, string>

  /** The request `createArchiveTimestamp` sends: the algorithm's TSP OID and the root hash. */
  function RequestFor(rootHash: Bytes, alg: HashAlgorithm): (r: TimeStampRequest)
    ensures r.messageImprint == rootHash && r.hashAlgorithm == alg.tspOid
  {
    TimeStampRequest(alg.tspOid, rootHash)
  }

  /**
   * `createArchiveTimestamp(rootHash, reducedHashTree, hashAlgorithm)`:
   * asks the authority to timestamp `rootHash`; if it fails, so does this
   * (the Java code throws). Otherwise the archive timestamp carries an
   * identifier of the algorithm's TSP OID, the caller's reduced hash tree
   * unchanged, and the token.
   */
  function CreateArchiveTimestamp(rootHash: Bytes, reducedHashTree: seq<PartialHashtree>, alg: HashAlgorithm,
                                  tsa: TimestampAuthority): (r: Result<ArchiveTimeStamp, string>)
    ensures r.Ok? <==> tsa(RequestFor(rootHash, alg)).Ok?
    ensures r.Ok? ==> r.value.reducedHashTree == reducedHashTree
    ensures r.Ok? ==> r.value.digestAlgorithm.algorithm == alg.tspOid
    ensures r.Ok? ==> r.value.timeStamp == tsa(RequestFor(rootHash, alg)).value
    ensures r.Err? ==> r.error == tsa(RequestFor(rootHash, alg)).error
  {
    var request := RequestFor(rootHash, alg);
    match tsa(request)
    case Err(e) => Err(e)
    case Ok(timeStamp) =>
      var identifier := AlgorithmIdentifier(alg.tspOid);
      Ok(ArchiveTimeStamp(identifier, reducedHashTree, timeStamp))
  }

  // ---------------------------------------------------------------------
  // What the flow of test() relies on
  // ---------------------------------------------------------------------

  /** The composites of a list of nodes, in order. */
  function Composites(ns: seq<Node>): (r: seq<Composite>)
    ensures |r| == |ns|
    ensures forall i :: 0 <= i < |ns| ==> r[i] == ns[i].composite
  {
    seq(|ns|, i requires 0 <= i < |ns| => ns[i].composite)
  }

  lemma CompositesAppend(a: seq<Node>, b: seq<Node>)
    ensures Composites(a + b) == Composites(a) + Composites(b)
  {
    var l, r := Composites(a + b), Composites(a) + Composites(b);
    forall i | 0 <= i < |l| ensures l[i] == r[i] {
      if i >= |a| { assert (a + b)[i] == b[i - |a|]; }
    }
  }

  /** The built tree, enumerated in pre-order, mirrors the composite's enumeration node for node. */
  lemma {:induction false} BuildPreorder(c: Composite, alg: HashAlgorithm, getBytes: string -> Bytes)
    ensures Composites(NodePreorder(Build(c, alg, getBytes))) == Preorder(c)
    decreases c, 1
  {
    var n := Build(c, alg, getBytes);
    BuildAllPreorder(c.children, alg, getBytes);
    CompositesAppend([n], NodePreorderAll(n.children));
  }

  lemma {:induction false} BuildAllPreorder(cs: seq<Composite>, alg: HashAlgorithm, getBytes: string -> Bytes)
    ensures Composites(NodePreorderAll(BuildAll(cs, alg, getBytes))) == PreorderAll(cs)
    decreases cs, 0
  {
    var ns := BuildAll(cs, alg, getBytes);
    if cs != [] {
      assert ns[0] == Build(cs[0], alg, getBytes);
      assert ns[1..] == BuildAll(cs[1..], alg, getBytes);
      BuildPreorder(cs[0], alg, getBytes);
      BuildAllPreorder(cs[1..], alg, getBytes);
      CompositesAppend(NodePreorder(ns[0]), NodePreorderAll(ns[1..]));
    }
  }

  /**
   * For every composite of the flattening of `root`, `findAncestor` on
   * the tree built from `root` finds a node for exactly that composite,
   * and `getPathToAncestor` with that node's hash returns a path: the two
   * results `test()` dereferences without a null check are never null.
   */
  lemma FlattenedNodesAreFound(root: Composite, x: Composite, alg: HashAlgorithm, getBytes: string -> Bytes)
    requires x in Preorder(root)
    ensures FindAncestor(Build(root, alg, getBytes), x).Some?
    ensures FindAncestor(Build(root, alg, getBytes), x).value.composite == x
    ensures FindAncestor(Build(root, alg, getBytes), x).value in NodePreorder(Build(root, alg, getBytes))
    ensures PathToAncestor(Build(root, alg, getBytes), FindAncestor(Build(root, alg, getBytes), x).value.hash, alg, getBytes).Some?
  {
    var n := Build(root, alg, getBytes);
    var s := NodePreorder(n);
    BuildPreorder(root, alg, getBytes);
    var k :| 0 <= k < |Preorder(root)| && Preorder(root)[k] == x;
    assert HasComposite(x)(s[k]);
    FirstMatchIsFirst(s, HasComposite(x));
    FindAncestorIsFirstInPreorder(n, x);
    var m := FindAncestor(n, x).value;
    PathFoundIff(n, m.hash, alg, getBytes);
  }

  /** Every node of a well-formed tree is itself well formed. */
  lemma {:induction false} WellFormedPreorder(n: Node, alg: HashAlgorithm, getBytes: string -> Bytes)
    requires WellFormed(n, alg, getBytes)
    ensures forall m :: m in NodePreorder(n) ==> WellFormed(m, alg, getBytes)
    decreases n, 1
  {
    WellFormedPreorderAll(n.children, alg, getBytes);
  }

  lemma {:induction false} WellFormedPreorderAll(cs: seq<Node>, alg: HashAlgorithm, getBytes: string -> Bytes)
    requires forall i :: 0 <= i < |cs| ==> WellFormed(cs[i], alg, getBytes)
    ensures forall m :: m in NodePreorderAll(cs) ==> WellFormed(m, alg, getBytes)
    decreases cs, 0
  {
    if cs != [] {
      WellFormedPreorder(cs[0], alg, getBytes);
      WellFormedPreorderAll(cs[1..], alg, getBytes);
    }
  }

  /**
   * The assumption a cryptographic hash is trusted for: distinct strings
   * never have equal digests of their bytes.
   */
  ghost predicate CollisionFree(alg: HashAlgorithm, getBytes: string -> Bytes) {
    forall s, s' :: alg.digest(getBytes(s)) == alg.digest(getBytes(s')) ==> s == s'
  }

  /**
   * With a collision-free digest, the last entry of the path to a node
   * of a well-formed tree is that node's own sorted hashes, so it holds
   * the digest of the node's content.
   */
  lemma PathEndsAtNode(n: Node, m: Node, alg: HashAlgorithm, getBytes: string -> Bytes, p: seq<PartialHashtree>)
    requires WellFormed(n, alg, getBytes) && m in NodePreorder(n)
    requires PathToAncestor(n, m.hash, alg, getBytes) == Some(p)
    requires CollisionFree(alg, getBytes)
    ensures p[|p| - 1] == SortedHashes(m, alg, getBytes)
    ensures ContentHash(m.composite, alg, getBytes) in p[|p| - 1]
  {
    PathIsChained(n, m.hash, alg, getBytes, p);
    WellFormedPreorder(n, alg, getBytes);
    var last, own := p[|p| - 1], SortedHashes(m, alg, getBytes);
    assert HashOf(last, alg, getBytes) == HashOf(own, alg, getBytes);
    assert Joined(last) == Joined(own);
    JoinedInjective(last, own);
    SortedHashesMembers(m, alg, getBytes);
  }

  // ---------------------------------------------------------------------
  // test()
  // ---------------------------------------------------------------------

  /**
   * The flow of `test()` up to the archive timestamp it prints: build the
   * test composite, pick a composite (`index` stands for the random draw
   * from [0, 10)), build the tree, find the picked composite's node, take
   * the root hash and the reduced hash tree to that node's hash, and
   * request the archive timestamp.
   *
   * The picked composite is entry `index` of the test composite's
   * flattening, the root hash is that of the tree built from the test
   * composite, and the archived reduced hash tree is that tree's path to
   * the node `findAncestor` returns for the picked composite. None of the
   * unchecked dereferences can fail. If the authority grants the
   * timestamp, it was requested over the tree's root hash, and the
   * archived reduced hash tree chains from that hash down to a partial
   * hash tree that re-hashes to the picked node's hash; with a
   * collision-free digest, that last entry holds the digest of the picked
   * composite's content.
   */
  method Test(contentOf: nat -> string, index: nat, alg: HashAlgorithm, getBytes: string -> Bytes, tsa: TimestampAuthority)
    returns (testComposite: Composite, randomAncestor: Composite, rootHash: Bytes,
             archiveTimeStamp: Result<ArchiveTimeStamp, string>)
    requires index < 10
    ensures Size(testComposite) == 10 && Arities(Preorder(testComposite)) == [3, 2, 2, 0, 0, 0, 2, 0, 0, 0]
    ensures index < |Preorder(testComposite)| && randomAncestor == Preorder(testComposite)[index]
    ensures rootHash == Build(testComposite, alg, getBytes).hash
    ensures FindAncestor(Build(testComposite, alg, getBytes), randomAncestor).Some?
    ensures FindAncestor(Build(testComposite, alg, getBytes), randomAncestor).value.composite == randomAncestor
    ensures PathToAncestor(Build(testComposite, alg, getBytes),
                           FindAncestor(Build(testComposite, alg, getBytes), randomAncestor).value.hash, alg, getBytes).Some?
    ensures archiveTimeStamp.Ok? ==>
      archiveTimeStamp.value.reducedHashTree
        == PathToAncestor(Build(testComposite, alg, getBytes),
                          FindAncestor(Build(testComposite, alg, getBytes), randomAncestor).value.hash, alg, getBytes).value
    ensures archiveTimeStamp.Ok? <==> tsa(RequestFor(rootHash, alg)).Ok?
    ensures archiveTimeStamp.Ok? ==> archiveTimeStamp.value.timeStamp == tsa(RequestFor(rootHash, alg)).value
    ensures archiveTimeStamp.Ok? ==> archiveTimeStamp.value.digestAlgorithm.algorithm == alg.tspOid
    ensures archiveTimeStamp.Ok? ==> Chained(archiveTimeStamp.value.reducedHashTree, rootHash, alg, getBytes)
    ensures archiveTimeStamp.Ok? && CollisionFree(alg, getBytes) ==>
      var p := archiveTimeStamp.value.reducedHashTree;
      ContentHash(randomAncestor, alg, getBytes) in p[|p| - 1]
  {
    testComposite := GenerateTestComposite(contentOf);
    randomAncestor := PickRandomAncestor(testComposite, index);

    var tree := NewNode(testComposite, alg, getBytes);

    FlattenedNodesAreFound(testComposite, randomAncestor, alg, getBytes);
    var ancestorNode := FindAncestor(tree, randomAncestor).value;
    rootHash := tree.hash;
    var reducedTree := PathToAncestor(tree, ancestorNode.hash, alg, getBytes).value;
    PathIsChained(tree, ancestorNode.hash, alg, getBytes, reducedTree);
    if CollisionFree(alg, getBytes) {
      PathEndsAtNode(tree, ancestorNode, alg, getBytes, reducedTree);
    }

    archiveTimeStamp := CreateArchiveTimestamp(rootHash, reducedTree, alg, tsa);
  }
}
