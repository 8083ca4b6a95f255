/**
 * `MerkleTreeNode`: a hash tree mirroring a composite hierarchy. A node's
 * hash is the digest of the text rendering of its sorted "content hashes":
 * the hashes of its children plus the digest of its own content.
 *
 * The Java object's fields are assigned once, while it is constructed,
 * and never change afterwards, so a built node is modelled as an
 * immutable value. The constructor itself, which builds the children in
 * a loop and then fills and sorts an array, is the method `NewNode`,
 * proved to produce `Build`.
 *
 * The digest is `CryptoUtils.Hash` with an arbitrary algorithm, and
 * `String.getBytes()` (platform default charset) is the parameter
 * `getBytes`; both are fixed for a whole tree.
 */
module MerkleTreeNode {
  import opened Wrappers
  import opened ByteOrder
  import opened ArraysToString
  import opened CryptoUtils
  import opened TestComposite

  /** A built node: its hash, the composite it mirrors, and one child node per composite child. */
  datatype Node = Node(hash: Bytes, composite: Composite, children: seq<Node>)

  /** RFC 4998 `PartialHashtree`: the hash values of one node's sorted content hashes. */
  type PartialHashtree = seq<Bytes>

  /** The digest of a composite's content bytes. */
  function ContentHash(c: Composite, alg: HashAlgorithm, getBytes: string -> Bytes): Bytes {
    Hash(getBytes(c.content), alg)
  }

  /** The hashes of a list of nodes, in list order. */
  function ChildHashes(children: seq<Node>): seq<Bytes> {
    seq(|children|, i requires 0 <= i < |children| => children[i].hash)
  }

  /** The array `getContentHashesSorted` fills before sorting: the child hashes in order, then the content digest. */
  function ContentHashes(children: seq<Node>, c: Composite, alg: HashAlgorithm, getBytes: string -> Bytes): seq<Bytes> {
    ChildHashes(children) + [ContentHash(c, alg, getBytes)]
  }

  /** `getContentHashesSorted()` of a node: its content hashes, sorted with the comparator. */
  function SortedHashes(n: Node, alg: HashAlgorithm, getBytes: string -> Bytes): PartialHashtree {
    SortBytes(ContentHashes(n.children, n.composite, alg, getBytes))
  }

  /** The last step of `calculateHash`: digest the bytes of the joined `Arrays.toString` renderings. */
  function HashOf(sorted: seq<Bytes>, alg: HashAlgorithm, getBytes: string -> Bytes): Bytes {
    Hash(getBytes(Joined(sorted)), alg)
  }

  /** The node tree the constructor builds from a composite: children first, then the node's own hash. */
  function Build(c: Composite, alg: HashAlgorithm, getBytes: string -> Bytes): Node
    decreases c
  {
    var kids := BuildAll(c.children, alg, getBytes);
    Node(HashOf(SortBytes(ContentHashes(kids, c, alg, getBytes)), alg, getBytes), c, kids)
  }

  function BuildAll(cs: seq<Composite>, alg: HashAlgorithm, getBytes: string -> Bytes): seq<Node>
    decreases cs
  {
    seq(|cs|, i requires 0 <= i < |cs| => Build(cs[i], alg, getBytes))
  }

  /**
   * Reference definition of a correctly built tree: one child node per
   * composite child, in the same order, each itself well formed, and the
   * node's hash computed from its children's hashes and its content.
   */
  ghost predicate WellFormed(n: Node, alg: HashAlgorithm, getBytes: string -> Bytes)
    decreases n
  {
    && |n.children| == |n.composite.children|
    && (forall i :: 0 <= i < |n.children| ==>
          n.children[i].composite == n.composite.children[i] && WellFormed(n.children[i], alg, getBytes))
    && n.hash == HashOf(SortedHashes(n, alg, getBytes), alg, getBytes)
  }

  /** `Build` produces a well-formed tree over the given composite. */
  lemma {:induction false} BuildWellFormed(c: Composite, alg: HashAlgorithm, getBytes: string -> Bytes)
    ensures Build(c, alg, getBytes).composite == c
    ensures WellFormed(Build(c, alg, getBytes), alg, getBytes)
    decreases c
  {
    var n := Build(c, alg, getBytes);
    forall i | 0 <= i < |n.children|
      ensures n.children[i].composite == c.children[i] && WellFormed(n.children[i], alg, getBytes)
    {
      BuildWellFormed(c.children[i], alg, getBytes);
    }
  }

  /** A well-formed tree is the one `Build` produces from its root composite: the construction is deterministic. */
  lemma {:induction false} WellFormedIsBuild(n: Node, alg: HashAlgorithm, getBytes: string -> Bytes)
    requires WellFormed(n, alg, getBytes)
    ensures n == Build(n.composite, alg, getBytes)
    decreases n
  {
    forall i | 0 <= i < |n.children| ensures n.children[i] == Build(n.composite.children[i], alg, getBytes) {
      WellFormedIsBuild(n.children[i], alg, getBytes);
    }
    assert n.children == BuildAll(n.composite.children, alg, getBytes);
  }

  /**
   * `getContentHashesSorted()`: a fresh array holding every child's hash
   * and then the content digest, sorted in place.
   */
  method ContentHashesSorted(children: seq<Node>, c: Composite, alg: HashAlgorithm, getBytes: string -> Bytes)
    returns (hashes: array<Bytes>)
    ensures fresh(hashes)
    ensures hashes.Length == |children| + 1
    ensures Sorted(hashes[..])
    ensures multiset(hashes[..]) == multiset(ChildHashes(children)) + multiset{ContentHash(c, alg, getBytes)}
    ensures hashes[..] == SortBytes(ContentHashes(children, c, alg, getBytes))
  {
    hashes := new Bytes[|children| + 1];
    var i := 0;
    while i < |children|
      invariant 0 <= i <= |children|
      invariant forall k :: 0 <= k < i ==> hashes[k] == children[k].hash
    {
      hashes[i] := children[i].hash;
      i := i + 1;
    }
    hashes[|children|] := Hash(getBytes(c.content), alg);
    assert hashes[..] == ContentHashes(children, c, alg, getBytes);
    SortInPlace(hashes);
    SortBytesSorted(ContentHashes(children, c, alg, getBytes));
  }

  /** `calculateHash()`: digest of the joined renderings of the sorted content hashes. */
  method CalculateHash(children: seq<Node>, c: Composite, alg: HashAlgorithm, getBytes: string -> Bytes)
    returns (hash: Bytes)
    ensures hash == HashOf(SortBytes(ContentHashes(children, c, alg, getBytes)), alg, getBytes)
  {
    var allHashes := ContentHashesSorted(children, c, alg, getBytes);
    var concatenatedHashes := Joined(allHashes[..]);
    hash := Hash(getBytes(concatenatedHashes), alg);
  }

  /**
   * The constructor `MerkleTreeNode(testComposite, hashAlgorithm)`: builds
   * a child node for each composite child, in order, and only then
   * computes this node's hash from the finished children (post-order).
   */
  method NewNode(c: Composite, alg: HashAlgorithm, getBytes: string -> Bytes) returns (n: Node)
    ensures n.composite == c
    ensures WellFormed(n, alg, getBytes)
    ensures n == Build(c, alg, getBytes)
    decreases c
  {
    var children: seq<Node> := [];
    var i := 0;
    while i < |c.children|
      invariant 0 <= i <= |c.children|
      invariant children == BuildAll(c.children[..i], alg, getBytes)
    {
      var child := NewNode(c.children[i], alg, getBytes);
      children := children + [child];
      i := i + 1;
    }
    assert c.children[..i] == c.children;
    var hash := CalculateHash(children, c, alg, getBytes);
    n := Node(hash, c, children);
    BuildWellFormed(c, alg, getBytes);
  }

  // ---------------------------------------------------------------------
  // Searches
  // ---------------------------------------------------------------------

  /**
   * `getPathToAncestor(ancestorHash)`: `None` stands for `null`. If this
   * node's hash matches, the result is this node's sorted hashes alone;
   * otherwise the first child (in order) whose subtree yields a path
   * decides, and this node's sorted hashes are put in front of that path.
   */
  function PathToAncestor(n: Node, target: Bytes, alg: HashAlgorithm, getBytes: string -> Bytes): Option<seq<PartialHashtree>>
    decreases n
  {
    if n.hash == target then Some([SortedHashes(n, alg, getBytes)])
    else match PathInChildren(n.children, target, alg, getBytes)
      case Some(childPath) => Some([SortedHashes(n, alg, getBytes)] + childPath)
      case None => None
  }

  /** The child loop of `getPathToAncestor`: the first child path that is not `null`. */
  function PathInChildren(cs: seq<Node>, target: Bytes, alg: HashAlgorithm, getBytes: string -> Bytes): Option<seq<PartialHashtree>>
    decreases cs
  {
    if cs == [] then None
    else match PathToAncestor(cs[0], target, alg, getBytes)
      case Some(childPath) => Some(childPath)
      case None => PathInChildren(cs[1..], target, alg, getBytes)
  }

  /** `findAncestor(composite)`: this node if its composite is equal, else the first hit among the children. */
  function FindAncestor(n: Node, c: Composite): Option<Node>
    decreases n
  {
    if c == n.composite then Some(n) else FindInChildren(n.children, c)
  }

  function FindInChildren(cs: seq<Node>, c: Composite): Option<Node>
    decreases cs
  {
    if cs == [] then None
    else match FindAncestor(cs[0], c)
      case Some(m) => Some(m)
      case None => FindInChildren(cs[1..], c)
  }

  // ---------------------------------------------------------------------
  // Pre-order over nodes, and first matches in it
  // ---------------------------------------------------------------------

  /** All nodes of a subtree in pre-order: the node, then each child's subtree in order. */
  function NodePreorder(n: Node): seq<Node>
    decreases n
  {
    [n] + NodePreorderAll(n.children)
  }

  function NodePreorderAll(cs: seq<Node>): seq<Node>
    decreases cs
  {
    if cs == [] then [] else NodePreorder(cs[0]) + NodePreorderAll(cs[1..])
  }

  /** The first element of `s` satisfying `p`, if any. */
  function FirstMatch(s: seq<Node>, p: Node -> bool): Option<Node>
    decreases |s|
  {
    if s == [] then None
    else if p(s[0]) then Some(s[0])
    else FirstMatch(s[1..], p)
  }

  /** `FirstMatch` finds nothing exactly when nothing matches, and otherwise an element that matches with no match before it. */
  lemma {:induction false} FirstMatchIsFirst(s: seq<Node>, p: Node -> bool)
    ensures FirstMatch(s, p).None? <==> forall i :: 0 <= i < |s| ==> !p(s[i])
    ensures FirstMatch(s, p).Some? ==>
      exists k :: 0 <= k < |s| && s[k] == FirstMatch(s, p).value && p(s[k]) && forall j :: 0 <= j < k ==> !p(s[j])
    decreases |s|
  {
    if s != [] && !p(s[0]) {
      FirstMatchIsFirst(s[1..], p);
      assert forall i :: 1 <= i < |s| ==> s[i] == s[1..][i - 1];
      if FirstMatch(s[1..], p).Some? {
        var k :| 0 <= k < |s[1..]| && s[1..][k] == FirstMatch(s, p).value && p(s[1..][k])
          && forall j :: 0 <= j < k ==> !p(s[1..][j]);
        assert s[k + 1] == FirstMatch(s, p).value && forall j :: 0 <= j < k + 1 ==> !p(s[j]);
      }
    }
  }

  /** "Has this composite", as a predicate on nodes. */
  function HasComposite(c: Composite): Node -> bool {
    (m: Node) => m.composite == c
  }

  /** "Has this hash" (`Arrays.equals`), as a predicate on nodes. */
  function HasHash(t: Bytes): Node -> bool {
    (m: Node) => m.hash == t
  }

  /** The first match in a concatenation is the first match in the left part, if there is one, else in the right. */
  lemma FirstMatchAppend(a: seq<Node>, b: seq<Node>, p: Node -> bool)
    ensures FirstMatch(a + b, p) == if FirstMatch(a, p).Some? then FirstMatch(a, p) else FirstMatch(b, p)
    decreases |a|
  {
    if a == [] {
      assert a + b == b;
    } else {
      assert (a + b)[1..] == a[1..] + b;
      FirstMatchAppend(a[1..], b, p);
    }
  }

  /**
   * `findAncestor` returns the first node in pre-order whose composite is
   * equal to the argument, and `None` exactly when there is none; the
   * result is a node of the tree, not a new one.
   */
  lemma {:induction false} FindAncestorIsFirstInPreorder(n: Node, c: Composite)
    ensures FindAncestor(n, c) == FirstMatch(NodePreorder(n), HasComposite(c))
    decreases n, 1
  {
    FindInChildrenIsFirstInPreorder(n.children, c);
    FirstMatchAppend([n], NodePreorderAll(n.children), HasComposite(c));
  }

  lemma {:induction false} FindInChildrenIsFirstInPreorder(cs: seq<Node>, c: Composite)
    ensures FindInChildren(cs, c) == FirstMatch(NodePreorderAll(cs), HasComposite(c))
    decreases cs, 0
  {
    if cs != [] {
      FindAncestorIsFirstInPreorder(cs[0], c);
      FindInChildrenIsFirstInPreorder(cs[1..], c);
      FirstMatchAppend(NodePreorder(cs[0]), NodePreorderAll(cs[1..]), HasComposite(c));
    }
  }

  /**
   * `getPathToAncestor` returns a path exactly when some node of the
   * subtree has the target hash, and the path ends with the sorted hashes
   * of the first such node in pre-order (a match higher up wins over
   * matches below it).
   */
  lemma {:induction false} PathEndsAtFirstMatch(n: Node, t: Bytes, alg: HashAlgorithm, getBytes: string -> Bytes)
    ensures PathToAncestor(n, t, alg, getBytes).Some? <==> FirstMatch(NodePreorder(n), HasHash(t)).Some?
    ensures PathToAncestor(n, t, alg, getBytes).Some? ==>
      var p := PathToAncestor(n, t, alg, getBytes).value;
      |p| > 0 && p[|p| - 1] == SortedHashes(FirstMatch(NodePreorder(n), HasHash(t)).value, alg, getBytes)
    decreases n, 1
  {
    PathInChildrenEndsAtFirstMatch(n.children, t, alg, getBytes);
    FirstMatchAppend([n], NodePreorderAll(n.children), HasHash(t));
  }

  lemma {:induction false} PathInChildrenEndsAtFirstMatch(cs: seq<Node>, t: Bytes, alg: HashAlgorithm, getBytes: string -> Bytes)
    ensures PathInChildren(cs, t, alg, getBytes).Some? <==> FirstMatch(NodePreorderAll(cs), HasHash(t)).Some?
    ensures PathInChildren(cs, t, alg, getBytes).Some? ==>
      var p := PathInChildren(cs, t, alg, getBytes).value;
      |p| > 0 && p[|p| - 1] == SortedHashes(FirstMatch(NodePreorderAll(cs), HasHash(t)).value, alg, getBytes)
    decreases cs, 0
  {
    if cs != [] {
      PathEndsAtFirstMatch(cs[0], t, alg, getBytes);
      PathInChildrenEndsAtFirstMatch(cs[1..], t, alg, getBytes);
      FirstMatchAppend(NodePreorder(cs[0]), NodePreorderAll(cs[1..]), HasHash(t));
    }
  }

  /** `getPathToAncestor` returns `null` exactly when no node of the subtree has the target hash. */
  lemma PathFoundIff(n: Node, t: Bytes, alg: HashAlgorithm, getBytes: string -> Bytes)
    ensures PathToAncestor(n, t, alg, getBytes).Some? <==> exists m :: m in NodePreorder(n) && m.hash == t
  {
    PathEndsAtFirstMatch(n, t, alg, getBytes);
    var s := NodePreorder(n);
    FirstMatchIsFirst(s, HasHash(t));
    if exists m :: m in s && m.hash == t {
      var m :| m in s && m.hash == t;
      var k :| 0 <= k < |s| && s[k] == m;
      assert HasHash(t)(s[k]);
    }
  }

  /**
   * The child loop of `getPathToAncestor` takes the first child in
   * declaration order whose subtree yields a path: all earlier children
   * yield `null`.
   */
  lemma {:induction false} PathInChildrenIsFirstChild(cs: seq<Node>, t: Bytes, alg: HashAlgorithm, getBytes: string -> Bytes)
    ensures PathInChildren(cs, t, alg, getBytes).None? <==>
      forall j :: 0 <= j < |cs| ==> PathToAncestor(cs[j], t, alg, getBytes).None?
    ensures PathInChildren(cs, t, alg, getBytes).Some? ==>
      exists k :: 0 <= k < |cs| && PathInChildren(cs, t, alg, getBytes) == PathToAncestor(cs[k], t, alg, getBytes)
        && forall j :: 0 <= j < k ==> PathToAncestor(cs[j], t, alg, getBytes).None?
    decreases |cs|
  {
    if cs != [] {
      PathInChildrenIsFirstChild(cs[1..], t, alg, getBytes);
      if PathToAncestor(cs[0], t, alg, getBytes).None? && PathInChildren(cs[1..], t, alg, getBytes).Some? {
        var k :| 0 <= k < |cs[1..]| && PathInChildren(cs[1..], t, alg, getBytes) == PathToAncestor(cs[1..][k], t, alg, getBytes)
          && forall j :: 0 <= j < k ==> PathToAncestor(cs[1..][j], t, alg, getBytes).None?;
        assert forall j :: 0 <= j < k + 1 ==> PathToAncestor(cs[j], t, alg, getBytes).None? by {
          forall j | 0 <= j < k + 1 ensures PathToAncestor(cs[j], t, alg, getBytes).None? {
            if j > 0 { assert cs[j] == cs[1..][j - 1]; }
          }
        }
      }
      if PathToAncestor(cs[0], t, alg, getBytes).None? && PathInChildren(cs[1..], t, alg, getBytes).None? {
        assert forall j :: 0 <= j < |cs| ==> PathToAncestor(cs[j], t, alg, getBytes).None? by {
          forall j | 0 <= j < |cs| ensures PathToAncestor(cs[j], t, alg, getBytes).None? {
            if j > 0 { assert cs[j] == cs[1..][j - 1]; }
          }
        }
      }
    }
  }

  /**
   * One step of `getPathToAncestor`: a matching node yields exactly its
   * own sorted hashes (even when descendants match too); otherwise the
   * result is this node's sorted hashes followed by the path from the
   * first child, in declaration order, whose subtree yields one.
   */
  lemma PathStep(n: Node, t: Bytes, alg: HashAlgorithm, getBytes: string -> Bytes)
    ensures n.hash == t ==> PathToAncestor(n, t, alg, getBytes) == Some([SortedHashes(n, alg, getBytes)])
    ensures n.hash != t ==>
      (PathToAncestor(n, t, alg, getBytes).None? <==>
        forall j :: 0 <= j < |n.children| ==> PathToAncestor(n.children[j], t, alg, getBytes).None?)
    ensures n.hash != t && PathToAncestor(n, t, alg, getBytes).Some? ==>
      exists k :: 0 <= k < |n.children|
        && (forall j :: 0 <= j < k ==> PathToAncestor(n.children[j], t, alg, getBytes).None?)
        && PathToAncestor(n.children[k], t, alg, getBytes).Some?
        && PathToAncestor(n, t, alg, getBytes).value
             == [SortedHashes(n, alg, getBytes)] + PathToAncestor(n.children[k], t, alg, getBytes).value
  {
    PathInChildrenIsFirstChild(n.children, t, alg, getBytes);
  }

  // ---------------------------------------------------------------------
  // Shape of a path: root first, target last, one entry per level
  // ---------------------------------------------------------------------

  /** `idx` is a sequence of child positions that can be followed down from `n`. */
  predicate IsIndexPath(n: Node, idx: seq<nat>)
    decreases |idx|
  {
    idx == [] || (idx[0] < |n.children| && IsIndexPath(n.children[idx[0]], idx[1..]))
  }

  /** The nodes visited when following `idx` down from `n`, starting with `n`. */
  function NodesAlong(n: Node, idx: seq<nat>): (r: seq<Node>)
    requires IsIndexPath(n, idx)
    ensures |r| == |idx| + 1 && r[0] == n
    ensures forall i :: 0 <= i < |idx| ==> idx[i] < |r[i].children| && r[i + 1] == r[i].children[idx[i]]
    decreases |idx|
  {
    if idx == [] then [n]
    else
      var rest := NodesAlong(n.children[idx[0]], idx[1..]);
      assert forall i :: 1 <= i <= |idx[1..]| ==> idx[i] == idx[1..][i - 1];
      [n] + rest
  }

  /**
   * `p` is the path along the child positions `idx` from `n`: one entry
   * per node visited, each that node's sorted hashes, ending at a node
   * whose hash is `t`.
   */
  ghost predicate IsPathAlong(n: Node, idx: seq<nat>, t: Bytes, alg: HashAlgorithm, getBytes: string -> Bytes, p: seq<PartialHashtree>) {
    && IsIndexPath(n, idx)
    && |p| == |idx| + 1
    && NodesAlong(n, idx)[|idx|].hash == t
    && (forall i :: 0 <= i < |p| ==> p[i] == SortedHashes(NodesAlong(n, idx)[i], alg, getBytes))
  }

  /** A path along `idx` from child `k`, with the parent's sorted hashes put in front, is a path along `[k] + idx`. */
  lemma PathAlongStep(n: Node, k: nat, idx: seq<nat>, t: Bytes, alg: HashAlgorithm, getBytes: string -> Bytes, q: seq<PartialHashtree>)
    requires k < |n.children|
    requires IsPathAlong(n.children[k], idx, t, alg, getBytes, q)
    ensures IsPathAlong(n, [k] + idx, t, alg, getBytes, [SortedHashes(n, alg, getBytes)] + q)
  {
    var idx', p := [k] + idx, [SortedHashes(n, alg, getBytes)] + q;
    assert idx'[1..] == idx;
    var along := NodesAlong(n, idx');
    assert along == [n] + NodesAlong(n.children[k], idx);
    forall i | 0 <= i < |p| ensures p[i] == SortedHashes(along[i], alg, getBytes) {
      if i > 0 { assert p[i] == q[i - 1] && along[i] == NodesAlong(n.children[k], idx)[i - 1]; }
    }
  }

  /**
   * A path returned by `getPathToAncestor` follows one chain of child
   * positions from the starting node down to a node with the target hash:
   * it has one entry per level (so its length is that node's depth plus
   * one), entry 0 is the starting node's sorted hashes and the last entry
   * is the target's.
   */
  lemma {:induction false} PathShape(n: Node, t: Bytes, alg: HashAlgorithm, getBytes: string -> Bytes, p: seq<PartialHashtree>)
    requires PathToAncestor(n, t, alg, getBytes) == Some(p)
    ensures exists idx :: IsPathAlong(n, idx, t, alg, getBytes, p)
    decreases n, 1
  {
    if n.hash == t {
      assert IsPathAlong(n, [], t, alg, getBytes, p);
    } else {
      var q := PathInChildren(n.children, t, alg, getBytes).value;
      PathInChildrenShape(n.children, t, alg, getBytes, q);
      var k, idx :| 0 <= k < |n.children| && IsPathAlong(n.children[k], idx, t, alg, getBytes, q);
      PathAlongStep(n, k, idx, t, alg, getBytes, q);
    }
  }

  lemma {:induction false} PathInChildrenShape(cs: seq<Node>, t: Bytes, alg: HashAlgorithm, getBytes: string -> Bytes, q: seq<PartialHashtree>)
    requires PathInChildren(cs, t, alg, getBytes) == Some(q)
    ensures exists k, idx :: 0 <= k < |cs| && IsPathAlong(cs[k], idx, t, alg, getBytes, q)
    decreases cs, 0
  {
    if PathToAncestor(cs[0], t, alg, getBytes).Some? {
      PathShape(cs[0], t, alg, getBytes, q);
      var idx :| IsPathAlong(cs[0], idx, t, alg, getBytes, q);
      assert IsPathAlong(cs[0], idx, t, alg, getBytes, q);
    } else {
      PathInChildrenShape(cs[1..], t, alg, getBytes, q);
      var k, idx :| 0 <= k < |cs[1..]| && IsPathAlong(cs[1..][k], idx, t, alg, getBytes, q);
      assert cs[1..][k] == cs[k + 1];
    }
  }

  // ---------------------------------------------------------------------
  // The chain property of a reduced hash tree
  // ---------------------------------------------------------------------

  /**
   * A root-first reduced hash tree leads to `rootHash`: re-hashing entry 0
   * gives `rootHash`, and re-hashing each later entry gives a member of
   * the entry before it.
   */
  ghost predicate Chained(p: seq<PartialHashtree>, rootHash: Bytes, alg: HashAlgorithm, getBytes: string -> Bytes) {
    && |p| > 0
    && HashOf(p[0], alg, getBytes) == rootHash
    && forall i :: 0 <= i < |p| - 1 ==> HashOf(p[i + 1], alg, getBytes) in p[i]
  }

  /** A node's sorted hashes hold every child's hash and the digest of its content. */
  lemma SortedHashesMembers(n: Node, alg: HashAlgorithm, getBytes: string -> Bytes)
    ensures forall h :: h in ChildHashes(n.children) ==> h in SortedHashes(n, alg, getBytes)
    ensures ContentHash(n.composite, alg, getBytes) in SortedHashes(n, alg, getBytes)
  {
    var s := ContentHashes(n.children, n.composite, alg, getBytes);
    SortBytesSorted(s);
    forall h | h in ChildHashes(n.children) ensures h in SortedHashes(n, alg, getBytes) {
      assert h in s;
      assert h in multiset(SortBytes(s));
    }
    assert s[|s| - 1] in multiset(SortBytes(s));
  }

  /**
   * On a correctly built tree, the path `getPathToAncestor` returns is a
   * chain from this node's hash down to the target: entry 0 re-hashes to
   * this node's hash, each later entry re-hashes to a member of the entry
   * before it, the last re-hashes to the target hash, and the last
   * contains the digest of the matched node's content.
   */
  lemma PathIsChained(n: Node, t: Bytes, alg: HashAlgorithm, getBytes: string -> Bytes, p: seq<PartialHashtree>)
    requires WellFormed(n, alg, getBytes)
    requires PathToAncestor(n, t, alg, getBytes) == Some(p)
    ensures Chained(p, n.hash, alg, getBytes)
    ensures HashOf(p[|p| - 1], alg, getBytes) == t
    ensures FirstMatch(NodePreorder(n), HasHash(t)).Some?
    ensures ContentHash(FirstMatch(NodePreorder(n), HasHash(t)).value.composite, alg, getBytes) in p[|p| - 1]
  {
    PathChain(n, t, alg, getBytes, p);
    PathEndsAtFirstMatch(n, t, alg, getBytes);
    SortedHashesMembers(FirstMatch(NodePreorder(n), HasHash(t)).value, alg, getBytes);
  }

  lemma {:induction false} PathChain(n: Node, t: Bytes, alg: HashAlgorithm, getBytes: string -> Bytes, p: seq<PartialHashtree>)
    requires WellFormed(n, alg, getBytes)
    requires PathToAncestor(n, t, alg, getBytes) == Some(p)
    ensures Chained(p, n.hash, alg, getBytes)
    ensures HashOf(p[|p| - 1], alg, getBytes) == t
    decreases n, 1
  {
    if n.hash != t {
      var q := PathInChildren(n.children, t, alg, getBytes).value;
      PathInChildrenChain(n.children, t, alg, getBytes, q);
      SortedHashesMembers(n, alg, getBytes);
      assert p == [SortedHashes(n, alg, getBytes)] + q;
      assert forall i :: 0 <= i < |q| ==> p[i + 1] == q[i];
    }
  }

  lemma {:induction false} PathInChildrenChain(cs: seq<Node>, t: Bytes, alg: HashAlgorithm, getBytes: string -> Bytes, q: seq<PartialHashtree>)
    requires forall i :: 0 <= i < |cs| ==> WellFormed(cs[i], alg, getBytes)
    requires PathInChildren(cs, t, alg, getBytes) == Some(q)
    ensures |q| > 0 && HashOf(q[0], alg, getBytes) in ChildHashes(cs)
    ensures forall i :: 0 <= i < |q| - 1 ==> HashOf(q[i + 1], alg, getBytes) in q[i]
    ensures HashOf(q[|q| - 1], alg, getBytes) == t
    decreases cs, 0
  {
    assert ChildHashes(cs)[0] == cs[0].hash;
    if PathToAncestor(cs[0], t, alg, getBytes).Some? {
      PathChain(cs[0], t, alg, getBytes, q);
    } else {
      PathInChildrenChain(cs[1..], t, alg, getBytes, q);
      var j :| 0 <= j < |cs[1..]| && ChildHashes(cs[1..])[j] == HashOf(q[0], alg, getBytes);
      assert ChildHashes(cs)[j + 1] == HashOf(q[0], alg, getBytes);
    }
  }
}
