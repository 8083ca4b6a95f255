/**
 * Why the order of a composite's children does not matter to the tree's
 * hashes: `getContentHashesSorted` sorts the hashes before they are
 * rendered and digested (MerkleTreeNode.java, lines 100-110 and 120-125),
 * and a sort under a total, antisymmetric order depends only on the
 * multiset it is given. So reordering the children of any composite,
 * however deep, leaves the hash of every node above it unchanged.
 */
module ChildOrder {
  import opened ByteOrder
  import opened CryptoUtils
  import opened TestComposite
  import opened MerkleTreeNode

  /** The hashes of the nodes built for a list of composites, in list order. */
  function BuiltHashes(cs: seq<Composite>, alg: HashAlgorithm, getBytes: string -> Bytes): (r: seq<Bytes>)
    ensures |r| == |cs|
  {
    seq(|cs|, i requires 0 <= i < |cs| => Build(cs[i], alg, getBytes).hash)
  }

  /** Built hashes of a concatenation are the concatenation of built hashes. */
  lemma BuiltHashesAppend(xs: seq<Composite>, ys: seq<Composite>, alg: HashAlgorithm, getBytes: string -> Bytes)
    ensures BuiltHashes(xs + ys, alg, getBytes) == BuiltHashes(xs, alg, getBytes) + BuiltHashes(ys, alg, getBytes)
  {
    var l, r := BuiltHashes(xs + ys, alg, getBytes), BuiltHashes(xs, alg, getBytes) + BuiltHashes(ys, alg, getBytes);
    forall i | 0 <= i < |l| ensures l[i] == r[i] {
      if i >= |xs| { assert (xs + ys)[i] == ys[i - |xs|]; }
    }
  }

  /** Built hashes of a list around position `k`: those before it, the one at it, those after it. */
  lemma BuiltHashesAround(ds: seq<Composite>, k: nat, alg: HashAlgorithm, getBytes: string -> Bytes)
    requires k < |ds|
    ensures BuiltHashes(ds, alg, getBytes)
         == BuiltHashes(ds[..k], alg, getBytes) + [Build(ds[k], alg, getBytes).hash] + BuiltHashes(ds[k + 1..], alg, getBytes)
    ensures BuiltHashes(ds[..k] + ds[k + 1..], alg, getBytes)
         == BuiltHashes(ds[..k], alg, getBytes) + BuiltHashes(ds[k + 1..], alg, getBytes)
  {
    assert ds == ds[..k] + [ds[k]] + ds[k + 1..];
    BuiltHashesAppend(ds[..k] + [ds[k]], ds[k + 1..], alg, getBytes);
    BuiltHashesAppend(ds[..k], [ds[k]], alg, getBytes);
    BuiltHashesAppend(ds[..k], ds[k + 1..], alg, getBytes);
  }

  /** Rearranging a list of composites rearranges the hashes of their built nodes the same way. */
  lemma {:induction false} BuiltHashesPermutation(cs: seq<Composite>, ds: seq<Composite>, alg: HashAlgorithm, getBytes: string -> Bytes)
    requires multiset(cs) == multiset(ds)
    ensures multiset(BuiltHashes(cs, alg, getBytes)) == multiset(BuiltHashes(ds, alg, getBytes))
    decreases |cs|
  {
    if cs == [] {
      assert |ds| == |multiset(ds)| == 0;
    } else {
      var k := RemoveHead(cs, ds);
      var pre, post := ds[..k], ds[k + 1..];
      BuiltHashesPermutation(cs[1..], pre + post, alg, getBytes);
      BuiltHashesAround(ds, k, alg, getBytes);
      var h := Build(cs[0], alg, getBytes).hash;
      BuiltHashesAround(cs, 0, alg, getBytes);
      assert BuiltHashes(cs, alg, getBytes) == [h] + BuiltHashes(cs[1..], alg, getBytes);
      InsertMatching(h, BuiltHashes(cs[1..], alg, getBytes), BuiltHashes(pre, alg, getBytes), BuiltHashes(post, alg, getBytes));
    }
  }

  /** The first element of `cs` occurs somewhere in `ds`; taking it out of both keeps the multisets equal. */
  lemma RemoveHead<T>(cs: seq<T>, ds: seq<T>) returns (k: nat)
    requires cs != [] && multiset(cs) == multiset(ds)
    ensures k < |ds| && ds[k] == cs[0]
    ensures multiset(cs[1..]) == multiset(ds[..k] + ds[k + 1..])
  {
    assert cs[0] in multiset(ds);
    k :| 0 <= k < |ds| && ds[k] == cs[0];
    assert ds == ds[..k] + [cs[0]] + ds[k + 1..];
    assert cs == [cs[0]] + cs[1..];
    RemoveMatching(cs[0], cs[1..], ds[..k], ds[k + 1..]);
  }

  /** Taking `x` off the front of one side and out of the middle of the other keeps two multisets equal. */
  lemma RemoveMatching<T>(x: T, rest: seq<T>, pre: seq<T>, post: seq<T>)
    requires multiset([x] + rest) == multiset(pre + [x] + post)
    ensures multiset(rest) == multiset(pre + post)
  {
    var m, n := multiset(rest), multiset(pre + post);
    assert multiset([x] + rest) == m + multiset{x};
    assert multiset(pre + [x] + post) == n + multiset{x};
    assert m == (m + multiset{x}) - multiset{x};
    assert n == (n + multiset{x}) - multiset{x};
  }

  /** Putting `x` on the front of one side and into the middle of the other keeps two multisets equal. */
  lemma InsertMatching<T>(x: T, rest: seq<T>, pre: seq<T>, post: seq<T>)
    requires multiset(rest) == multiset(pre + post)
    ensures multiset([x] + rest) == multiset(pre + [x] + post)
  {
    assert multiset([x] + rest) == multiset{x} + multiset(rest);
    assert multiset(pre + [x] + post) == multiset{x} + (multiset(pre) + multiset(post));
    assert multiset(pre + post) == multiset(pre) + multiset(post);
  }

  /** The content hashes a built node collects: its children's built hashes, then its content digest. */
  lemma BuildContentHashes(c: Composite, alg: HashAlgorithm, getBytes: string -> Bytes)
    ensures Build(c, alg, getBytes).hash
         == HashOf(SortBytes(BuiltHashes(c.children, alg, getBytes) + [ContentHash(c, alg, getBytes)]), alg, getBytes)
  {
    var kids := BuildAll(c.children, alg, getBytes);
    assert ChildHashes(kids) == BuiltHashes(c.children, alg, getBytes);
  }

  /**
   * Two composites with equal content whose children's built hashes are
   * the same multiset build nodes with the same hash: the order in which
   * the children are listed never reaches the digest.
   */
  lemma SameChildHashesSameHash(c: Composite, d: Composite, alg: HashAlgorithm, getBytes: string -> Bytes)
    requires c.content == d.content
    requires multiset(BuiltHashes(c.children, alg, getBytes)) == multiset(BuiltHashes(d.children, alg, getBytes))
    ensures Build(c, alg, getBytes).hash == Build(d, alg, getBytes).hash
  {
    BuildContentHashes(c, alg, getBytes);
    BuildContentHashes(d, alg, getBytes);
    var h := ContentHash(c, alg, getBytes);
    assert ContentHash(d, alg, getBytes) == h;
    SortDependsOnlyOnMultiset(BuiltHashes(c.children, alg, getBytes) + [h], BuiltHashes(d.children, alg, getBytes) + [h]);
  }

  /** Permuting a composite's children leaves the hash of the node built from it unchanged. */
  lemma ChildOrderIrrelevant(c: Composite, children: seq<Composite>, alg: HashAlgorithm, getBytes: string -> Bytes)
    requires multiset(children) == multiset(c.children)
    ensures Build(Composite(c.content, children), alg, getBytes).hash == Build(c, alg, getBytes).hash
  {
    BuiltHashesPermutation(children, c.children, alg, getBytes);
    SameChildHashesSameHash(Composite(c.content, children), c, alg, getBytes);
  }

  // ---------------------------------------------------------------------
  // Replacing a subtree anywhere in a composite
  // ---------------------------------------------------------------------

  /** `c` with the composite at `idx` replaced by `d`; everything off that path is kept. */
  function ReplaceAt(c: Composite, idx: seq<nat>, d: Composite): (r: Composite)
    requires IsCompositePath(c, idx)
    ensures idx != [] ==> r.content == c.content && |r.children| == |c.children|
    ensures idx != [] ==> forall j :: 0 <= j < |c.children| && j != idx[0] ==> r.children[j] == c.children[j]
    decreases |idx|
  {
    if idx == [] then d
    else
      var k := idx[0];
      Composite(c.content, c.children[k := ReplaceAt(c.children[k], idx[1..], d)])
  }

  /** After the replacement, following the same positions leads to the new composite. */
  lemma {:induction false} ReplaceAtThenSubtreeAt(c: Composite, idx: seq<nat>, d: Composite)
    requires IsCompositePath(c, idx)
    ensures IsCompositePath(ReplaceAt(c, idx, d), idx)
    ensures SubtreeAt(ReplaceAt(c, idx, d), idx) == d
    decreases |idx|
  {
    if idx != [] {
      ReplaceAtThenSubtreeAt(c.children[idx[0]], idx[1..], d);
    }
  }

  /**
   * Replacing any subtree by a composite whose built node has the same
   * hash leaves the root hash unchanged: a node's hash depends on its
   * children only through their hashes.
   */
  lemma {:induction false} ReplaceKeepsRootHash(c: Composite, idx: seq<nat>, d: Composite, alg: HashAlgorithm, getBytes: string -> Bytes)
    requires IsCompositePath(c, idx)
    requires Build(d, alg, getBytes).hash == Build(SubtreeAt(c, idx), alg, getBytes).hash
    ensures Build(ReplaceAt(c, idx, d), alg, getBytes).hash == Build(c, alg, getBytes).hash
    decreases |idx|
  {
    if idx != [] {
      var k := idx[0];
      var r := ReplaceAt(c, idx, d);
      ReplaceKeepsRootHash(c.children[k], idx[1..], d, alg, getBytes);
      assert BuiltHashes(r.children, alg, getBytes) == BuiltHashes(c.children, alg, getBytes);
      SameChildHashesSameHash(r, c, alg, getBytes);
    }
  }

  /**
   * Reordering the children of the composite at any position, however
   * deep, leaves the root hash unchanged, and so the hash of every node
   * on the way down.
   */
  lemma PermuteChildrenAnywhere(c: Composite, idx: seq<nat>, children: seq<Composite>, alg: HashAlgorithm, getBytes: string -> Bytes)
    requires IsCompositePath(c, idx)
    requires multiset(children) == multiset(SubtreeAt(c, idx).children)
    ensures Build(ReplaceAt(c, idx, Composite(SubtreeAt(c, idx).content, children)), alg, getBytes).hash
         == Build(c, alg, getBytes).hash
  {
    var s := SubtreeAt(c, idx);
    ChildOrderIrrelevant(s, children, alg, getBytes);
    ReplaceKeepsRootHash(c, idx, Composite(s.content, children), alg, getBytes);
  }
}
