# merkletree: a Dafny model of the hash tree and its reduced hash trees

This project models the core of the `merkletree` Java application. The
application builds a Merkle hash tree (`MerkleTreeNode`) over a hierarchy of
test composites. It extracts the reduced hash tree, the list of RFC 4998
`PartialHashtree`s, that leads from the root to one chosen node, and packages
that list with a timestamp of the root hash as an RFC 4998 `ArchiveTimeStamp`
(`MerkleTreesApplication`).

Modules, one file each:

- `ByteOrder` (`byte_order.dfy`): Java's signed `byte` and `byte[]`, and the
  comparator `getContentHashesSorted` passes to `Arrays.sort`. Signed
  lexicographic order with the shorter array first on a shared prefix, as a
  function `Compare` and as the loop `CompareBytes`. Proved: equal exactly on
  equal arrays, antisymmetric, transitive and total. Also the sort, as the
  specification `SortBytes` and the in-place array method `SortInPlace`,
  with the proof that a sorted permutation is unique.
- `ArraysToString` (`arrays_to_string.dfy`): the text `calculateHash`
  digests, which is `Arrays.toString` of every sorted hash joined with
  nothing in between. Proved: this rendering is injective, so the joined
  text determines the list of arrays.
- `CryptoUtils` (`crypto_utils.dfy`): `HashAlgorithm` with its two OIDs and
  an uninterpreted digest function, and `CryptoUtils.hash`.
- `TestComposite` (`test_composite.dfy`): a composite is its content and its
  ordered children. Lombok's field-by-field `equals` is datatype equality.
  Defines pre-order enumeration, size, and positions in a composite.
- `MerkleTreeNode` (`merkle_tree_node.dfy`):
  - The node's fields are assigned only while it is constructed. A node is
    therefore the immutable value `Node(hash, composite, children)`, and
    `getHash()`/`getChildren()` are the fields `hash` and `children`.
  - The constructor is the recursive method `NewNode`. It appends the child
    nodes in a loop, fills a fresh array, sorts it in place, and hashes it.
    It is proved to build exactly `Build`, the reference tree.
  - `getPathToAncestor` and `findAncestor` are recursive functions. They
    are proved to find the first match in pre-order, to return a path of
    one entry per level, and to return a path that chains by re-hashing.
- `ChildOrder` (`child_order.dfy`): the hash does not depend on the order of
  any composite's children, at any depth.
- `MerkleTreesApplication` (`merkle_trees_application.dfy`):
  - `flatten` and `generateTestComposite` are methods that build lists step
    by step; `pickRandomAncestor` and `createArchiveTimestamp` are also
    modelled.
  - `test()` is modelled as a method. It is proved never to dereference
    null. Its results are proved to come from the generated composite: the
    pick is the entry drawn from its flattening, the root hash is that of
    the tree built from it, and the archived reduced hash tree is that
    tree's path to the picked composite's node. When the timestamp is
    granted, that reduced hash tree is proved to chain up to the root hash
    that was timestamped.
- `Wrappers` (`wrappers.dfy`): `Option` and `Result`.

Where each Java method is computed in the model. Paths are relative to the
repository root; the contracts and lemmas about each are in the table below.

- `MerkleTreeNode(testComposite, hashAlgorithm)`
  (`src/main/java/com/example/merkletree/MerkleTreeNode.java:20-27`): the
  method `MerkleTreeNode.NewNode`, specified by the function
  `MerkleTreeNode.Build` (with `MerkleTreeNode.BuildAll` for the children).
- `getPathToAncestor` (`MerkleTreeNode.java:44-68`): the functions
  `MerkleTreeNode.PathToAncestor` (lines 44-52) and
  `MerkleTreeNode.PathInChildren` (the loop, lines 55-67).
- `findAncestor` (`MerkleTreeNode.java:76-89`): the functions
  `MerkleTreeNode.FindAncestor` (lines 76-79) and
  `MerkleTreeNode.FindInChildren` (the loop, lines 81-88).
- `getContentHashesSorted` (`MerkleTreeNode.java:94-112`): the method
  `MerkleTreeNode.ContentHashesSorted`, specified by the function
  `MerkleTreeNode.SortedHashes`.
- The anonymous comparator (`MerkleTreeNode.java:102-109`): the function
  `ByteOrder.Compare` and the loop `ByteOrder.CompareBytes`, with
  `ByteOrder.IntCompare` for `Integer.compare`.
- `Arrays.sort` (`MerkleTreeNode.java:100`): the method
  `ByteOrder.SortInPlace`, specified by the function `ByteOrder.SortBytes`.
- `Arrays.toString` and `Collectors.joining()` (`MerkleTreeNode.java:123`):
  the functions `ArraysToString.ArrayToString` and `ArraysToString.Joined`.
- `calculateHash` (`MerkleTreeNode.java:120-126`): the method
  `MerkleTreeNode.CalculateHash`, specified by the function
  `MerkleTreeNode.HashOf`.
- `flatten`, `pickRandomAncestor`, `generateTestComposite`,
  `createArchiveTimestamp` and `test`
  (`src/main/java/com/example/merkletree/MerkleTreesApplication.java`):
  `MerkleTreesApplication.Flatten`, `.PickRandomAncestor`,
  `.GenerateTestComposite`, `.CreateArchiveTimestamp` and `.Test`.

The digest (SHA-256) is the function `HashAlgorithm.digest`. `String.getBytes()`
(platform charset) is the parameter `getBytes`, and the random draw of
`pickRandomAncestor` is the parameter `index`. The RFC 3161 timestamp
authority that `requestTimeStamp` reaches over HTTP is the parameter `tsa`. It
returns either the token's `ContentInfo` or the message of the exception the
Java code throws.

Where the code differs from RFC 4998, the model follows the code:

- Hashes are ordered by signed bytes (`Byte.compare`), not as unsigned
  octets.
- A node hash digests the text of the `Arrays.toString` renderings, not the
  raw concatenated bytes.
- `getPathToAncestor` returns its path root first and target last, not
  leaf first.
- The algorithm identifier is built from `getTspOid()`.

## Model

| member | source | states |
|---|---|---|
| ByteOrder.IntCompare | src/main/java/com/example/merkletree/MerkleTreeNode.java:108 | `Integer.compare`: negative exactly when the first length is smaller, zero exactly when they are equal, and never outside -1..1 |
| ByteOrder.CompareBytes | src/main/java/com/example/merkletree/MerkleTreeNode.java:102-109 | the comparator's loop returns `Compare(a, b)`: the signed difference at the first differing position, else the length comparison |
| ByteOrder.CompareZeroIff | src/main/java/com/example/merkletree/MerkleTreeNode.java:100-110 | the comparator returns 0 exactly when the arrays are element-wise equal (`Arrays.equals`) |
| ByteOrder.CompareAntisymmetric | src/main/java/com/example/merkletree/MerkleTreeNode.java:100-110 | swapping the arguments negates the result |
| ByteOrder.CompareNegativeIff | src/main/java/com/example/merkletree/MerkleTreeNode.java:103-108 | a negative result means exactly "strictly before in signed lexicographic order, a proper prefix first", checked against the independent definition `LexLess` |
| ByteOrder.LexLessHead | src/main/java/com/example/merkletree/MerkleTreeNode.java:104-105 | when the first bytes differ, signed comparison of those bytes alone decides the order |
| ByteOrder.LexLessTail | src/main/java/com/example/merkletree/MerkleTreeNode.java:103-104 | past an equal first byte, the rest of the arrays decides the order |
| ByteOrder.CompareTransitive | src/main/java/com/example/merkletree/MerkleTreeNode.java:100-110 | "sorts no later than" is transitive |
| ByteOrder.CompareTotal | src/main/java/com/example/merkletree/MerkleTreeNode.java:100-110 | any two arrays are ordered one way or the other |
| ByteOrder.CompareLeAntisymmetric | src/main/java/com/example/merkletree/MerkleTreeNode.java:100-110 | arrays that each sort no later than the other are equal |
| ByteOrder.ConsSorted | src/main/java/com/example/merkletree/MerkleTreeNode.java:100 | a sorted sequence stays sorted when an element no greater than all of it is put in front |
| ByteOrder.InsertCount | src/main/java/com/example/merkletree/MerkleTreeNode.java:100 | inserting adds exactly one occurrence of the element and one to the length |
| ByteOrder.InsertSorted | src/main/java/com/example/merkletree/MerkleTreeNode.java:100 | inserting into a sorted sequence keeps it sorted |
| ByteOrder.SortBytesPermutation | src/main/java/com/example/merkletree/MerkleTreeNode.java:100 | the sort keeps exactly the input's elements (same multiset, same length) |
| ByteOrder.SortBytesSorted | src/main/java/com/example/merkletree/MerkleTreeNode.java:100-110 | the sort's result is non-decreasing under the comparator and a permutation of its input |
| ByteOrder.SortedUnique | src/main/java/com/example/merkletree/MerkleTreeNode.java:100-110 | two sorted sequences with the same elements are equal, because the order is total and antisymmetric |
| ByteOrder.SortedSameHead | src/main/java/com/example/merkletree/MerkleTreeNode.java:100-110 | two sorted sequences with the same elements start with the same element |
| ByteOrder.SortDependsOnlyOnMultiset | src/main/java/com/example/merkletree/MerkleTreeNode.java:100-110 | the sorted array depends only on the multiset of the input, not on its order |
| ByteOrder.SortedPermutationIsSortBytes | src/main/java/com/example/merkletree/MerkleTreeNode.java:100-110 | any correct sort, such as the library's, gives the same array as the specification |
| ByteOrder.SortInPlace | src/main/java/com/example/merkletree/MerkleTreeNode.java:100-110 | `Arrays.sort` leaves the array holding the sorted permutation of its old contents |
| ByteOrder.InsertLast | src/main/java/com/example/merkletree/MerkleTreeNode.java:100 | one insertion step: the sorted prefix grows by one element and keeps the old prefix's elements, everything after it is unchanged, and the array keeps its elements |
| ByteOrder.SiftStep | src/main/java/com/example/merkletree/MerkleTreeNode.java:100 | one exchange of the inserted element with a larger left neighbour: the array is the old one with `a[j - 1]` and `a[j]` exchanged, which keeps the insertion state, the array's elements, and everything after the prefix |
| ByteOrder.SwapDown | src/main/java/com/example/merkletree/MerkleTreeNode.java:100 | swapping the inserted element with a larger left neighbour keeps the insertion state |
| ByteOrder.InsertingDone | src/main/java/com/example/merkletree/MerkleTreeNode.java:100 | once the inserted element sits after no larger element, the prefix is sorted |
| ArraysToString.NatToStringInjective | src/main/java/com/example/merkletree/MerkleTreeNode.java:123 | decimal renderings of different naturals differ |
| ArraysToString.ByteToStringSign | src/main/java/com/example/merkletree/MerkleTreeNode.java:123 | a rendered byte is non-empty and starts with '-' exactly when the byte is negative |
| ArraysToString.ByteToStringInjective | src/main/java/com/example/merkletree/MerkleTreeNode.java:123 | renderings of different signed bytes differ |
| ArraysToString.ElementsNoBracket | src/main/java/com/example/merkletree/MerkleTreeNode.java:123 | the rendered elements contain no ']' |
| ArraysToString.SingleIsNotMany | src/main/java/com/example/merkletree/MerkleTreeNode.java:123 | a single rendered byte never equals the rendering of two or more elements |
| ArraysToString.ElementsInjective | src/main/java/com/example/merkletree/MerkleTreeNode.java:123 | the ", "-separated rendering determines the array |
| ArraysToString.JoinedInjective | src/main/java/com/example/merkletree/MerkleTreeNode.java:123 | the joined `Arrays.toString` renderings determine the list of arrays, order included, so the digested text loses nothing |
| MerkleTreeNode.ContentHashesSorted | src/main/java/com/example/merkletree/MerkleTreeNode.java:94-112 | returns a fresh array of `children.size() + 1` entries, non-decreasing under the comparator, whose multiset is every child's hash plus the digest of the content bytes |
| MerkleTreeNode.CalculateHash | src/main/java/com/example/merkletree/MerkleTreeNode.java:120-126 | the hash is the digest of the bytes of the joined renderings of the sorted content hashes |
| MerkleTreeNode.NewNode | src/main/java/com/example/merkletree/MerkleTreeNode.java:20-27 | the constructor builds one child node per composite child in the same order, each finished before the parent's hash is computed, and yields the well-formed tree `Build` |
| MerkleTreeNode.BuildWellFormed | src/main/java/com/example/merkletree/MerkleTreeNode.java:20-27 | the built tree mirrors the composite and satisfies the independent definition `WellFormed` at every node |
| MerkleTreeNode.WellFormedIsBuild | src/main/java/com/example/merkletree/MerkleTreeNode.java:20-27 | a well-formed tree is the one the constructor builds from its root composite, so construction is deterministic |
| MerkleTreeNode.FirstMatchIsFirst | src/main/java/com/example/merkletree/MerkleTreeNode.java:81-86 | a first-hit scan finds nothing exactly when nothing matches, and otherwise a matching element with no match before it |
| MerkleTreeNode.FirstMatchAppend | src/main/java/com/example/merkletree/MerkleTreeNode.java:81-86 | the first hit in a concatenation comes from the left part if it has one |
| MerkleTreeNode.FindAncestorIsFirstInPreorder | src/main/java/com/example/merkletree/MerkleTreeNode.java:76-89 | `findAncestor` returns this node if its composite is equal, else the first node in pre-order with that composite, and null exactly when there is none |
| MerkleTreeNode.FindInChildrenIsFirstInPreorder | src/main/java/com/example/merkletree/MerkleTreeNode.java:81-86 | the child loop returns the first hit in the pre-order of the children's subtrees |
| MerkleTreeNode.PathEndsAtFirstMatch | src/main/java/com/example/merkletree/MerkleTreeNode.java:44-68 | a path is returned exactly when some node has the target hash, and its last entry is the sorted set of the first such node in pre-order |
| MerkleTreeNode.PathInChildrenEndsAtFirstMatch | src/main/java/com/example/merkletree/MerkleTreeNode.java:55-63 | the child loop finds a path exactly when some node below has the target hash, ending at the first one in pre-order |
| MerkleTreeNode.PathFoundIff | src/main/java/com/example/merkletree/MerkleTreeNode.java:44-68 | `getPathToAncestor` returns null exactly when no node of the subtree has a hash equal to the target |
| MerkleTreeNode.PathInChildrenIsFirstChild | src/main/java/com/example/merkletree/MerkleTreeNode.java:55-63 | the loop takes the first child in declaration order whose subtree yields a path, and all earlier children yield null |
| MerkleTreeNode.PathStep | src/main/java/com/example/merkletree/MerkleTreeNode.java:48-63 | a matching node yields exactly its own sorted set, even if descendants match too; otherwise the result is its sorted set followed by the first successful child's path |
| MerkleTreeNode.PathAlongStep | src/main/java/com/example/merkletree/MerkleTreeNode.java:59-61 | putting the parent's sorted set in front of a child's path gives a path one level longer |
| MerkleTreeNode.PathShape | src/main/java/com/example/merkletree/MerkleTreeNode.java:44-68 | a returned path follows one chain of child positions: length is the matched node's depth + 1, entries run root first and target last, each the sorted set of the node at that level |
| MerkleTreeNode.PathInChildrenShape | src/main/java/com/example/merkletree/MerkleTreeNode.java:55-63 | a path found by the child loop follows a chain of positions starting at one of the children |
| MerkleTreeNode.SortedHashesMembers | src/main/java/com/example/merkletree/MerkleTreeNode.java:95-99 | a node's sorted set holds every child's hash and the digest of its content |
| MerkleTreeNode.PathIsChained | src/main/java/com/example/merkletree/MerkleTreeNode.java:44-68 | on a built tree, entry 0 re-hashes to the node's hash and each later entry re-hashes to a member of the entry before it; the last re-hashes to the target and holds the content digest of the matched node |
| MerkleTreeNode.PathChain | src/main/java/com/example/merkletree/MerkleTreeNode.java:48-63 | the chain property, proved by recursion over the path |
| MerkleTreeNode.PathInChildrenChain | src/main/java/com/example/merkletree/MerkleTreeNode.java:55-63 | a path from the child loop starts with a set that re-hashes to one of the children's hashes and chains down to the target |
| ChildOrder.BuiltHashesPermutation | src/main/java/com/example/merkletree/MerkleTreeNode.java:23-25 | rearranging a composite's children rearranges the hashes of their built nodes the same way |
| ChildOrder.BuildContentHashes | src/main/java/com/example/merkletree/MerkleTreeNode.java:95-99 | a built node's hash digests the sorted child hashes plus its content digest |
| ChildOrder.SameChildHashesSameHash | src/main/java/com/example/merkletree/MerkleTreeNode.java:120-125 | equal content and the same multiset of child hashes give the same node hash |
| ChildOrder.ChildOrderIrrelevant | src/main/java/com/example/merkletree/MerkleTreeNode.java:94-112 | permuting a composite's children leaves its node's hash unchanged |
| ChildOrder.ReplaceAtThenSubtreeAt | src/main/java/com/example/merkletree/MerkleTreeNode.java:23-25 | after replacing the composite at a position, that position holds the replacement |
| ChildOrder.ReplaceKeepsRootHash | src/main/java/com/example/merkletree/MerkleTreeNode.java:20-27 | replacing any subtree by one whose node has the same hash leaves the root hash unchanged |
| ChildOrder.PermuteChildrenAnywhere | src/main/java/com/example/merkletree/MerkleTreeNode.java:20-27 | permuting the children of any composite, however deep, leaves the root hash unchanged |
| TestComposite.PreorderAllAppend | src/main/java/com/example/merkletree/MerkleTreesApplication.java:205-207 | enumerating two sibling lists one after the other gives the concatenation of their enumerations |
| TestComposite.PreorderLength | src/main/java/com/example/merkletree/MerkleTreesApplication.java:202-209 | the pre-order enumeration has one entry per composite of the tree |
| TestComposite.PreorderAllLength | src/main/java/com/example/merkletree/MerkleTreesApplication.java:205-207 | the enumeration of a sibling list has one entry per composite below it |
| TestComposite.PreorderChildIncluded | src/main/java/com/example/merkletree/MerkleTreesApplication.java:205-207 | everything enumerated under a child is enumerated under its parent |
| TestComposite.PreorderAllMember | src/main/java/com/example/merkletree/MerkleTreesApplication.java:205-207 | an entry of a sibling list's enumeration comes from one of the siblings |
| TestComposite.PreorderMemberPath | src/main/java/com/example/merkletree/MerkleTreesApplication.java:202-209 | every enumerated composite is reached by some sequence of child positions |
| TestComposite.PreorderIsSubtrees | src/main/java/com/example/merkletree/MerkleTreesApplication.java:202-209 | the enumeration holds exactly the composites reachable by child positions from the root |
| MerkleTreesApplication.Flatten | src/main/java/com/example/merkletree/MerkleTreesApplication.java:202-209 | `flatten` returns `input`, then each child's flattening in order (pre-order), with one entry per composite and `input` first |
| MerkleTreesApplication.PickRandomAncestor | src/main/java/com/example/merkletree/MerkleTreesApplication.java:197-200 | for every draw in [0, size), the pick is the entry at that position of the flattening, a composite of the tree reachable from the root |
| MerkleTreesApplication.GenerateTestComposite | src/main/java/com/example/merkletree/MerkleTreesApplication.java:171-195 | builds a ten-composite tree whose children counts in pre-order are 3, 2, 2, 0, 0, 0, 2, 0, 0, 0 (root with left, right and a leaf; left with leftLeft and a leaf; two leaves under each of leftLeft and right) |
| MerkleTreesApplication.PairPreorder | src/main/java/com/example/merkletree/MerkleTreesApplication.java:205-207 | the enumeration of two siblings is theirs, one after the other |
| MerkleTreesApplication.TripletPreorder | src/main/java/com/example/merkletree/MerkleTreesApplication.java:205-207 | the enumeration of three siblings is theirs, in order |
| MerkleTreesApplication.TwoLeavesPreorder | src/main/java/com/example/merkletree/MerkleTreesApplication.java:202-209 | a composite with two leaf children enumerates as itself, then the two leaves |
| MerkleTreesApplication.RequestFor | src/main/java/com/example/merkletree/MerkleTreesApplication.java:99-100 | the timestamp request carries `rootHash` as its imprint and the algorithm's TSP OID |
| MerkleTreesApplication.CreateArchiveTimestamp | src/main/java/com/example/merkletree/MerkleTreesApplication.java:95-108 | fails exactly when the authority fails, with its message; otherwise packages the caller's reduced hash tree unchanged, an identifier of the TSP OID and the granted token |
| MerkleTreesApplication.CompositesAppend | src/main/java/com/example/merkletree/MerkleTreeNode.java:23-25 | the composites of concatenated node lists are the concatenated composites |
| MerkleTreesApplication.BuildPreorder | src/main/java/com/example/merkletree/MerkleTreeNode.java:20-27 | the built tree enumerated in pre-order mirrors the composite's enumeration node for node |
| MerkleTreesApplication.BuildAllPreorder | src/main/java/com/example/merkletree/MerkleTreeNode.java:23-25 | the nodes built for a sibling list enumerate like the sibling list |
| MerkleTreesApplication.FlattenedNodesAreFound | src/main/java/com/example/merkletree/MerkleTreesApplication.java:63-72 | for any composite from `flatten(root)`, `findAncestor` is non-null and returns a node of that composite, and `getPathToAncestor` of that node's hash is non-null |
| MerkleTreesApplication.WellFormedPreorder | src/main/java/com/example/merkletree/MerkleTreeNode.java:20-27 | every node of a built tree is itself correctly built |
| MerkleTreesApplication.WellFormedPreorderAll | src/main/java/com/example/merkletree/MerkleTreeNode.java:23-25 | every node below correctly built children is correctly built |
| MerkleTreesApplication.PathEndsAtNode | src/main/java/com/example/merkletree/MerkleTreesApplication.java:70-72 | with a collision-free digest, the last entry of the path to a node's hash is that node's own sorted set, which holds its content digest |
| MerkleTreesApplication.Test | src/main/java/com/example/merkletree/MerkleTreesApplication.java:60-76 | the composite is the ten-node test tree, the pick is entry `index` of its flattening, the root hash is that of the tree built from it, `findAncestor` finds the picked composite's node, and the archived reduced hash tree is the built tree's path to that node's hash, so the flow never dereferences null. The archive exists exactly when the authority grants the request over the tree's root hash, and it carries that token and the TSP OID. Its reduced hash tree chains from that root hash; with a collision-free digest, its last entry holds the picked composite's content digest |

## Left out

- Object identity: `findAncestor` returns `this` or a child object, while the model returns the node value. Aliasing between the tree and the nodes it returns is not captured. The Java fields are never changed after construction, so no update-in-place behaviour is lost.
- `Arrays.sort` on an object array with a comparator is TimSort in the library; on arrays under 32 entries, which covers every node here, TimSort runs a binary insertion sort. The model uses a plain insertion sort. Both produce the same array, because the sorted permutation under this order is unique (`ByteOrder.SortedUnique`). Stability and the number of comparisons are not modelled.
- SHA-256 (`HashAlgorithm.getMessageDigest`, `CryptoUtils.hash`) is an uninterpreted function. Collision resistance cannot be proved, so it appears only as the hypothesis `CollisionFree`.
- The platform's default charset in `String.getBytes()` is the parameter `getBytes`.
- The HTTP exchange with the timestamp authority in `requestTimeStamp` (src/main/java/com/example/merkletree/MerkleTreesApplication.java:118-169) is network I/O. It is the parameter `tsa`. Its connection settings, HTTP status check and response validation are folded into the `Result` it returns.
- BouncyCastle's ASN.1 structures and DER encoding are not modelled. A `PartialHashtree` is a sequence of byte arrays, `ContentInfo` is opaque encoded bytes, and a timestamp request carries only its algorithm and imprint, with no nonce and no certificate flag.
- The OID values of `HashAlgorithm` are library constants and are left open. The model does not assume that the TSP OID and the NIST OID coincide.
- `ThreadLocalRandom` is replaced by the parameter `index`, the value `nextInt(size)` drew.
- `MerkleTreesApplication.GenerateTestComposite`: the one-argument `TestComposite` constructor it calls is not part of this model. Its contents come from the parameter `contentOf`, in construction order.
- `TestComposite.java` as present (src/main/java/com/example/merkletree/TestComposite.java:10-17) lacks the `getChildren`/`getContent` accessors and the constructor that the rest of the code uses. The model keeps what that code relies on: content, ordered children, and structural equality.
- `TimeStamping.java` is not part of this model. It duplicates the application's flow and calls a `getOid()` that `HashAlgorithm` does not have.
- Not part of this model: Spring bootstrap, `setupCrypto`, `debugArchiveTimeStamp`, the printing in `test()`, `TestObject`, `TestUtils` and `AllSelector`.
- Verifying an archive timestamp is not modelled, because the code contains no verifier. `MerkleTreeNode.PathIsChained` states the chain such a verifier would check.
- Not modelled: RFC 4998's unsigned octet ordering and leaf-first order of the reduced hash tree, which the code does not follow.
- The test's expectation that entry 0 of the archived tree is the picked node's own set (src/test/java/com/example/merkletree/MerkleTreesApplicationTests.java:40-42) is not a property of this model. With the code's root-first order, entry 0 is the root's set (`MerkleTreeNode.PathShape`).
