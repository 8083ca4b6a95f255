/**
 * The application's hierarchical input. Lombok's `@Data` gives the Java
 * class field-by-field `equals`, which is datatype equality here.
 */
module TestComposite {

  /** A composite: its text content and its ordered child composites. */
  datatype Composite = Composite(content: string, children: seq<Composite>)

  /** Reference count of the composites in a tree: this one plus those below each child. */
  function Size(c: Composite): nat
    decreases c
  {
    1 + SizeAll(c.children)
  }

  function SizeAll(cs: seq<Composite>): nat
    decreases cs
  {
    if cs == [] then 0 else Size(cs[0]) + SizeAll(cs[1..])
  }

  /** Pre-order enumeration: the composite itself, then each child's enumeration in order. */
  function Preorder(c: Composite): seq<Composite>
    decreases c
  {
    [c] + PreorderAll(c.children)
  }

  function PreorderAll(cs: seq<Composite>): seq<Composite>
    decreases cs
  {
    if cs == [] then [] else Preorder(cs[0]) + PreorderAll(cs[1..])
  }

  /** Enumerating a concatenation of sibling lists is concatenating their enumerations. */
  lemma {:induction false} PreorderAllAppend(xs: seq<Composite>, ys: seq<Composite>)
    ensures PreorderAll(xs + ys) == PreorderAll(xs) + PreorderAll(ys)
    decreases |xs|
  {
    if xs == [] {
      assert xs + ys == ys;
    } else {
      assert (xs + ys)[1..] == xs[1..] + ys;
      PreorderAllAppend(xs[1..], ys);
    }
  }

  /** The enumeration lists every composite of the tree exactly once: its length is the tree's size. */
  lemma {:induction false} PreorderLength(c: Composite)
    ensures |Preorder(c)| == Size(c)
    decreases c, 1
  {
    PreorderAllLength(c.children);
  }

  lemma {:induction false} PreorderAllLength(cs: seq<Composite>)
    ensures |PreorderAll(cs)| == SizeAll(cs)
    decreases cs, 0
  {
    if cs != [] {
      PreorderLength(cs[0]);
      PreorderAllLength(cs[1..]);
    }
  }

  // ---------------------------------------------------------------------
  // Positions in a composite
  // ---------------------------------------------------------------------

  /** `idx` is a sequence of child positions that can be followed down from `c`. */
  predicate IsCompositePath(c: Composite, idx: seq<nat>)
    decreases |idx|
  {
    idx == [] || (idx[0] < |c.children| && IsCompositePath(c.children[idx[0]], idx[1..]))
  }

  /** The composite reached by following `idx` down from `c`. */
  function SubtreeAt(c: Composite, idx: seq<nat>): (r: Composite)
    requires IsCompositePath(c, idx)
    ensures r in Preorder(c)
    decreases |idx|
  {
    if idx == [] then c
    else
      var k := idx[0];
      PreorderChildIncluded(c, k);
      SubtreeAt(c.children[k], idx[1..])
  }

  /** A child's enumeration is part of its parent's, so what is below a child is below the parent. */
  lemma PreorderChildIncluded(c: Composite, k: nat)
    requires k < |c.children|
    ensures forall x :: x in Preorder(c.children[k]) ==> x in Preorder(c)
  {
    var cs := c.children;
    assert cs == cs[..k] + [cs[k]] + cs[k + 1..];
    PreorderAllAppend(cs[..k] + [cs[k]], cs[k + 1..]);
    PreorderAllAppend(cs[..k], [cs[k]]);
    assert PreorderAll([cs[k]]) == Preorder(cs[k]) + PreorderAll([]);
  }

  /** Whatever the enumeration of a sibling list holds is in the enumeration of one of the siblings. */
  lemma {:induction false} PreorderAllMember(cs: seq<Composite>, x: Composite)
    requires x in PreorderAll(cs)
    ensures exists k :: 0 <= k < |cs| && x in Preorder(cs[k])
    decreases |cs|
  {
    if x !in Preorder(cs[0]) {
      PreorderAllMember(cs[1..], x);
      var k :| 0 <= k < |cs[1..]| && x in Preorder(cs[1..][k]);
      assert cs[1..][k] == cs[k + 1];
    }
  }

  /** Every enumerated composite is reached by some sequence of child positions. */
  lemma {:induction false} PreorderMemberPath(c: Composite, x: Composite) returns (idx: seq<nat>)
    requires x in Preorder(c)
    ensures IsCompositePath(c, idx) && SubtreeAt(c, idx) == x
    decreases c
  {
    if x == c {
      idx := [];
    } else {
      PreorderAllMember(c.children, x);
      var k :| 0 <= k < |c.children| && x in Preorder(c.children[k]);
      var rest := PreorderMemberPath(c.children[k], x);
      idx := [k] + rest;
      assert idx[1..] == rest;
    }
  }

  /**
   * The enumeration holds exactly the composites reachable by following
   * child positions down from the root.
   */
  lemma PreorderIsSubtrees(c: Composite, x: Composite)
    ensures x in Preorder(c) <==> exists idx :: IsCompositePath(c, idx) && SubtreeAt(c, idx) == x
  {
    if x in Preorder(c) {
      var idx := PreorderMemberPath(c, x);
    }
  }
}
