/** The parsed HTML document as an arena of nodes addressed by index.
    Every node stores its tag name, its rendered visible text and the index of
    its parent; a parent always has a smaller index than its child, so walking
    parent links always reaches a root. */
module DomTree {
  import opened Wrappers

  datatype Node = Node(tag: string, text: string, parent: Option<nat>)

  type Tree = seq<Node>

  /** Parent links point strictly backwards, so the tree is acyclic. */
  predicate ValidTree(t: Tree)
  {
    forall i | 0 <= i < |t| :: t[i].parent.Some? ==> t[i].parent.value < i
  }

  /** `a` lies on the parent chain of `b`, counting `b` itself. */
  predicate AncestorOrSelf(t: Tree, a: nat, b: nat)
    requires ValidTree(t) && b < |t|
    decreases b
  {
    a == b || (t[b].parent.Some? && AncestorOrSelf(t, a, t[b].parent.value))
  }

  /** An ancestor never has a larger index than its descendant. */
  lemma {:induction false} AncestorIsNotAfter(t: Tree, a: nat, b: nat)
    requires ValidTree(t) && b < |t|
    requires AncestorOrSelf(t, a, b)
    ensures a <= b
    decreases b
  {
    if a != b {
      AncestorIsNotAfter(t, a, t[b].parent.value);
    }
  }

  /** Two nodes that are each other's ancestor are the same node. */
  lemma AncestorAntisymmetric(t: Tree, a: nat, b: nat)
    requires ValidTree(t) && a < |t| && b < |t|
    requires AncestorOrSelf(t, a, b) && AncestorOrSelf(t, b, a)
    ensures a == b
  {
    AncestorIsNotAfter(t, a, b);
    AncestorIsNotAfter(t, b, a);
  }

  /** An ancestor of an ancestor is an ancestor. */
  lemma {:induction false} AncestorTransitive(t: Tree, a: nat, b: nat, c: nat)
    requires ValidTree(t) && b < |t| && c < |t|
    requires AncestorOrSelf(t, a, b) && AncestorOrSelf(t, b, c)
    ensures AncestorOrSelf(t, a, c)
    decreases c
  {
    if b != c {
      AncestorTransitive(t, a, b, t[c].parent.value);
    }
  }
}
