/** Tree geometry over the node arena: ancestor test, lowest common ancestor,
    and the widening of a container past list-context elements. */
module Ancestry {
  import opened Wrappers
  import opened DomTree

  /** Tag names whose element only bounds one entry of a list, a table row
      or a paragraph group, never the whole group. */
  const ListContextTags: seq<string> := ["li", "tr", "td", "p", "span"]

  predicate IsListTag(tag: string)
  {
    tag in ListContextTags
  }

  predicate IsCommonAncestor(t: Tree, c: nat, n1: nat, n2: nat)
    requires ValidTree(t) && n1 < |t| && n2 < |t|
  {
    AncestorOrSelf(t, c, n1) && AncestorOrSelf(t, c, n2)
  }

  predicate HasCommonAncestor(t: Tree, n1: nat, n2: nat)
    requires ValidTree(t) && n1 < |t| && n2 < |t|
  {
    exists c | 0 <= c < |t| :: IsCommonAncestor(t, c, n1, n2)
  }

  /** `c` is a common ancestor of `n1` and `n2` lying below every other one. */
  predicate IsLowestCommonAncestor(t: Tree, c: nat, n1: nat, n2: nat)
    requires ValidTree(t) && n1 < |t| && n2 < |t|
  {
    && c < |t|
    && IsCommonAncestor(t, c, n1, n2)
    && forall d | 0 <= d < |t| && IsCommonAncestor(t, d, n1, n2) :: AncestorOrSelf(t, d, c)
  }

  /** Reference definition of the raw lowest common ancestor: the first node
      on the parent chain of `n1`, starting at `n1`, that is an ancestor of `n2`. */
  function Lca(t: Tree, n1: nat, n2: nat): (c: nat)
    requires ValidTree(t) && n1 < |t| && n2 < |t|
    requires HasCommonAncestor(t, n1, n2)
    ensures IsLowestCommonAncestor(t, c, n1, n2)
    decreases n1
  {
    if AncestorOrSelf(t, n1, n2) then n1
    else
      assert t[n1].parent.Some? && HasCommonAncestor(t, t[n1].parent.value, n2) by {
        var c :| 0 <= c < |t| && IsCommonAncestor(t, c, n1, n2);
        assert IsCommonAncestor(t, c, t[n1].parent.value, n2);
      }
      Lca(t, t[n1].parent.value, n2)
  }

  /** The lowest common ancestor is unique. */
  lemma LowestCommonAncestorUnique(t: Tree, c1: nat, c2: nat, n1: nat, n2: nat)
    requires ValidTree(t) && n1 < |t| && n2 < |t|
    requires IsLowestCommonAncestor(t, c1, n1, n2) && IsLowestCommonAncestor(t, c2, n1, n2)
    ensures c1 == c2
  {
    AncestorAntisymmetric(t, c1, c2);
  }

  /** No node strictly between `n1` and its lowest common ancestor with `n2`
      on the parent chain of `n1` is an ancestor of `n2`. */
  lemma LowestIsNearestOnChain(t: Tree, c: nat, n1: nat, n2: nat, d: nat)
    requires ValidTree(t) && n1 < |t| && n2 < |t| && d < |t|
    requires IsLowestCommonAncestor(t, c, n1, n2)
    requires AncestorOrSelf(t, d, n1) && AncestorOrSelf(t, c, d) && d != c
    ensures !AncestorOrSelf(t, d, n2)
  {
    if AncestorOrSelf(t, d, n2) {
      assert IsCommonAncestor(t, d, n1, n2);
      AncestorAntisymmetric(t, c, d);
    }
  }

  /** A node is its own lowest common ancestor. */
  lemma LcaOfSelf(t: Tree, n: nat)
    requires ValidTree(t) && n < |t|
    ensures HasCommonAncestor(t, n, n) && Lca(t, n, n) == n
  {
    assert IsCommonAncestor(t, n, n, n);
  }

  /** List-context normalisation: the nearest ancestor-or-self of `i` whose tag
      is not a list-context tag, or None when the walk runs past the root
      (where the source dereferences a null parent). */
  function CheckNotListElement(t: Tree, i: nat): (r: Option<nat>)
    requires ValidTree(t) && i < |t|
    ensures !IsListTag(t[i].tag) ==> r == Some(i)
    ensures r.Some? ==> r.value < |t| && AncestorOrSelf(t, r.value, i) && !IsListTag(t[r.value].tag)
    ensures r.Some? ==> forall d | 0 <= d < |t| && AncestorOrSelf(t, d, i) && !AncestorOrSelf(t, d, r.value) :: IsListTag(t[d].tag)
    ensures r.None? <==> forall d | 0 <= d < |t| && AncestorOrSelf(t, d, i) :: IsListTag(t[d].tag)
    decreases i
  {
    if IsListTag(t[i].tag) then
      match t[i].parent
      case None => None
      case Some(p) => CheckNotListElement(t, p)
    else
      Some(i)
  }

  /** `isAncestor`: `node1` is `node2` or lies on its parent chain. */
  method IsAncestor(t: Tree, node1: Option<nat>, node2: Option<nat>) returns (r: bool)
    requires ValidTree(t)
    requires node2.Some? ==> node2.value < |t|
    ensures r <==> node1 == node2 || (node1.Some? && node2.Some? && AncestorOrSelf(t, node1.value, node2.value))
  {
    if node1 == node2 {
      return true;
    }
    var ancestor: Option<nat> := node2;
    while ancestor.Some?
      invariant ancestor.Some? ==> node2.Some? && ancestor.value < |t| && AncestorOrSelf(t, ancestor.value, node2.value)
      invariant node1.Some? && node2.Some? && AncestorOrSelf(t, node1.value, node2.value) ==>
        ancestor.Some? && AncestorOrSelf(t, node1.value, ancestor.value)
      decreases if ancestor.Some? then ancestor.value + 1 else 0
    {
      if ancestor == node1 {
        return true;
      }
      var next := t[ancestor.value].parent;
      if next.Some? {
        AncestorTransitive(t, next.value, ancestor.value, node2.value);
      }
      ancestor := next;
    }
    return false;
  }

  datatype AncestryError =
    | NoCommonAncestor      // the walk up from node1 never met an ancestor of node2
    | NoEnclosingContainer  // every ancestor of the raw result has a list-context tag

  /** `lowestCommonAncestor`: walk up from `node1` to the first ancestor of
      `node2`, then widen it past list-context tags. */
  method LowestCommonAncestor(t: Tree, node1: Option<nat>, node2: Option<nat>) returns (r: Result<nat, AncestryError>)
    requires ValidTree(t)
    requires node1.Some? ==> node1.value < |t|
    requires node2.Some? ==> node2.value < |t|
    ensures r == Err(NoCommonAncestor) <==>
      !(node1.Some? && node2.Some? && HasCommonAncestor(t, node1.value, node2.value))
    ensures node1.Some? && node2.Some? && HasCommonAncestor(t, node1.value, node2.value) ==>
      r == match CheckNotListElement(t, Lca(t, node1.value, node2.value))
           case Some(w) => Ok(w)
           case None => Err(NoEnclosingContainer)
    ensures r.Ok? ==>
      && node1.Some? && node2.Some? && r.value < |t|
      && IsCommonAncestor(t, r.value, node1.value, node2.value)
      && !IsListTag(t[r.value].tag)
  {
    var ancestor: Option<nat> := node1;
    while ancestor.Some?
      invariant ancestor.Some? ==> node1.Some? && ancestor.value < |t| && AncestorOrSelf(t, ancestor.value, node1.value)
      invariant node1.Some? && node2.Some? ==>
        forall d | 0 <= d < |t| && IsCommonAncestor(t, d, node1.value, node2.value) ::
          ancestor.Some? && AncestorOrSelf(t, d, ancestor.value)
      decreases if ancestor.Some? then ancestor.value + 1 else 0
    {
      var found := IsAncestor(t, ancestor, node2);
      if found {
        var raw := ancestor.value;
        assert IsLowestCommonAncestor(t, raw, node1.value, node2.value);
        LowestCommonAncestorUnique(t, raw, Lca(t, node1.value, node2.value), node1.value, node2.value);
        var widened := CheckNotListElement(t, raw);
        if widened.Some? {
          AncestorTransitive(t, widened.value, raw, node1.value);
          AncestorTransitive(t, widened.value, raw, node2.value);
          return Ok(widened.value);
        }
        return Err(NoEnclosingContainer);
      }
      var next := t[ancestor.value].parent;
      if next.Some? {
        AncestorTransitive(t, next.value, ancestor.value, node1.value);
      }
      ancestor := next;
    }
    r := Err(NoCommonAncestor);
  }
}
