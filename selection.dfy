// Selection helpers: collecting the whole subtree below an entry, and the
// upward pass that recomputes each ancestor's selected / indeterminate
// flags from its direct children.
module Selection {
  import opened TreeTypes

  // ---------------------------------------------------------------------
  // Descendants

  /** The subtree below p in depth-first pre-order: for each child in
      enumeration order, the child and then everything below it. */
  function Below(nodes: Store, order: seq<NodeId>, p: NodeId): seq<Node>
    requires WellFormed(nodes) && p in nodes
    decreases |nodes| - nodes[p].depth, 0, 0
  {
    DepthBelowSize(nodes, p);
    ChildrenOneLevelDown(nodes, order, p);
    BelowAll(nodes, order, Children(nodes, order, p), nodes[p].depth + 1)
  }

  /** The rows of the siblings ids (all at depth d): each sibling followed
      by its own subtree. */
  function BelowAll(nodes: Store, order: seq<NodeId>, ids: seq<NodeId>, d: nat): seq<Node>
    requires WellFormed(nodes)
    requires forall i | 0 <= i < |ids| :: ids[i] in nodes && nodes[ids[i]].depth == d
    decreases |nodes| - d, 1, |ids|
  {
    if ids == [] then []
    else
      var last := ids[|ids| - 1];
      BelowAll(nodes, order, ids[..|ids| - 1], d) + [nodes[last]] + Below(nodes, order, last)
  }

  /** What the descendant walk yields for any id; an id that is not in the
      store has no children and yields nothing. */
  function DescendantRows(nodes: Store, order: seq<NodeId>, id: NodeId): seq<Node>
    requires WellFormed(nodes)
  {
    if id in nodes then Below(nodes, order, id) else []
  }

  /** An id that is not in a well-formed store is nobody's parent. */
  lemma {:induction false} NoChildrenOutside(nodes: Store, order: seq<NodeId>, p: NodeId)
    requires WellFormed(nodes) && p !in nodes
    ensures Children(nodes, order, p) == []
    decreases |order|
  {
    if order != [] {
      var last := order[|order| - 1];
      NoChildrenOutside(nodes, order[..|order| - 1], p);
      if last in nodes {
        assert Linked(nodes, last);
      }
    }
  }

  /** Every ancestor of k is in the store. */
  lemma AncestorsInStore(nodes: Store, k: NodeId)
    requires WellFormed(nodes) && k in nodes
    ensures forall a | a in Ancestors(nodes, k) :: a in nodes
  {
    var chain := Ancestors(nodes, k);
    forall a | a in chain ensures a in nodes {
      var i :| 0 <= i < |chain| && chain[i] == a;
    }
  }

  /** The parent of c is on c's chain. */
  lemma ParentFirstOnChain(nodes: Store, c: NodeId)
    requires WellFormed(nodes) && c in nodes && nodes[c].parentId.Some?
    ensures nodes[c].parentId.value in Ancestors(nodes, c)
  {
    assert Ancestors(nodes, c)[0] == nodes[c].parentId.value;
  }

  /** The descendant walk as the source runs it: a recursive search that
      pushes each child and then descends into it. */
  method GetDescendants(nodes: Store, order: seq<NodeId>, id: NodeId) returns (result: seq<Node>)
    requires WellFormed(nodes)
    ensures result == DescendantRows(nodes, order, id)
  {
    result := CollectBelow(nodes, order, id, []);
  }

  method CollectBelow(nodes: Store, order: seq<NodeId>, p: NodeId, acc: seq<Node>) returns (result: seq<Node>)
    requires WellFormed(nodes)
    ensures result == acc + DescendantRows(nodes, order, p)
    decreases if p in nodes then |nodes| - nodes[p].depth else 0, 1
  {
    var kids := Children(nodes, order, p);
    ChildrenOneLevelDown(nodes, order, p);
    if p !in nodes {
      NoChildrenOutside(nodes, order, p);
    } else {
      DepthBelowSize(nodes, p);
    }
    ghost var d := if p in nodes then nodes[p].depth + 1 else 0;
    forall i | 0 <= i < |kids| ensures kids[i] in nodes && nodes[kids[i]].depth == d {
      assert kids[i] in kids;
    }
    result := acc;
    for j := 0 to |kids|
      invariant result == acc + BelowAll(nodes, order, kids[..j], d)
    {
      assert kids[..j + 1][..j] == kids[..j];
      assert Linked(nodes, kids[j]);
      var child := nodes[kids[j]];
      result := result + [child];
      result := CollectBelow(nodes, order, child.id, result);
    }
    assert kids[..|kids|] == kids;
  }

  lemma {:induction false} BelowAllMembers(nodes: Store, order: seq<NodeId>, ids: seq<NodeId>, d: nat, x: Node)
    requires WellFormed(nodes)
    requires forall i | 0 <= i < |ids| :: ids[i] in nodes && nodes[ids[i]].depth == d
    ensures x in BelowAll(nodes, order, ids, d) <==>
      exists i | 0 <= i < |ids| :: x == nodes[ids[i]] || x in Below(nodes, order, ids[i])
    decreases |ids|
  {
    if ids != [] {
      var init := ids[..|ids| - 1];
      BelowAllMembers(nodes, order, init, d, x);
      if exists i | 0 <= i < |init| :: x == nodes[init[i]] || x in Below(nodes, order, init[i]) {
        var i :| 0 <= i < |init| && (x == nodes[init[i]] || x in Below(nodes, order, init[i]));
        assert init[i] == ids[i];
      }
      if exists i | 0 <= i < |ids| :: x == nodes[ids[i]] || x in Below(nodes, order, ids[i]) {
        var i :| 0 <= i < |ids| && (x == nodes[ids[i]] || x in Below(nodes, order, ids[i]));
        if i < |init| {
          assert init[i] == ids[i];
        }
      }
    }
  }

  /** The sibling whose rows hold x. */
  lemma {:induction false} BelowAllWhich(nodes: Store, order: seq<NodeId>, ids: seq<NodeId>, d: nat, x: Node) returns (i: nat)
    requires WellFormed(nodes)
    requires forall i | 0 <= i < |ids| :: ids[i] in nodes && nodes[ids[i]].depth == d
    requires x in BelowAll(nodes, order, ids, d)
    ensures i < |ids| && (x == nodes[ids[i]] || x in Below(nodes, order, ids[i]))
    decreases |ids|
  {
    var init := ids[..|ids| - 1];
    var last := ids[|ids| - 1];
    if x in BelowAll(nodes, order, init, d) {
      i := BelowAllWhich(nodes, order, init, d, x);
      assert init[i] == ids[i];
    } else {
      i := |ids| - 1;
    }
  }

  /** A row below p is a child c of p, or lies below c. */
  lemma BelowChild(nodes: Store, order: seq<NodeId>, p: NodeId, x: Node) returns (c: NodeId)
    requires WellFormed(nodes) && p in nodes && x in Below(nodes, order, p)
    ensures IsChild(nodes, c, p) && (x == nodes[c] || x in Below(nodes, order, c))
  {
    DepthBelowSize(nodes, p);
    ChildrenOneLevelDown(nodes, order, p);
    var kids := Children(nodes, order, p);
    var i := BelowAllWhich(nodes, order, kids, nodes[p].depth + 1, x);
    c := kids[i];
    assert c in kids;
  }

  /** A child c of p, and every row below c, is a row below p. */
  lemma BelowViaChild(nodes: Store, order: seq<NodeId>, p: NodeId, c: NodeId, x: Node)
    requires WellFormed(nodes) && IsEnumeration(nodes, order) && p in nodes
    requires IsChild(nodes, c, p) && (x == nodes[c] || x in Below(nodes, order, c))
    ensures x in Below(nodes, order, p)
  {
    DepthBelowSize(nodes, p);
    ChildrenOneLevelDown(nodes, order, p);
    var kids := Children(nodes, order, p);
    assert c in kids;
    var i :| 0 <= i < |kids| && kids[i] == c;
    BelowAllMembers(nodes, order, kids, nodes[p].depth + 1, x);
  }

  /** Every row below p is a store entry whose ancestor chain passes
      through p. */
  lemma {:induction false} BelowSound(nodes: Store, order: seq<NodeId>, p: NodeId, x: Node)
    requires WellFormed(nodes) && p in nodes && x in Below(nodes, order, p)
    ensures x.id in nodes && x == nodes[x.id] && p in Ancestors(nodes, x.id)
    decreases |nodes| - nodes[p].depth
  {
    DepthBelowSize(nodes, p);
    var c := BelowChild(nodes, order, p, x);
    assert Linked(nodes, c);
    if x == nodes[c] {
      ParentFirstOnChain(nodes, c);
    } else {
      BelowSound(nodes, order, c, x);
      ParentOnChain(nodes, x.id, c, p);
    }
  }

  /** Every store entry whose ancestor chain passes through p is a row
      below p. */
  lemma {:induction false} BelowComplete(nodes: Store, order: seq<NodeId>, p: NodeId, k: NodeId)
    requires WellFormed(nodes) && IsEnumeration(nodes, order) && p in nodes
    requires k in nodes && p in Ancestors(nodes, k)
    ensures nodes[k] in Below(nodes, order, p)
    decreases |nodes| - nodes[p].depth
  {
    DepthBelowSize(nodes, p);
    AncestorViaChild(nodes, k, p);
    var c :| IsChild(nodes, c, p) && (c == k || c in Ancestors(nodes, k));
    assert Linked(nodes, c);
    if c != k {
      BelowComplete(nodes, order, c, k);
    }
    BelowViaChild(nodes, order, p, c, nodes[k]);
  }

  /** The descendant walk yields exactly the entries of the proper
      descendants of id, whatever the enumeration order; id's own entry is
      never among them. */
  lemma DescendantRowsExact(nodes: Store, order: seq<NodeId>, id: NodeId, x: Node)
    requires WellFormed(nodes) && IsEnumeration(nodes, order)
    ensures x in DescendantRows(nodes, order, id) <==>
      x.id in DescendantIds(nodes, id) && x == nodes[x.id]
    ensures id in nodes ==> nodes[id] !in DescendantRows(nodes, order, id)
  {
    if id in nodes {
      if x in Below(nodes, order, id) {
        BelowSound(nodes, order, id, x);
      }
      if x.id in DescendantIds(nodes, id) && x == nodes[x.id] {
        BelowComplete(nodes, order, id, x.id);
      }
      if nodes[id] in Below(nodes, order, id) {
        BelowSound(nodes, order, id, nodes[id]);
        NotOwnAncestor(nodes, id);
        assert false;
      }
    } else if x.id in nodes {
      AncestorsInStore(nodes, x.id);
    }
  }

  // ---------------------------------------------------------------------
  // The upward pass

  /** Every direct child of a is selected; true when a has no children. */
  predicate AllChildrenSelected(m: Store, a: NodeId) {
    forall c {:trigger IsChild(m, c, a)} | c in m && IsChild(m, c, a) :: m[c].isSelected
  }

  /** No direct child of a is selected or indeterminate. */
  predicate NoChildMarked(m: Store, a: NodeId) {
    forall c {:trigger IsChild(m, c, a)} | c in m && IsChild(m, c, a) :: !m[c].isSelected && !m[c].isIndeterminate
  }

  /** a's flags follow its direct children: selected when all of them are,
      indeterminate when neither all are selected nor all are clear. */
  predicate TriStateConsistent(m: Store, a: NodeId)
    requires a in m
  {
    && m[a].isSelected == AllChildrenSelected(m, a)
    && m[a].isIndeterminate == (!AllChildrenSelected(m, a) && !NoChildMarked(m, a))
  }

  /** Replacing the entry of k, keeping its parent link, leaves what the
      children of any a other than k's parent look like. */
  lemma ChildFlagsFrame(m: Store, k: NodeId, v: Node, a: NodeId)
    requires k in m && m[k].parentId != Some(a) && v.parentId == m[k].parentId
    ensures AllChildrenSelected(m[k := v], a) == AllChildrenSelected(m, a)
    ensures NoChildMarked(m[k := v], a) == NoChildMarked(m, a)
  {
    var m' := m[k := v];
    forall c | IsChild(m', c, a) ensures IsChild(m, c, a) && m[c] == m'[c] {
    }
    forall c | IsChild(m, c, a) ensures IsChild(m', c, a) && m'[c] == m[c] {
    }
  }

  /** a's entry with its flags recomputed from its children in m. */
  function Recomputed(m: Store, a: NodeId): (n: Node)
    requires a in m
    ensures SameEntryShape(m[a], n) && !(n.isSelected && n.isIndeterminate)
  {
    var all := AllChildrenSelected(m, a);
    m[a].(isSelected := all, isIndeterminate := !all && !NoChildMarked(m, a))
  }

  /** On id's chain, entry i is none of the entries before it, nor the
      parent of any of them or of itself. */
  lemma ChainSeparated(nodes: Store, id: NodeId, i: nat)
    requires WellFormed(nodes) && id in nodes && i < |Ancestors(nodes, id)|
    ensures var chain := Ancestors(nodes, id);
      && (forall j | 0 <= j < i :: chain[j] != chain[i] && nodes[chain[i]].parentId != Some(chain[j]))
      && nodes[chain[i]].parentId != Some(chain[i])
  {
    var chain := Ancestors(nodes, id);
    assert Linked(nodes, chain[i]);
    forall j | 0 <= j < i ensures chain[j] != chain[i] && nodes[chain[i]].parentId != Some(chain[j]) {
      assert nodes[chain[j]].depth > nodes[chain[i]].depth;
    }
  }

  /** No id on a chain is empty, so the pass's truthiness test on the
      current id stops only at a root. */
  lemma ChainIdsNonEmpty(nodes: Store, id: NodeId)
    requires WellFormed(nodes) && id in nodes
    ensures forall j | 0 <= j < |Ancestors(nodes, id)| :: Ancestors(nodes, id)[j] != ""
  {
    forall j | 0 <= j < |Ancestors(nodes, id)| ensures Ancestors(nodes, id)[j] != "" {
      assert Linked(nodes, Ancestors(nodes, id)[j]);
    }
  }

  /** One step of the upward pass changes only flags. */
  lemma StepKeepsShape(nodes: Store, r: Store, a: NodeId)
    requires a in nodes && SameShape(nodes, r)
    ensures SameShape(nodes, r[a := Recomputed(r, a)])
  {
  }

  /** One step of the upward pass, on entry i of the chain, changes no
      entry outside the first i + 1. */
  lemma StepKeepsOthers(nodes: Store, chain: seq<NodeId>, r: Store, i: nat)
    requires i < |chain| && chain[i] in nodes && SameShape(nodes, r)
    requires forall k | k in nodes && k !in chain[..i] :: r[k] == nodes[k]
    ensures forall k | k in nodes && k !in chain[..i + 1] :: r[chain[i] := Recomputed(r, chain[i])][k] == nodes[k]
  {
    assert chain[..i + 1] == chain[..i] + [chain[i]];
  }

  /** One step of the upward pass, on entry i of the chain: the entries
      before it stay consistent, and it becomes consistent. */
  lemma StepConsistent(nodes: Store, chain: seq<NodeId>, r: Store, i: nat)
    requires i < |chain| && forall j | 0 <= j <= i :: chain[j] in nodes
    requires forall j | 0 <= j < i :: chain[j] != chain[i] && nodes[chain[i]].parentId != Some(chain[j])
    requires nodes[chain[i]].parentId != Some(chain[i])
    requires SameShape(nodes, r)
    requires forall j | 0 <= j < i :: TriStateConsistent(r, chain[j])
    ensures forall j | 0 <= j <= i :: TriStateConsistent(r[chain[i] := Recomputed(r, chain[i])], chain[j])
  {
    var a := chain[i];
    var r' := r[a := Recomputed(r, a)];
    ChildFlagsFrame(r, a, r'[a], a);
    forall j | 0 <= j < i ensures TriStateConsistent(r', chain[j]) {
      ChildFlagsFrame(r, a, r'[a], chain[j]);
    }
  }

  /** The upward pass from id: each ancestor, nearest first, gets its flags
      recomputed from its children in the store as updated so far. On
      return every ancestor of id is tri-state consistent, and nothing but
      their flags changed. */
  method UpdateParentSelection(nodes: Store, id: NodeId) returns (r: Store)
    requires WellFormed(nodes)
    ensures SameShape(nodes, r)
    ensures id !in nodes ==> r == nodes
    ensures id in nodes ==> forall k | k in nodes && k !in Ancestors(nodes, id) :: r[k] == nodes[k]
    ensures id in nodes ==>
      forall i | 0 <= i < |Ancestors(nodes, id)| :: TriStateConsistent(r, Ancestors(nodes, id)[i])
  {
    r := nodes;
    ghost var chain: seq<NodeId> := if id in nodes then Ancestors(nodes, id) else [];
    var current := if id in nodes then nodes[id].parentId else None;
    ghost var i := 0;
    if id in nodes {
      ChainIdsNonEmpty(nodes, id);
    }
    while current.Some? && current.value != ""
      invariant 0 <= i <= |chain|
      invariant current == if i < |chain| then Some(chain[i]) else None
      invariant SameShape(nodes, r)
      invariant forall k | k in nodes && k !in chain[..i] :: r[k] == nodes[k]
      invariant forall j | 0 <= j < i :: TriStateConsistent(r, chain[j])
      decreases |chain| - i
    {
      var a := current.value;
      ChainSeparated(nodes, id, i);
      ChainParent(nodes, id, i);
      StepKeepsShape(nodes, r, a);
      StepKeepsOthers(nodes, chain, r, i);
      StepConsistent(nodes, chain, r, i);
      r := r[a := Recomputed(r, a)];
      current := r[a].parentId;
      i := i + 1;
    }
    assert chain[..i] == chain;
  }
}
