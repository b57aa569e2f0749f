// The vocabulary shared by the tree-state engine: the loader's descriptors,
// the engine-owned node records, the flat id-to-node store, its
// well-formedness, and the parent chain that well-formedness makes finite.
module TreeTypes {

  datatype Option<T> = None | Some(value: T)

  /** A node identifier. The empty string never names a node: the ancestor
      walk stops on a falsy id, so "" would read as "no parent". */
  type NodeId = string

  /** A child descriptor as the loader returns it. */
  datatype TreeNode = TreeNode(id: NodeId, displayLabel: string, hasChildren: bool)

  /** A store entry: the descriptor plus the state the engine owns. */
  datatype Node = Node(
    id: NodeId,
    displayLabel: string,
    hasChildren: bool,
    depth: nat,
    parentId: Option<NodeId>,
    isExpanded: bool,
    isSelected: bool,
    isIndeterminate: bool)

  /** The flat store: every node of the loaded part of the tree, by id. */
  type Store = map<NodeId, Node>

  /** Entry k is keyed by its own non-empty id; a root has depth 0, any
      other entry's parent is in the store one level up. */
  predicate Linked(nodes: Store, k: NodeId)
    requires k in nodes
  {
    && k != ""
    && nodes[k].id == k
    && match nodes[k].parentId
       case None => nodes[k].depth == 0
       case Some(p) => p in nodes && nodes[k].depth == nodes[p].depth + 1
  }

  predicate WellFormed(nodes: Store) {
    forall k {:trigger Linked(nodes, k)} | k in nodes :: Linked(nodes, k)
  }

  /** No entry is both selected and indeterminate. */
  predicate FlagsExclusive(nodes: Store) {
    forall k | k in nodes :: !(nodes[k].isSelected && nodes[k].isIndeterminate)
  }

  /** c is a direct child of p in the store. */
  predicate IsChild(nodes: Store, c: NodeId, p: NodeId) {
    c in nodes && nodes[c].parentId == Some(p)
  }

  /** a and b agree on everything but the two selection flags. */
  predicate SameEntryShape(a: Node, b: Node) {
    && a.id == b.id
    && a.displayLabel == b.displayLabel
    && a.hasChildren == b.hasChildren
    && a.depth == b.depth
    && a.parentId == b.parentId
    && a.isExpanded == b.isExpanded
  }

  /** m2 holds the same nodes as m1, linked and expanded the same way; only
      selection flags differ. */
  predicate SameShape(m1: Store, m2: Store) {
    && m1.Keys == m2.Keys
    && forall k | k in m1 :: SameEntryShape(m1[k], m2[k])
  }

  /** order lists every key of the store exactly once: the host's
      enumeration of the store's values, whose order is left open. */
  predicate IsEnumeration(nodes: Store, order: seq<NodeId>) {
    && (forall i | 0 <= i < |order| :: order[i] in nodes)
    && (forall k | k in nodes :: k in order)
    && (forall i, j | 0 <= i < j < |order| :: order[i] != order[j])
  }

  /** The direct children of p, in enumeration order: the store's values
      filtered on their parent link. */
  function Children(nodes: Store, order: seq<NodeId>, p: NodeId): (kids: seq<NodeId>)
    ensures forall c :: c in kids <==> c in order && IsChild(nodes, c, p)
  {
    if order == [] then []
    else
      var last := order[|order| - 1];
      Children(nodes, order[..|order| - 1], p) + (if IsChild(nodes, last, p) then [last] else [])
  }

  /** In a well-formed store the children of p sit one level below p. */
  lemma ChildrenOneLevelDown(nodes: Store, order: seq<NodeId>, p: NodeId)
    requires WellFormed(nodes)
    ensures forall c | c in Children(nodes, order, p) ::
      c in nodes && p in nodes && nodes[c].depth == nodes[p].depth + 1
  {
    forall c | c in Children(nodes, order, p)
      ensures c in nodes && p in nodes && nodes[c].depth == nodes[p].depth + 1
    {
      assert Linked(nodes, c);
    }
  }

  /** The proper ancestors of k, nearest first: the walk along parentId
      links that ends at a root. Its length is k's depth. */
  function Ancestors(nodes: Store, k: NodeId): (chain: seq<NodeId>)
    requires WellFormed(nodes) && k in nodes
    ensures |chain| == nodes[k].depth
    ensures forall i | 0 <= i < |chain| ::
      chain[i] in nodes && nodes[chain[i]].depth == nodes[k].depth - 1 - i
    decreases nodes[k].depth
  {
    assert Linked(nodes, k);
    match nodes[k].parentId
    case None => []
    case Some(p) =>
      var rest := Ancestors(nodes, p);
      assert Linked(nodes, p);
      assert forall i | 0 < i <= |rest| :: ([p] + rest)[i] == rest[i - 1];
      [p] + rest
  }

  /** The chain starts at k's parent. */
  lemma FirstAncestor(nodes: Store, k: NodeId)
    requires WellFormed(nodes) && k in nodes
    ensures nodes[k].parentId == if Ancestors(nodes, k) == [] then None else Some(Ancestors(nodes, k)[0])
  {
    assert Linked(nodes, k);
  }

  /** Each entry of the chain has the next one as its parent; the last
      one is a root. */
  lemma {:induction false} ChainParent(nodes: Store, k: NodeId, i: nat)
    requires WellFormed(nodes) && k in nodes && i < |Ancestors(nodes, k)|
    ensures var chain := Ancestors(nodes, k);
      nodes[chain[i]].parentId == if i + 1 < |chain| then Some(chain[i + 1]) else None
    decreases nodes[k].depth
  {
    assert Linked(nodes, k);
    var p := nodes[k].parentId.value;
    assert Ancestors(nodes, k) == [p] + Ancestors(nodes, p);
    if i == 0 {
      FirstAncestor(nodes, p);
    } else {
      ChainParent(nodes, p, i - 1);
    }
  }

  /** The set of proper descendants of id: every entry whose ancestor
      chain passes through id. */
  function DescendantIds(nodes: Store, id: NodeId): set<NodeId>
    requires WellFormed(nodes)
  {
    set k | k in nodes && id in Ancestors(nodes, k)
  }

  /** k together with its ancestors. */
  ghost function Lineage(nodes: Store, k: NodeId): set<NodeId>
    requires WellFormed(nodes) && k in nodes
    decreases nodes[k].depth
  {
    assert Linked(nodes, k);
    match nodes[k].parentId
    case None => {k}
    case Some(p) => {k} + Lineage(nodes, p)
  }

  lemma {:induction false} LineageSize(nodes: Store, k: NodeId)
    requires WellFormed(nodes) && k in nodes
    ensures Lineage(nodes, k) <= nodes.Keys
    ensures |Lineage(nodes, k)| == nodes[k].depth + 1
    ensures forall x | x in Lineage(nodes, k) :: nodes[x].depth <= nodes[k].depth
    decreases nodes[k].depth
  {
    assert Linked(nodes, k);
    match nodes[k].parentId
    case None =>
    case Some(p) =>
      LineageSize(nodes, p);
      assert k !in Lineage(nodes, p);
  }

  /** Well-formedness bounds every depth by the store's size, so a walk
      down the tree that goes one level deeper per step terminates. */
  lemma DepthBelowSize(nodes: Store, k: NodeId)
    requires WellFormed(nodes) && k in nodes
    ensures nodes[k].depth < |nodes|
  {
    LineageSize(nodes, k);
    var l := Lineage(nodes, k);
    assert nodes.Keys == l + (nodes.Keys - l);
    assert |nodes.Keys| == |l| + |nodes.Keys - l|;
  }

  /** No entry is its own proper ancestor: the parent links are acyclic. */
  lemma NotOwnAncestor(nodes: Store, k: NodeId)
    requires WellFormed(nodes) && k in nodes
    ensures k !in Ancestors(nodes, k)
  {
  }

  /** If c lies on k's chain, so does c's parent. */
  lemma {:induction false} ParentOnChain(nodes: Store, k: NodeId, c: NodeId, p: NodeId)
    requires WellFormed(nodes) && k in nodes
    requires c in Ancestors(nodes, k) && IsChild(nodes, c, p)
    ensures p in Ancestors(nodes, k)
    decreases nodes[k].depth
  {
    assert Linked(nodes, k);
    var q := nodes[k].parentId.value;
    if c != q {
      ParentOnChain(nodes, q, c, p);
    }
  }

  /** p lies on k's chain exactly when one of p's children is k or lies on
      k's chain. */
  lemma {:induction false} AncestorViaChild(nodes: Store, k: NodeId, p: NodeId)
    requires WellFormed(nodes) && k in nodes
    ensures p in Ancestors(nodes, k) <==>
      exists c :: IsChild(nodes, c, p) && (c == k || c in Ancestors(nodes, k))
    decreases nodes[k].depth
  {
    assert Linked(nodes, k);
    if p in Ancestors(nodes, k) {
      var q := nodes[k].parentId.value;
      if p == q {
        assert IsChild(nodes, k, p);
      } else {
        AncestorViaChild(nodes, q, p);
        var c :| IsChild(nodes, c, p) && (c == q || c in Ancestors(nodes, q));
        assert c in Ancestors(nodes, k);
      }
    }
    if exists c :: IsChild(nodes, c, p) && (c == k || c in Ancestors(nodes, k)) {
      var c :| IsChild(nodes, c, p) && (c == k || c in Ancestors(nodes, k));
      if c != k {
        ParentOnChain(nodes, k, c, p);
      }
    }
  }

  /** Two stores of the same shape have the same ancestor chains. */
  lemma {:induction false} AncestorsOfSameShape(m1: Store, m2: Store, k: NodeId)
    requires WellFormed(m1) && SameShape(m1, m2) && k in m1
    ensures WellFormed(m2)
    ensures Ancestors(m2, k) == Ancestors(m1, k)
    decreases m1[k].depth
  {
    SameShapeWellFormed(m1, m2);
    assert Linked(m1, k);
    match m1[k].parentId
    case None =>
    case Some(p) => AncestorsOfSameShape(m1, m2, p);
  }

  lemma SameShapeWellFormed(m1: Store, m2: Store)
    requires WellFormed(m1) && SameShape(m1, m2)
    ensures WellFormed(m2)
  {
    forall k | k in m2 ensures Linked(m2, k) {
      assert Linked(m1, k);
    }
  }
}
