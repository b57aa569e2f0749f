// The visible-set flattener: a depth-first, pre-order walk from the root
// ids that descends into a node's children only when the node is expanded.
// Sibling order is the host's enumeration order of the store, so it is a
// parameter; the lemmas state what holds whatever that order is.
module VisibleSet {
  import opened TreeTypes

  /** The rows contributed by entry id: id itself, then, if it is
      expanded, the rows of each child in turn. */
  function Visit(nodes: Store, order: seq<NodeId>, id: NodeId): seq<Node>
    requires WellFormed(nodes) && id in nodes
    decreases |nodes| - nodes[id].depth, 0, 0
  {
    DepthBelowSize(nodes, id);
    ChildrenOneLevelDown(nodes, order, id);
    [nodes[id]] +
      if nodes[id].isExpanded
      then VisitAll(nodes, order, Children(nodes, order, id), nodes[id].depth + 1)
      else []
  }

  /** The rows of the sibling entries ids (all at depth d), one after another. */
  function VisitAll(nodes: Store, order: seq<NodeId>, ids: seq<NodeId>, d: nat): seq<Node>
    requires WellFormed(nodes)
    requires forall i | 0 <= i < |ids| :: ids[i] in nodes && nodes[ids[i]].depth == d
    decreases |nodes| - d, 1, |ids|
  {
    if ids == [] then []
    else VisitAll(nodes, order, ids[..|ids| - 1], d) + Visit(nodes, order, ids[|ids| - 1])
  }

  /** All visible rows: the walk from each root id in turn; ids that are
      not in the store contribute nothing. */
  function Flatten(nodes: Store, order: seq<NodeId>, rootIds: seq<NodeId>): seq<Node>
    requires WellFormed(nodes)
  {
    if rootIds == [] then []
    else
      var r := rootIds[|rootIds| - 1];
      Flatten(nodes, order, rootIds[..|rootIds| - 1]) + if r in nodes then Visit(nodes, order, r) else []
  }

  /** The walk as the component runs it: each root pushes its rows onto
      one result list. */
  method FlattenVisibleNodes(nodes: Store, order: seq<NodeId>, rootIds: seq<NodeId>) returns (result: seq<Node>)
    requires WellFormed(nodes)
    ensures result == Flatten(nodes, order, rootIds)
  {
    result := [];
    for i := 0 to |rootIds|
      invariant result == Flatten(nodes, order, rootIds[..i])
    {
      assert rootIds[..i + 1][..i] == rootIds[..i];
      result := PushVisible(nodes, order, rootIds[i], result);
    }
    assert rootIds[..|rootIds|] == rootIds;
  }

  /** The recursive step: skip an unknown id, otherwise push the node and,
      if it is expanded, the rows of its children. */
  method PushVisible(nodes: Store, order: seq<NodeId>, id: NodeId, acc: seq<Node>) returns (result: seq<Node>)
    requires WellFormed(nodes)
    ensures result == acc + if id in nodes then Visit(nodes, order, id) else []
    decreases if id in nodes then |nodes| - nodes[id].depth else 0, 0
  {
    if id !in nodes {
      return acc;
    }
    var node := nodes[id];
    result := acc + [node];
    if node.isExpanded {
      ChildrenOneLevelDown(nodes, order, id);
      DepthBelowSize(nodes, id);
      result := PushEach(nodes, order, Children(nodes, order, id), node.depth + 1, result);
    }
  }

  /** The children's forEach: push the rows of each sibling in turn. */
  method PushEach(nodes: Store, order: seq<NodeId>, kids: seq<NodeId>, d: nat, acc: seq<Node>) returns (result: seq<Node>)
    requires WellFormed(nodes)
    requires forall i | 0 <= i < |kids| :: kids[i] in nodes && nodes[kids[i]].depth == d
    ensures result == acc + VisitAll(nodes, order, kids, d)
    decreases |nodes| - d, 1
  {
    result := acc;
    for j := 0 to |kids|
      invariant result == acc + VisitAll(nodes, order, kids[..j], d)
    {
      assert kids[..j + 1][..j] == kids[..j];
      result := PushVisible(nodes, order, kids[j], result);
    }
    assert kids[..|kids|] == kids;
  }

  // ---------------------------------------------------------------------
  // Which entries are emitted

  /** k is p, or k's parent is expanded and itself shown under p. */
  predicate ShownUnder(nodes: Store, p: NodeId, k: NodeId)
    requires WellFormed(nodes) && k in nodes
    decreases nodes[k].depth
  {
    assert Linked(nodes, k);
    || k == p
    || match nodes[k].parentId
       case None => false
       case Some(q) => nodes[q].isExpanded && ShownUnder(nodes, p, q)
  }

  /** Every ancestor of k is expanded. */
  predicate AncestorsExpanded(nodes: Store, k: NodeId)
    requires WellFormed(nodes) && k in nodes
  {
    forall a | a in Ancestors(nodes, k) :: nodes[a].isExpanded
  }

  /** rootIds lists every root of the store, and nothing else. */
  predicate RootsListed(nodes: Store, rootIds: seq<NodeId>) {
    && (forall r | r in rootIds :: r in nodes && nodes[r].parentId == None)
    && (forall k | k in nodes && nodes[k].parentId == None :: k in rootIds)
  }

  lemma {:induction false} VisitAllMembers(nodes: Store, order: seq<NodeId>, ids: seq<NodeId>, d: nat, x: Node)
    requires WellFormed(nodes)
    requires forall i | 0 <= i < |ids| :: ids[i] in nodes && nodes[ids[i]].depth == d
    ensures x in VisitAll(nodes, order, ids, d) <==>
      exists i | 0 <= i < |ids| :: x in Visit(nodes, order, ids[i])
    decreases |ids|
  {
    if ids != [] {
      var init := ids[..|ids| - 1];
      VisitAllMembers(nodes, order, init, d, x);
      if exists i | 0 <= i < |init| :: x in Visit(nodes, order, init[i]) {
        var i :| 0 <= i < |init| && x in Visit(nodes, order, init[i]);
        assert init[i] == ids[i];
      }
      if exists i | 0 <= i < |ids| :: x in Visit(nodes, order, ids[i]) {
        var i :| 0 <= i < |ids| && x in Visit(nodes, order, ids[i]);
        if i < |init| {
          assert init[i] == ids[i];
        }
      }
    }
  }

  /** If k is shown under child c of an expanded p, it is shown under p. */
  lemma {:induction false} ShownUnderParent(nodes: Store, p: NodeId, c: NodeId, k: NodeId)
    requires WellFormed(nodes) && k in nodes
    requires IsChild(nodes, c, p) && p in nodes && nodes[p].isExpanded && ShownUnder(nodes, c, k)
    ensures ShownUnder(nodes, p, k)
    decreases nodes[k].depth
  {
    assert Linked(nodes, k);
    if k != c && k != p {
      ShownUnderParent(nodes, p, c, nodes[k].parentId.value);
    }
  }

  /** A k shown under p but distinct from p is shown under a child of p,
      and p is expanded. */
  lemma {:induction false} ShownUnderChild(nodes: Store, p: NodeId, k: NodeId) returns (c: NodeId)
    requires WellFormed(nodes) && k in nodes && ShownUnder(nodes, p, k) && k != p
    ensures IsChild(nodes, c, p) && p in nodes && nodes[p].isExpanded && ShownUnder(nodes, c, k)
    decreases nodes[k].depth
  {
    assert Linked(nodes, k);
    var q := nodes[k].parentId.value;
    if q == p {
      c := k;
    } else {
      c := ShownUnderChild(nodes, p, q);
    }
  }

  /** Every row of p is a store entry shown under p. */
  lemma {:induction false} VisitSound(nodes: Store, order: seq<NodeId>, p: NodeId, x: Node)
    requires WellFormed(nodes) && p in nodes && x in Visit(nodes, order, p)
    ensures x.id in nodes && x == nodes[x.id] && ShownUnder(nodes, p, x.id)
    decreases |nodes| - nodes[p].depth
  {
    assert Linked(nodes, p);
    if x != nodes[p] {
      DepthBelowSize(nodes, p);
      ChildrenOneLevelDown(nodes, order, p);
      var kids := Children(nodes, order, p);
      VisitAllMembers(nodes, order, kids, nodes[p].depth + 1, x);
      var i :| 0 <= i < |kids| && x in Visit(nodes, order, kids[i]);
      assert kids[i] in kids;
      VisitSound(nodes, order, kids[i], x);
      ShownUnderParent(nodes, p, kids[i], x.id);
    }
  }

  /** Every store entry shown under p is a row of p. */
  lemma {:induction false} VisitComplete(nodes: Store, order: seq<NodeId>, p: NodeId, k: NodeId)
    requires WellFormed(nodes) && IsEnumeration(nodes, order) && p in nodes
    requires k in nodes && ShownUnder(nodes, p, k)
    ensures nodes[k] in Visit(nodes, order, p)
    decreases |nodes| - nodes[p].depth
  {
    if k != p {
      DepthBelowSize(nodes, p);
      ChildrenOneLevelDown(nodes, order, p);
      var kids := Children(nodes, order, p);
      var c := ShownUnderChild(nodes, p, k);
      assert c in kids;
      var i :| 0 <= i < |kids| && kids[i] == c;
      VisitComplete(nodes, order, c, k);
      VisitAllMembers(nodes, order, kids, nodes[p].depth + 1, nodes[k]);
    }
  }

  /** The rows of p are exactly the entries shown under p. */
  lemma VisitExact(nodes: Store, order: seq<NodeId>, p: NodeId, x: Node)
    requires WellFormed(nodes) && IsEnumeration(nodes, order) && p in nodes
    ensures x in Visit(nodes, order, p) <==>
      x.id in nodes && x == nodes[x.id] && ShownUnder(nodes, p, x.id)
  {
    if x in Visit(nodes, order, p) {
      VisitSound(nodes, order, p, x);
    }
    if x.id in nodes && x == nodes[x.id] && ShownUnder(nodes, p, x.id) {
      VisitComplete(nodes, order, p, x.id);
    }
  }

  /** The emitted rows are exactly the store entries shown under one of
      the present root ids: every row is a store entry, and a child is
      emitted only below an expanded parent. */
  lemma {:induction false} FlattenExact(nodes: Store, order: seq<NodeId>, rootIds: seq<NodeId>, x: Node)
    requires WellFormed(nodes) && IsEnumeration(nodes, order)
    ensures x in Flatten(nodes, order, rootIds) <==>
      && x.id in nodes && x == nodes[x.id]
      && exists i | 0 <= i < |rootIds| :: rootIds[i] in nodes && ShownUnder(nodes, rootIds[i], x.id)
    decreases |rootIds|
  {
    if rootIds != [] {
      var init := rootIds[..|rootIds| - 1];
      var r := rootIds[|rootIds| - 1];
      FlattenExact(nodes, order, init, x);
      if r in nodes {
        VisitExact(nodes, order, r, x);
      }
      if x.id in nodes && exists i | 0 <= i < |init| :: init[i] in nodes && ShownUnder(nodes, init[i], x.id) {
        var i :| 0 <= i < |init| && init[i] in nodes && ShownUnder(nodes, init[i], x.id);
        assert rootIds[i] == init[i];
      }
      if x.id in nodes && exists i | 0 <= i < |rootIds| :: rootIds[i] in nodes && ShownUnder(nodes, rootIds[i], x.id) {
        var i :| 0 <= i < |rootIds| && rootIds[i] in nodes && ShownUnder(nodes, rootIds[i], x.id);
        if i < |init| {
          assert rootIds[i] == init[i];
        }
      }
    }
  }

  /** Shown under some root exactly when every ancestor is expanded. */
  lemma {:induction false} ShownUnderSomeRoot(nodes: Store, k: NodeId)
    requires WellFormed(nodes) && k in nodes
    ensures AncestorsExpanded(nodes, k) <==>
      exists r | r in nodes && nodes[r].parentId == None :: ShownUnder(nodes, r, k)
    decreases nodes[k].depth
  {
    assert Linked(nodes, k);
    match nodes[k].parentId
    case None =>
      assert ShownUnder(nodes, k, k);
    case Some(q) =>
      ShownUnderSomeRoot(nodes, q);
      assert Ancestors(nodes, k) == [q] + Ancestors(nodes, q);
  }

  /** With rootIds listing the store's roots, the visible rows are exactly
      the entries whose ancestors are all expanded, whatever the sibling
      order. */
  lemma FlattenShowsExpandedPaths(nodes: Store, order: seq<NodeId>, rootIds: seq<NodeId>, x: Node)
    requires WellFormed(nodes) && IsEnumeration(nodes, order) && RootsListed(nodes, rootIds)
    ensures x in Flatten(nodes, order, rootIds) <==>
      x.id in nodes && x == nodes[x.id] && AncestorsExpanded(nodes, x.id)
  {
    FlattenExact(nodes, order, rootIds, x);
    if x.id in nodes {
      ShownUnderSomeRoot(nodes, x.id);
      if AncestorsExpanded(nodes, x.id) {
        var r :| r in nodes && nodes[r].parentId == None && ShownUnder(nodes, r, x.id);
        var i :| 0 <= i < |rootIds| && rootIds[i] == r;
      }
    }
  }

  /** A child of a collapsed node is never emitted. */
  lemma CollapsedChildHidden(nodes: Store, order: seq<NodeId>, rootIds: seq<NodeId>, c: NodeId, p: NodeId)
    requires WellFormed(nodes) && IsEnumeration(nodes, order) && RootsListed(nodes, rootIds)
    requires IsChild(nodes, c, p) && p in nodes && !nodes[p].isExpanded
    ensures nodes[c] !in Flatten(nodes, order, rootIds)
  {
    FlattenShowsExpandedPaths(nodes, order, rootIds, nodes[c]);
    assert Linked(nodes, c);
    assert Ancestors(nodes, c)[0] == p;
  }

  /** When every root id is a collapsed entry, the rows are those entries,
      one per root id, in rootIds order. */
  lemma {:induction false} FlattenCollapsedRoots(nodes: Store, order: seq<NodeId>, rootIds: seq<NodeId>)
    requires WellFormed(nodes)
    requires forall i | 0 <= i < |rootIds| :: rootIds[i] in nodes && !nodes[rootIds[i]].isExpanded
    ensures |Flatten(nodes, order, rootIds)| == |rootIds|
    ensures forall i | 0 <= i < |rootIds| :: Flatten(nodes, order, rootIds)[i] == nodes[rootIds[i]]
    decreases |rootIds|
  {
    if rootIds != [] {
      var init := rootIds[..|rootIds| - 1];
      var r := rootIds[|rootIds| - 1];
      FlattenCollapsedRoots(nodes, order, init);
      assert Visit(nodes, order, r) == [nodes[r]];
    }
  }

  /** Two enumeration orders give the same set of rows. */
  lemma FlattenOrderIndependent(nodes: Store, o1: seq<NodeId>, o2: seq<NodeId>, rootIds: seq<NodeId>, x: Node)
    requires WellFormed(nodes) && IsEnumeration(nodes, o1) && IsEnumeration(nodes, o2)
    ensures x in Flatten(nodes, o1, rootIds) <==> x in Flatten(nodes, o2, rootIds)
  {
    FlattenExact(nodes, o1, rootIds, x);
    FlattenExact(nodes, o2, rootIds, x);
  }

  // ---------------------------------------------------------------------
  // In which order entries are emitted

  /** Row i has a parent, and that parent is an earlier row and expanded. */
  predicate ParentRowBefore(f: seq<Node>, i: int)
    requires 0 <= i < |f|
  {
    && f[i].parentId.Some?
    && exists j | 0 <= j < i :: f[j].id == f[i].parentId.value && f[j].isExpanded
  }

  lemma ParentRowBeforeShift(a: seq<Node>, b: seq<Node>, i: int)
    requires 0 <= i < |b| && ParentRowBefore(b, i)
    ensures ParentRowBefore(a + b, |a| + i)
  {
    var j :| 0 <= j < i && b[j].id == b[i].parentId.value && b[j].isExpanded;
    assert (a + b)[|a| + j] == b[j];
  }

  lemma ParentRowBeforeKeep(a: seq<Node>, b: seq<Node>, i: int)
    requires 0 <= i < |a| && ParentRowBefore(a, i)
    ensures ParentRowBefore(a + b, i)
  {
    var j :| 0 <= j < i && a[j].id == a[i].parentId.value && a[j].isExpanded;
    assert (a + b)[j] == a[j];
  }

  /** The rows of p start with p, and every later row's parent is an
      earlier, expanded row. */
  lemma {:induction false} VisitParentsFirst(nodes: Store, order: seq<NodeId>, p: NodeId)
    requires WellFormed(nodes) && p in nodes
    ensures Visit(nodes, order, p)[0] == nodes[p]
    ensures forall i | 0 < i < |Visit(nodes, order, p)| :: ParentRowBefore(Visit(nodes, order, p), i)
    decreases |nodes| - nodes[p].depth, 1
  {
    assert Linked(nodes, p);
    if nodes[p].isExpanded {
      var kids := Children(nodes, order, p);
      var d := nodes[p].depth + 1;
      ChildrenOneLevelDown(nodes, order, p);
      DepthBelowSize(nodes, p);
      forall i | 0 <= i < |kids|
        ensures kids[i] in nodes && nodes[kids[i]].parentId == Some(p) && nodes[kids[i]].depth == d
      {
        assert kids[i] in kids;
      }
      VisitAllParentsFirst(nodes, order, kids, p, d);
      var w: seq<Node> := VisitAll(nodes, order, kids, d);
      var f: seq<Node> := [nodes[p]] + w;
      assert Visit(nodes, order, p) == f;
      forall i | 0 < i < |f| ensures ParentRowBefore(f, i) {
        assert f[i] == w[i - 1];
        assert w[i - 1].parentId == Some(p) || ParentRowBefore(w, i - 1);
        if w[i - 1].parentId == Some(p) {
          assert f[0].id == p;
        } else {
          ParentRowBeforeShift([nodes[p]], w, i - 1);
        }
      }
    }
  }

  /** In the rows of p's children, every row is a child of p or has its
      parent as an earlier, expanded row. */
  lemma {:induction false} VisitAllParentsFirst(nodes: Store, order: seq<NodeId>, ids: seq<NodeId>, p: NodeId, d: nat)
    requires WellFormed(nodes) && p in nodes && d == nodes[p].depth + 1
    requires forall i | 0 <= i < |ids| ::
      ids[i] in nodes && nodes[ids[i]].parentId == Some(p) && nodes[ids[i]].depth == d
    ensures forall i | 0 <= i < |VisitAll(nodes, order, ids, d)| ::
      VisitAll(nodes, order, ids, d)[i].parentId == Some(p) || ParentRowBefore(VisitAll(nodes, order, ids, d), i)
    decreases |nodes| - nodes[p].depth, 0, |ids|
  {
    if ids != [] {
      var init := ids[..|ids| - 1];
      var last := ids[|ids| - 1];
      DepthBelowSize(nodes, p);
      VisitAllParentsFirst(nodes, order, init, p, d);
      VisitParentsFirst(nodes, order, last);
      var a: seq<Node> := VisitAll(nodes, order, init, d);
      var b: seq<Node> := Visit(nodes, order, last);
      assert VisitAll(nodes, order, ids, d) == a + b;
      forall i: int | 0 <= i < |a + b| ensures (a + b)[i].parentId == Some(p) || ParentRowBefore(a + b, i) {
        if i < |a| {
          assert (a + b)[i] == a[i];
          assert a[i].parentId == Some(p) || ParentRowBefore(a, i);
          if a[i].parentId != Some(p) {
            ParentRowBeforeKeep(a, b, i);
          }
        } else if i == |a| {
          assert (a + b)[i] == b[0];
        } else {
          assert ParentRowBefore(b, i - |a|);
          ParentRowBeforeShift(a, b, i - |a|);
        }
      }
    }
  }

  /** Every emitted row that is not a root comes after its parent's row,
      and that parent is expanded. */
  lemma {:induction false} FlattenParentsFirst(nodes: Store, order: seq<NodeId>, rootIds: seq<NodeId>)
    requires WellFormed(nodes)
    requires forall r | r in rootIds && r in nodes :: nodes[r].parentId == None
    ensures forall i | 0 <= i < |Flatten(nodes, order, rootIds)| ::
      Flatten(nodes, order, rootIds)[i].parentId == None || ParentRowBefore(Flatten(nodes, order, rootIds), i)
    decreases |rootIds|
  {
    if rootIds != [] {
      var init := rootIds[..|rootIds| - 1];
      var r := rootIds[|rootIds| - 1];
      FlattenParentsFirst(nodes, order, init);
      var a: seq<Node> := Flatten(nodes, order, init);
      if r in nodes {
        VisitParentsFirst(nodes, order, r);
        var b: seq<Node> := Visit(nodes, order, r);
        assert Flatten(nodes, order, rootIds) == a + b;
        forall i: int | 0 <= i < |a + b| ensures (a + b)[i].parentId == None || ParentRowBefore(a + b, i) {
          if i < |a| {
            assert (a + b)[i] == a[i];
            assert a[i].parentId == None || ParentRowBefore(a, i);
            if a[i].parentId != None {
              ParentRowBeforeKeep(a, b, i);
            }
          } else if i == |a| {
            assert (a + b)[i] == b[0];
          } else {
            assert ParentRowBefore(b, i - |a|);
            ParentRowBeforeShift(a, b, i - |a|);
          }
        }
      } else {
        assert Flatten(nodes, order, rootIds) == a;
      }
    }
  }

  /** The root rows of f, in order. */
  function RootRows(f: seq<Node>): seq<Node> {
    if f == [] then []
    else RootRows(f[..|f| - 1]) + if f[|f| - 1].parentId == None then [f[|f| - 1]] else []
  }

  /** The entries of the root ids that are in the store, in rootIds order. */
  function PresentRoots(nodes: Store, rootIds: seq<NodeId>): seq<Node> {
    if rootIds == [] then []
    else
      var r := rootIds[|rootIds| - 1];
      PresentRoots(nodes, rootIds[..|rootIds| - 1]) + if r in nodes then [nodes[r]] else []
  }

  lemma {:induction false} RootRowsConcat(a: seq<Node>, b: seq<Node>)
    ensures RootRows(a + b) == RootRows(a) + RootRows(b)
    decreases |b|
  {
    if b != [] {
      assert (a + b)[..|a + b| - 1] == a + b[..|b| - 1];
      RootRowsConcat(a, b[..|b| - 1]);
    } else {
      assert a + b == a;
    }
  }

  lemma {:induction false} RootRowsNone(f: seq<Node>)
    requires forall i | 0 <= i < |f| :: f[i].parentId != None
    ensures RootRows(f) == []
    decreases |f|
  {
    if f != [] {
      RootRowsNone(f[..|f| - 1]);
    }
  }

  /** The roots are emitted in rootIds order, ids missing from the store
      skipped, and no other root is emitted. */
  lemma {:induction false} FlattenRootOrder(nodes: Store, order: seq<NodeId>, rootIds: seq<NodeId>)
    requires WellFormed(nodes)
    requires forall r | r in rootIds && r in nodes :: nodes[r].parentId == None
    ensures RootRows(Flatten(nodes, order, rootIds)) == PresentRoots(nodes, rootIds)
    decreases |rootIds|
  {
    if rootIds != [] {
      var init := rootIds[..|rootIds| - 1];
      var r := rootIds[|rootIds| - 1];
      FlattenRootOrder(nodes, order, init);
      var a: seq<Node> := Flatten(nodes, order, init);
      if r in nodes {
        VisitParentsFirst(nodes, order, r);
        var b: seq<Node> := Visit(nodes, order, r);
        var rest := b[1..];
        assert b == [nodes[r]] + rest;
        forall i | 0 <= i < |rest| ensures rest[i].parentId != None {
          assert ParentRowBefore(b, i + 1);
        }
        RootRowsNone(rest);
        RootRowsConcat([nodes[r]], rest);
        assert RootRows([nodes[r]]) == [nodes[r]];
        RootRowsConcat(a, b);
      } else {
        assert Flatten(nodes, order, rootIds) == a + [];
        RootRowsConcat(a, []);
      }
    }
  }
}
