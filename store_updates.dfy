// The state updates of the tree-state hook, each as a step from the old
// store to the new one: building the store from the loaded roots, merging
// a loaded child list under its parent, and toggling a selection with its
// propagation down and up the tree. Each step is specified by a relation
// between the old and new store, which the lemmas show determines the new
// store and keeps the store's invariants.
module StoreUpdates {
  import opened TreeTypes
  import opened VisibleSet
  import opened Selection

  /** Every descriptor the loader returned has a non-empty id. */
  predicate IdsNonEmpty(children: seq<TreeNode>) {
    forall i | 0 <= i < |children| :: children[i].id != ""
  }

  // ---------------------------------------------------------------------
  // Loading the roots

  /** The store entry for a loaded root: depth 0, no parent, all flags
      clear. */
  function RootEntry(c: TreeNode): Node {
    Node(c.id, c.displayLabel, c.hasChildren, 0, None, false, false, false)
  }

  /** children[i] is the last descriptor with id k. */
  predicate IsLastOf(children: seq<TreeNode>, i: int, k: NodeId)
    requires 0 <= i < |children|
  {
    children[i].id == k && forall j | i < j < |children| :: children[j].id != k
  }

  /** Entry k of m is built from the last descriptor with id k. */
  predicate FromLast(children: seq<TreeNode>, m: Store, k: NodeId)
    requires k in m
  {
    exists i | 0 <= i < |children| :: IsLastOf(children, i, k) && m[k] == RootEntry(children[i])
  }

  /** m and ids are what loading the roots children produces: ids lists the
      descriptors' ids in order, and the store holds exactly those ids, each
      built from the last descriptor carrying it. */
  predicate IsRootLoad(children: seq<TreeNode>, m: Store, ids: seq<NodeId>) {
    && |ids| == |children|
    && (forall i | 0 <= i < |children| :: ids[i] == children[i].id && ids[i] in m)
    && (forall k {:trigger FromLast(children, m, k)} | k in m :: FromLast(children, m, k))
  }

  /** The loop that builds the new store and the root id list. */
  method BuildRoots(children: seq<TreeNode>) returns (nextNodes: Store, ids: seq<NodeId>)
    ensures IsRootLoad(children, nextNodes, ids)
  {
    nextNodes := map[];
    ids := [];
    for j := 0 to |children|
      invariant IsRootLoad(children[..j], nextNodes, ids)
    {
      var child := children[j];
      ghost var pre := children[..j];
      ghost var post := children[..j + 1];
      assert post == pre + [child];
      ghost var before := nextNodes;
      nextNodes := nextNodes[child.id := RootEntry(child)];
      ids := ids + [child.id];
      forall k | k in nextNodes ensures FromLast(post, nextNodes, k) {
        if k == child.id {
          assert IsLastOf(post, j, k);
        } else {
          assert FromLast(pre, before, k);
          var i :| 0 <= i < |pre| && IsLastOf(pre, i, k) && before[k] == RootEntry(pre[i]);
          assert IsLastOf(post, i, k);
        }
      }
    }
    assert children[..|children|] == children;
  }

  /** Loading the roots determines the new store and id list completely:
      nothing of the state before survives. */
  lemma {:induction false} RootLoadDeterministic(children: seq<TreeNode>, m1: Store, ids1: seq<NodeId>, m2: Store, ids2: seq<NodeId>)
    requires IsRootLoad(children, m1, ids1) && IsRootLoad(children, m2, ids2)
    ensures m1 == m2 && ids1 == ids2
  {
    forall k | k in m1 ensures k in m2 && m1[k] == m2[k] {
      assert FromLast(children, m1, k);
      var i :| 0 <= i < |children| && IsLastOf(children, i, k) && m1[k] == RootEntry(children[i]);
      assert children[i].id in m2;
      assert FromLast(children, m2, k);
      var i2 :| 0 <= i2 < |children| && IsLastOf(children, i2, k) && m2[k] == RootEntry(children[i2]);
      assert i == i2;
    }
    forall k | k in m2 ensures k in m1 {
      assert FromLast(children, m2, k);
      var i :| 0 <= i < |children| && IsLastOf(children, i, k) && m2[k] == RootEntry(children[i]);
      assert children[i].id in m1;
    }
  }

  /** After loading the roots every entry is a collapsed, unselected root
      listed in the root ids, and the store is well formed. */
  lemma {:induction false} RootLoadValid(children: seq<TreeNode>, m: Store, ids: seq<NodeId>)
    requires IdsNonEmpty(children) && IsRootLoad(children, m, ids)
    ensures WellFormed(m) && FlagsExclusive(m) && RootsListed(m, ids)
    ensures forall k | k in m ::
      && m[k].depth == 0 && m[k].parentId == None
      && !m[k].isExpanded && !m[k].isSelected && !m[k].isIndeterminate
  {
    forall k | k in m
      ensures Linked(m, k) && k in ids && m[k].parentId == None
      ensures !m[k].isExpanded && !m[k].isSelected && !m[k].isIndeterminate
    {
      assert FromLast(children, m, k);
      var i :| 0 <= i < |children| && IsLastOf(children, i, k) && m[k] == RootEntry(children[i]);
      assert ids[i] == k;
    }
  }

  /** Right after loading, the visible rows are the roots, in the loader's
      order. */
  lemma {:induction false} RootLoadShowsRoots(children: seq<TreeNode>, m: Store, ids: seq<NodeId>, order: seq<NodeId>)
    requires IdsNonEmpty(children) && IsRootLoad(children, m, ids)
    ensures WellFormed(m) && |Flatten(m, order, ids)| == |ids|
    ensures WellFormed(m) && forall i | 0 <= i < |ids| :: Flatten(m, order, ids)[i] == m[ids[i]]
  {
    RootLoadValid(children, m, ids);
    FlattenCollapsedRoots(m, order, ids);
  }

  // ---------------------------------------------------------------------
  // Merging loaded children

  /** The store entry for a loaded child of parent at depth d: one level
      below it, all flags clear. */
  function ChildEntry(c: TreeNode, parent: NodeId, d: nat): Node {
    Node(c.id, c.displayLabel, c.hasChildren, d, Some(parent), false, false, false)
  }

  /** children[i] is the first descriptor with id k. */
  predicate IsFirstOf(children: seq<TreeNode>, i: int, k: NodeId)
    requires 0 <= i < |children|
  {
    children[i].id == k && forall j | 0 <= j < i :: children[j].id != k
  }

  /** Entry k of updated is a child of parent at depth d, built from the
      first descriptor with id k. */
  predicate FromFirst(children: seq<TreeNode>, parent: NodeId, d: nat, updated: Store, k: NodeId)
    requires k in updated
  {
    exists i | 0 <= i < |children| :: IsFirstOf(children, i, k) && updated[k] == ChildEntry(children[i], parent, d)
  }

  /** updated is prev after merging children under id: id is expanded,
      every other old entry is untouched, and every id of the list that was
      not in the store is added, built from its first descriptor. */
  predicate IsMerge(prev: Store, id: NodeId, children: seq<TreeNode>, updated: Store)
    requires id in prev
  {
    && (forall k | k in prev :: k in updated)
    && updated[id] == prev[id].(isExpanded := true)
    && (forall k | k in prev && k != id :: updated[k] == prev[k])
    && (forall i | 0 <= i < |children| :: children[i].id in updated)
    && (forall k {:trigger FromFirst(children, id, prev[id].depth + 1, updated, k)} | k in updated && k !in prev ::
         FromFirst(children, id, prev[id].depth + 1, updated, k))
  }

  /** The merge loop: expand the parent, then add each child whose id is
      not yet in the store. */
  method MergeChildren(prev: Store, id: NodeId, children: seq<TreeNode>) returns (updated: Store)
    requires id in prev
    ensures IsMerge(prev, id, children, updated)
  {
    updated := prev;
    updated := updated[id := updated[id].(isExpanded := true)];
    for j := 0 to |children|
      invariant IsMerge(prev, id, children[..j], updated)
    {
      var child := children[j];
      ghost var pre := children[..j];
      ghost var post := children[..j + 1];
      assert post == pre + [child];
      if child.id in updated {
        forall k | k in updated && k !in prev ensures FromFirst(post, id, prev[id].depth + 1, updated, k) {
          assert FromFirst(pre, id, prev[id].depth + 1, updated, k);
          var i :| 0 <= i < |pre| && IsFirstOf(pre, i, k) && updated[k] == ChildEntry(pre[i], id, prev[id].depth + 1);
          assert IsFirstOf(post, i, k);
        }
        continue;
      }
      ghost var before := updated;
      updated := updated[child.id := ChildEntry(child, id, updated[id].depth + 1)];
      forall k | k in updated && k !in prev ensures FromFirst(post, id, prev[id].depth + 1, updated, k) {
        if k == child.id {
          assert IsFirstOf(post, j, k);
        } else {
          assert FromFirst(pre, id, prev[id].depth + 1, before, k);
          var i :| 0 <= i < |pre| && IsFirstOf(pre, i, k) && before[k] == ChildEntry(pre[i], id, prev[id].depth + 1);
          assert IsFirstOf(post, i, k);
        }
      }
    }
    assert children[..|children|] == children;
  }

  /** The merge is keyed by id: it determines the new store completely. */
  lemma {:induction false} MergeDeterministic(prev: Store, id: NodeId, children: seq<TreeNode>, u1: Store, u2: Store)
    requires id in prev && IsMerge(prev, id, children, u1) && IsMerge(prev, id, children, u2)
    ensures u1 == u2
  {
    forall k | k in u1 ensures k in u2 && u1[k] == u2[k] {
      if k !in prev {
        assert FromFirst(children, id, prev[id].depth + 1, u1, k);
        var i :| 0 <= i < |children| && IsFirstOf(children, i, k) && u1[k] == ChildEntry(children[i], id, prev[id].depth + 1);
        assert children[i].id in u2;
        assert FromFirst(children, id, prev[id].depth + 1, u2, k);
        var i2 :| 0 <= i2 < |children| && IsFirstOf(children, i2, k) && u2[k] == ChildEntry(children[i2], id, prev[id].depth + 1);
        assert i == i2;
      }
    }
    forall k | k in u2 ensures k in u1 {
      if k !in prev {
        assert FromFirst(children, id, prev[id].depth + 1, u2, k);
        var i :| 0 <= i < |children| && IsFirstOf(children, i, k) && u2[k] == ChildEntry(children[i], id, prev[id].depth + 1);
        assert children[i].id in u1;
      }
    }
  }

  /** Merging the same child list a second time changes nothing. */
  lemma {:induction false} MergeIdempotent(prev: Store, id: NodeId, children: seq<TreeNode>, once: Store, twice: Store)
    requires id in prev && IsMerge(prev, id, children, once) && IsMerge(once, id, children, twice)
    ensures twice == once
  {
    assert IsMerge(once, id, children, once);
    MergeDeterministic(once, id, children, once, twice);
  }

  /** The merge keeps the store well formed, keeps the two flags exclusive
      and keeps the root list exact. */
  lemma {:induction false} MergeValid(prev: Store, id: NodeId, children: seq<TreeNode>, updated: Store, rootIds: seq<NodeId>)
    requires WellFormed(prev) && FlagsExclusive(prev) && RootsListed(prev, rootIds)
    requires id in prev && IdsNonEmpty(children) && IsMerge(prev, id, children, updated)
    ensures WellFormed(updated) && FlagsExclusive(updated) && RootsListed(updated, rootIds)
  {
    forall k | k in updated
      ensures Linked(updated, k) && !(updated[k].isSelected && updated[k].isIndeterminate)
      ensures updated[k].parentId == None ==> k in rootIds
    {
      if k in prev {
        assert Linked(prev, k);
      } else {
        assert FromFirst(children, id, prev[id].depth + 1, updated, k);
        var i :| 0 <= i < |children| && IsFirstOf(children, i, k) && updated[k] == ChildEntry(children[i], id, prev[id].depth + 1);
        assert Linked(prev, id);
      }
    }
  }

  // ---------------------------------------------------------------------
  // Toggling a selection

  /** e with its selection set to s and its indeterminate flag cleared. */
  function Marked(e: Node, s: bool): (n: Node)
    ensures SameEntryShape(e, n) && n.isSelected == s && !n.isIndeterminate
  {
    e.(isSelected := s, isIndeterminate := false)
  }

  /** next is prev after toggling id: an unknown id changes nothing;
      otherwise id and every proper descendant take id's flipped selection
      and lose the indeterminate flag, every ancestor's flags follow its
      children, and every other entry is untouched. */
  predicate IsSelectionToggle(prev: Store, id: NodeId, next: Store)
    requires WellFormed(prev)
  {
    if id !in prev then next == prev
    else
      var s := !prev[id].isSelected;
      var chain := Ancestors(prev, id);
      && SameShape(prev, next)
      && next[id] == Marked(prev[id], s)
      && (forall k | k in DescendantIds(prev, id) :: next[k] == Marked(prev[k], s))
      && (forall k | k in prev && k != id && k !in DescendantIds(prev, id) && k !in chain :: next[k] == prev[k])
      && (forall i | 0 <= i < |chain| :: TriStateConsistent(next, chain[i]))
  }

  /** Stores of the same shape have the same descendant sets. */
  lemma {:induction false} DescendantIdsOfSameShape(m1: Store, m2: Store, id: NodeId)
    requires WellFormed(m1) && SameShape(m1, m2)
    ensures WellFormed(m2) && DescendantIds(m2, id) == DescendantIds(m1, id)
  {
    SameShapeWellFormed(m1, m2);
    forall k | k in m1 ensures Ancestors(m2, k) == Ancestors(m1, k) {
      AncestorsOfSameShape(m1, m2, k);
    }
  }

  /** A descendant of id is deeper than id, an ancestor shallower, so the
      two sets are apart, and id is in neither. */
  lemma {:induction false} DescendantsOffChain(nodes: Store, id: NodeId)
    requires WellFormed(nodes) && id in nodes
    ensures forall k | k in DescendantIds(nodes, id) :: nodes[k].depth > nodes[id].depth
    ensures forall k | k in DescendantIds(nodes, id) :: k !in Ancestors(nodes, id)
    ensures id !in DescendantIds(nodes, id) && id !in Ancestors(nodes, id)
  {
    NotOwnAncestor(nodes, id);
    var chain := Ancestors(nodes, id);
    forall k | k in DescendantIds(nodes, id)
      ensures nodes[k].depth > nodes[id].depth && k !in chain
    {
      var up := Ancestors(nodes, k);
      var i :| 0 <= i < |up| && up[i] == id;
      forall j | 0 <= j < |chain| ensures chain[j] != k {
      }
    }
  }

  /** The ids of a list of rows. */
  function RowIds(rows: seq<Node>): set<NodeId> {
    set i | 0 <= i < |rows| :: rows[i].id
  }

  /** The rows the downward walk yields are entries of the store, and their
      ids are exactly the descendant ids. */
  lemma {:induction false} DescendantRowIds(s0: Store, order: seq<NodeId>, id: NodeId, rows: seq<Node>)
    requires WellFormed(s0) && IsEnumeration(s0, order) && id in s0
    requires rows == DescendantRows(s0, order, id)
    ensures forall i | 0 <= i < |rows| :: rows[i].id in s0 && rows[i] == s0[rows[i].id]
    ensures RowIds(rows) == DescendantIds(s0, id)
  {
    forall i | 0 <= i < |rows| ensures rows[i].id in DescendantIds(s0, id) && rows[i] == s0[rows[i].id] {
      DescendantRowsExact(s0, order, id, rows[i]);
    }
    forall k | k in DescendantIds(s0, id) ensures k in RowIds(rows) {
      assert Linked(s0, k);
      DescendantRowsExact(s0, order, id, s0[k]);
      var i :| 0 <= i < |rows| && rows[i] == s0[k];
    }
  }

  /** The downward forEach: each row's entry gets selection s and loses
      the indeterminate flag; entries without a row are untouched. */
  method MarkRows(s0: Store, rows: seq<Node>, s: bool) returns (m: Store)
    requires forall i | 0 <= i < |rows| :: rows[i].id in s0 && rows[i] == s0[rows[i].id]
    ensures m.Keys == s0.Keys
    ensures forall k | k in s0 :: m[k] == if k in RowIds(rows) then Marked(s0[k], s) else s0[k]
  {
    m := s0;
    for j := 0 to |rows|
      invariant m.Keys == s0.Keys
      invariant forall k | k in s0 :: m[k] == if k in RowIds(rows[..j]) then Marked(s0[k], s) else s0[k]
    {
      var child := rows[j];
      assert RowIds(rows[..j + 1]) == RowIds(rows[..j]) + {child.id} by {
        assert forall i | 0 <= i < j :: rows[..j + 1][i] == rows[..j][i];
        assert rows[..j + 1][j] == child;
      }
      m := m[child.id := child.(isSelected := s, isIndeterminate := false)];
    }
    assert rows[..|rows|] == rows;
  }

  /** m is prev after the downward pass of toggling id to s: id and its
      proper descendants marked, nothing else changed. */
  predicate DownPass(prev: Store, id: NodeId, s: bool, m: Store)
    requires WellFormed(prev)
  {
    && m.Keys == prev.Keys
    && forall k | k in prev ::
         m[k] == if k == id || k in DescendantIds(prev, id) then Marked(prev[k], s) else prev[k]
  }

  /** Flipping id alone keeps the shape, and so the descendant sets. */
  lemma {:induction false} FlipKeepsShape(prev: Store, order: seq<NodeId>, id: NodeId, s0: Store)
    requires WellFormed(prev) && IsEnumeration(prev, order) && id in prev
    requires s0 == prev[id := Marked(prev[id], !prev[id].isSelected)]
    ensures WellFormed(s0) && IsEnumeration(s0, order)
    ensures DescendantIds(s0, id) == DescendantIds(prev, id)
  {
    DescendantIdsOfSameShape(prev, s0, id);
  }

  /** The loop's result is the downward pass. */
  lemma {:induction false} DownPassFromLoop(prev: Store, id: NodeId, s0: Store, m: Store, done: set<NodeId>)
    requires WellFormed(prev) && id in prev
    requires s0 == prev[id := Marked(prev[id], !prev[id].isSelected)]
    requires done == DescendantIds(prev, id)
    requires m.Keys == s0.Keys
    requires forall k | k in s0 :: m[k] == if k in done then Marked(s0[k], !prev[id].isSelected) else s0[k]
    ensures DownPass(prev, id, !prev[id].isSelected, m)
  {
    DescendantsOffChain(prev, id);
  }

  /** After the downward pass the shape, and so the ancestor chain of id,
      is unchanged. */
  lemma {:induction false} DownPassShape(prev: Store, id: NodeId, s: bool, m: Store)
    requires WellFormed(prev) && id in prev && DownPass(prev, id, s, m)
    ensures SameShape(prev, m) && WellFormed(m)
    ensures Ancestors(m, id) == Ancestors(prev, id)
  {
    AncestorsOfSameShape(prev, m, id);
  }

  /** The toggle as the hook runs it: flip id, push the new state down
      onto every descendant row in the walk's order, then recompute the
      ancestors bottom-up. */
  method SelectionToggled(prev: Store, order: seq<NodeId>, id: NodeId) returns (next: Store)
    requires WellFormed(prev) && IsEnumeration(prev, order)
    ensures IsSelectionToggle(prev, id, next)
  {
    if id !in prev {
      return prev;
    }
    var node := prev[id];
    var shouldSelect := !node.isSelected;
    next := prev[id := node.(isSelected := shouldSelect, isIndeterminate := false)];
    ghost var s0 := next;
    FlipKeepsShape(prev, order, id, s0);
    var descendants := GetDescendants(next, order, id);
    DescendantRowIds(s0, order, id, descendants);
    next := MarkRows(next, descendants, shouldSelect);
    DownPassFromLoop(prev, id, s0, next, RowIds(descendants));
    ghost var m1 := next;
    DownPassShape(prev, id, shouldSelect, m1);
    next := UpdateParentSelection(next, id);
    ToggleAssembled(prev, id, m1, next);
  }

  /** The downward pass followed by the upward pass meets the toggle
      relation. */
  lemma {:induction false} ToggleAssembled(prev: Store, id: NodeId, m1: Store, r: Store)
    requires WellFormed(prev) && id in prev && DownPass(prev, id, !prev[id].isSelected, m1)
    requires SameShape(m1, r)
    requires forall k | k in prev && k !in Ancestors(prev, id) :: r[k] == m1[k]
    requires forall i | 0 <= i < |Ancestors(prev, id)| :: TriStateConsistent(r, Ancestors(prev, id)[i])
    ensures IsSelectionToggle(prev, id, r)
  {
    DownPassShape(prev, id, !prev[id].isSelected, m1);
    DescendantsOffChain(prev, id);
  }

  /** Every child of the i-th ancestor of id is id itself (only for the
      parent), the ancestor below it on the chain, or an entry that is
      neither an ancestor nor a descendant of id. */
  lemma {:induction false} ChildOfChainEntry(nodes: Store, id: NodeId, i: nat, c: NodeId)
    requires WellFormed(nodes) && id in nodes && i < |Ancestors(nodes, id)|
    requires IsChild(nodes, c, Ancestors(nodes, id)[i])
    ensures c == id ==> i == 0
    ensures c in Ancestors(nodes, id) ==> 0 < i && c == Ancestors(nodes, id)[i - 1]
    ensures c !in DescendantIds(nodes, id)
  {
    var chain := Ancestors(nodes, id);
    assert Linked(nodes, c);
    DescendantsOffChain(nodes, id);
    if c in chain {
      var m :| 0 <= m < |chain| && chain[m] == c;
    }
  }

  /** Stores in which a has the same children, with the same entries, give
      a the same child summary. */
  lemma SameChildFlags(n1: Store, n2: Store, a: NodeId)
    requires forall c | c in n1 && IsChild(n1, c, a) :: IsChild(n2, c, a) && n1[c] == n2[c]
    requires forall c | c in n2 && IsChild(n2, c, a) :: IsChild(n1, c, a)
    ensures AllChildrenSelected(n1, a) == AllChildrenSelected(n2, a)
    ensures NoChildMarked(n1, a) == NoChildMarked(n2, a)
  {
  }

  /** The only entry of chain that is a child of its i-th entry is the one
      before it: true of an ancestor chain. */
  predicate ChainShaped(prev: Store, chain: seq<NodeId>) {
    forall i, c {:trigger IsChild(prev, c, chain[i])} | 0 <= i < |chain| && c in chain && IsChild(prev, c, chain[i]) ::
      0 < i && c == chain[i - 1]
  }

  /** n1 and n2 have prev's shape, agree off the chain, and are both
      tri-state consistent along it. */
  predicate AgreeOffChain(prev: Store, chain: seq<NodeId>, n1: Store, n2: Store) {
    && SameShape(prev, n1) && SameShape(prev, n2)
    && (forall c | c in prev && c !in chain :: n1[c] == n2[c])
    && (forall j | 0 <= j < |chain| :: chain[j] in prev)
    && (forall j {:trigger TriStateConsistent(n1, chain[j])} | 0 <= j < |chain| ::
         chain[j] in n1 && TriStateConsistent(n1, chain[j]))
    && (forall j {:trigger TriStateConsistent(n2, chain[j])} | 0 <= j < |chain| ::
         chain[j] in n2 && TriStateConsistent(n2, chain[j]))
  }

  lemma AncestorsChainShaped(prev: Store, id: NodeId)
    requires WellFormed(prev) && id in prev
    ensures ChainShaped(prev, Ancestors(prev, id))
  {
    var chain := Ancestors(prev, id);
    forall i, c | 0 <= i < |chain| && c in chain && IsChild(prev, c, chain[i]) ensures 0 < i && c == chain[i - 1] {
      ChildOfChainEntry(prev, id, i, c);
    }
  }

  /** One step up the chain: such stores that agree on its (i-1)-th entry
      agree on the i-th. */
  lemma ChainStep(prev: Store, chain: seq<NodeId>, n1: Store, n2: Store, i: nat)
    requires i < |chain| && ChainShaped(prev, chain) && AgreeOffChain(prev, chain, n1, n2)
    requires 0 < i ==> n1[chain[i - 1]] == n2[chain[i - 1]]
    ensures chain[i] in n1 && n1[chain[i]] == n2[chain[i]]
  {
    var a := chain[i];
    forall c | c in n1 && IsChild(n1, c, a) ensures IsChild(n2, c, a) && n1[c] == n2[c] {
      assert IsChild(prev, c, chain[i]);
    }
    SameChildFlags(n1, n2, a);
    assert TriStateConsistent(n1, a) && TriStateConsistent(n2, a);
    SameFlagsSameEntry(prev[a], n1[a], n2[a]);
  }

  lemma SameFlagsSameEntry(e: Node, x: Node, y: Node)
    requires SameEntryShape(e, x) && SameEntryShape(e, y)
    requires x.isSelected == y.isSelected && x.isIndeterminate == y.isIndeterminate
    ensures x == y
  {
  }

  /** ... and so, going up the chain one step at a time, they agree
      everywhere. */
  lemma ChainDetermined(prev: Store, chain: seq<NodeId>, n1: Store, n2: Store)
    requires ChainShaped(prev, chain) && AgreeOffChain(prev, chain, n1, n2)
    ensures n1 == n2
  {
    var i := 0;
    while i < |chain|
      invariant 0 <= i <= |chain|
      invariant forall j | 0 <= j < i :: n1[chain[j]] == n2[chain[j]]
    {
      ChainStep(prev, chain, n1, n2, i);
      i := i + 1;
    }
    forall k | k in n1 ensures n1[k] == n2[k] {
      if k in chain {
        var j :| 0 <= j < |chain| && chain[j] == k;
      }
    }
  }

  /** The toggle relation determines the new store: the hook's result does
      not depend on the order in which the walk meets the descendants. */
  lemma {:induction false} SelectionToggleDeterministic(prev: Store, id: NodeId, n1: Store, n2: Store)
    requires WellFormed(prev) && IsSelectionToggle(prev, id, n1) && IsSelectionToggle(prev, id, n2)
    ensures n1 == n2
  {
    if id in prev {
      AncestorsChainShaped(prev, id);
      ChainDetermined(prev, Ancestors(prev, id), n1, n2);
    }
  }

  /** The toggle keeps the store well formed, the two flags exclusive and
      the root list exact. */
  lemma {:induction false} SelectionToggleValid(prev: Store, id: NodeId, next: Store, rootIds: seq<NodeId>)
    requires WellFormed(prev) && FlagsExclusive(prev) && RootsListed(prev, rootIds)
    requires IsSelectionToggle(prev, id, next)
    ensures WellFormed(next) && FlagsExclusive(next) && RootsListed(next, rootIds)
  {
    if id in prev {
      SameShapeWellFormed(prev, next);
      var chain := Ancestors(prev, id);
      forall k | k in next ensures !(next[k].isSelected && next[k].isIndeterminate) {
        if k in chain {
          var i :| 0 <= i < |chain| && chain[i] == k;
          assert TriStateConsistent(next, chain[i]);
        }
      }
    }
  }
}
