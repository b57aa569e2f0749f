// The tree-state hook as an object: the store, the root id list and the
// set of ids whose children are being fetched, with the operations the
// component calls. The loader is not called here: the descriptors it
// returns are the operations' parameters, and the asynchronous expand is
// split at its await into BeginExpand and CompleteExpand.
module TreeState {
  import opened TreeTypes
  import opened VisibleSet
  import opened StoreUpdates

  /** What the part of an expand before the await did. */
  datatype ExpandStep = Ignored | Collapsed | LoadStarted

  /** The host's enumeration of the store's values: every key once, in an
      order this model leaves open. */
  method EnumerateKeys(nodes: Store) returns (order: seq<NodeId>)
    ensures IsEnumeration(nodes, order)
  {
    var rest := nodes.Keys;
    order := [];
    while rest != {}
      invariant rest <= nodes.Keys
      invariant forall i | 0 <= i < |order| :: order[i] in nodes && order[i] !in rest
      invariant forall k | k in nodes :: k in rest || k in order
      invariant forall i, j | 0 <= i < j < |order| :: order[i] != order[j]
      decreases |rest|
    {
      var k :| k in rest;
      order := order + [k];
      rest := rest - {k};
    }
  }

  class TreeState {
    var nodes: Store
    var rootIds: seq<NodeId>
    var loadingIds: set<NodeId>

    /** Every operation keeps the store well formed (parents present, depth
        one below the parent), the two selection flags exclusive, and the
        root list exact. */
    predicate Valid()
      reads this
    {
      WellFormed(nodes) && FlagsExclusive(nodes) && RootsListed(nodes, rootIds)
    }

    /** The hook's initial state: nothing loaded, nothing loading. */
    constructor()
      ensures Valid()
      ensures nodes == map[] && rootIds == [] && loadingIds == {}
    {
      nodes := map[];
      rootIds := [];
      loadingIds := {};
    }

    /** Replaces the store and the root list by the loaded roots; the
        loading set is left alone. */
    method LoadRoot(children: seq<TreeNode>)
      requires IdsNonEmpty(children)
      modifies this
      ensures IsRootLoad(children, nodes, rootIds)
      ensures loadingIds == old(loadingIds)
      ensures Valid()
    {
      var nextNodes, ids := BuildRoots(children);
      nodes := nextNodes;
      rootIds := ids;
      RootLoadValid(children, nodes, rootIds);
    }

    /** The expand up to the loader call: an unknown or childless id is
        ignored, an expanded one is collapsed, one already loading is
        ignored, and otherwise the id joins the loading set. */
    method BeginExpand(id: NodeId) returns (step: ExpandStep)
      requires Valid()
      modifies this
      ensures Valid() && rootIds == old(rootIds)
      ensures id !in old(nodes) || !old(nodes)[id].hasChildren ==>
        step == Ignored && nodes == old(nodes) && loadingIds == old(loadingIds)
      ensures id in old(nodes) && old(nodes)[id].hasChildren && old(nodes)[id].isExpanded ==>
        && step == Collapsed
        && nodes == old(nodes)[id := old(nodes)[id].(isExpanded := false)]
        && loadingIds == old(loadingIds)
      ensures id in old(nodes) && old(nodes)[id].hasChildren && !old(nodes)[id].isExpanded ==>
        if id in old(loadingIds)
        then step == Ignored && nodes == old(nodes) && loadingIds == old(loadingIds)
        else step == LoadStarted && nodes == old(nodes) && loadingIds == old(loadingIds) + {id}
    {
      if id !in nodes || !nodes[id].hasChildren {
        return Ignored;
      }
      var node := nodes[id];
      if node.isExpanded {
        nodes := nodes[id := nodes[id].(isExpanded := false)];
        CollapseValid(old(nodes), id, nodes, rootIds);
        return Collapsed;
      }
      if id in loadingIds {
        return Ignored;
      }
      loadingIds := loadingIds + {id};
      return LoadStarted;
    }

    /** The expand after the loader returned children for id: the children
        are merged under id, and id leaves the loading set. */
    method CompleteExpand(id: NodeId, children: seq<TreeNode>)
      requires Valid() && id in nodes && IdsNonEmpty(children)
      modifies this
      ensures IsMerge(old(nodes), id, children, nodes)
      ensures rootIds == old(rootIds) && loadingIds == old(loadingIds) - {id}
      ensures Valid()
    {
      var updated := MergeChildren(nodes, id, children);
      MergeValid(nodes, id, children, updated, rootIds);
      nodes := updated;
      loadingIds := loadingIds - {id};
    }

    /** A whole expand with nothing interleaved at the await: when it loads,
        the children are merged and the loading set ends as it started. */
    method ToggleExpand(id: NodeId, children: seq<TreeNode>) returns (step: ExpandStep)
      requires Valid() && IdsNonEmpty(children)
      modifies this
      ensures Valid() && rootIds == old(rootIds) && loadingIds == old(loadingIds)
      ensures id !in old(nodes) || !old(nodes)[id].hasChildren ==>
        step == Ignored && nodes == old(nodes)
      ensures id in old(nodes) && old(nodes)[id].hasChildren && old(nodes)[id].isExpanded ==>
        step == Collapsed && nodes == old(nodes)[id := old(nodes)[id].(isExpanded := false)]
      ensures id in old(nodes) && old(nodes)[id].hasChildren && !old(nodes)[id].isExpanded ==>
        if id in old(loadingIds)
        then step == Ignored && nodes == old(nodes)
        else step == LoadStarted && IsMerge(old(nodes), id, children, nodes)
    {
      step := BeginExpand(id);
      if step == LoadStarted {
        CompleteExpand(id, children);
      }
    }

    /** Toggles the selection of id with its propagation down and up. */
    method ToggleSelect(id: NodeId)
      requires Valid()
      modifies this
      ensures IsSelectionToggle(old(nodes), id, nodes)
      ensures rootIds == old(rootIds) && loadingIds == old(loadingIds)
      ensures Valid()
    {
      var order := EnumerateKeys(nodes);
      var next := SelectionToggled(nodes, order, id);
      SelectionToggleValid(nodes, id, next, rootIds);
      nodes := next;
    }
  }

  /** Collapsing only clears one expanded flag: the store stays well
      formed, the flags exclusive and the root list exact. */
  lemma CollapseValid(prev: Store, id: NodeId, next: Store, rootIds: seq<NodeId>)
    requires WellFormed(prev) && FlagsExclusive(prev) && RootsListed(prev, rootIds) && id in prev
    requires next == prev[id := prev[id].(isExpanded := false)]
    ensures WellFormed(next) && FlagsExclusive(next) && RootsListed(next, rootIds)
  {
    forall k | k in next ensures Linked(next, k) {
      assert Linked(prev, k);
    }
  }
}
