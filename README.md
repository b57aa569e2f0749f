# Hierarchical combobox tree state, in Dafny

This project models the engine behind the hierarchical combobox:

- a flat store of tree nodes keyed by id, with children loaded lazily under an expanded parent;
- the pre-order list of visible rows that the list renders;
- the window of rows that the virtualised list materialises;
- tri-state selection: selecting a node selects or clears its whole loaded subtree, and each ancestor then becomes selected, clear or indeterminate from its direct children;
- the hook that owns the store, the root id list and the set of ids whose children are being loaded.

Modules, following the source files:

- `TreeTypes` (`tree_types.dfy`): the loader's descriptor `TreeNode` and the store entry `Node`. The store is `map<NodeId, Node>`. Well-formedness means every entry is keyed by its own non-empty id and sits one level below a parent that is present. This module also holds the ancestor chain, which well-formedness makes finite, and the descendant set.
- `Windowing` (`windowing.dfy`): `getVirtualRange`.
- `VisibleSet` (`visible_set.dfy`): `flattenVisibleNodes`. This is a recursive method, as in the source. The reference definition is `Flatten`, and the lemmas characterise the rows it returns.
- `Selection` (`selection.dfy`): `getDescendants` and `updateParentSelection`. Each is a method proved against a specification, with the tri-state rule `TriStateConsistent`.
- `StoreUpdates` (`store_updates.dfy`): the three store updates the hook performs, which are the root load, the child merge and the selection toggle. Each is a method with a loop, and each is proved against a relation (`IsRootLoad`, `IsMerge`, `IsSelectionToggle`). Lemmas prove that the relation determines the new store and that it keeps the store valid.
- `TreeState` (`tree_state.dfy`): `useTreeState` as a class whose fields `nodes`, `rootIds` and `loadingIds` are updated by `LoadRoot`, `ToggleExpand` and `ToggleSelect`. The asynchronous expand is split at its `await`:
  - `BeginExpand` handles the guard, the collapse and the loading mark;
  - `CompleteExpand` merges the children and clears the loading mark.
- `MockLoader` (`mock_loader.dfy`): the demo loader's table, with the walk-through on it as lemmas:
  - load the roots;
  - expand Frontend;
  - select React, then Vue;
  - select a parent before expanding it.

Choices a script engine leaves open become parameters:

- The enumeration order of `Object.values` is a sequence `order` that lists every key exactly once (`IsEnumeration`). The lemmas hold for any such order, and `TreeState.EnumerateKeys` picks one.
- The loader's answer is the `children` parameter of the operations that use it.

## Model

| member | source | states |
|---|---|---|
| Windowing.FloorDiv | src/components/HierarchicalCombobox/utils.ts:14 | the quotient is the largest integer q with q * rowHeight <= scrollTop |
| Windowing.CeilDiv | src/components/HierarchicalCombobox/utils.ts:15 | the quotient is the smallest integer q with containerHeight <= q * rowHeight |
| Windowing.GetVirtualRange | src/components/HierarchicalCombobox/utils.ts:8-21 | the start is never negative; the end never passes the last row; an empty list gives an empty range; the range spans at most the rows the container shows plus two rows of overscan on each side; with non-negative inputs the end is at least -1 |
| Windowing.OnScreenRowsRendered | src/components/HierarchicalCombobox/utils.ts:14-19 | every existing row that overlaps the viewport lies inside the range, so nothing visible goes unrendered |
| Windowing.ComponentWindowExample | src/components/HierarchicalCombobox/HierarchicalCombobox.tsx:9-10 | a 100px scroll in a 240px container with 36px rows over 10 rows renders rows 0 to 9 |
| TreeTypes.Children | src/components/HierarchicalCombobox/utils.ts:36-37 | the filtered ids are exactly the ids of the enumeration whose entry has parent p |
| TreeTypes.ChildrenOneLevelDown | src/components/HierarchicalCombobox/utils.ts:36-38 | in a well-formed store every child the filter finds is present, and it is one level below a present parent |
| TreeTypes.Ancestors | src/components/HierarchicalCombobox/utils.ts:69-90 | the chain the parent walk visits has as many entries as the start's depth, each present and one level higher than the one before |
| TreeTypes.FirstAncestor | src/components/HierarchicalCombobox/utils.ts:69 | the walk starts at the entry's parent, or visits nothing for a root |
| TreeTypes.ChainParent | src/components/HierarchicalCombobox/utils.ts:89 | each step of the walk moves to the current entry's parent, and the walk ends at a root |
| TreeTypes.DepthBelowSize | src/components/HierarchicalCombobox/utils.ts:71 | depth is below the number of entries, so every walk up or down a well-formed store ends |
| TreeTypes.NotOwnAncestor | src/components/HierarchicalCombobox/utils.ts:71-90 | an entry never appears on its own ancestor chain |
| TreeTypes.ParentOnChain | src/components/HierarchicalCombobox/utils.ts:89 | the parent of any chain entry is on the chain too |
| TreeTypes.AncestorViaChild | src/components/HierarchicalCombobox/utils.ts:52-59 | p is an ancestor of k exactly when some child of p is k or an ancestor of k, in both directions |
| VisibleSet.FlattenVisibleNodes | src/components/HierarchicalCombobox/utils.ts:23-45 | the rows pushed equal the reference walk `Flatten` |
| VisibleSet.PushVisible | src/components/HierarchicalCombobox/utils.ts:29-40 | one dfs call appends the entry and, when it is expanded, its children's rows; an id missing from the store appends nothing |
| VisibleSet.PushEach | src/components/HierarchicalCombobox/utils.ts:36-38 | the forEach over the children appends each child's rows in enumeration order |
| VisibleSet.VisitAllMembers | src/components/HierarchicalCombobox/utils.ts:38 | a row comes from the children's walk exactly when it comes from some child's walk |
| VisibleSet.VisitSound | src/components/HierarchicalCombobox/utils.ts:29-40 | every row of the walk from p is a store entry that is p itself, or reached from p through expanded parents |
| VisibleSet.VisitComplete | src/components/HierarchicalCombobox/utils.ts:29-40 | every entry reached from p through expanded parents is a row of the walk from p |
| VisibleSet.VisitExact | src/components/HierarchicalCombobox/utils.ts:29-40 | both directions: a row of the walk from p is exactly an entry that is p or reached from p through expanded parents |
| VisibleSet.FlattenExact | src/components/HierarchicalCombobox/utils.ts:42 | a row is shown exactly when it is an entry reached through expanded parents from some root id present in the store |
| VisibleSet.ShownUnderSomeRoot | src/components/HierarchicalCombobox/utils.ts:35 | every ancestor of k is expanded exactly when k is reached through expanded parents from some root |
| VisibleSet.FlattenShowsExpandedPaths | src/components/HierarchicalCombobox/utils.ts:23-45 | when the root list names exactly the roots, an entry is shown if and only if all of its ancestors are expanded |
| VisibleSet.CollapsedChildHidden | src/components/HierarchicalCombobox/utils.ts:35 | no child of a collapsed parent is shown |
| VisibleSet.FlattenCollapsedRoots | src/components/HierarchicalCombobox/utils.ts:42 | when every root is collapsed the rows are exactly the roots, in root-list order |
| VisibleSet.FlattenOrderIndependent | src/components/HierarchicalCombobox/utils.ts:36 | which rows are shown does not depend on the order of the key enumeration |
| VisibleSet.VisitParentsFirst | src/components/HierarchicalCombobox/utils.ts:33-38 | the walk from p starts with p, and every later row has its parent somewhere before it |
| VisibleSet.VisitAllParentsFirst | src/components/HierarchicalCombobox/utils.ts:38 | in the children's rows, each row is a child of p or has its parent before it |
| VisibleSet.FlattenParentsFirst | src/components/HierarchicalCombobox/utils.ts:23-45 | every shown row is a root or is preceded by its parent (pre-order) |
| VisibleSet.FlattenRootOrder | src/components/HierarchicalCombobox/utils.ts:42 | the root rows appear in root-list order; ids missing from the store are skipped |
| VisibleSet.RootRowsConcat | src/components/HierarchicalCombobox/utils.ts:42 | picking root rows distributes over concatenation of row lists |
| Selection.NoChildrenOutside | src/components/HierarchicalCombobox/utils.ts:52-54 | an id missing from a well-formed store has no children, so getDescendants returns nothing for it |
| Selection.GetDescendants | src/components/HierarchicalCombobox/utils.ts:46-63 | the collected rows equal the reference `DescendantRows` |
| Selection.CollectBelow | src/components/HierarchicalCombobox/utils.ts:52-59 | one dfs call appends, for each child in turn, the child and then its own descendants |
| Selection.BelowAllMembers | src/components/HierarchicalCombobox/utils.ts:55-58 | a row comes from the children's loop exactly when it is a child or lies below one |
| Selection.BelowSound | src/components/HierarchicalCombobox/utils.ts:52-59 | every collected row is a store entry with p on its ancestor chain |
| Selection.BelowComplete | src/components/HierarchicalCombobox/utils.ts:52-59 | every entry with p on its ancestor chain is collected |
| Selection.DescendantRowsExact | src/components/HierarchicalCombobox/utils.ts:46-63 | both directions: the rows are exactly the entries whose ancestor chain passes through id, and id itself is never among them |
| Selection.AncestorsInStore | src/components/HierarchicalCombobox/utils.ts:83-84 | every id the parent walk assigns to is already in the store |
| Selection.Recomputed | src/components/HierarchicalCombobox/utils.ts:76-87 | recomputing an ancestor changes only its two flags, and never sets both |
| Selection.ChildFlagsFrame | src/components/HierarchicalCombobox/utils.ts:72-81 | rewriting an entry that is not a child of a, without changing its parent, leaves what a's children look like |
| Selection.ChainSeparated | src/components/HierarchicalCombobox/utils.ts:83-89 | a chain entry is never an earlier chain entry, nor the parent of one, nor its own parent |
| Selection.ChainIdsNonEmpty | src/components/HierarchicalCombobox/utils.ts:71 | no chain entry is the empty id, so the walk never stops early |
| Selection.UpdateParentSelection | src/components/HierarchicalCombobox/utils.ts:65-91 | only flags change; an id missing from the store changes nothing; entries off the ancestor chain are untouched; every ancestor ends selected exactly when all its children are, and indeterminate exactly when they are neither all selected nor all clear |
| StoreUpdates.BuildRoots | src/components/HierarchicalCombobox/hooks.ts:18-31 | the loop yields a root load: the id list is the descriptors' ids in order, and each id maps to a collapsed, clear root entry built from its last descriptor |
| StoreUpdates.RootLoadDeterministic | src/components/HierarchicalCombobox/hooks.ts:21-31 | the root load relation fixes the new store and id list completely |
| StoreUpdates.RootLoadValid | src/components/HierarchicalCombobox/hooks.ts:21-34 | a root load gives a well-formed store with exclusive flags whose root list names exactly its roots; every entry has depth 0 and no parent, and all three flags are clear |
| StoreUpdates.RootLoadShowsRoots | src/components/HierarchicalCombobox/hooks.ts:21-34 | right after a root load, the rows are exactly the loaded roots, one per id in the list |
| StoreUpdates.MergeChildren | src/components/HierarchicalCombobox/hooks.ts:59-81 | the loop yields a merge: the parent is expanded, every old entry is otherwise kept, and each new id gets a clear, collapsed child entry one level down from its first descriptor |
| StoreUpdates.MergeDeterministic | src/components/HierarchicalCombobox/hooks.ts:59-81 | the merge relation fixes the new store completely |
| StoreUpdates.MergeIdempotent | src/components/HierarchicalCombobox/hooks.ts:68 | merging the same children a second time changes nothing |
| StoreUpdates.MergeValid | src/components/HierarchicalCombobox/hooks.ts:59-81 | a merge keeps the store well formed, the flags exclusive and the root list exact |
| StoreUpdates.Marked | src/components/HierarchicalCombobox/hooks.ts:102-106 | a marked entry keeps its shape, takes the given selection and is not indeterminate |
| StoreUpdates.DescendantIdsOfSameShape | src/components/HierarchicalCombobox/hooks.ts:109 | changing flags leaves every descendant set as it was |
| StoreUpdates.FlipKeepsShape | src/components/HierarchicalCombobox/hooks.ts:102-109 | after flipping id, the descendants found in the updated copy are the old store's |
| StoreUpdates.DescendantsOffChain | src/components/HierarchicalCombobox/hooks.ts:109-119 | the descendants lie deeper than id and off its ancestor chain, and id is in neither set |
| StoreUpdates.DescendantRowIds | src/components/HierarchicalCombobox/hooks.ts:109-111 | the rows getDescendants returns are current store entries, and their ids are exactly the descendant set |
| StoreUpdates.MarkRows | src/components/HierarchicalCombobox/hooks.ts:110-116 | the forEach marks exactly the entries whose ids are among the rows and keeps every other entry |
| StoreUpdates.DownPassFromLoop | src/components/HierarchicalCombobox/hooks.ts:102-116 | the flip and the descendant marking together give the downward pass of the toggle |
| StoreUpdates.DownPassShape | src/components/HierarchicalCombobox/hooks.ts:102-116 | the downward pass changes only flags and leaves id's ancestor chain unchanged |
| StoreUpdates.SelectionToggled | src/components/HierarchicalCombobox/hooks.ts:94-122 | the updater yields a selection toggle: an unknown id changes nothing; otherwise id and all its descendants take the flipped selection with no indeterminate flag, every ancestor follows its children, and every other entry is kept |
| StoreUpdates.ToggleAssembled | src/components/HierarchicalCombobox/hooks.ts:119-121 | the upward pass over the downward pass completes the toggle |
| StoreUpdates.ChildOfChainEntry | src/components/HierarchicalCombobox/hooks.ts:119 | a child of id's i-th ancestor is id only when i is 0, is the chain entry just below it when it is on the chain, and is never in id's subtree |
| StoreUpdates.SelectionToggleDeterministic | src/components/HierarchicalCombobox/hooks.ts:93-123 | the toggle relation fixes the new store completely |
| StoreUpdates.SelectionToggleValid | src/components/HierarchicalCombobox/hooks.ts:93-123 | a toggle keeps the store well formed, the flags exclusive and the root list exact |
| TreeState.EnumerateKeys | src/components/HierarchicalCombobox/utils.ts:36 | the enumeration lists every key of the store exactly once |
| TreeState.TreeState.constructor | src/components/HierarchicalCombobox/hooks.ts:10-12 | the hook starts with an empty store, no roots and nothing loading |
| TreeState.TreeState.LoadRoot | src/components/HierarchicalCombobox/hooks.ts:15-35 | the store and root list become the root load of the loader's answer; the loading set is untouched; the state stays valid |
| TreeState.TreeState.BeginExpand | src/components/HierarchicalCombobox/hooks.ts:40-55 | an unknown or childless id is ignored; an expanded one is collapsed with nothing else changed; one already loading is ignored; otherwise the id joins the loading set and nothing else changes |
| TreeState.TreeState.CompleteExpand | src/components/HierarchicalCombobox/hooks.ts:59-87 | the children are merged under id, id leaves the loading set, the root list is kept and the state stays valid |
| TreeState.TreeState.ToggleExpand | src/components/HierarchicalCombobox/hooks.ts:38-90 | an unknown or childless id is ignored and nothing changes; an expanded id is collapsed, clearing only its expanded flag; a collapsed id already loading is ignored; any other collapsed id with children gets the children merged under it; the loading set ends as it started and the state stays valid |
| TreeState.TreeState.ToggleSelect | src/components/HierarchicalCombobox/hooks.ts:93-123 | the store becomes the selection toggle of id; the root list and loading set are kept; the state stays valid |
| TreeState.CollapseValid | src/components/HierarchicalCombobox/hooks.ts:44-48 | collapsing keeps the store well formed, the flags exclusive and the root list exact |
| MockLoader.MockChildren | src/components/HierarchicalCombobox/utils.ts:104-125 | the table answers with non-empty, distinct ids for the roots, for "1" and for "2", and with nothing for any other parent |
| MockLoader.DemoExpandedWellFormed | src/components/HierarchicalCombobox/utils.ts:104-116 | the store after expanding Frontend is well formed |
| MockLoader.DemoLoadRoots | src/components/HierarchicalCombobox/utils.ts:104-108 | loading the demo roots always gives ids "1", "2" and rows Frontend, Backend |
| MockLoader.DemoMergeFrontend | src/components/HierarchicalCombobox/utils.ts:111-116 | expanding Frontend after the root load always gives the store with React and Vue one level below it |
| MockLoader.DemoExpandFrontend | src/components/HierarchicalCombobox/utils.ts:111-116 | after that expand the rows read Frontend, React, Vue, Backend |
| MockLoader.DemoChildrenOfFrontend | src/components/HierarchicalCombobox/utils.ts:36-37 | the filter finds React then Vue under Frontend |
| MockLoader.DemoVisitFrontend | src/components/HierarchicalCombobox/utils.ts:29-40 | the walk from the expanded Frontend yields Frontend, React, Vue |
| MockLoader.DemoRowsExpanded | src/components/HierarchicalCombobox/utils.ts:42 | the rows are Frontend, React, Vue, then Backend |
| MockLoader.DemoFlattenExpanded | src/components/HierarchicalCombobox/utils.ts:23-45 | the labels read Frontend, React, Vue, Backend |
| MockLoader.DemoToggleLeaf | src/components/HierarchicalCombobox/hooks.ts:93-123 | toggling React or Vue flips the leaf, recomputes Frontend and keeps every other entry |
| MockLoader.DemoParentFlags | src/components/HierarchicalCombobox/utils.ts:76-87 | Frontend is selected exactly when React and Vue both are, and indeterminate exactly when they are not both selected but one is marked |
| MockLoader.DemoSelectReact | src/components/HierarchicalCombobox/hooks.ts:93-123 | selecting React leaves Frontend indeterminate and not selected |
| MockLoader.DemoSelectVue | src/components/HierarchicalCombobox/hooks.ts:93-123 | selecting Vue next makes Frontend selected and not indeterminate |
| MockLoader.DemoSelectThenExpand | src/components/HierarchicalCombobox/hooks.ts:70-77 | selecting Frontend before its first expand and then expanding it leaves Frontend selected above an unselected React, which breaks the tri-state rule at Frontend |

## Left out

- Rendering (the `.tsx` component, its styles and stories) and the `types.ts` declarations are not part of this model; the records they declare are `TreeNode` and `Node`.
- React's scheduling is not modelled. That covers `useState`, batching of `setState` updaters, and the stale `nodes`/`loadingIds` captured by `toggleExpand`'s closure. Operations run one at a time on the current state, and the only interleaving point kept is the `await` in `toggleExpand`, via `BeginExpand`/`CompleteExpand`.
- A loader that rejects is not modelled. In the source the id then stays in `loadingIds`; here that is the state after `BeginExpand` with no `CompleteExpand`.
- The 500 ms timer of the demo loader is left out; its answer table is `MockChildren`.
- The descriptor's `label` field is called `displayLabel` here.
- The enumeration order of `Object.values` is a parameter of the walks; the lemmas hold for every order that lists each key once.
- In-place assignment into the caller's object, in `updateParentSelection` and in `toggleSelect`'s copy `next`, is modelled as a returned map. Both objects are private copies in the source, so no aliasing is lost.
- The tri-state rule is not an invariant of the hook's state. The children a load adds start clear whatever their parent's flags, so a toggle restores the rule only along the toggled id's ancestor chain. `MockLoader.DemoSelectThenExpand` proves the gap.
- Windowing.GetVirtualRange: pixel quantities are integers, so fractional `scrollTop` or heights are not modelled. It requires a positive `rowHeight`; with 0 the source divides into `Infinity`/`NaN`.
- Selection.UpdateParentSelection: requires a well-formed store. On a store with a parent cycle the source loops forever. On a dangling parent the source writes a partial entry. No hook operation produces either, since every operation keeps `Valid()`.
- VisibleSet.FlattenVisibleNodes: requires a well-formed store. On a parent cycle the source's `dfs` never ends; every hook operation keeps the store well formed.
- Ids are assumed not to name members that plain objects inherit from `Object.prototype` (`constructor`, `toString`, `hasOwnProperty`, `__proto__` and the like). The model's store lookups test own keys only. The source's lookups (`updated[child.id]`, `next[id]`, `nodes[id]`) also find these inherited members. So in the source a child with id `"constructor"` is skipped by the merge, and `toggleSelect("toString")` writes a partial entry. A root id `"__proto__"` replaces the prototype instead of adding a key. The model inserts such a child, leaves the store unchanged on the unknown id, and adds the root.
- Selection.GetDescendants: requires a well-formed store, for the same reason: on a parent cycle the source recursion never ends.
- TreeState.TreeState.LoadRoot: requires every descriptor id to be non-empty. The source stores an empty id too, but its ancestor walk would then stop at it as if at a root.
- TreeState.TreeState.CompleteExpand: requires the id to still be in the store. This excludes a `loadRoot` that replaced the store while the load was pending; the source would then create a partial entry whose depth is `NaN`. It also requires non-empty descriptor ids, as `LoadRoot` does.
- TreeState.TreeState.ToggleExpand: requires non-empty descriptor ids, as `LoadRoot` does.
