// The demo loader's table (two roots with two leaves each) and the
// component's walk-through on it: load the roots, expand Frontend, select
// React, then Vue. Each step is taken as whatever store the hook's
// relation allows, and the lemmas pin down what the user sees.
module MockLoader {
  import opened TreeTypes
  import opened VisibleSet
  import opened Selection
  import opened StoreUpdates

  const Frontend := TreeNode("1", "Frontend", true)
  const Backend := TreeNode("2", "Backend", true)
  const React := TreeNode("1-1", "React", false)
  const Vue := TreeNode("1-2", "Vue", false)
  const NodeJs := TreeNode("2-1", "Node.js", false)
  const Django := TreeNode("2-2", "Django", false)

  /** The demo loader's answer for a parent id (None for the roots); an
      unknown parent has no children. Its delay is not modelled. */
  function MockChildren(parentId: Option<NodeId>): (r: seq<TreeNode>)
    ensures IdsNonEmpty(r)
    ensures forall i, j | 0 <= i < j < |r| :: r[i].id != r[j].id
  {
    match parentId
    case None => [Frontend, Backend]
    case Some(p) =>
      if p == "1" then [React, Vue]
      else if p == "2" then [NodeJs, Django]
      else []
  }

  /** The store right after loading the roots. */
  function DemoRoots(): Store {
    map["1" := RootEntry(Frontend), "2" := RootEntry(Backend)]
  }

  /** The store right after expanding Frontend. */
  function DemoExpanded(): Store {
    map[
      "1" := RootEntry(Frontend).(isExpanded := true),
      "2" := RootEntry(Backend),
      "1-1" := ChildEntry(React, "1", 1),
      "1-2" := ChildEntry(Vue, "1", 1)]
  }

  /** The order in which a script engine enumerates these keys: integer-like
      keys ascending, then the others in insertion order. */
  const EngineOrder: seq<NodeId> := ["1", "2", "1-1", "1-2"]

  /** The labels of a list of rows. */
  function Labels(rows: seq<Node>): seq<string> {
    seq(|rows|, i requires 0 <= i < |rows| => rows[i].displayLabel)
  }

  lemma DemoExpandedWellFormed()
    ensures WellFormed(DemoExpanded()) && IsEnumeration(DemoExpanded(), EngineOrder)
  {
    var m := DemoExpanded();
    assert Linked(m, "1") && Linked(m, "2") && Linked(m, "1-1") && Linked(m, "1-2");
    assert m.Keys == {"1", "2", "1-1", "1-2"};
  }

  /** Loading the roots always yields the two collapsed roots, shown in the
      loader's order. */
  lemma DemoLoadRoots(m: Store, ids: seq<NodeId>, order: seq<NodeId>)
    requires IsRootLoad(MockChildren(None), m, ids)
    ensures ids == ["1", "2"] && m == DemoRoots()
    ensures WellFormed(m) && Labels(Flatten(m, order, ids)) == ["Frontend", "Backend"]
  {
    var children := MockChildren(None);
    var m0 := DemoRoots();
    assert IsLastOf(children, 0, "1") && IsLastOf(children, 1, "2");
    assert FromLast(children, m0, "1") && FromLast(children, m0, "2");
    assert IsRootLoad(children, m0, ["1", "2"]);
    RootLoadDeterministic(children, m, ids, m0, ["1", "2"]);
    RootLoadShowsRoots(children, m, ids, order);
    var f := Flatten(m, order, ids);
    assert f == [f[0], f[1]];
    assert Labels(f) == Labels([f[0]]) + [f[1].displayLabel];
  }

  /** Expanding Frontend after loading the roots always yields the store
      with React and Vue one level below it. */
  lemma DemoMergeFrontend(m: Store, ids: seq<NodeId>, u: Store)
    requires IsRootLoad(MockChildren(None), m, ids) && "1" in m
    requires IsMerge(m, "1", MockChildren(Some("1")), u)
    ensures ids == ["1", "2"] && u == DemoExpanded()
  {
    DemoLoadRoots(m, ids, []);
    var children := MockChildren(Some("1"));
    var u0 := DemoExpanded();
    assert IsFirstOf(children, 0, "1-1") && IsFirstOf(children, 1, "1-2");
    assert FromFirst(children, "1", 1, u0, "1-1") && FromFirst(children, "1", 1, u0, "1-2");
    assert IsMerge(m, "1", children, u0);
    MergeDeterministic(m, "1", children, u, u0);
  }

  /** ... and the rows then read Frontend, React, Vue, Backend. */
  lemma DemoExpandFrontend(m: Store, ids: seq<NodeId>, u: Store)
    requires IsRootLoad(MockChildren(None), m, ids) && "1" in m
    requires IsMerge(m, "1", MockChildren(Some("1")), u)
    ensures u == DemoExpanded()
    ensures WellFormed(u)
    ensures Labels(Flatten(u, EngineOrder, ids)) == ["Frontend", "React", "Vue", "Backend"]
  {
    DemoMergeFrontend(m, ids, u);
    DemoFlattenExpanded();
  }

  lemma DemoChildrenOfFrontend()
    ensures Children(DemoExpanded(), EngineOrder, "1") == ["1-1", "1-2"]
  {
    var u := DemoExpanded();
    var o := EngineOrder;
    assert o[..1] == ["1"] && o[..2] == ["1", "2"] && o[..3] == ["1", "2", "1-1"];
    assert o[..2][..1] == ["1"] && o[..3][..2] == ["1", "2"] && o[..1][..0] == [];
    assert Children(u, ["1"], "1") == [];
    assert Children(u, ["1", "2"], "1") == [];
    assert Children(u, ["1", "2", "1-1"], "1") == ["1-1"];
  }

  /** The leaves and the collapsed Backend show as one row each. */
  lemma DemoVisitSingles()
    ensures WellFormed(DemoExpanded())
    ensures Visit(DemoExpanded(), EngineOrder, "1-1") == [DemoExpanded()["1-1"]]
    ensures Visit(DemoExpanded(), EngineOrder, "1-2") == [DemoExpanded()["1-2"]]
    ensures Visit(DemoExpanded(), EngineOrder, "2") == [DemoExpanded()["2"]]
  {
    DemoExpandedWellFormed();
  }

  lemma DemoVisitFrontend()
    ensures WellFormed(DemoExpanded())
    ensures Visit(DemoExpanded(), EngineOrder, "1") ==
      [DemoExpanded()["1"], DemoExpanded()["1-1"], DemoExpanded()["1-2"]]
  {
    DemoVisitSingles();
    DemoChildrenOfFrontend();
    var u := DemoExpanded();
    var o := EngineOrder;
    assert ["1-1", "1-2"][..1] == ["1-1"] && ["1-1"][..0] == [];
    assert VisitAll(u, o, ["1-1"], 1) == [u["1-1"]];
    assert VisitAll(u, o, ["1-1", "1-2"], 1) == [u["1-1"], u["1-2"]];
  }

  /** With Frontend expanded its children follow it, then Backend. */
  lemma DemoRowsExpanded()
    ensures WellFormed(DemoExpanded())
    ensures Flatten(DemoExpanded(), EngineOrder, ["1", "2"]) ==
      [DemoExpanded()["1"], DemoExpanded()["1-1"], DemoExpanded()["1-2"], DemoExpanded()["2"]]
  {
    DemoVisitFrontend();
    DemoVisitSingles();
    var u := DemoExpanded();
    var o := EngineOrder;
    assert ["1", "2"][..1] == ["1"] && ["1"][..0] == [];
    assert Flatten(u, o, ["1"]) == Visit(u, o, "1");
  }

  /** With Frontend expanded the rows read Frontend, React, Vue, Backend. */
  lemma DemoFlattenExpanded()
    ensures WellFormed(DemoExpanded())
    ensures Labels(Flatten(DemoExpanded(), EngineOrder, ["1", "2"])) == ["Frontend", "React", "Vue", "Backend"]
  {
    DemoRowsExpanded();
    var u := DemoExpanded();
    var f := Flatten(u, EngineOrder, ["1", "2"]);
    assert f[0].displayLabel == "Frontend" && f[1].displayLabel == "React";
    assert f[2].displayLabel == "Vue" && f[3].displayLabel == "Backend";
  }

  /** The store after selecting React: React selected, Frontend
      indeterminate. */
  function DemoReactSelected(): Store {
    var u := DemoExpanded();
    u["1" := u["1"].(isIndeterminate := true)]["1-1" := u["1-1"].(isSelected := true)]
  }

  /** Setting the flags of one entry keeps the shape of the store. */
  lemma FlagsSetSameShape(m: Store, k: NodeId, sel: bool, ind: bool)
    requires k in m
    ensures SameShape(m, m[k := m[k].(isSelected := sel, isIndeterminate := ind)])
  {
  }

  lemma DemoReactSelectedShape()
    ensures SameShape(DemoExpanded(), DemoReactSelected())
  {
    var u := DemoExpanded();
    var u1 := u["1" := u["1"].(isIndeterminate := true)];
    FlagsSetSameShape(u, "1", false, true);
    FlagsSetSameShape(u1, "1-1", true, false);
  }

  /** Any store shaped like the expanded demo store is well formed. */
  lemma DemoShapeWellFormed(m: Store)
    requires SameShape(DemoExpanded(), m)
    ensures WellFormed(m) && m.Keys == {"1", "2", "1-1", "1-2"}
  {
    DemoExpandedWellFormed();
    SameShapeWellFormed(DemoExpanded(), m);
  }

  /** The parent links of any store shaped like the expanded demo store. */
  lemma DemoLinks(m: Store)
    requires SameShape(DemoExpanded(), m)
    ensures WellFormed(m) && m.Keys == {"1", "2", "1-1", "1-2"}
    ensures Ancestors(m, "1-1") == ["1"] && Ancestors(m, "1-2") == ["1"]
    ensures Ancestors(m, "1") == [] && Ancestors(m, "2") == []
    ensures IsChild(m, "1-1", "1") && IsChild(m, "1-2", "1")
  {
    DemoShapeWellFormed(m);
    assert Linked(m, "1") && Linked(m, "2") && Linked(m, "1-1") && Linked(m, "1-2");
  }

  /** In such a store the two leaves have no descendants. */
  lemma DemoLeavesBare(m: Store)
    requires SameShape(DemoExpanded(), m)
    ensures WellFormed(m) && DescendantIds(m, "1-1") == {} && DescendantIds(m, "1-2") == {}
  {
    DemoLinks(m);
    forall k | k in m ensures "1-1" !in Ancestors(m, k) && "1-2" !in Ancestors(m, k) {
      assert k == "1" || k == "2" || k == "1-1" || k == "1-2";
    }
  }

  /** Toggling a leaf of such a store flips the leaf, recomputes Frontend
      from its two children and leaves the rest alone. */
  lemma DemoToggleLeaf(prev: Store, leaf: NodeId, next: Store)
    requires SameShape(DemoExpanded(), prev) && (leaf == "1-1" || leaf == "1-2")
    requires WellFormed(prev) && IsSelectionToggle(prev, leaf, next)
    ensures SameShape(DemoExpanded(), next)
    ensures next[leaf] == Marked(prev[leaf], !prev[leaf].isSelected)
    ensures forall k | k in next && k != leaf && k != "1" :: next[k] == prev[k]
    ensures TriStateConsistent(next, "1")
  {
    DemoLinks(prev);
    DemoLeavesBare(prev);
    assert TriStateConsistent(next, Ancestors(prev, leaf)[0]);
  }

  /** In such a store, Frontend's flags as the tri-state rule fixes them
      from React and Vue. */
  lemma DemoParentFlags(m: Store)
    requires SameShape(DemoExpanded(), m) && "1" in m && TriStateConsistent(m, "1")
    ensures m["1"].isSelected <==> m["1-1"].isSelected && m["1-2"].isSelected
    ensures m["1"].isIndeterminate <==>
      !(m["1-1"].isSelected && m["1-2"].isSelected) &&
      (m["1-1"].isSelected || m["1-1"].isIndeterminate || m["1-2"].isSelected || m["1-2"].isIndeterminate)
  {
    DemoLinks(m);
    forall c | c in m && IsChild(m, c, "1") ensures c == "1-1" || c == "1-2" {
      assert c == "1" || c == "2" || c == "1-1" || c == "1-2";
    }
  }

  /** Selecting React leaves Frontend indeterminate and Vue clear. */
  lemma DemoSelectReact(s1: Store)
    requires WellFormed(DemoExpanded()) && IsSelectionToggle(DemoExpanded(), "1-1", s1)
    ensures s1 == DemoReactSelected()
    ensures s1["1"].isIndeterminate && !s1["1"].isSelected
  {
    var u := DemoExpanded();
    DemoToggleLeaf(u, "1-1", s1);
    DemoParentFlags(s1);
    var r := DemoReactSelected();
    SameFlagsSameEntry(u["1"], s1["1"], r["1"]);
    assert s1.Keys == r.Keys;
  }

  /** Selecting Vue next selects Frontend too: all its children are. */
  lemma DemoSelectVue(s2: Store)
    requires WellFormed(DemoReactSelected()) && IsSelectionToggle(DemoReactSelected(), "1-2", s2)
    ensures s2["1"].isSelected && !s2["1"].isIndeterminate
    ensures s2["1-1"].isSelected && s2["1-2"].isSelected && s2["2"] == DemoExpanded()["2"]
  {
    var r := DemoReactSelected();
    DemoReactSelectedShape();
    DemoToggleLeaf(r, "1-2", s2);
    DemoParentFlags(s2);
  }

  /** Selecting Frontend before it was ever expanded, then expanding it,
      leaves Frontend selected above an unselected React: the children a
      load adds start clear whatever their parent's flags, so the tri-state
      rule holds after a selection toggle only along the toggled chain. */
  lemma DemoSelectThenExpand(m: Store, ids: seq<NodeId>, s: Store, u: Store)
    requires IsRootLoad(MockChildren(None), m, ids)
    requires WellFormed(m) && IsSelectionToggle(m, "1", s)
    requires "1" in s && IsMerge(s, "1", MockChildren(Some("1")), u)
    ensures u["1"].isSelected && "1-1" in u && !u["1-1"].isSelected
    ensures !TriStateConsistent(u, "1")
  {
    DemoLoadRoots(m, ids, []);
    assert "1" in m;
    forall k | k in m ensures "1" !in Ancestors(m, k) {
      assert m[k].depth == 0;
    }
    assert DescendantIds(m, "1") == {};
    assert s["1"].isSelected;
    var children := MockChildren(Some("1"));
    assert children[0].id == "1-1";
    assert "1-1" !in s;
    assert FromFirst(children, "1", s["1"].depth + 1, u, "1-1");
    assert IsChild(u, "1-1", "1") && !u["1-1"].isSelected;
  }
}
