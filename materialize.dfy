/**
 * makeTreeItemDomNode and fillRoot: the recursive build of rendered items
 * from the caller's source nodes. The transform hook may reject a node
 * (null), which prunes it with its whole subtree; an item counts as having
 * children only if at least one child survived; the initial expand state
 * comes from the eagerly expanded level band or the caller's predicate.
 */
module Materialize {
  import opened Options
  import opened Skeletons

  /** A node of the caller's source tree: the fields the widget reads from it. */
  datatype SrcNode = SrcNode(id: Option<string>, hasCheckbox: Option<bool>, children: seq<SrcNode>)

  /** The construction options that shape the rendered tree. */
  datatype Config = Config(
    hasCheckboxes: bool,                            // default checkbox presence
    expandLevels: int,                              // levels below this start open
    transform: (SrcNode, int) -> Option<SrcNode>,   // funcGetTreeNode(userNode, {level})
    isNodeExpanded: (SrcNode, int) -> bool)         // funcIsNodeExpanded(userNode, {level})

  /** The options as given when the caller sets none of them. */
  function DefaultConfig(): Config {
    Config(false, 0, (u: SrcNode, level: int) => Some(u), (u: SrcNode, level: int) => false)
  }

  /** A rendered item with its rendered subtree. `open` is absent for an item without children. */
  datatype RItem = RItem(level: int, id: Option<string>, hasBox: bool, open: Option<bool>, kids: seq<RItem>)

  function Size(u: SrcNode): nat
    decreases u, 1
  {
    1 + SizeList(u.children)
  }

  function SizeList(us: seq<SrcNode>): nat
    decreases us, 0
  {
    if us == [] then 0 else SizeList(us[..|us| - 1]) + Size(us[|us| - 1])
  }

  lemma {:induction false} SizeListBounds(us: seq<SrcNode>, i: int)
    requires 0 <= i < |us|
    ensures Size(us[i]) <= SizeList(us)
    decreases |us|
  {
    if i < |us| - 1 {
      SizeListBounds(us[..|us| - 1], i);
    }
  }

  /**
   * The transform never hands back a larger tree than it was given. Without
   * this the recursion of makeTreeItemDomNode need not terminate.
   */
  ghost predicate NonGrowing(transform: (SrcNode, int) -> Option<SrcNode>) {
    forall u, level :: transform(u, level).Some? ==> Size(transform(u, level).value) <= Size(u)
  }

  /**
   * The number of levels rendered open whatever the predicate says: the
   * least count that is neither negative nor below the option `expandLevels`.
   */
  function ExpandLevels(cfg: Config): (r: nat)
    ensures cfg.expandLevels <= r
    ensures r == 0 || r == cfg.expandLevels
  {
    if cfg.expandLevels < 0 then 0 else cfg.expandLevels
  }

  /** isRenderAsExpanded: open when inside the level band, otherwise as the predicate says. */
  function IsRenderAsExpanded(cfg: Config, u: SrcNode, level: int): bool {
    level < ExpandLevels(cfg) || cfg.isNodeExpanded(u, level)
  }

  /**
   * The level band: an item at a level below the option `expandLevels`
   * starts open; at any other level, the predicate alone decides. A
   * negative option therefore opens nothing by itself.
   */
  lemma ExpandBand(cfg: Config, u: SrcNode, level: nat)
    ensures level < cfg.expandLevels ==> IsRenderAsExpanded(cfg, u, level)
    ensures cfg.expandLevels <= level ==> (IsRenderAsExpanded(cfg, u, level) <==> cfg.isNodeExpanded(u, level))
  {
  }

  /** A node's own checkbox flag wins over the option `hasCheckboxes`. */
  function HasBox(cfg: Config, t: SrcNode): bool {
    if t.hasCheckbox.Some? then t.hasCheckbox.value else cfg.hasCheckboxes
  }

  /** makeTreeItemDomNode(u, level) as a value. */
  function Render(cfg: Config, u: SrcNode, level: int): Option<RItem>
    requires NonGrowing(cfg.transform)
    decreases Size(u), 0
  {
    match cfg.transform(u, level)
    case None => None
    case Some(t) =>
      assert SizeList(t.children) < Size(u);
      var kids := RenderList(cfg, t.children, level + 1);
      var open := if kids != [] then Some(IsRenderAsExpanded(cfg, u, level)) else None;
      Some(RItem(level, t.id, HasBox(cfg, t), open, kids))
  }

  /** The items rendered from a list of source nodes, in source order, the rejected ones left out. */
  function RenderList(cfg: Config, us: seq<SrcNode>, level: int): seq<RItem>
    requires NonGrowing(cfg.transform)
    decreases SizeList(us), 1
  {
    if us == [] then []
    else
      assert SizeList(us) == SizeList(us[..|us| - 1]) + Size(us[|us| - 1]);
      var init := RenderList(cfg, us[..|us| - 1], level);
      match Render(cfg, us[|us| - 1], level)
      case None => init
      case Some(r) => init + [r]
  }

  /** The positions in `us` of the nodes that survive rendering, in increasing order. */
  function Survivors(cfg: Config, us: seq<SrcNode>, level: int): (ix: seq<int>)
    requires NonGrowing(cfg.transform)
    ensures Increasing(ix)
    ensures forall k :: 0 <= k < |ix| ==> 0 <= ix[k] < |us|
    ensures forall i :: i in ix <==> 0 <= i < |us| && Render(cfg, us[i], level).Some?
    decreases |us|
  {
    if us == [] then []
    else
      assert forall i :: 0 <= i < |us| - 1 ==> us[..|us| - 1][i] == us[i];
      var init := Survivors(cfg, us[..|us| - 1], level);
      if Render(cfg, us[|us| - 1], level).Some? then init + [|us| - 1] else init
  }

  /**
   * The rendered list is exactly the surviving nodes' items, in their source
   * order: a rejected node leaves no gap and moves no sibling.
   */
  lemma {:induction false} RenderListIsSurvivors(cfg: Config, us: seq<SrcNode>, level: int)
    requires NonGrowing(cfg.transform)
    ensures var ix := Survivors(cfg, us, level);
            && |RenderList(cfg, us, level)| == |ix|
            && forall k :: 0 <= k < |ix| ==>
                 Render(cfg, us[ix[k]], level) == Some(RenderList(cfg, us, level)[k])
    decreases |us|
  {
    if us != [] {
      var init := us[..|us| - 1];
      RenderListIsSurvivors(cfg, init, level);
      assert forall i :: 0 <= i < |init| ==> init[i] == us[i];
    }
  }

  /**
   * A rendered item has children, and an expand state, exactly when at least
   * one child of the transformed node survived; its expand state is open
   * exactly when its level is inside the band or the predicate holds.
   */
  lemma RenderedChildren(cfg: Config, u: SrcNode, level: int)
    requires NonGrowing(cfg.transform)
    requires Render(cfg, u, level).Some?
    ensures var t := cfg.transform(u, level).value;
            var r := Render(cfg, u, level).value;
            && (r.kids != [] <==> exists i :: 0 <= i < |t.children| && Render(cfg, t.children[i], level + 1).Some?)
            && (r.open.Some? <==> r.kids != [])
            && (r.open.Some? ==> (r.open.value <==> level < ExpandLevels(cfg) || cfg.isNodeExpanded(u, level)))
  {
    var t := cfg.transform(u, level).value;
    RenderListIsSurvivors(cfg, t.children, level + 1);
    var ix := Survivors(cfg, t.children, level + 1);
    if exists i :: 0 <= i < |t.children| && Render(cfg, t.children[i], level + 1).Some? {
      var i :| 0 <= i < |t.children| && Render(cfg, t.children[i], level + 1).Some?;
      assert i in ix;
    }
    if ix != [] {
      assert Render(cfg, t.children[ix[0]], level + 1).Some?;
    }
  }

  /** Every rendered item sits one level below its parent. */
  ghost predicate Leveled(r: RItem, level: int) {
    r.level == level && forall k :: k in r.kids ==> Leveled(k, level + 1)
  }

  lemma {:induction false} RenderLeveled(cfg: Config, u: SrcNode, level: int)
    requires NonGrowing(cfg.transform)
    requires Render(cfg, u, level).Some?
    ensures Leveled(Render(cfg, u, level).value, level)
    decreases Size(u), 0
  {
    var t := cfg.transform(u, level).value;
    assert SizeList(t.children) < Size(u);
    RenderListLeveled(cfg, t.children, level + 1);
  }

  lemma {:induction false} RenderListLeveled(cfg: Config, us: seq<SrcNode>, level: int)
    requires NonGrowing(cfg.transform)
    ensures forall k :: k in RenderList(cfg, us, level) ==> Leveled(k, level)
    decreases SizeList(us), 1
  {
    if us != [] {
      assert SizeList(us) == SizeList(us[..|us| - 1]) + Size(us[|us| - 1]);
      RenderListLeveled(cfg, us[..|us| - 1], level);
      if Render(cfg, us[|us| - 1], level).Some? {
        RenderLeveled(cfg, us[|us| - 1], level);
      }
    }
  }

  /** The rendered tree has the source tree's shape: child counts and order. */
  ghost predicate SameShape(r: RItem, u: SrcNode) {
    |r.kids| == |u.children| && forall i :: 0 <= i < |r.kids| ==> SameShape(r.kids[i], u.children[i])
  }

  /** A transform that rejects nothing and changes nothing. */
  ghost predicate KeepsAll(transform: (SrcNode, int) -> Option<SrcNode>) {
    forall u, level :: transform(u, level) == Some(u)
  }

  /** With nothing rejected, rendering keeps the shape of the source tree. */
  lemma {:induction false} RenderKeepsShape(cfg: Config, u: SrcNode, level: int)
    requires NonGrowing(cfg.transform) && KeepsAll(cfg.transform)
    ensures Render(cfg, u, level).Some? && SameShape(Render(cfg, u, level).value, u)
    decreases Size(u), 0
  {
    assert cfg.transform(u, level) == Some(u);
    assert SizeList(u.children) < Size(u);
    RenderListKeepsShape(cfg, u.children, level + 1);
  }

  lemma {:induction false} RenderListKeepsShape(cfg: Config, us: seq<SrcNode>, level: int)
    requires NonGrowing(cfg.transform) && KeepsAll(cfg.transform)
    ensures |RenderList(cfg, us, level)| == |us|
    ensures forall i :: 0 <= i < |us| ==> Some(RenderList(cfg, us, level)[i]) == Render(cfg, us[i], level)
    ensures forall i :: 0 <= i < |us| ==> SameShape(RenderList(cfg, us, level)[i], us[i])
    decreases SizeList(us), 1
  {
    if us != [] {
      var init := us[..|us| - 1];
      assert SizeList(us) == SizeList(init) + Size(us[|us| - 1]);
      RenderListKeepsShape(cfg, init, level);
      RenderKeepsShape(cfg, us[|us| - 1], level);
      assert forall i :: 0 <= i < |init| ==> init[i] == us[i];
    }
  }

  /**
   * With the options left at their defaults, every source node is rendered
   * in the source's shape, starts collapsed, and has a checkbox only when
   * the node asks for one.
   */
  lemma DefaultRender(u: SrcNode, level: nat)
    ensures NonGrowing(DefaultConfig().transform)
    ensures Render(DefaultConfig(), u, level).Some?
    ensures SameShape(Render(DefaultConfig(), u, level).value, u)
    ensures Render(DefaultConfig(), u, level).value.open != Some(true)
    ensures Render(DefaultConfig(), u, level).value.hasBox <==> u.hasCheckbox == Some(true)
  {
    var cfg := DefaultConfig();
    assert KeepsAll(cfg.transform);
    RenderKeepsShape(cfg, u, level);
    assert cfg.transform(u, level) == Some(u);
    assert !IsRenderAsExpanded(cfg, u, level);
  }

  /** makeTreeItemDomNode: the loop over the children counts the ones that rendered. */
  method MakeItem(cfg: Config, u: SrcNode, level: int) returns (r: Option<RItem>)
    requires NonGrowing(cfg.transform)
    ensures r == Render(cfg, u, level)
    decreases Size(u)
  {
    var t := cfg.transform(u, level);
    if t.None? {
      return None;  // do not render
    }
    var treeNode := t.value;
    var hasChildren := |treeNode.children| > 0;
    var bag: seq<RItem> := [];
    if hasChildren {
      var realChildrenCount := 0;
      for i := 0 to |treeNode.children|
        invariant bag == RenderList(cfg, treeNode.children[..i], level + 1)
        invariant realChildrenCount == |bag|
      {
        SizeListBounds(treeNode.children, i);
        var child := MakeItem(cfg, treeNode.children[i], level + 1);
        assert treeNode.children[..i + 1][..i] == treeNode.children[..i];
        if child.Some? {
          bag := bag + [child.value];
          realChildrenCount := realChildrenCount + 1;
        }
      }
      assert treeNode.children[..|treeNode.children|] == treeNode.children;
      if realChildrenCount <= 0 {
        hasChildren := false;  // no child was rendered
      }
    }
    var open := if hasChildren then Some(IsRenderAsExpanded(cfg, u, level)) else None;
    r := Some(RItem(level, treeNode.id, HasBox(cfg, treeNode), open, bag));
  }

  /** fillRoot: the top-level items, rendered at level 0. */
  method FillRoot(cfg: Config, rootChildren: seq<SrcNode>) returns (forest: seq<RItem>)
    requires NonGrowing(cfg.transform)
    ensures forest == RenderList(cfg, rootChildren, 0)
  {
    forest := [];
    var realChildrenCount := 0;
    for i := 0 to |rootChildren|
      invariant forest == RenderList(cfg, rootChildren[..i], 0)
      invariant realChildrenCount == |forest|
    {
      var child := MakeItem(cfg, rootChildren[i], 0);
      assert rootChildren[..i + 1][..i] == rootChildren[..i];
      if child.Some? {
        forest := forest + [child.value];
        realChildrenCount := realChildrenCount + 1;
      }
    }
    assert rootChildren[..|rootChildren|] == rootChildren;
  }
}
