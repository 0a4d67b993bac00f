/**
 * The widget object returned by qTree: the materialized tree with the state
 * its methods and event handlers update in place (checkbox flags, expand
 * classes, the selected class, and the events dispatched to the caller).
 */
module Widget {
  import opened Options
  import opened Skeletons
  import opened Checkboxes
  import opened Traversal
  import opened Queries
  import opened Materialize
  import opened Flattening

  /**
   * A DOM node handed to the widget: null; an item (an LI, or the container
   * for index 0); an element of an item's line (its DIV, or the INPUT or
   * SPAN inside it); an item's children list (its UL, for index 0 the
   * top-level list); or an element outside the tree that does not contain it.
   */
  datatype Handle = Null | Item(i: int) | Line(i: int) | Bag(i: int) | Foreign

  /** What the widget dispatches to the caller's handlers. */
  datatype Event = Toggled(item: int, isOpen: bool) | Checked(item: int, checked: bool) | Selected(item: int)

  /** The rendered forest of `rootChildren`, numbered in document order below the container. */
  function Layout(cfg: Config, rootChildren: seq<SrcNode>): (f: Flat)
    requires NonGrowing(cfg.transform)
    ensures Partial(f) && Done(f, 1) && Mirrors(f, 0)
    ensures f.item[0].kids == RenderList(cfg, rootChildren, 0)
  {
    RenderListCoherent(cfg, rootChildren, 0);
    Flatten(RenderList(cfg, rootChildren, 0))
  }

  /** The id attribute of every index; the container has none. */
  function InitialIds(f: Flat): (r: seq<Option<string>>)
    requires Partial(f)
    ensures |r| == |f.parent| && r[0] == None
    ensures forall j :: 1 <= j < |r| ==> r[j] == f.item[j].id
  {
    seq(|f.item|, j requires 0 <= j < |f.item| => if j == 0 then None else f.item[j].id)
  }

  /** Every rendered checkbox starts unchecked and definite; the container has none. */
  function InitialBoxes(f: Flat): (r: seq<Box>)
    requires Partial(f)
    ensures |r| == |f.parent| && r[0] == NoBox
    ensures forall j :: 1 <= j < |r| ==> r[j] == if f.item[j].hasBox then Box(false, false) else NoBox
  {
    seq(|f.item|, j requires 0 <= j < |f.item| => if j != 0 && f.item[j].hasBox then Box(false, false) else NoBox)
  }

  /** The expand class every index starts with; the container has none. */
  function InitialOpen(f: Flat): (r: seq<Option<bool>>)
    requires Partial(f) && Done(f, 1)
    ensures |r| == |f.parent| && r[0] == None
    ensures forall j :: 1 <= j < |r| ==> r[j] == f.item[j].open
    ensures forall j :: 1 <= j < |r| ==> (r[j].Some? <==> f.kids[j] != [])
  {
    var r := seq(|f.item|, j requires 0 <= j < |f.item| => if j == 0 then None else f.item[j].open);
    assert forall j :: 1 <= j < |r| ==> Mirrors(f, j) && Coherent(f.item[j]);
    r
  }

  /** showTreeNodeChildrenList on the class list: a collapsed item becomes open. */
  function Shown(o: Option<bool>): (r: Option<bool>)
    ensures r.Some? <==> o.Some?
    ensures r != Some(false)
  {
    match o
    case None => None
    case Some(_) => Some(true)
  }

  /** hideTreeNodeChildrenList on the class list: an open item becomes collapsed. */
  function Hidden(o: Option<bool>): (r: Option<bool>)
    ensures r.Some? <==> o.Some?
    ensures r != Some(true)
  {
    match o
    case None => None
    case Some(_) => Some(false)
  }

  /**
   * Showing and hiding only ever swap the two expand classes: each is
   * idempotent, the later of two calls decides, and an item that carries
   * neither class keeps carrying neither.
   */
  lemma ShowHide(o: Option<bool>)
    ensures Shown(Shown(o)) == Shown(o) && Hidden(Hidden(o)) == Hidden(o)
    ensures Hidden(Shown(o)) == Hidden(o) && Shown(Hidden(o)) == Shown(o)
    ensures o == Some(true) ==> Shown(o) == o
    ensures o == Some(false) ==> Hidden(o) == o
  {
  }

  /** The first item at or after `lo` that carries the selected class. */
  function FirstSelected(sel: seq<bool>, lo: nat): (r: Option<int>)
    requires lo <= |sel|
    ensures r.Some? ==> lo <= r.value < |sel| && sel[r.value]
    ensures r.Some? ==> forall j :: lo <= j < r.value ==> !sel[j]
    ensures r.None? ==> forall j :: lo <= j < |sel| ==> !sel[j]
    decreases |sel| - lo
  {
    if lo == |sel| then None else if sel[lo] then Some(lo) else FirstSelected(sel, lo + 1)
  }

  /** clearSelected: the selected class is removed from the first item carrying it. */
  function Cleared(sel: seq<bool>): (r: seq<bool>)
    requires |sel| >= 1
    ensures |r| == |sel| && r[0] == sel[0]
  {
    match FirstSelected(sel, 1)
    case None => sel
    case Some(j) => sel[j := false]
  }

  /** With at most one item selected, clearing leaves no item selected and touches nothing else. */
  lemma ClearedNone(sel: seq<bool>)
    requires |sel| >= 1
    requires forall i, j :: 1 <= i < j < |sel| && sel[i] ==> !sel[j]
    ensures forall j :: 1 <= j < |sel| ==> !Cleared(sel)[j]
  {
    match FirstSelected(sel, 1)
    case None =>
    case Some(s) =>
      forall j | 1 <= j < |sel| && j != s
        ensures !sel[j]
      {
        if j > s {
          assert sel[s];
        }
      }
  }

  /** The checkboxes of the items in `vs` set to definite `c`, all others kept. */
  function SetOver(bs: seq<Box>, vs: seq<int>, c: bool): (r: seq<Box>)
    ensures |r| == |bs|
    ensures forall j :: 0 <= j < |bs| ==> r[j] == if j in vs then Definite(bs[j], c) else bs[j]
  {
    seq(|bs|, j requires 0 <= j < |bs| => if j in vs then Definite(bs[j], c) else bs[j])
  }

  lemma SetOverStep(bs: seq<Box>, vs: seq<int>, v: int, c: bool)
    requires 0 <= v < |bs|
    ensures SetOver(bs, vs + [v], c) == SetOver(bs, vs, c)[v := Definite(bs[v], c)]
  {
    forall j | 0 <= j < |bs|
      ensures SetOver(bs, vs + [v], c)[j] == SetOver(bs, vs, c)[v := Definite(bs[v], c)][j]
    {
      assert j in vs + [v] <==> j in vs || j == v;
    }
  }

  /** Setting exactly the items below `x` is the downward cascade from `x`. */
  lemma SetOverCascade(sk: Skeleton, bs: seq<Box>, vs: seq<int>, x: int, c: bool)
    requires Fits(sk, bs) && 0 <= x < sk.Size()
    requires forall j :: 0 <= j < |bs| ==> (j in vs <==> x in Anc(sk, j))
    ensures SetOver(bs, vs, c) == Cascaded(sk, bs, x, c)
  {
  }

  class Tree {
    const propagate: bool      // isCheckedPropagated
    const selectable: bool     // isSelectable
    const sk: Skeleton
    const ids: seq<Option<string>>
    var boxes: seq<Box>
    var open: seq<Option<bool>>  // Some(true): open class, Some(false): collapsed class, None: neither
    var selected: seq<bool>      // carries the selected class
    var events: seq<Event>       // dispatched so far

    ghost predicate Valid()
      reads this
    {
      && BoxesOk(sk, boxes)
      && |open| == |selected| == |ids| == sk.Size()
      && open[0] == None
      && (forall j :: 1 <= j < |open| ==> (open[j].Some? <==> sk.kids[j] != []))
      && (!propagate ==> forall j :: 0 <= j < |boxes| && boxes[j].Box? ==> !boxes[j].indeterminate)
      && (forall i, j :: 1 <= i < j < |selected| && selected[i] ==> !selected[j])
    }

    predicate HandleOk(h: Handle) {
      match h
      case Item(i) => 0 <= i < sk.Size()
      case Line(i) => 1 <= i < sk.Size()
      case Bag(i) => 0 <= i < sk.Size() && i < |sk.kids| && sk.kids[i] != []
      case _ => true
    }

    /** getTreeItemDomNode: the item an element belongs to. */
    function ItemOf(h: Handle): (r: Option<int>)
      requires HandleOk(h)
      ensures r.Some? <==> !h.Null? && !h.Foreign?
      ensures r.Some? ==> 0 <= r.value < sk.Size() && r.value == h.i
    {
      match h
      case Item(i) => Some(i)
      case Line(i) => Some(i)
      case Bag(i) => Some(i)
      case _ => None
    }

    /** The root a walk starts from: the container when none is given. */
    function RootOf(h: Handle): (r: Option<int>)
      requires HandleOk(h)
      ensures h.Null? ==> r == Some(0)
      ensures !h.Null? ==> r == ItemOf(h)
    {
      if h.Null? then Some(0) else ItemOf(h)
    }

    /** getParent: the parent item, null for top-level items and for the container. */
    function ParentOf(h: Handle): (r: Option<int>)
      requires sk.Valid() && HandleOk(h)
      ensures r.Some? <==> ItemOf(h).Some? && ItemOf(h).value != 0 && sk.parent[ItemOf(h).value] != 0
      ensures r.Some? ==> r.value in ItemAnc(sk, ItemOf(h).value) && ItemOf(h).value in sk.kids[r.value]
    {
      match ItemOf(h)
      case None => None
      case Some(x) => if x == 0 || sk.parent[x] == 0 then None else Some(sk.parent[x])
    }

    /** getChildren: the child items, in document order; none for null or a foreign element. */
    function ChildrenOf(h: Handle): (r: seq<int>)
      requires sk.Valid() && HandleOk(h)
      ensures ItemOf(h).None? ==> r == []
      ensures forall k :: k in r ==> 1 <= k < sk.Size() && sk.parent[k] == ItemOf(h).value
      ensures ItemOf(h).Some? ==> forall k :: 1 <= k < sk.Size() && sk.parent[k] == ItemOf(h).value ==> k in r
      ensures Increasing(r)
    {
      match ItemOf(h)
      case None => []
      case Some(x) => sk.kids[x]
    }

    /** hasCheckbox: only rendered items can carry a checkbox, never the container. */
    function HasCheckbox(h: Handle): (r: bool)
      requires Valid() && HandleOk(h)
      reads this
      ensures r <==> ItemOf(h).Some? && boxes[ItemOf(h).value].Box?
      ensures r ==> ItemOf(h).value != 0
    {
      match ItemOf(h)
      case None => false
      case Some(x) => boxes[x].Box?
    }

    /** isChecked: null without a checkbox or when indeterminate, otherwise the checked flag. */
    function IsChecked(h: Handle): (r: Option<bool>)
      requires Valid() && HandleOk(h)
      reads this
      ensures r.Some? ==> HasCheckbox(h) && !boxes[ItemOf(h).value].indeterminate
      ensures r.Some? ==> r.value == boxes[ItemOf(h).value].checked
      ensures HasCheckbox(h) && !boxes[ItemOf(h).value].indeterminate ==> r.Some?
    {
      match ItemOf(h)
      case None => None
      case Some(x) => Reading(boxes[x])
    }

    /**
     * isExpanded: null for null, foreign elements and items without
     * children; otherwise whether the item carries the open class. The
     * container never does.
     */
    function IsExpanded(h: Handle): (r: Option<bool>)
      requires Valid() && HandleOk(h)
      reads this
      ensures r.Some? <==> ItemOf(h).Some? && sk.kids[ItemOf(h).value] != []
      ensures r.Some? ==> (r.value <==> open[ItemOf(h).value] == Some(true))
      ensures ItemOf(h) == Some(0) && r.Some? ==> r == Some(false)
    {
      match ItemOf(h)
      case None => None
      case Some(x) => if sk.kids[x] == [] then None else Some(open[x] == Some(true))
    }

    /** getId: the id attribute, which only rendered items carry. */
    function GetId(h: Handle): (r: Option<string>)
      requires Valid() && HandleOk(h) && !h.Null?
      reads this
      ensures r.Some? ==> h.Item? && 1 <= h.i && ids[h.i] == r
      ensures h.Item? && 1 <= h.i ==> r == ids[h.i]
    {
      if h.Item? && h.i != 0 then ids[h.i] else None
    }

    /** Whether item `v` carries the id attribute `id`. */
    function Carries(id: string): int -> bool
      reads this
    {
      v => 0 <= v < |ids| && ids[v] == Some(id)
    }

    /** findById: the first item in document order carrying the id, or null. */
    function FindById(id: string): (r: Option<int>)
      requires Valid()
      reads this
      ensures r.Some? ==> 1 <= r.value < sk.Size() && ids[r.value] == Some(id)
      ensures r.Some? ==> r.value in DocOrder(sk, 0)
      ensures r.Some? ==> forall p :: 0 <= p < IndexOf(DocOrder(sk, 0), r.value) ==> !Carries(id)(DocOrder(sk, 0)[p])
      ensures r.None? ==> forall j :: 1 <= j < sk.Size() ==> ids[j] != Some(id)
    {
      var found := Keep(DocOrder(sk, 0), Carries(id));
      FindByIdComplete(id);
      if found == [] then None
      else
        KeepFirst(DocOrder(sk, 0), Carries(id));
        Some(found[0])
    }

    /** Every item carrying the id is among those findById chooses from. */
    lemma FindByIdComplete(id: string)
      requires Valid()
      ensures forall j :: 1 <= j < sk.Size() && ids[j] == Some(id) ==> j in Keep(DocOrder(sk, 0), Carries(id))
    {
      forall j | 1 <= j < sk.Size() && ids[j] == Some(id)
        ensures j in DocOrder(sk, 0)
      {
        assert 0 in Anc(sk, j);
      }
    }

    /**
     * qTree(container, rootChildren, parameters): renders the source forest
     * into the container. No checkbox starts checked, nothing is selected
     * and no event has been dispatched.
     */
    constructor (cfg: Config, rootChildren: seq<SrcNode>, isCheckedPropagated: bool, isSelectable: bool)
      requires NonGrowing(cfg.transform)
      ensures Valid()
      ensures propagate == isCheckedPropagated && selectable == isSelectable
      ensures var f := Layout(cfg, rootChildren);
              && sk == Skeleton(f.parent, f.kids)
              && (forall j :: 1 <= j < sk.Size() ==>
                    && ids[j] == f.item[j].id
                    && open[j] == f.item[j].open
                    && boxes[j] == (if f.item[j].hasBox then Box(false, false) else NoBox))
      ensures forall j :: 0 <= j < |selected| ==> !selected[j]
      ensures events == []
    {
      var forest := FillRoot(cfg, rootChildren);
      RenderListCoherent(cfg, rootChildren, 0);
      var f := Flatten(forest);
      assert f == Layout(cfg, rootChildren);
      var layout := Skeleton(f.parent, f.kids);
      var bs := InitialBoxes(f);
      var op := InitialOpen(f);
      assert layout.Valid() && BoxesOk(layout, bs);
      assert forall j :: 0 <= j < |bs| && bs[j].Box? ==> !bs[j].indeterminate;
      propagate := isCheckedPropagated;
      selectable := isSelectable;
      sk := layout;
      ids := InitialIds(f);
      boxes := bs;
      open := op;
      selected := seq(|f.item|, j => false);
      events := [];
    }

    /** setChildrenNodesChecked(x, c): every checkbox strictly below `x` becomes definite `c`. */
    method SetChildrenNodesChecked(x: int, c: bool)
      requires Fits(sk, boxes) && 0 <= x < sk.Size()
      modifies this
      ensures boxes == Cascaded(sk, old(boxes), x, c)
      ensures open == old(open) && selected == old(selected) && events == old(events)
      decreases sk.Size() - x
    {
      var childs := sk.kids[x];
      for i := 0 to |childs|
        invariant |boxes| == |old(boxes)|
        invariant forall j :: 0 <= j < |boxes| ==>
                    boxes[j] == if x in Anc(sk, j) && Top(sk, x, j) in childs[..i]
                                then Definite(old(boxes)[j], c) else old(boxes)[j]
        invariant open == old(open) && selected == old(selected) && events == old(events)
      {
        var k := childs[i];
        ghost var before := boxes;
        assert k !in childs[..i];
        TopUnique(sk, x, k, k);
        if boxes[k].Box? {
          boxes := boxes[k := Definite(boxes[k], c)];
        }
        ghost var mid := boxes;
        SetChildrenNodesChecked(k, c);
        forall j | 0 <= j < |boxes|
          ensures boxes[j] == if x in Anc(sk, j) && Top(sk, x, j) in childs[..i + 1]
                              then Definite(old(boxes)[j], c) else old(boxes)[j]
        {
          TopUnique(sk, x, k, j);
          if x in Anc(sk, j) {
            assert Top(sk, x, j) in childs[..i + 1] <==> Top(sk, x, j) in childs[..i] || Top(sk, x, j) == k;
          }
        }
      }
      forall j | 0 <= j < |boxes| && x in Anc(sk, j)
        ensures Top(sk, x, j) in childs[..|childs|]
      {
        assert childs[..|childs|] == childs;
      }
    }

    /** isAllChildrenNodesCheckedStateMatch(x, c), a loop that stops at the first mismatch. */
    method IsAllChildrenNodesCheckedStateMatch(x: int, c: Option<bool>) returns (r: bool)
      requires Fits(sk, boxes) && 0 <= x < sk.Size()
      ensures r == ChildrenMatch(sk, boxes, x, c)
    {
      var childs := sk.kids[x];
      for i := 0 to |childs|
        invariant forall m :: 0 <= m < i ==> Matches(boxes[childs[m]], c)
      {
        var k := childs[i];
        if boxes[k].Box? {
          if c.None? && boxes[k].indeterminate {
            // a match
          } else if c.Some? && boxes[k].checked == c.value {
            // a match
          } else {
            return false;
          }
        }
      }
      return true;
    }

    /**
     * setParentNodesChecked(x, c): aggregates the state `c` of `x` (None for
     * indeterminate) into the items above it.
     */
    method SetParentNodesChecked(x: int, c: Option<bool>)
      requires Fits(sk, boxes) && 0 <= x < sk.Size()
      modifies this
      ensures boxes == Climb(sk, old(boxes), x, c)
      ensures open == old(open) && selected == old(selected) && events == old(events)
      decreases x
    {
      if x == 0 || sk.parent[x] == 0 {
        return;  // no parent item
      }
      var parent := sk.parent[x];
      if c.None? {
        // indeterminate below, so indeterminate above
        if boxes[parent].Box? {
          boxes := boxes[parent := Box(false, true)];
        }
        assert boxes == old(boxes)[parent := Indeterminate(old(boxes)[parent])];
        SetParentNodesChecked(parent, None);
        return;
      }
      var childs := sk.kids[parent];  // the siblings of x, x included
      for i := 0 to |childs|
        invariant boxes == old(boxes)
        invariant open == old(open) && selected == old(selected) && events == old(events)
        invariant forall m :: 0 <= m < i ==>
                    if boxes[childs[m]].Box? then !boxes[childs[m]].indeterminate && boxes[childs[m]].checked == c.value
                    else ChildrenMatch(sk, boxes, childs[m], c)
      {
        var k := childs[i];
        var mismatch := false;
        if boxes[k].Box? {
          mismatch := boxes[k].indeterminate || boxes[k].checked != c.value;
        } else {
          var all := IsAllChildrenNodesCheckedStateMatch(k, c);
          mismatch := !all;
        }
        if mismatch {
          assert !SiblingsAgree(sk, boxes, parent, c.value);
          if boxes[parent].Box? && !boxes[parent].indeterminate {
            boxes := boxes[parent := Box(false, true)];
          }
          assert boxes == old(boxes)[parent := MarkIndeterminate(old(boxes)[parent])];
          SetParentNodesChecked(parent, None);
          return;
        }
      }
      assert SiblingsAgree(sk, boxes, parent, c.value);
      if boxes[parent].Box? && (boxes[parent].indeterminate || boxes[parent].checked != c.value) {
        boxes := boxes[parent := Box(c.value, false)];
      }
      assert boxes == old(boxes)[parent := Definite(old(boxes)[parent], c.value)];
      SetParentNodesChecked(parent, c);
    }

    /**
     * onCheckboxNodeClick: the browser has flipped the checkbox of `x` and
     * cleared its indeterminate flag; the change is propagated and reported.
     */
    method OnCheckboxClick(x: int)
      requires Valid() && 1 <= x < sk.Size() && boxes[x].Box?
      modifies this
      ensures Valid()
      ensures boxes == Clicked(sk, old(boxes), x, propagate)
      ensures boxes[x] == Box(!old(boxes)[x].checked, false)
      ensures events == old(events) + [Checked(x, !old(boxes)[x].checked)]
      ensures open == old(open) && selected == old(selected)
    {
      var c := !boxes[x].checked;
      boxes := boxes[x := Box(c, false)];
      if propagate {
        CascadeKeepsOk(sk, boxes, x, c);
        ClimbKeepsOk(sk, Cascaded(sk, boxes, x, c), x, Some(c));
        SetChildrenNodesChecked(x, c);
        SetParentNodesChecked(x, Some(c));
      }
      ClickedOwn(sk, old(boxes), x, propagate);
      events := events + [Checked(x, boxes[x].checked)];
    }

    /** setNodeChecked: silent, and a no-op for an element without a checkbox. */
    method SetNodeChecked(h: Handle, checked: bool)
      requires Valid() && HandleOk(h)
      modifies this
      ensures Valid()
      ensures boxes == if ItemOf(h).None? then old(boxes)
                       else CheckedBy(sk, old(boxes), ItemOf(h).value, checked, propagate)
      ensures open == old(open) && selected == old(selected) && events == old(events)
    {
      var item := ItemOf(h);
      if item.None? {
        return;
      }
      var x := item.value;
      if boxes[x].NoBox? {
        return;
      }
      boxes := boxes[x := Box(checked, if propagate then false else boxes[x].indeterminate)];
      if propagate {
        CascadeKeepsOk(sk, boxes, x, checked);
        ClimbKeepsOk(sk, Cascaded(sk, boxes, x, checked), x, Some(checked));
        SetChildrenNodesChecked(x, checked);
        SetParentNodesChecked(x, Some(checked));
      }
    }

    /**
     * setChecked(h, checked), `checked` defaulting to true: the checkbox of
     * the item reads `checked` afterwards and, with propagation on, so does
     * every checkbox below it.
     */
    method SetChecked(h: Handle, checked: Option<bool>)
      requires Valid() && HandleOk(h)
      modifies this
      ensures Valid()
      ensures var c := if checked.None? then true else checked.value;
              boxes == if ItemOf(h).None? then old(boxes)
                       else CheckedBy(sk, old(boxes), ItemOf(h).value, c, propagate)
      ensures var c := if checked.None? then true else checked.value;
              HasCheckbox(h) ==> IsChecked(h) == Some(c)
      ensures var c := if checked.None? then true else checked.value;
              propagate && HasCheckbox(h) ==>
                forall j :: 0 <= j < sk.Size() && ItemOf(h).value in Anc(sk, j) && boxes[j].Box? ==>
                  Reading(boxes[j]) == Some(c)
      ensures open == old(open) && selected == old(selected) && events == old(events)
    {
      var c := if checked.None? then true else checked.value;
      SetNodeChecked(h, c);
      if HasCheckbox(h) {
        var x := ItemOf(h).value;
        var bs := old(boxes)[x := Box(c, if propagate then false else old(boxes)[x].indeterminate)];
        if propagate {
          PropagatedShape(sk, bs, x, c, x);
          forall j | 0 <= j < sk.Size() && x in Anc(sk, j)
            ensures boxes[j] == Definite(bs[j], c)
          {
            PropagatedShape(sk, bs, x, c, j);
          }
        }
      }
    }

    /**
     * addCheckbox(h, checked): a new checkbox starts unchecked and is then
     * set to `checked` (default false); on an item that already has one,
     * only a given `checked` is applied. The container is not an item and
     * gets no checkbox (see AddCheckboxOnContainer for what the code does).
     */
    method AddCheckbox(h: Handle, checked: Option<bool>)
      requires Valid() && HandleOk(h)
      modifies this
      ensures Valid()
      ensures ItemOf(h).None? || ItemOf(h) == Some(0) ==> boxes == old(boxes)
      ensures ItemOf(h).Some? && ItemOf(h).value != 0 && old(boxes)[ItemOf(h).value].NoBox? ==>
                var x := ItemOf(h).value;
                var c := if checked.None? then false else checked.value;
                boxes == CheckedBy(sk, old(boxes)[x := Box(false, false)], x, c, propagate)
      ensures ItemOf(h).Some? && ItemOf(h).value != 0 && old(boxes)[ItemOf(h).value].Box? ==>
                boxes == if checked.None? then old(boxes)
                         else CheckedBy(sk, old(boxes), ItemOf(h).value, checked.value, propagate)
      ensures HasCheckbox(h) <==> ItemOf(h).Some? && ItemOf(h).value != 0
      ensures open == old(open) && selected == old(selected) && events == old(events)
    {
      var item := ItemOf(h);
      if item.None? || item.value == 0 {
        return;
      }
      var x := item.value;
      if boxes[x].NoBox? {
        boxes := boxes[x := Box(false, false)];
        var c := if checked.None? then false else checked.value;
        SetNodeChecked(h, c);
      } else if checked.Some? {
        SetNodeChecked(h, checked.value);
      }
      assert boxes[x].Box? by {
        var bs := old(boxes)[x := Box(false, false)];
        var c := if checked.None? then false else checked.value;
        if propagate {
          if old(boxes)[x].NoBox? {
            PropagatedShape(sk, bs[x := Box(c, false)], x, c, x);
          } else if checked.Some? {
            PropagatedShape(sk, old(boxes)[x := Box(checked.value, false)], x, checked.value, x);
          }
        }
      }
    }

    /** removeCheckbox: the item's checkbox disappears; nothing is propagated. */
    method RemoveCheckbox(h: Handle)
      requires Valid() && HandleOk(h)
      modifies this
      ensures Valid()
      ensures boxes == if ItemOf(h).None? then old(boxes) else old(boxes)[ItemOf(h).value := NoBox]
      ensures !HasCheckbox(h)
      ensures open == old(open) && selected == old(selected) && events == old(events)
    {
      var item := ItemOf(h);
      if item.None? {
        return;
      }
      var x := item.value;
      if boxes[x].NoBox? {
        return;
      }
      boxes := boxes[x := NoBox];
    }

    /**
     * walk(visit, root): no visitor gives false; a root that resolves to no
     * item gives true with nothing visited.
     */
    method Walk(visit: Option<int -> Signal>, root: Handle) returns (r: Walked)
      requires Valid() && HandleOk(root)
      ensures visit.None? ==> r == Walked(false, [])
      ensures visit.Some? && RootOf(root).None? ==> r == Walked(true, [])
      ensures visit.Some? && RootOf(root).Some? ==> r == WalkFrom(sk, visit.value, RootOf(root).value)
      ensures forall v :: v in r.visited ==> 0 < v < sk.Size()
      ensures forall v :: v in r.visited ==> RootOf(root).Some? && RootOf(root).value in Anc(sk, v)
    {
      if visit.None? {
        return Walked(false, []);
      }
      var x := RootOf(root);
      if x.None? {
        return Walked(true, []);
      }
      r := WalkSubTree(sk, visit.value, x.value);
      forall v | v in r.visited
        ensures x.value in Anc(sk, v)
      {
        WalkFromBelow(sk, visit.value, x.value, v);
      }
    }

    /**
     * getAllChecked(root): the walk below the root (the container when
     * null) collecting the items whose checkbox reads checked. With
     * propagation on, only the checked roots are returned; with it off,
     * every checked item.
     */
    method GetAllChecked(root: Handle) returns (r: seq<int>)
      requires Valid() && HandleOk(root)
      ensures RootOf(root).None? ==> r == []
      ensures RootOf(root).Some? ==> r == AllChecked(sk, boxes, propagate, RootOf(root).value)
      ensures forall v :: 0 <= v < sk.Size() ==>
                (v in r <==> && RootOf(root).Some? && RootOf(root).value in Anc(sk, v)
                             && Reading(boxes[v]) == Some(true)
                             && (propagate ==> PassThrough(sk, boxes, RootOf(root).value, v)))
      ensures Distinct(r)
      ensures RootOf(root).Some? ==> InOrder(r, WalkFrom(sk, CheckedVisitor(boxes, propagate), RootOf(root).value).visited)
    {
      var bs := boxes;
      var w := Walk(Some(CheckedVisitor(bs, propagate)), root);
      r := CollectChecked(w.visited, bs);
      if RootOf(root).Some? {
        var x := RootOf(root).value;
        AllCheckedInOrder(sk, bs, propagate, x);
        forall v | 0 <= v < sk.Size()
          ensures v in r <==> x in Anc(sk, v) && Reading(boxes[v]) == Some(true)
                              && (propagate ==> PassThrough(sk, boxes, x, v))
        {
          if propagate {
            AllCheckedRoots(sk, bs, x, v);
          } else {
            AllCheckedPlain(sk, bs, x, v);
          }
        }
      }
    }

    /** The collecting callback of getAllChecked, applied to each visited item in turn. */
    static method CollectChecked(vs: seq<int>, bs: seq<Box>) returns (r: seq<int>)
      ensures r == Keep(vs, CheckedIn(bs))
    {
      r := [];
      for i := 0 to |vs|
        invariant r == Keep(vs[..i], CheckedIn(bs))
      {
        assert vs[..i + 1][..i] == vs[..i];
        var v := vs[i];
        if 0 <= v < |bs| && Reading(bs[v]) == Some(true) {
          r := r + [v];
        }
      }
      assert vs[..|vs|] == vs;
    }

    /**
     * setAllChecked(checked, root), `checked` defaulting to true: every
     * checkbox below the root becomes definite `checked`; nothing is
     * propagated upwards and nothing outside the subtree changes.
     */
    method SetAllChecked(checked: Option<bool>, root: Handle)
      requires Valid() && HandleOk(root)
      modifies this
      ensures Valid()
      ensures var c := if checked.None? then true else checked.value;
              boxes == if RootOf(root).None? then old(boxes) else Cascaded(sk, old(boxes), RootOf(root).value, c)
      ensures RootOf(root).Some? ==>
                forall j :: 0 <= j < sk.Size() && RootOf(root).value !in Anc(sk, j) ==> boxes[j] == old(boxes)[j]
      ensures open == old(open) && selected == old(selected) && events == old(events)
    {
      var c := if checked.None? then true else checked.value;
      var w := Walk(Some(Everything()), root);
      ghost var bs := boxes;
      SetEach(w.visited, c);
      if RootOf(root).Some? {
        var x := RootOf(root).value;
        forall j | 0 <= j < |boxes|
          ensures j in w.visited <==> x in Anc(sk, j)
        {
          WalkFromVisits(sk, Everything(), x, j);
        }
        SetOverCascade(sk, bs, w.visited, x, c);
        CascadeKeepsOk(sk, bs, x, c);
      } else {
        assert boxes == bs;
      }
    }

    /** The callback of setAllChecked, applied to each visited item in turn. */
    method SetEach(vs: seq<int>, c: bool)
      requires forall v :: v in vs ==> 0 <= v < |boxes|
      modifies this
      ensures boxes == SetOver(old(boxes), vs, c)
      ensures open == old(open) && selected == old(selected) && events == old(events)
    {
      ghost var bs := boxes;
      assert bs == SetOver(bs, vs[..0], c);
      for i := 0 to |vs|
        invariant boxes == SetOver(bs, vs[..i], c)
        invariant open == old(open) && selected == old(selected) && events == old(events)
      {
        var v := vs[i];
        assert v in vs;
        assert vs[..i + 1] == vs[..i] + [v];
        SetOverStep(bs, vs[..i], v, c);
        if boxes[v].Box? {
          boxes := boxes[v := Box(c, false)];
        } else {
          assert boxes[v := Definite(bs[v], c)] == boxes;
        }
      }
      assert vs[..|vs|] == vs;
    }

    /**
     * getAllExpanded(root): the items below the root (the container when
     * null) that carry the open class, in document order, whether or not
     * they are visible. A line element contains no item.
     */
    function GetAllExpanded(root: Handle): (r: seq<int>)
      requires Valid() && HandleOk(root)
      reads this
      ensures forall v :: 0 <= v < sk.Size() ==>
                (v in r <==> && !root.Line? && RootOf(root).Some?
                             && RootOf(root).value in Anc(sk, v) && open[v] == Some(true))
      ensures Distinct(r)
      ensures !root.Line? && RootOf(root).Some? ==> InOrder(r, DocOrder(sk, RootOf(root).value))
    {
      if root.Line? || RootOf(root).None? then []
      else
        OpenBelowExactly(sk, open, RootOf(root).value);
        OpenBelowInOrder(sk, open, RootOf(root).value);
        OpenBelow(sk, open, RootOf(root).value)
    }

    /**
     * onTreeNodeListItemDomNodeClick on item `x`: an item with children
     * flips between open and collapsed and reports the new state.
     */
    method OnToggleClick(x: int)
      requires Valid() && 1 <= x < sk.Size()
      modifies this
      ensures Valid()
      ensures sk.kids[x] == [] ==> open == old(open) && events == old(events)
      ensures sk.kids[x] != [] ==>
                && open == old(open)[x := Some(old(open)[x] != Some(true))]
                && events == old(events) + [Toggled(x, old(open)[x] != Some(true))]
      ensures IsExpanded(Item(x)).Some? ==> IsExpanded(Item(x)) == Some(!old(IsExpanded(Item(x))).value)
      ensures boxes == old(boxes) && selected == old(selected)
    {
      if sk.kids[x] == [] {
        return;  // no children
      }
      if open[x] == Some(true) {
        open := open[x := Hidden(open[x])];
        events := events + [Toggled(x, false)];
      } else {
        open := open[x := Shown(open[x])];
        events := events + [Toggled(x, true)];
      }
    }

    /**
     * setExpanded(h, expanded), `expanded` defaulting to true: silent; an
     * item with children ends in the requested state. The container has
     * neither class, so it is never changed.
     */
    method SetExpanded(h: Handle, expanded: Option<bool>)
      requires Valid() && HandleOk(h)
      modifies this
      ensures Valid()
      ensures var e := if expanded.None? then true else expanded.value;
              var x := ItemOf(h);
              open == if x.Some? && x.value != 0 && sk.kids[x.value] != [] then old(open)[x.value := Some(e)]
                      else old(open)
      ensures var e := if expanded.None? then true else expanded.value;
              ItemOf(h).Some? && ItemOf(h).value != 0 ==> IsExpanded(h) == (if IsExpanded(h).Some? then Some(e) else None)
      ensures boxes == old(boxes) && selected == old(selected) && events == old(events)
    {
      var e := if expanded.None? then true else expanded.value;
      var item := ItemOf(h);
      if item.None? || sk.kids[item.value] == [] {
        return;  // no children
      }
      var x := item.value;
      var expandedNow := open[x] == Some(true);
      if expandedNow == e {
        if x != 0 {
          assert open[x].Some?;
          if open[x].value {
            assert e;
          } else {
            assert !e;
          }
          assert open[x] == Some(e);
          assert open[x := Some(e)] == open;
        }
        return;  // nothing to do
      }
      if !e {
        open := open[x := Hidden(open[x])];
      } else {
        open := open[x := Shown(open[x])];
      }
      assert x == 0 ==> open == old(open);
    }

    /** showExpandPath(h): every item above the item of `h` is opened, so that it can be seen. */
    method ShowExpandPath(h: Handle)
      requires Valid() && HandleOk(h)
      modifies this
      ensures Valid()
      ensures |open| == |old(open)|
      ensures forall j :: 0 <= j < |open| ==>
                open[j] == if ItemOf(h).Some? && j in ItemAnc(sk, ItemOf(h).value) then Some(true) else old(open)[j]
      ensures boxes == old(boxes) && selected == old(selected) && events == old(events)
      decreases if ItemOf(h).Some? then ItemOf(h).value else 0
    {
      if h.Null? {
        return;
      }
      var parent := ParentOf(h);
      if parent.None? {
        return;
      }
      var p := parent.value;
      if open[p] != Some(true) {
        open := open[p := Shown(open[p])];
      }
      ShowExpandPath(Item(p));
    }

    /** clearSelected. */
    method ClearSelected()
      requires Valid()
      modifies this
      ensures Valid()
      ensures selected == Cleared(old(selected))
      ensures selected[0] == old(selected)[0] && forall j :: 1 <= j < |selected| ==> !selected[j]
      ensures boxes == old(boxes) && open == old(open) && events == old(events)
    {
      var s := FirstSelected(selected, 1);
      if s.Some? {
        selected := selected[s.value := false];
      }
      ClearedNone(old(selected));
    }

    /**
     * setSelected(h): silent; null, or an element outside the tree, clears
     * the selection; an already selected item is left alone; otherwise the
     * item becomes the only selected one.
     */
    method SetSelected(h: Handle)
      requires Valid() && HandleOk(h)
      modifies this
      ensures Valid()
      ensures ItemOf(h).None? ==> selected == Cleared(old(selected))
      ensures ItemOf(h).Some? && old(selected)[ItemOf(h).value] ==> selected == old(selected)
      ensures ItemOf(h).Some? && !old(selected)[ItemOf(h).value] ==>
                selected == Cleared(old(selected))[ItemOf(h).value := true]
      ensures ItemOf(h).Some? ==> selected[ItemOf(h).value]
      ensures boxes == old(boxes) && open == old(open) && events == old(events)
    {
      var item := ItemOf(h);
      if item.None? {
        ClearSelected();
        return;
      }
      var x := item.value;
      if selected[x] {
        return;  // already selected
      }
      ClearSelected();
      selected := selected[x := true];
    }

    /**
     * A click on the line of item `x`. With selection on, the line's
     * handler (onLineNodeClick) selects the item and reports it; with it
     * off the line has no handler and the click reaches the item's own
     * handler, which toggles it.
     */
    method OnLineClick(x: int)
      requires Valid() && 1 <= x < sk.Size()
      modifies this
      ensures Valid()
      ensures !selectable ==> selected == old(selected) && boxes == old(boxes)
      ensures !selectable && sk.kids[x] == [] ==> open == old(open) && events == old(events)
      ensures !selectable && sk.kids[x] != [] ==>
                && open == old(open)[x := Some(old(open)[x] != Some(true))]
                && events == old(events) + [Toggled(x, old(open)[x] != Some(true))]
      ensures selectable && old(selected)[x] ==> selected == old(selected) && events == old(events)
      ensures selectable && !old(selected)[x] ==>
                selected == Cleared(old(selected))[x := true] && events == old(events) + [Selected(x)]
      ensures selectable ==> open == old(open) && boxes == old(boxes)
    {
      if !selectable {
        OnToggleClick(x);
        return;
      }
      if selected[x] {
        return;  // already selected
      }
      ClearSelected();
      selected := selected[x := true];
      events := events + [Selected(x)];
    }
  }

  /**
   * setAllChecked(checked, root) as written: the walk it performs is started
   * without the root it was given, so every checkbox of the whole tree is
   * set, whatever the root.
   */
  function SetAllCheckedAsWritten(sk: Skeleton, bs: seq<Box>, c: bool, root: int): (r: seq<Box>)
    requires Fits(sk, bs) && 0 <= root < sk.Size()
    ensures |r| == |bs| && r[0] == bs[0]
    ensures forall j :: 1 <= j < |bs| ==> r[j] == Definite(bs[j], c)
  {
    Cascaded(sk, bs, 0, c)
  }

  /**
   * In the tree A(B, C), setting all checked below B also checks B's
   * sibling C, which lies outside the subtree of B.
   */
  lemma SetAllCheckedLeaksOutside()
    ensures SiblingsTree().Valid()
    ensures var sk := SiblingsTree();
            var bs := [NoBox, Box(false, false), Box(false, false), Box(false, false)];
            && 2 !in Anc(sk, 3)
            && SetAllCheckedAsWritten(sk, bs, true, 2)[3] == Box(true, false)
            && Cascaded(sk, bs, 2, true)[3] == Box(false, false)
  {
    SiblingsTreeValid();
    var sk := SiblingsTree();
    assert Anc(sk, 3) == {1, 0} by {
      assert Anc(sk, 1) == {0};
    }
  }

  /**
   * The DOM around the top-level list after addCheckbox has been applied to
   * the container, as written: the container resolves as an item, its first
   * child (the top-level UL) is taken for its line, and the new INPUT is
   * inserted into that list before the first top-level LI. An empty forest
   * leaves the container without a UL, and then no INPUT is added.
   */
  datatype Element = Container | StrayInput | Li(i: int)

  predicate ElementOk(sk: Skeleton, e: Element) {
    sk.Valid() && (e.Li? ==> 1 <= e.i < sk.Size())
  }

  /** The top-level list with the stray INPUT in front; nothing for an empty forest. */
  function TopListWithInput(sk: Skeleton): (r: seq<Element>)
    requires sk.Valid()
    ensures sk.kids[0] == [] ==> r == []
    ensures sk.kids[0] != [] ==> |r| == |sk.kids[0]| + 1 && r[0] == StrayInput
    ensures forall e :: e in r ==> ElementOk(sk, e)
  {
    if sk.kids[0] == [] then []
    else [StrayInput] + seq(|sk.kids[0]|, i requires 0 <= i < |sk.kids[0]| => Li(sk.kids[0][i]))
  }

  /**
   * getTreeItemDomNode on an element: an LI is its own item; the INPUT is no
   * item and its parent (the UL) is none either, but its grandparent is the
   * container, so it resolves to index 0.
   */
  function ItemOfElement(e: Element): int {
    match e
    case Container => 0
    case StrayInput => 0
    case Li(i) => i
  }

  /**
   * The elements setChildrenNodesChecked calls itself on, in order: every
   * element of getTreeChildrenDomNodesList (with propagation through items
   * without a checkbox, that is all of them). For the container and for
   * anything resolving to it, that list is the top-level list.
   */
  function CascadeCalls(sk: Skeleton, e: Element): (r: seq<Element>)
    requires ElementOk(sk, e)
    ensures forall c :: c in r ==> ElementOk(sk, c)
  {
    var x := ItemOfElement(e);
    if x == 0 then TopListWithInput(sk)
    else seq(|sk.kids[x]|, i requires 0 <= i < |sk.kids[x]| => Li(sk.kids[x][i]))
  }

  /** The element handled at nesting depth `n`, following the first call each time, from the container. */
  function FirstCallAt(sk: Skeleton, n: nat): (e: Element)
    requires sk.Valid()
    ensures ElementOk(sk, e)
  {
    if n == 0 then Container
    else
      var prev := FirstCallAt(sk, n - 1);
      var calls := CascadeCalls(sk, prev);
      if calls == [] then prev else calls[0]
  }

  /**
   * addCheckbox on the container, as written, with propagation on. For a
   * non-empty forest the cascade from the container first calls itself on
   * the stray INPUT, whose own first call is on the INPUT again, at every
   * depth: the recursion only stops when the JavaScript stack overflows,
   * and a later walk from the container descends the same way. For an
   * empty forest no INPUT is added and there is nothing to descend into.
   */
  lemma {:induction false} AddCheckboxOnContainerLoops(sk: Skeleton, n: nat)
    requires sk.Valid()
    ensures sk.kids[0] == [] ==> CascadeCalls(sk, Container) == []
    ensures sk.kids[0] != [] ==> CascadeCalls(sk, StrayInput) == CascadeCalls(sk, Container)
    ensures sk.kids[0] != [] && n >= 1 ==> FirstCallAt(sk, n) == StrayInput
  {
    if n > 1 {
      AddCheckboxOnContainerLoops(sk, n - 1);
    }
  }
}
