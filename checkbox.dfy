/**
 * The checkbox tri-state engine, stated on values: a skeleton and the
 * sequence of checkbox states indexed by item. The widget's methods
 * (module Widget) are proved to compute exactly these functions.
 *
 * Propagation through items without a checkbox is always on here: the
 * switch PROPAGATE_CHECK_VIA_NODES_WITHOUT_CHECKBOX is a constant `true`.
 */
module Checkboxes {
  import opened Options
  import opened Skeletons

  /** The checkbox of an item: absent, or present with its two DOM flags. */
  datatype Box = NoBox | Box(checked: bool, indeterminate: bool)

  predicate Fits(sk: Skeleton, bs: seq<Box>)
    ensures Fits(sk, bs) ==> sk.Valid() && |bs| == |sk.parent| == |sk.kids|
  {
    sk.Valid() && |bs| == sk.Size()
  }

  /**
   * The states the widget ever stores: the mega-root has no checkbox, and an
   * indeterminate checkbox is always stored unchecked.
   */
  predicate BoxesOk(sk: Skeleton, bs: seq<Box>) {
    && Fits(sk, bs)
    && bs[0] == NoBox
    && (forall j :: 0 <= j < |bs| && bs[j].Box? && bs[j].indeterminate ==> !bs[j].checked)
  }

  /** setCheckboxChecked(cb, c) followed by setCheckboxIndeterminate(cb, false). */
  function Definite(b: Box, c: bool): Box {
    if b.Box? then Box(c, false) else NoBox
  }

  /** setCheckboxChecked(cb, false) followed by setCheckboxIndeterminate(cb, true). */
  function Indeterminate(b: Box): Box {
    if b.Box? then Box(false, true) else NoBox
  }

  /** The same two calls, guarded by "not already indeterminate". */
  function MarkIndeterminate(b: Box): Box {
    if b.Box? && !b.indeterminate then Box(false, true) else b
  }

  /** The value `isChecked` reports for a checkbox state: null when absent or indeterminate. */
  function Reading(b: Box): Option<bool> {
    if b.NoBox? || b.indeterminate then None else Some(b.checked)
  }

  /** A child's checkbox as `isAllChildrenNodesCheckedStateMatch` judges it (an absent one always matches). */
  predicate Matches(b: Box, c: Option<bool>) {
    b.NoBox? || (c.None? && b.indeterminate) || (c.Some? && b.checked == c.value)
  }

  /**
   * isAllChildrenNodesCheckedStateMatch: only the direct children of `x`
   * that carry a checkbox are inspected. A definite child matches exactly
   * the value it reads; an indeterminate child, stored unchecked, matches
   * `null` and also `false`, but never `true`.
   */
  function ChildrenMatch(sk: Skeleton, bs: seq<Box>, x: int, c: Option<bool>): (r: bool)
    requires Fits(sk, bs) && 0 <= x < sk.Size()
    ensures BoxesOk(sk, bs) ==>
              (r <==> forall k :: k in sk.kids[x] && bs[k].Box? ==>
                        if bs[k].indeterminate then c != Some(true) else Reading(bs[k]) == c)
  {
    forall k :: k in sk.kids[x] ==> Matches(bs[k], c)
  }

  /**
   * The sibling test of the definite climb: every child of `p` that has a
   * checkbox is definite and equal to `c`, and every child without one has
   * its own children match `c`.
   */
  predicate SiblingsAgree(sk: Skeleton, bs: seq<Box>, p: int, c: bool)
    requires Fits(sk, bs) && 0 <= p < sk.Size()
  {
    forall k :: k in sk.kids[p] ==>
      if bs[k].Box? then !bs[k].indeterminate && bs[k].checked == c
      else ChildrenMatch(sk, bs, k, Some(c))
  }

  /**
   * setChildrenNodesChecked(x, c): every checkbox strictly below `x` becomes
   * definite `c`, passing through items without a checkbox.
   */
  function Cascaded(sk: Skeleton, bs: seq<Box>, x: int, c: bool): (r: seq<Box>)
    requires Fits(sk, bs) && 0 <= x < sk.Size()
    ensures |r| == |bs|
  {
    seq(|bs|, j requires 0 <= j < |bs| => if x in Anc(sk, j) then Definite(bs[j], c) else bs[j])
  }

  /**
   * setParentNodesChecked(x, c): the upward aggregation from `x`, with `c`
   * the state `x` reports (None for indeterminate).
   */
  function Climb(sk: Skeleton, bs: seq<Box>, x: int, c: Option<bool>): (r: seq<Box>)
    requires Fits(sk, bs) && 0 <= x < sk.Size()
    ensures |r| == |bs|
    decreases x
  {
    if x == 0 || sk.parent[x] == 0 then bs  // no parent item: top level, or the mega-root itself
    else
      var p := sk.parent[x];
      if c.None? then Climb(sk, bs[p := Indeterminate(bs[p])], p, None)
      else if SiblingsAgree(sk, bs, p, c.value) then Climb(sk, bs[p := Definite(bs[p], c.value)], p, c)
      else Climb(sk, bs[p := MarkIndeterminate(bs[p])], p, None)
  }

  /** The upward aggregation changes only the items above `x`. */
  lemma {:induction false} ClimbFrame(sk: Skeleton, bs: seq<Box>, x: int, c: Option<bool>, j: int)
    requires Fits(sk, bs) && 0 <= x < sk.Size() && 0 <= j < |bs|
    requires j !in ItemAnc(sk, x)
    ensures Climb(sk, bs, x, c)[j] == bs[j]
    decreases x
  {
    if x != 0 && sk.parent[x] != 0 {
      var p := sk.parent[x];
      assert j != p;
      if c.None? {
        ClimbFrame(sk, bs[p := Indeterminate(bs[p])], p, None, j);
      } else if SiblingsAgree(sk, bs, p, c.value) {
        ClimbFrame(sk, bs[p := Definite(bs[p], c.value)], p, c, j);
      } else {
        ClimbFrame(sk, bs[p := MarkIndeterminate(bs[p])], p, None, j);
      }
    }
  }

  /**
   * The indeterminate climb: every item above `x` that has a checkbox becomes
   * indeterminate (stored unchecked), everything else is unchanged.
   */
  lemma {:induction false} ClimbIndeterminate(sk: Skeleton, bs: seq<Box>, x: int, j: int)
    requires Fits(sk, bs) && 0 <= x < sk.Size() && 0 <= j < |bs|
    ensures Climb(sk, bs, x, None)[j] == if j in ItemAnc(sk, x) then Indeterminate(bs[j]) else bs[j]
    decreases x
  {
    if x == 0 || sk.parent[x] == 0 {
    } else {
      var p := sk.parent[x];
      ClimbIndeterminate(sk, bs[p := Indeterminate(bs[p])], p, j);
      if j == p {
        ClimbFrame(sk, bs[p := Indeterminate(bs[p])], p, None, j);
      }
    }
  }

  /**
   * The definite climb, one level: the parent of `x` becomes definite `c`
   * exactly when its children agree with `c`, and otherwise indeterminate, in
   * which case every item above the parent is made indeterminate as well.
   */
  lemma ClimbDefinite(sk: Skeleton, bs: seq<Box>, x: int, c: bool)
    requires Fits(sk, bs) && 1 <= x < sk.Size() && sk.parent[x] != 0
    ensures var p := sk.parent[x];
            var r := Climb(sk, bs, x, Some(c));
            && (SiblingsAgree(sk, bs, p, c) ==> r[p] == Definite(bs[p], c))
            && (!SiblingsAgree(sk, bs, p, c) ==> r[p] == MarkIndeterminate(bs[p]))
            && (!SiblingsAgree(sk, bs, p, c) ==>
                  forall a :: a in ItemAnc(sk, p) ==> r[a] == Indeterminate(bs[a]))
  {
    var p := sk.parent[x];
    var bs' := if SiblingsAgree(sk, bs, p, c) then bs[p := Definite(bs[p], c)]
               else bs[p := MarkIndeterminate(bs[p])];
    ClimbFrame(sk, bs', p, if SiblingsAgree(sk, bs, p, c) then Some(c) else None, p);
    if !SiblingsAgree(sk, bs, p, c) {
      forall a | a in ItemAnc(sk, p)
        ensures Climb(sk, bs', p, None)[a] == Indeterminate(bs[a])
      {
        ClimbIndeterminate(sk, bs', p, a);
      }
    }
  }

  /** Both propagation directions keep the stored states well formed. */
  lemma CascadeKeepsOk(sk: Skeleton, bs: seq<Box>, x: int, c: bool)
    requires BoxesOk(sk, bs) && 0 <= x < sk.Size()
    ensures BoxesOk(sk, Cascaded(sk, bs, x, c))
  {
  }

  lemma {:induction false} ClimbKeepsOk(sk: Skeleton, bs: seq<Box>, x: int, c: Option<bool>)
    requires BoxesOk(sk, bs) && 0 <= x < sk.Size()
    ensures BoxesOk(sk, Climb(sk, bs, x, c))
    decreases x
  {
    if x != 0 && sk.parent[x] != 0 {
      var p := sk.parent[x];
      if c.None? {
        ClimbKeepsOk(sk, bs[p := Indeterminate(bs[p])], p, None);
      } else if SiblingsAgree(sk, bs, p, c.value) {
        ClimbKeepsOk(sk, bs[p := Definite(bs[p], c.value)], p, c);
      } else {
        ClimbKeepsOk(sk, bs[p := MarkIndeterminate(bs[p])], p, None);
      }
    }
  }

  /**
   * The whole pipeline after the state of the checkbox of `x` has become
   * definite `c`: when propagation is on, cascade down from `x`, then
   * aggregate up from `x`.
   */
  function Propagated(sk: Skeleton, bs: seq<Box>, x: int, c: bool, propagate: bool): (r: seq<Box>)
    requires Fits(sk, bs) && 0 <= x < sk.Size()
    ensures |r| == |bs|
  {
    if propagate then Climb(sk, Cascaded(sk, bs, x, c), x, Some(c)) else bs
  }

  /**
   * A user click on the checkbox of `x`: the browser flips `checked` and
   * clears `indeterminate`, then onCheckboxNodeClick propagates.
   */
  function Clicked(sk: Skeleton, bs: seq<Box>, x: int, propagate: bool): (r: seq<Box>)
    requires Fits(sk, bs) && 0 <= x < sk.Size() && bs[x].Box?
    ensures |r| == |bs|
  {
    var c := !bs[x].checked;
    Propagated(sk, bs[x := Box(c, false)], x, c, propagate)
  }

  /**
   * setNodeChecked(x, c): nothing without a checkbox; otherwise `checked`
   * is set, `indeterminate` cleared only when propagation is on, and the
   * change propagated.
   */
  function CheckedBy(sk: Skeleton, bs: seq<Box>, x: int, c: bool, propagate: bool): (r: seq<Box>)
    requires Fits(sk, bs) && 0 <= x < sk.Size()
    ensures |r| == |bs|
  {
    if bs[x].NoBox? then bs
    else Propagated(sk, bs[x := Box(c, if propagate then false else bs[x].indeterminate)], x, c, propagate)
  }

  /**
   * What a propagated change of `x` to `c` does: every checkbox below `x`
   * becomes definite `c`, `x` itself is left as it was, and nothing outside
   * the subtree of `x` and the items above it changes.
   */
  lemma PropagatedShape(sk: Skeleton, bs: seq<Box>, x: int, c: bool, j: int)
    requires Fits(sk, bs) && 0 <= x < sk.Size() && 0 <= j < |bs|
    ensures var r := Propagated(sk, bs, x, c, true);
            && (x in Anc(sk, j) ==> r[j] == Definite(bs[j], c))
            && (j == x ==> r[j] == bs[j])
            && (x !in Anc(sk, j) && j !in ItemAnc(sk, x) ==> r[j] == bs[j])
  {
    var cs := Cascaded(sk, bs, x, c);
    if j !in ItemAnc(sk, x) {
      ClimbFrame(sk, cs, x, Some(c), j);
    }
  }

  /** After a click, the clicked checkbox is definite and flipped, whatever the mode. */
  lemma ClickedOwn(sk: Skeleton, bs: seq<Box>, x: int, propagate: bool)
    requires Fits(sk, bs) && 0 <= x < sk.Size() && bs[x].Box?
    ensures Clicked(sk, bs, x, propagate)[x] == Box(!bs[x].checked, false)
  {
    if propagate {
      PropagatedShape(sk, bs[x := Box(!bs[x].checked, false)], x, !bs[x].checked, x);
    }
  }

  /** Two siblings under a common parent, each item with a checkbox: A = 1 > [B = 2, C = 3]. */
  function SiblingsTree(): Skeleton {
    Skeleton([-1, 0, 1, 1], [[1], [2, 3], [], []])
  }

  /**
   * Checking B makes A indeterminate; checking C afterwards makes A checked.
   */
  lemma SiblingsTreeValid()
    ensures SiblingsTree().Valid()
  {
    var sk := SiblingsTree();
    assert forall x :: 0 <= x < 4 ==> Increasing(sk.kids[x]);
  }

  lemma SiblingsScenario()
    ensures SiblingsTree().Valid()
    ensures var sk := SiblingsTree();
            var bs0 := [NoBox, Box(false, false), Box(false, false), Box(false, false)];
            var bs1 := Clicked(sk, bs0, 2, true);
            var bs2 := Clicked(sk, bs1, 3, true);
            && bs1 == [NoBox, Box(false, true), Box(true, false), Box(false, false)]
            && bs2 == [NoBox, Box(true, false), Box(true, false), Box(true, false)]
  {
    SiblingsTreeValid();
    var sk := SiblingsTree();
    var bs0 := [NoBox, Box(false, false), Box(false, false), Box(false, false)];
    var b := [NoBox, Box(false, false), Box(true, false), Box(false, false)];
    var bs1 := [NoBox, Box(false, true), Box(true, false), Box(false, false)];
    assert bs0[2 := Box(true, false)] == b;
    LeafCascade(sk, b, 2, true);
    ClimbMismatch(sk, b);
    assert Clicked(sk, bs0, 2, true) == bs1;
    var b' := [NoBox, Box(false, true), Box(true, false), Box(true, false)];
    var bs2 := [NoBox, Box(true, false), Box(true, false), Box(true, false)];
    assert bs1[3 := Box(true, false)] == b';
    LeafCascade(sk, b', 3, true);
    ClimbMatch(sk, b');
  }

  lemma ClimbMismatch(sk: Skeleton, b: seq<Box>)
    requires sk == SiblingsTree() && sk.Valid()
    requires b == [NoBox, Box(false, false), Box(true, false), Box(false, false)]
    ensures Climb(sk, b, 2, Some(true)) == [NoBox, Box(false, true), Box(true, false), Box(false, false)]
  {
    assert !SiblingsAgree(sk, b, 1, true) by { assert 3 in sk.kids[1]; }
  }

  lemma ClimbMatch(sk: Skeleton, b: seq<Box>)
    requires sk == SiblingsTree() && sk.Valid()
    requires b == [NoBox, Box(false, true), Box(true, false), Box(true, false)]
    ensures Climb(sk, b, 3, Some(true)) == [NoBox, Box(true, false), Box(true, false), Box(true, false)]
  {
    assert SiblingsAgree(sk, b, 1, true);
  }

  /** Cascading from an item without children changes nothing. */
  lemma LeafCascade(sk: Skeleton, bs: seq<Box>, x: int, c: bool)
    requires Fits(sk, bs) && 0 <= x < sk.Size() && sk.kids[x] == []
    ensures Cascaded(sk, bs, x, c) == bs
  {
    forall j | 0 <= j < |bs| ensures x !in Anc(sk, j) {
      if x in Anc(sk, j) {
        var t := Top(sk, x, j);
        assert false;
      }
    }
  }
}
