/**
 * The rendered items as they sit in the container, numbered in document
 * (pre-)order: index 0 is the container itself, every other index one LI.
 * This is the shape every later operation of the widget works on.
 */
module Flattening {
  import opened Options
  import opened Skeletons
  import opened Materialize

  /** The numbered items: parent links, ordered child lists and each index's rendered item. */
  datatype Flat = Flat(parent: seq<int>, kids: seq<seq<int>>, item: seq<RItem>)

  ghost predicate Partial(f: Flat) {
    Skeleton(f.parent, f.kids).Valid() && |f.item| == |f.parent|
  }

  /** Number of items in a rendered subtree. */
  function Count(r: RItem): nat
    decreases r, 1
  {
    1 + CountList(r.kids)
  }

  function CountList(rs: seq<RItem>): nat
    decreases rs, 0
  {
    if rs == [] then 0 else Count(rs[0]) + CountList(rs[1..])
  }

  /** An item has an expand state exactly when it has children, all the way down. */
  ghost predicate Coherent(r: RItem) {
    (r.open.Some? <==> r.kids != []) && forall k :: k in r.kids ==> Coherent(k)
  }

  /** The child list of index `x` holds the indexes of its item's children, in order. */
  ghost predicate Mirrors(f: Flat, x: int)
    requires Partial(f) && 0 <= x < |f.parent|
  {
    && |f.kids[x]| == |f.item[x].kids|
    && forall i :: 0 <= i < |f.kids[x]| ==> f.item[f.kids[x][i]] == f.item[x].kids[i]
  }

  /** Every index from `lo` on is complete: mirrored and coherent. */
  ghost predicate Done(f: Flat, lo: int)
    requires Partial(f)
  {
    forall x :: 0 <= lo <= x < |f.parent| ==> Mirrors(f, x) && Coherent(f.item[x])
  }

  /** `g` grew from `f` by appending indexes and extending only the child list of `p`. */
  ghost predicate Extends(f: Flat, g: Flat, p: int)
    requires Partial(f) && Partial(g) && 0 <= p < |f.parent|
  {
    && |f.parent| <= |g.parent|
    && g.parent[..|f.parent|] == f.parent
    && g.item[..|f.parent|] == f.item
    && (forall x :: 0 <= x < |f.parent| && x != p ==> g.kids[x] == f.kids[x])
    && |f.kids[p]| <= |g.kids[p]| && g.kids[p][..|f.kids[p]|] == f.kids[p]
  }

  /** Appends one index holding `r` as the last child of `p`, with no children yet. */
  function Attach(f: Flat, r: RItem, p: int): (g: Flat)
    requires Partial(f) && 0 <= p < |f.parent|
    ensures Partial(g) && Extends(f, g, p)
    ensures |g.parent| == |f.parent| + 1 && g.item[|f.parent|] == r && g.kids[|f.parent|] == []
    ensures g.kids[p] == f.kids[p] + [|f.parent|]
  {
    var n := |f.parent|;
    var g := Flat(f.parent + [p], f.kids[p := f.kids[p] + [n]] + [[]], f.item + [r]);
    AttachValid(f, p);
    assert g.parent[..n] == f.parent && g.item[..n] == f.item;
    assert g.kids[p][..|f.kids[p]|] == f.kids[p];
    g
  }

  lemma AttachValid(f: Flat, p: int)
    requires Partial(f) && 0 <= p < |f.parent|
    ensures var n := |f.parent|;
            Skeleton(f.parent + [p], f.kids[p := f.kids[p] + [n]] + [[]]).Valid()
  {
    var n := |f.parent|;
    var parent := f.parent + [p];
    var kids := f.kids[p := f.kids[p] + [n]] + [[]];
    forall x, i | 0 <= x < |kids| && 0 <= i < |kids[x]|
      ensures 1 <= kids[x][i] < |parent| && parent[kids[x][i]] == x
    {
      if x == p && i == |f.kids[p]| {
      } else if x < n {
        assert kids[x][i] == f.kids[x][i];
      }
    }
    forall j | 1 <= j < |parent|
      ensures j in kids[parent[j]]
    {
      if j < n {
        assert j in f.kids[f.parent[j]];
      }
    }
    forall x | 0 <= x < |kids|
      ensures Increasing(kids[x])
    {
      if x == p {
        forall i | 0 <= i < |f.kids[p]|
          ensures f.kids[p][i] < n
        {
        }
      }
    }
  }

  /** Places `r` and its whole subtree after the indexes of `f`, as the last child of `p`. */
  function Place(f: Flat, r: RItem, p: int): (g: Flat)
    requires Partial(f) && 0 <= p < |f.parent| && Coherent(r)
    ensures Partial(g) && Extends(f, g, p)
    ensures |g.parent| == |f.parent| + Count(r)
    ensures |g.kids[p]| == |f.kids[p]| + 1 && g.kids[p][|f.kids[p]|] == |f.parent|
    ensures g.item[|f.parent|] == r
    ensures Done(g, |f.parent|)
    decreases r, 1
  {
    var n := |f.parent|;
    var f1 := Attach(f, r, p);
    var g := PlaceList(f1, r.kids, n);
    PlaceFacts(f, f1, g, r, p);
    g
  }

  /** What placing `r` after `f` establishes, once its children have been placed. */
  lemma PlaceFacts(f: Flat, f1: Flat, g: Flat, r: RItem, p: int)
    requires Partial(f) && 0 <= p < |f.parent| && Coherent(r)
    requires f1 == Attach(f, r, p)
    requires Partial(g) && Extends(f1, g, |f.parent|)
    requires |g.parent| == |f1.parent| + CountList(r.kids)
    requires |g.kids[|f.parent|]| == |f1.kids[|f.parent|]| + |r.kids|
    requires forall i :: 0 <= i < |r.kids| ==> g.item[g.kids[|f.parent|][|f1.kids[|f.parent|]| + i]] == r.kids[i]
    requires Done(g, |f1.parent|)
    ensures Extends(f, g, p)
    ensures |g.parent| == |f.parent| + Count(r)
    ensures |g.kids[p]| == |f.kids[p]| + 1 && g.kids[p][|f.kids[p]|] == |f.parent|
    ensures g.item[|f.parent|] == r
    ensures Done(g, |f.parent|)
  {
    var n := |f.parent|;
    assert f1.kids[n] == [] && f1.item[n] == r;
    assert forall i :: 0 <= i < |r.kids| ==> g.item[g.kids[n][i]] == r.kids[i] by {
      assert forall i :: 0 <= i < |r.kids| ==> g.kids[n][|f1.kids[n]| + i] == g.kids[n][i];
    }
    ExtendsTrans(f, f1, g, p, n);
    assert g.item[n] == g.item[..n + 1][n];
    DoneOne(f1, g, n);
  }

  /** Places the subtrees `rs` in order, each as the next child of `p`. */
  function PlaceList(f: Flat, rs: seq<RItem>, p: int): (g: Flat)
    requires Partial(f) && 0 <= p < |f.parent| && forall k :: k in rs ==> Coherent(k)
    ensures Partial(g) && Extends(f, g, p)
    ensures |g.parent| == |f.parent| + CountList(rs)
    ensures |g.kids[p]| == |f.kids[p]| + |rs|
    ensures forall i :: 0 <= i < |rs| ==> g.item[g.kids[p][|f.kids[p]| + i]] == rs[i]
    ensures Done(g, |f.parent|)
    decreases rs, 0
  {
    if rs == [] then
      assert f.parent[..|f.parent|] == f.parent && f.item[..|f.parent|] == f.item;
      assert f.kids[p][..|f.kids[p]|] == f.kids[p];
      f
    else
      var f2 := Place(f, rs[0], p);
      assert forall k :: k in rs[1..] ==> k in rs;
      var g := PlaceList(f2, rs[1..], p);
      PlaceListStep(f, f2, g, p, rs);
      g
  }

  /** Placing the first subtree, then the rest, places the whole list. */
  lemma PlaceListStep(f: Flat, f2: Flat, g: Flat, p: int, rs: seq<RItem>)
    requires Partial(f) && 0 <= p < |f.parent| && rs != []
    requires Partial(f2) && Extends(f, f2, p) && |f2.parent| == |f.parent| + Count(rs[0])
    requires |f2.kids[p]| == |f.kids[p]| + 1 && f2.kids[p][|f.kids[p]|] == |f.parent|
    requires f2.item[|f.parent|] == rs[0] && Done(f2, |f.parent|)
    requires Partial(g) && Extends(f2, g, p) && |g.parent| == |f2.parent| + CountList(rs[1..])
    requires |g.kids[p]| == |f2.kids[p]| + |rs[1..]|
    requires forall i :: 0 <= i < |rs[1..]| ==> g.item[g.kids[p][|f2.kids[p]| + i]] == rs[1..][i]
    requires Done(g, |f2.parent|)
    ensures Extends(f, g, p)
    ensures |g.parent| == |f.parent| + CountList(rs)
    ensures |g.kids[p]| == |f.kids[p]| + |rs|
    ensures forall i :: 0 <= i < |rs| ==> g.item[g.kids[p][|f.kids[p]| + i]] == rs[i]
    ensures Done(g, |f.parent|)
  {
    assert CountList(rs) == Count(rs[0]) + CountList(rs[1..]);
    ExtendsSame(f, f2, g, p);
    DoneKept(f2, g, p, |f.parent|);
    PlaceListFirst(f, f2, g, p, rs);
  }

  lemma ExtendsSame(f: Flat, f2: Flat, g: Flat, p: int)
    requires Partial(f) && Partial(f2) && Partial(g) && 0 <= p < |f.parent|
    requires Extends(f, f2, p) && Extends(f2, g, p)
    ensures Extends(f, g, p)
  {
    var n := |f.parent|;
    assert g.parent[..n] == g.parent[..|f2.parent|][..n];
    assert g.item[..n] == g.item[..|f2.parent|][..n];
    assert g.kids[p][..|f.kids[p]|] == g.kids[p][..|f2.kids[p]|][..|f.kids[p]|];
  }

  lemma ExtendsTrans(f: Flat, f1: Flat, g: Flat, p: int, n: int)
    requires Partial(f) && Partial(f1) && Partial(g) && 0 <= p < |f.parent|
    requires n == |f.parent| && |f1.parent| == n + 1
    requires Extends(f, f1, p) && Extends(f1, g, n)
    ensures Extends(f, g, p)
    ensures g.kids[p] == f1.kids[p]
  {
    assert g.parent[..n] == g.parent[..n + 1][..n];
    assert g.item[..n] == g.item[..n + 1][..n];
  }

  /** The index placed last by Attach is complete once its children are placed. */
  lemma DoneOne(f1: Flat, g: Flat, n: int)
    requires Partial(f1) && Partial(g) && 0 <= n < |f1.parent| == n + 1
    requires f1.kids[n] == [] && Coherent(f1.item[n])
    requires Extends(f1, g, n)
    requires |g.kids[n]| == |f1.item[n].kids|
    requires forall i :: 0 <= i < |f1.item[n].kids| ==> g.item[g.kids[n][i]] == f1.item[n].kids[i]
    requires Done(g, n + 1)
    ensures Done(g, n)
  {
    assert g.item[n] == g.item[..n + 1][n];
  }

  /** Growing other child lists does not disturb an already complete index. */
  lemma DoneKept(f2: Flat, g: Flat, p: int, lo: int)
    requires Partial(f2) && Partial(g) && 0 <= p < lo <= |f2.parent|
    requires Extends(f2, g, p) && Done(f2, lo) && Done(g, |f2.parent|)
    ensures Done(g, lo)
  {
    var m := |f2.parent|;
    forall x | lo <= x < m
      ensures Mirrors(g, x) && Coherent(g.item[x])
    {
      assert g.kids[x] == f2.kids[x];
      assert g.item[x] == g.item[..m][x];
      forall i | 0 <= i < |g.kids[x]|
        ensures g.item[g.kids[x][i]] == f2.item[f2.kids[x][i]]
      {
        var y := f2.kids[x][i];
        assert g.item[y] == g.item[..m][y];
      }
    }
  }

  lemma PlaceListFirst(f: Flat, f2: Flat, g: Flat, p: int, rs: seq<RItem>)
    requires Partial(f) && Partial(f2) && Partial(g) && 0 <= p < |f.parent| && rs != []
    requires |f.parent| < |f2.parent|
    requires |f2.kids[p]| == |f.kids[p]| + 1 && f2.kids[p][|f.kids[p]|] == |f.parent|
    requires f2.item[|f.parent|] == rs[0]
    requires Extends(f2, g, p) && |g.kids[p]| == |f2.kids[p]| + |rs| - 1
    requires forall i :: 0 <= i < |rs| - 1 ==> g.item[g.kids[p][|f2.kids[p]| + i]] == rs[1..][i]
    ensures forall i :: 0 <= i < |rs| ==> g.item[g.kids[p][|f.kids[p]| + i]] == rs[i]
  {
    var n := |f.parent|;
    var k := |f.kids[p]|;
    assert g.kids[p][k] == g.kids[p][..k + 1][k];
    assert g.item[n] == g.item[..|f2.parent|][n];
    forall i | 1 <= i < |rs|
      ensures g.item[g.kids[p][k + i]] == rs[i]
    {
      assert g.item[g.kids[p][|f2.kids[p]| + (i - 1)]] == rs[1..][i - 1];
    }
  }

  /** The container alone: it lists the forest as its children. */
  function Container(forest: seq<RItem>): (f: Flat)
    ensures Partial(f)
  {
    Flat([-1], [[]], [RItem(-1, None, false, None, forest)])
  }

  /** All items of the rendered forest, numbered in document order below the container. */
  function Flatten(forest: seq<RItem>): (f: Flat)
    requires forall k :: k in forest ==> Coherent(k)
    ensures Partial(f) && |f.parent| == 1 + CountList(forest)
    ensures f.item[0].kids == forest && Mirrors(f, 0)
    ensures Done(f, 1)
  {
    var c := Container(forest);
    var f := PlaceList(c, forest, 0);
    assert f.item[0] == f.item[..1][0];
    f
  }

  /** Rendering only produces coherent items. */
  lemma {:induction false} RenderCoherent(cfg: Config, u: SrcNode, level: int)
    requires NonGrowing(cfg.transform)
    requires Render(cfg, u, level).Some?
    ensures Coherent(Render(cfg, u, level).value)
    decreases Size(u), 0
  {
    var t := cfg.transform(u, level).value;
    assert SizeList(t.children) < Size(u);
    RenderedChildren(cfg, u, level);
    RenderListCoherent(cfg, t.children, level + 1);
  }

  lemma {:induction false} RenderListCoherent(cfg: Config, us: seq<SrcNode>, level: int)
    requires NonGrowing(cfg.transform)
    ensures forall k :: k in RenderList(cfg, us, level) ==> Coherent(k)
    decreases SizeList(us), 1
  {
    if us != [] {
      assert SizeList(us) == SizeList(us[..|us| - 1]) + Size(us[|us| - 1]);
      RenderListCoherent(cfg, us[..|us| - 1], level);
      if Render(cfg, us[|us| - 1], level).Some? {
        RenderCoherent(cfg, us[|us| - 1], level);
      }
    }
  }
}
