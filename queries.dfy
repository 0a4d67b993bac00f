/**
 * The read-only queries over a whole subtree, stated on values: the
 * getAllChecked collection (a walk with a collecting visitor) and the
 * getAllExpanded collection (every open item below a root, in document
 * order).
 */
module Queries {
  import opened Options
  import opened Skeletons
  import opened Checkboxes
  import opened Traversal

  /** The items of `vs` that satisfy `keep`, in their order. */
  function Keep(vs: seq<int>, keep: int -> bool): (r: seq<int>)
    ensures forall v :: v in r <==> v in vs && keep(v)
    ensures |r| <= |vs|
  {
    if vs == [] then []
    else
      var v := vs[|vs| - 1];
      Keep(vs[..|vs| - 1], keep) + (if keep(v) then [v] else [])
  }

  /** The position of the first occurrence of `v` in `vs`. */
  function IndexOf(vs: seq<int>, v: int): (r: nat)
    requires v in vs
    ensures r < |vs| && vs[r] == v
    ensures forall p :: 0 <= p < r ==> vs[p] != v
  {
    if vs[|vs| - 1] == v && v !in vs[..|vs| - 1] then |vs| - 1
    else
      IndexOf(vs[..|vs| - 1], v)
  }

  /** Filtering keeps items apart: an item occurs at most once in the result if it does in the input. */
  lemma {:induction false} KeepOnce(vs: seq<int>, keep: int -> bool)
    requires Distinct(vs)
    ensures Distinct(Keep(vs, keep))
    decreases |vs|
  {
    if vs != [] {
      var init := vs[..|vs| - 1];
      var v := vs[|vs| - 1];
      assert Distinct(init);
      KeepOnce(init, keep);
      assert v !in init;
      DistinctJoin(Keep(init, keep), if keep(v) then [v] else []);
    }
  }

  /** The items of `r` occur in `vs`, and in the same order. */
  predicate InOrder(r: seq<int>, vs: seq<int>) {
    && (forall v :: v in r ==> v in vs)
    && (forall i, j :: 0 <= i < j < |r| ==> IndexOf(vs, r[i]) < IndexOf(vs, r[j]))
  }

  /** Filtering keeps the order of the input: an earlier result item occurs earlier in `vs`. */
  lemma {:induction false} KeepInOrder(vs: seq<int>, keep: int -> bool)
    requires Distinct(vs)
    ensures InOrder(Keep(vs, keep), vs)
    decreases |vs|
  {
    if vs != [] {
      var init := vs[..|vs| - 1];
      var v := vs[|vs| - 1];
      var r0 := Keep(init, keep);
      var r := Keep(vs, keep);
      assert Distinct(init) && v !in init;
      assert r == r0 + (if keep(v) then [v] else []);
      KeepInOrder(init, keep);
      assert InOrder(r0, init);
      forall a | a in init
        ensures IndexOf(vs, a) == IndexOf(init, a)
      {
        PrefixIndex(vs, a);
      }
      forall i, j | 0 <= i < j < |r|
        ensures IndexOf(vs, r[i]) < IndexOf(vs, r[j])
      {
        assert r[i] == r0[i] && r0[i] in init;
        assert IndexOf(vs, r[i]) == IndexOf(init, r0[i]) < |init|;
        if j < |r0| {
          assert r[j] == r0[j] && r0[j] in init;
          assert IndexOf(init, r0[i]) < IndexOf(init, r0[j]);
        } else {
          assert r[j] == v && IndexOf(vs, v) == |vs| - 1;
        }
      }
    }
  }

  /** The first occurrence of an item of a prefix lies in that prefix. */
  lemma PrefixIndex(vs: seq<int>, a: int)
    requires vs != [] && a in vs[..|vs| - 1]
    ensures IndexOf(vs, a) == IndexOf(vs[..|vs| - 1], a)
  {
    var q := IndexOf(vs[..|vs| - 1], a);
    assert vs[q] == a;
  }

  /** The first item of the result is the first item of `vs` that passes the filter. */
  lemma {:induction false} KeepFirst(vs: seq<int>, keep: int -> bool)
    requires Keep(vs, keep) != []
    ensures Keep(vs, keep)[0] in vs
    ensures forall p :: 0 <= p < IndexOf(vs, Keep(vs, keep)[0]) ==> !keep(vs[p])
    decreases |vs|
  {
    var init := vs[..|vs| - 1];
    var v := vs[|vs| - 1];
    var r0 := Keep(init, keep);
    assert Keep(vs, keep)[0] in Keep(vs, keep);
    if r0 != [] {
      KeepFirst(init, keep);
      assert Keep(vs, keep)[0] == r0[0];
      PrefixIndex(vs, r0[0]);
    } else {
      forall p | 0 <= p < IndexOf(vs, v)
        ensures !keep(vs[p])
      {
        assert vs[p] in init;
      }
    }
  }

  /** A visitor that never steers the walk: every item below the root is visited. */
  function Everything(): int -> Signal {
    v => Continue
  }

  /**
   * The visitor of getAllChecked. With propagation on, an item whose checkbox
   * reads definite ends the descent there; an item without a checkbox, or
   * with an indeterminate one, is passed through.
   */
  function CheckedVisitor(bs: seq<Box>, propagate: bool): int -> Signal {
    v => if propagate && 0 <= v < |bs| && Reading(bs[v]).Some? then SkipChildren else Continue
  }

  /**
   * The items below `x` in document order: the pre-order walk of the
   * subtree, each item once.
   */
  function DocOrder(sk: Skeleton, x: int): (r: seq<int>)
    requires sk.Valid() && 0 <= x < sk.Size()
    ensures Distinct(r)
    ensures forall v :: 0 <= v < sk.Size() ==> (v in r <==> x in Anc(sk, v))
    ensures forall v :: v in r ==> 0 <= v < sk.Size()
  {
    var r := WalkFrom(sk, Everything(), x).visited;
    WalkFromOnce(sk, Everything(), x);
    forall v | 0 <= v < sk.Size()
      ensures v in r <==> x in Anc(sk, v)
    {
      WalkFromVisits(sk, Everything(), x, v);
    }
    r
  }

  /** Whether `v` has a checkbox that reads checked. */
  function CheckedIn(bs: seq<Box>): int -> bool {
    v => 0 <= v < |bs| && Reading(bs[v]) == Some(true)
  }

  /** Whether `v` carries the open class. */
  function OpenIn(open: seq<Option<bool>>): int -> bool {
    v => 0 <= v < |open| && open[v] == Some(true)
  }

  /** getAllChecked below `x`: the visited items whose checkbox reads checked, in walk order. */
  function AllChecked(sk: Skeleton, bs: seq<Box>, propagate: bool, x: int): seq<int>
    requires Fits(sk, bs) && 0 <= x < sk.Size()
  {
    Keep(WalkFrom(sk, CheckedVisitor(bs, propagate), x).visited, CheckedIn(bs))
  }

  /** Every item strictly between `x` and `v` has no definite checkbox. */
  ghost predicate PassThrough(sk: Skeleton, bs: seq<Box>, x: int, v: int)
    requires Fits(sk, bs) && 0 <= v < sk.Size()
  {
    forall a :: a in Anc(sk, v) && 0 <= a < sk.Size() && x in Anc(sk, a) ==> Reading(bs[a]).None?
  }

  /**
   * With propagation on, getAllChecked returns the checked roots: the items
   * below `x` that read checked and are reached from `x` only through items
   * with no checkbox or an indeterminate one.
   */
  lemma AllCheckedRoots(sk: Skeleton, bs: seq<Box>, x: int, v: int)
    requires Fits(sk, bs) && 0 <= x < sk.Size() && 0 <= v < sk.Size()
    ensures v in AllChecked(sk, bs, true, x) <==>
              x in Anc(sk, v) && Reading(bs[v]) == Some(true) && PassThrough(sk, bs, x, v)
  {
    var visit := CheckedVisitor(bs, true);
    WalkFromVisits(sk, visit, x, v);
    if PassThrough(sk, bs, x, v) {
      forall a | a in Anc(sk, v) && 0 <= a < sk.Size() && x in Anc(sk, a)
        ensures visit(a) == Continue
      {
      }
    }
    if PathOpen(sk, visit, x, v) {
      forall a | a in Anc(sk, v) && 0 <= a < sk.Size() && x in Anc(sk, a)
        ensures Reading(bs[a]).None?
      {
        assert visit(a) == Continue;
      }
    }
  }

  /** With propagation off, getAllChecked returns every checked item below `x`. */
  lemma AllCheckedPlain(sk: Skeleton, bs: seq<Box>, x: int, v: int)
    requires Fits(sk, bs) && 0 <= x < sk.Size() && 0 <= v < sk.Size()
    ensures v in AllChecked(sk, bs, false, x) <==> x in Anc(sk, v) && Reading(bs[v]) == Some(true)
  {
    WalkFromVisits(sk, CheckedVisitor(bs, false), x, v);
  }

  /** With propagation on, no returned item lies below another returned item. */
  lemma AllCheckedDisjoint(sk: Skeleton, bs: seq<Box>, x: int, u: int, w: int)
    requires Fits(sk, bs) && 0 <= x < sk.Size()
    requires u in AllChecked(sk, bs, true, x) && w in AllChecked(sk, bs, true, x)
    ensures u !in Anc(sk, w)
  {
    WalkFromSkip(sk, CheckedVisitor(bs, true), x, u, w);
  }

  /** getAllExpanded below `x`: the items carrying the open class, in document order. */
  function OpenBelow(sk: Skeleton, open: seq<Option<bool>>, x: int): seq<int>
    requires sk.Valid() && |open| == sk.Size() && 0 <= x < sk.Size()
  {
    Keep(DocOrder(sk, x), OpenIn(open))
  }

  /** getAllExpanded finds every open item below `x`, collapsed ancestors or not, and nothing else. */
  lemma OpenBelowExactly(sk: Skeleton, open: seq<Option<bool>>, x: int)
    requires sk.Valid() && |open| == sk.Size() && 0 <= x < sk.Size()
    ensures forall v :: 0 <= v < sk.Size() ==>
              (v in OpenBelow(sk, open, x) <==> x in Anc(sk, v) && open[v] == Some(true))
  {
  }

  /** getAllExpanded lists each open item once, in document order. */
  lemma OpenBelowInOrder(sk: Skeleton, open: seq<Option<bool>>, x: int)
    requires sk.Valid() && |open| == sk.Size() && 0 <= x < sk.Size()
    ensures Distinct(OpenBelow(sk, open, x)) && InOrder(OpenBelow(sk, open, x), DocOrder(sk, x))
  {
    KeepOnce(DocOrder(sk, x), OpenIn(open));
    KeepInOrder(DocOrder(sk, x), OpenIn(open));
  }

  /** getAllChecked lists each item once, in the order the walk reaches them. */
  lemma AllCheckedInOrder(sk: Skeleton, bs: seq<Box>, propagate: bool, x: int)
    requires Fits(sk, bs) && 0 <= x < sk.Size()
    ensures var walk := WalkFrom(sk, CheckedVisitor(bs, propagate), x).visited;
            Distinct(AllChecked(sk, bs, propagate, x)) && InOrder(AllChecked(sk, bs, propagate, x), walk)
  {
    var walk := WalkFrom(sk, CheckedVisitor(bs, propagate), x).visited;
    WalkFromOnce(sk, CheckedVisitor(bs, propagate), x);
    KeepOnce(walk, CheckedIn(bs));
    KeepInOrder(walk, CheckedIn(bs));
  }
}
