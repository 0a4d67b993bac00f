/**
 * walkSubTree: a depth-first, pre-order walk over the items below a root,
 * steered by what the visitor returns for each item. The visitor is a pure
 * function of the item here; the walk's observable effect is the sequence of
 * items handed to the visitor (`visited`) and the boolean it returns (`ok`).
 */
module Traversal {
  import opened Skeletons

  /**
   * What a visitor returns: WALK_CONTINUE (null, and every value not listed
   * below), WALK_STOP (false), WALK_SKIPCHILDREN ('S'), WALK_GO_PARENT ('P').
   */
  datatype Signal = Continue | Stop | SkipChildren | GoParent

  datatype Walked = Walked(ok: bool, visited: seq<int>)

  predicate ChildList(sk: Skeleton, ks: seq<int>, x: int)
    requires sk.Valid() && 0 <= x < sk.Size()
  {
    Increasing(ks) && forall k :: k in ks ==> k in sk.kids[x]
  }

  /** walkSubTree(visit, x): the walk below `x`, `x` itself not visited. */
  function WalkFrom(sk: Skeleton, visit: int -> Signal, x: int): (r: Walked)
    requires sk.Valid() && 0 <= x < sk.Size()
    ensures forall v :: v in r.visited ==> x < v < sk.Size()
    decreases sk.Size() - x, 1, 0
  {
    WalkList(sk, visit, sk.kids[x], x)
  }

  /** The loop of walkSubTree over the remaining children `ks` of `x`. */
  function WalkList(sk: Skeleton, visit: int -> Signal, ks: seq<int>, x: int): (r: Walked)
    requires sk.Valid() && 0 <= x < sk.Size() && ChildList(sk, ks, x)
    ensures forall v :: v in r.visited ==> x < v < sk.Size()
    decreases sk.Size() - x, 0, |ks|
  {
    if ks == [] then Walked(true, [])
    else
      var k := ks[0];
      assert k in sk.kids[x];
      var s := visit(k);
      if s == Stop then Walked(false, [k])
      else if s == GoParent then Walked(true, [k])
      else
        var sub := if s == SkipChildren then Walked(true, []) else WalkFrom(sk, visit, k);
        if !sub.ok then Walked(false, [k] + sub.visited)
        else
          var rest := WalkList(sk, visit, ks[1..], x);
          Walked(rest.ok, [k] + sub.visited + rest.visited)
  }

  function Last(s: seq<int>): int
    requires s != []
  {
    s[|s| - 1]
  }

  /** Every visited item lies below the root, inside the branch of one of `ks`. */
  lemma {:induction false} WalkListBelow(sk: Skeleton, visit: int -> Signal, ks: seq<int>, x: int, v: int)
    requires sk.Valid() && 0 <= x < sk.Size() && ChildList(sk, ks, x)
    requires v in WalkList(sk, visit, ks, x).visited
    ensures x in Anc(sk, v) && Top(sk, x, v) in ks
    decreases sk.Size() - x, 0, |ks|
  {
    var k := ks[0];
    assert k in sk.kids[x];
    var s := visit(k);
    if v == k {
    } else if s != SkipChildren && v in WalkFrom(sk, visit, k).visited {
      WalkFromBelow(sk, visit, k, v);
      TopUnique(sk, x, k, v);
    } else {
      WalkListBelow(sk, visit, ks[1..], x, v);
    }
  }

  /** The walk visits only proper descendants of its root, never the root itself. */
  lemma {:induction false} WalkFromBelow(sk: Skeleton, visit: int -> Signal, x: int, v: int)
    requires sk.Valid() && 0 <= x < sk.Size()
    requires v in WalkFrom(sk, visit, x).visited
    ensures x in Anc(sk, v) && v != x
    decreases sk.Size() - x, 1, 0
  {
    WalkListBelow(sk, visit, sk.kids[x], x, v);
  }

  /** STOP ends the walk at once: the stopping item is the last one visited, and the walk returns false. */
  lemma {:induction false} WalkListStop(sk: Skeleton, visit: int -> Signal, ks: seq<int>, x: int, u: int)
    requires sk.Valid() && 0 <= x < sk.Size() && ChildList(sk, ks, x)
    requires u in WalkList(sk, visit, ks, x).visited && visit(u) == Stop
    ensures var r := WalkList(sk, visit, ks, x); !r.ok && Last(r.visited) == u
    decreases sk.Size() - x, 0, |ks|
  {
    var k := ks[0];
    assert k in sk.kids[x];
    var s := visit(k);
    if s != Stop && s != GoParent {
      var sub := if s == SkipChildren then Walked(true, []) else WalkFrom(sk, visit, k);
      if u in sub.visited {
        WalkFromStop(sk, visit, k, u);
      } else if sub.ok {
        WalkListStop(sk, visit, ks[1..], x, u);
      }
    }
  }

  lemma {:induction false} WalkFromStop(sk: Skeleton, visit: int -> Signal, x: int, u: int)
    requires sk.Valid() && 0 <= x < sk.Size()
    requires u in WalkFrom(sk, visit, x).visited && visit(u) == Stop
    ensures var r := WalkFrom(sk, visit, x); !r.ok && Last(r.visited) == u
    decreases sk.Size() - x, 1, 0
  {
    WalkListStop(sk, visit, sk.kids[x], x, u);
  }

  /** The walk returns false only because its last visited item said STOP. */
  lemma {:induction false} WalkListFails(sk: Skeleton, visit: int -> Signal, ks: seq<int>, x: int)
    requires sk.Valid() && 0 <= x < sk.Size() && ChildList(sk, ks, x)
    requires !WalkList(sk, visit, ks, x).ok
    ensures var r := WalkList(sk, visit, ks, x); r.visited != [] && visit(Last(r.visited)) == Stop
    decreases sk.Size() - x, 0, |ks|
  {
    var k := ks[0];
    assert k in sk.kids[x];
    var s := visit(k);
    if s != Stop && s != GoParent {
      var sub := if s == SkipChildren then Walked(true, []) else WalkFrom(sk, visit, k);
      if !sub.ok {
        WalkFromFails(sk, visit, k);
      } else {
        WalkListFails(sk, visit, ks[1..], x);
      }
    }
  }

  lemma {:induction false} WalkFromFails(sk: Skeleton, visit: int -> Signal, x: int)
    requires sk.Valid() && 0 <= x < sk.Size()
    requires !WalkFrom(sk, visit, x).ok
    ensures var r := WalkFrom(sk, visit, x); r.visited != [] && visit(Last(r.visited)) == Stop
    decreases sk.Size() - x, 1, 0
  {
    WalkListFails(sk, visit, sk.kids[x], x);
  }

  /**
   * GO_PARENT on a child `u` of the root: `u` is the last item visited (its
   * children and its later siblings are abandoned) and the walk returns true.
   */
  lemma {:induction false} WalkListGoParent(sk: Skeleton, visit: int -> Signal, ks: seq<int>, x: int, u: int)
    requires sk.Valid() && 0 <= x < sk.Size() && ChildList(sk, ks, x)
    requires u in ks && u in WalkList(sk, visit, ks, x).visited && visit(u) == GoParent
    ensures var r := WalkList(sk, visit, ks, x); r.ok && Last(r.visited) == u
    decreases |ks|
  {
    var k := ks[0];
    assert k in sk.kids[x];
    if u != k {
      var s := visit(k);
      var sub := if s == SkipChildren then Walked(true, []) else WalkFrom(sk, visit, k);
      if s != SkipChildren && u in sub.visited {
        WalkFromBelow(sk, visit, k, u);
        assert false;
      }
      WalkListGoParent(sk, visit, ks[1..], x, u);
    }
  }

  lemma WalkGoParent(sk: Skeleton, visit: int -> Signal, x: int, u: int)
    requires sk.Valid() && 0 <= x < sk.Size()
    requires u in sk.kids[x] && u in WalkFrom(sk, visit, x).visited && visit(u) == GoParent
    ensures var r := WalkFrom(sk, visit, x); r.ok && Last(r.visited) == u
  {
    WalkListGoParent(sk, visit, sk.kids[x], x, u);
  }

  /**
   * SKIPCHILDREN (and GO_PARENT) on a visited item `u`: no item below `u` is
   * visited.
   */
  lemma {:induction false} WalkListSkip(sk: Skeleton, visit: int -> Signal, ks: seq<int>, x: int, u: int, w: int)
    requires sk.Valid() && 0 <= x < sk.Size() && ChildList(sk, ks, x)
    requires u in WalkList(sk, visit, ks, x).visited && w in WalkList(sk, visit, ks, x).visited
    requires visit(u) == SkipChildren || visit(u) == GoParent
    ensures u !in Anc(sk, w)
    decreases sk.Size() - x, 0, |ks|
  {
    var k := ks[0];
    assert k in sk.kids[x];
    var s := visit(k);
    if s == Stop || s == GoParent {
      return;
    }
    var sub := if s == SkipChildren then Walked(true, []) else WalkFrom(sk, visit, k);
    var restVisited := if sub.ok then WalkList(sk, visit, ks[1..], x).visited else [];
    assert WalkList(sk, visit, ks, x).visited == [k] + sub.visited + restVisited;
    assert k !in ks[1..];
    if u == k {
      if w in restVisited {
        WalkListBelow(sk, visit, ks[1..], x, w);
        OtherBranch(sk, x, k, w, u);
      }
    } else if u in sub.visited {
      WalkFromBelow(sk, visit, k, u);
      if w in sub.visited {
        WalkFromSkip(sk, visit, k, u, w);
      } else if w in restVisited {
        WalkListBelow(sk, visit, ks[1..], x, w);
        OtherBranch(sk, x, k, w, u);
      }
    } else {
      assert u in restVisited;
      WalkListBelow(sk, visit, ks[1..], x, u);
      var t := Top(sk, x, u);
      assert k < t;
      if w in sub.visited {
        WalkFromBelow(sk, visit, k, w);
        OtherBranch(sk, x, k, u, w);
      } else if w in restVisited {
        WalkListSkip(sk, visit, ks[1..], x, u, w);
      }
    }
  }

  /**
   * An item in the branch of the child `k` of `x` and an item `w` in another
   * branch are never above one another.
   */
  lemma OtherBranch(sk: Skeleton, x: int, k: int, w: int, u: int)
    requires sk.Valid() && 0 <= x < sk.Size() && 0 <= w < sk.Size() && 0 <= u < sk.Size()
    requires k in sk.kids[x] && x in Anc(sk, w) && Top(sk, x, w) != k
    requires u == k || k in Anc(sk, u)
    ensures u !in Anc(sk, w) && w !in Anc(sk, u)
  {
    TopUnique(sk, x, k, w);
    if u in Anc(sk, w) {
      if u != k {
        AncTransitive(sk, u, w);
      }
      assert false;
    }
    if w in Anc(sk, u) {
      TopUnique(sk, x, k, u);
      AncLinear(sk, w, k, u);
      assert false;
    }
  }

  lemma {:induction false} WalkFromSkip(sk: Skeleton, visit: int -> Signal, x: int, u: int, w: int)
    requires sk.Valid() && 0 <= x < sk.Size()
    requires u in WalkFrom(sk, visit, x).visited && w in WalkFrom(sk, visit, x).visited
    requires visit(u) == SkipChildren || visit(u) == GoParent
    ensures u !in Anc(sk, w)
    decreases sk.Size() - x, 1, 0
  {
    WalkListSkip(sk, visit, sk.kids[x], x, u, w);
  }

  /** A visitor that never stops the walk and never goes to the parent. */
  ghost predicate Tame(visit: int -> Signal) {
    forall v :: visit(v) == Continue || visit(v) == SkipChildren
  }

  /** Every item strictly between `x` and `v` told the walk to continue. */
  ghost predicate PathOpen(sk: Skeleton, visit: int -> Signal, x: int, v: int)
    requires sk.Valid() && 0 <= v < sk.Size()
  {
    forall a :: a in Anc(sk, v) && 0 <= a < sk.Size() && x in Anc(sk, a) ==> visit(a) == Continue
  }

  /** The path from `x` down to `v` through the child `k` is open exactly when `k` continues and the rest of it is open. */
  lemma PathOpenStep(sk: Skeleton, visit: int -> Signal, x: int, k: int, v: int)
    requires sk.Valid() && 0 <= x < sk.Size() && 0 <= v < sk.Size()
    requires k in sk.kids[x] && k in Anc(sk, v)
    ensures PathOpen(sk, visit, x, v) <==> visit(k) == Continue && PathOpen(sk, visit, k, v)
  {
    assert Anc(sk, k) == {x} + Anc(sk, x);
    if visit(k) == Continue && PathOpen(sk, visit, k, v) {
      forall a | a in Anc(sk, v) && 0 <= a < sk.Size() && x in Anc(sk, a)
        ensures visit(a) == Continue
      {
        if a != k {
          AncLinear(sk, a, k, v);
        }
      }
    }
    if PathOpen(sk, visit, x, v) {
      forall a | a in Anc(sk, v) && 0 <= a < sk.Size() && k in Anc(sk, a)
        ensures visit(a) == Continue
      {
        AncTransitive(sk, k, a);
      }
    }
  }

  /**
   * With a tame visitor, the walk below `x` visits `v` exactly when `v` lies
   * below `x` and every item strictly between them said CONTINUE.
   */
  lemma {:induction false} WalkListVisits(sk: Skeleton, visit: int -> Signal, ks: seq<int>, x: int, v: int)
    requires sk.Valid() && 0 <= x < sk.Size() && ChildList(sk, ks, x) && 0 <= v < sk.Size()
    requires Tame(visit)
    ensures v in WalkList(sk, visit, ks, x).visited <==>
              x in Anc(sk, v) && Top(sk, x, v) in ks && PathOpen(sk, visit, x, v)
    decreases sk.Size() - x, 0, |ks|
  {
    if ks == [] {
      return;
    }
    var k := ks[0];
    assert k in sk.kids[x];
    var s := visit(k);
    var sub := if s == SkipChildren then Walked(true, []) else WalkFrom(sk, visit, k);
    if !sub.ok {
      WalkFromFails(sk, visit, k);
      assert false;
    }
    var rest := WalkList(sk, visit, ks[1..], x);
    assert WalkList(sk, visit, ks, x).visited == [k] + sub.visited + rest.visited;
    WalkListVisits(sk, visit, ks[1..], x, v);
    if v == k {
      forall a | a in Anc(sk, v) && 0 <= a < sk.Size()
        ensures x !in Anc(sk, a)
      {
        assert a == x || a in Anc(sk, x);
      }
    } else if x in Anc(sk, v) && Top(sk, x, v) == k {
      TopUnique(sk, x, k, v);
      PathOpenStep(sk, visit, x, k, v);
      if s == Continue {
        WalkFromVisits(sk, visit, k, v);
      } else {
        assert k !in ks[1..];
      }
    } else {
      if v in sub.visited {
        WalkFromBelow(sk, visit, k, v);
        TopUnique(sk, x, k, v);
      }
    }
  }

  lemma {:induction false} WalkFromVisits(sk: Skeleton, visit: int -> Signal, x: int, v: int)
    requires sk.Valid() && 0 <= x < sk.Size() && 0 <= v < sk.Size()
    requires Tame(visit)
    ensures v in WalkFrom(sk, visit, x).visited <==> x in Anc(sk, v) && PathOpen(sk, visit, x, v)
    decreases sk.Size() - x, 1, 0
  {
    WalkListVisits(sk, visit, sk.kids[x], x, v);
  }

  /** A tame visitor lets the walk finish: it returns true. */
  lemma WalkTameOk(sk: Skeleton, visit: int -> Signal, x: int)
    requires sk.Valid() && 0 <= x < sk.Size() && Tame(visit)
    ensures WalkFrom(sk, visit, x).ok
  {
    if !WalkFrom(sk, visit, x).ok {
      WalkFromFails(sk, visit, x);
    }
  }

  /** No item occurs twice in `s`. */
  predicate Distinct(s: seq<int>) {
    forall i, j :: 0 <= i < j < |s| ==> s[i] != s[j]
  }

  lemma DistinctJoin(a: seq<int>, b: seq<int>)
    requires Distinct(a) && Distinct(b)
    requires forall v :: v in a ==> v !in b
    ensures Distinct(a + b)
  {
    forall i, j | 0 <= i < j < |a + b|
      ensures (a + b)[i] != (a + b)[j]
    {
      if i < |a| && j >= |a| {
        assert (a + b)[i] in a && (a + b)[j] in b;
      }
    }
  }

  /** The walk hands each item to the visitor at most once, whatever the visitor returns. */
  lemma {:induction false} WalkListOnce(sk: Skeleton, visit: int -> Signal, ks: seq<int>, x: int)
    requires sk.Valid() && 0 <= x < sk.Size() && ChildList(sk, ks, x)
    ensures Distinct(WalkList(sk, visit, ks, x).visited)
    decreases sk.Size() - x, 0, |ks|
  {
    if ks != [] {
      var k := ks[0];
      assert k in sk.kids[x] && k !in ks[1..];
      var s := visit(k);
      if s != Stop && s != GoParent {
        var sub := if s == SkipChildren then Walked(true, []) else WalkFrom(sk, visit, k);
        if s != SkipChildren {
          WalkFromOnce(sk, visit, k);
        }
        DistinctJoin([k], sub.visited);
        if sub.ok {
          var rest := WalkList(sk, visit, ks[1..], x);
          WalkListOnce(sk, visit, ks[1..], x);
          forall v | v in [k] + sub.visited
            ensures v !in rest.visited
          {
            if v in rest.visited {
              WalkListBelow(sk, visit, ks[1..], x, v);
              TopUnique(sk, x, k, v);
              if v != k {
                WalkFromBelow(sk, visit, k, v);
              }
              assert false;
            }
          }
          DistinctJoin([k] + sub.visited, rest.visited);
        }
      }
    }
  }

  lemma {:induction false} WalkFromOnce(sk: Skeleton, visit: int -> Signal, x: int)
    requires sk.Valid() && 0 <= x < sk.Size()
    ensures Distinct(WalkFrom(sk, visit, x).visited)
    decreases sk.Size() - x, 1, 0
  {
    WalkListOnce(sk, visit, sk.kids[x], x);
  }

  /** A walk result with `vs` visited before it. */
  function Prefixed(vs: seq<int>, w: Walked): Walked {
    Walked(w.ok, vs + w.visited)
  }

  lemma PrefixedAppend(vs: seq<int>, us: seq<int>, w: Walked)
    ensures Prefixed(vs, Prefixed(us, w)) == Prefixed(vs + us, w)
  {
    assert vs + (us + w.visited) == (vs + us) + w.visited;
  }

  lemma ChildListSuffix(sk: Skeleton, ks: seq<int>, x: int, i: int)
    requires sk.Valid() && 0 <= x < sk.Size() && ChildList(sk, ks, x) && 0 <= i <= |ks|
    ensures ChildList(sk, ks[i..], x)
  {
    assert forall k :: k in ks[i..] ==> k in ks;
  }

  /** One step of the loop of walkSubTree, as WalkList takes it. */
  lemma WalkListStep(sk: Skeleton, visit: int -> Signal, ks: seq<int>, x: int)
    requires sk.Valid() && 0 <= x < sk.Size() && ChildList(sk, ks, x) && ks != []
    ensures ks[0] in sk.kids[x] && x < ks[0] < sk.Size() && ChildList(sk, ks[1..], x)
    ensures visit(ks[0]) == Stop ==> WalkList(sk, visit, ks, x) == Walked(false, [ks[0]])
    ensures visit(ks[0]) == GoParent ==> WalkList(sk, visit, ks, x) == Walked(true, [ks[0]])
    ensures visit(ks[0]) == SkipChildren ==>
              WalkList(sk, visit, ks, x) == Prefixed([ks[0]], WalkList(sk, visit, ks[1..], x))
    ensures visit(ks[0]) == Continue && !WalkFrom(sk, visit, ks[0]).ok ==>
              WalkList(sk, visit, ks, x) == Walked(false, [ks[0]] + WalkFrom(sk, visit, ks[0]).visited)
    ensures visit(ks[0]) == Continue && WalkFrom(sk, visit, ks[0]).ok ==>
              WalkList(sk, visit, ks, x) ==
                Prefixed([ks[0]] + WalkFrom(sk, visit, ks[0]).visited, WalkList(sk, visit, ks[1..], x))
  {
    assert ks[0] in ks;
    var i :| 0 <= i < |sk.kids[x]| && sk.kids[x][i] == ks[0];
    ChildListSuffix(sk, ks, x, 1);
    if visit(ks[0]) == SkipChildren {
      assert [ks[0]] + [] == [ks[0]];
    }
  }

  /** walkSubTree(visit, x): the loop over the children of `x`, diving into each unless told otherwise. */
  method WalkSubTree(sk: Skeleton, visit: int -> Signal, x: int) returns (r: Walked)
    requires sk.Valid() && 0 <= x < sk.Size()
    ensures r == WalkFrom(sk, visit, x)
    decreases sk.Size() - x
  {
    var childs := sk.kids[x];
    var visited: seq<int> := [];
    var i := 0;
    ChildListSuffix(sk, childs, x, 0);
    assert childs[0..] == childs;
    ghost var target := WalkFrom(sk, visit, x);
    assert target == Prefixed([], WalkList(sk, visit, childs[0..], x));
    while i < |childs|
      invariant 0 <= i <= |childs|
      invariant ChildList(sk, childs[i..], x)
      invariant target == Prefixed(visited, WalkList(sk, visit, childs[i..], x))
    {
      var k := childs[i];
      ghost var ks := childs[i..];
      assert ks[0] == k && ks[1..] == childs[i + 1..];
      WalkListStep(sk, visit, ks, x);
      var next := visit(k);
      if next == Stop {
        return Walked(false, visited + [k]);
      }
      if next == GoParent {
        return Walked(true, visited + [k]);  // go to parent
      }
      var step := [k];
      if next != SkipChildren {
        var sub := WalkSubTree(sk, visit, k);
        if !sub.ok {
          return Walked(false, visited + ([k] + sub.visited));
        }
        step := [k] + sub.visited;
      }
      PrefixedAppend(visited, step, WalkList(sk, visit, childs[i + 1..], x));
      visited := visited + step;
      i := i + 1;
    }
    assert visited + [] == visited;
    return Walked(true, visited);
  }

}
