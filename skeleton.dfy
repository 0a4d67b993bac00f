/** A value that may be absent: the source's `null`. */
module Options {
  datatype Option<T> = None | Some(value: T)
}

/**
 * The fixed shape of a materialized tree.
 *
 * Item 0 is the mega-root: the container element, which carries the
 * `isMegaRoot` record and holds the top-level list. Items 1.. are the
 * rendered LI items. `parent[j]` is the item whose child list holds `j`
 * (-1 for the mega-root) and `kids[x]` is the ordered child list of `x`.
 * No operation of the widget changes the shape after construction.
 */
module Skeletons {

  datatype Skeleton = Skeleton(parent: seq<int>, kids: seq<seq<int>>)
  {
    function Size(): nat { |parent| }

    predicate Valid() {
      && |parent| >= 1 && |kids| == |parent|
      && parent[0] == -1
      && (forall j :: 1 <= j < |parent| ==> 0 <= parent[j] < j)
      && (forall x, i :: 0 <= x < |kids| && 0 <= i < |kids[x]| ==>
            1 <= kids[x][i] < |parent| && parent[kids[x][i]] == x)
      && (forall j :: 1 <= j < |parent| ==> j in kids[parent[j]])
      && (forall x :: 0 <= x < |kids| ==> Increasing(kids[x]))
    }
  }

  predicate Increasing(s: seq<int>) {
    forall i, j :: 0 <= i < j < |s| ==> s[i] < s[j]
  }

  /** The proper ancestors of `x`, the mega-root included. */
  function Anc(sk: Skeleton, x: int): (r: set<int>)
    requires sk.Valid() && 0 <= x < sk.Size()
    ensures forall a :: a in r ==> 0 <= a < x
    ensures x != 0 <==> 0 in r
    decreases x
  {
    if x == 0 then {} else {sk.parent[x]} + Anc(sk, sk.parent[x])
  }

  /** The proper ancestors of `x` that are rendered items (the mega-root left out). */
  function ItemAnc(sk: Skeleton, x: int): (r: set<int>)
    requires sk.Valid() && 0 <= x < sk.Size()
    ensures forall a :: a in r <==> a in Anc(sk, x) && a != 0
  {
    Anc(sk, x) - {0}
  }

  /** An ancestor's own ancestors are ancestors too. */
  lemma {:induction false} AncTransitive(sk: Skeleton, b: int, c: int)
    requires sk.Valid() && 0 <= c < sk.Size() && b in Anc(sk, c)
    ensures Anc(sk, b) <= Anc(sk, c)
    decreases c
  {
    var p := sk.parent[c];
    if b != p {
      AncTransitive(sk, b, p);
    }
  }

  /** The ancestors of an item form a chain. */
  lemma {:induction false} AncLinear(sk: Skeleton, a: int, b: int, x: int)
    requires sk.Valid() && 0 <= x < sk.Size()
    requires a in Anc(sk, x) && b in Anc(sk, x)
    ensures a == b || a in Anc(sk, b) || b in Anc(sk, a)
    decreases x
  {
    var p := sk.parent[x];
    if a != p && b != p {
      AncLinear(sk, a, b, p);
    }
  }

  /** The child of `x` on the path from `x` down to its descendant `j`. */
  function Top(sk: Skeleton, x: int, j: int): (r: int)
    requires sk.Valid() && 0 <= j < sk.Size() && x in Anc(sk, j)
    ensures r in sk.kids[x] && (r == j || r in Anc(sk, j))
    decreases j
  {
    if sk.parent[j] == x then j else Top(sk, x, sk.parent[j])
  }

  /**
   * A child `k` of `x` is the branch of `x` that leads to `j` exactly when
   * `j` is `k` or lies below `k`: sibling subtrees do not overlap.
   */
  lemma {:induction false} TopUnique(sk: Skeleton, x: int, k: int, j: int)
    requires sk.Valid() && 0 <= x < sk.Size() && 0 <= j < sk.Size()
    requires k in sk.kids[x]
    ensures (j == k || k in Anc(sk, j)) <==> (x in Anc(sk, j) && Top(sk, x, j) == k)
    decreases j
  {
    if j == k {
    } else if k in Anc(sk, j) {
      var p := sk.parent[j];
      if p != k {
        TopUnique(sk, x, k, p);
      }
    } else if x in Anc(sk, j) {
      var t := Top(sk, x, j);
      if t == k {
        assert false;
      }
    }
  }
}
