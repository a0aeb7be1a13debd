/** 4-connected components of a row-major boolean mask, as
    `scipy.ndimage.label` finds them with its default cross-shaped
    structure. `fg` marks the pixels being labelled; pixel i of a mask of
    width w sits at row i / w, column i % w. A component is grown from one
    pixel by repeatedly adding labelled pixels next to it, until nothing
    changes. */
module Components {

  /** Pixels i and j of an n-pixel mask of width w share an edge: they are
      horizontal neighbours in the same row, or vertical neighbours. */
  predicate Adjacent(w: nat, n: nat, i: int, j: int)
    requires w > 0
  {
    0 <= i < n && 0 <= j < n &&
    ((j == i + 1 && j % w != 0) || (i == j + 1 && i % w != 0) || j == i + w || i == j + w)
  }

  lemma AdjacentSymmetric(w: nat, n: nat, i: int, j: int)
    requires w > 0
    ensures Adjacent(w, n, i, j) <==> Adjacent(w, n, j, i)
  {
  }

  /** The labelled pixels of the mask. */
  function Labelled(fg: seq<bool>): (s: set<int>)
    ensures forall i :: i in s <==> 0 <= i < |fg| && fg[i]
  {
    set i | 0 <= i < |fg| && fg[i]
  }

  /** One growth step: `s` plus every labelled pixel next to a member. */
  function Grow(w: nat, fg: seq<bool>, s: set<int>): (g: set<int>)
    requires w > 0
    ensures s <= g
    ensures forall j :: j in g - s ==> 0 <= j < |fg| && fg[j] && exists i :: i in s && Adjacent(w, |fg|, i, j)
  {
    s + set j | 0 <= j < |fg| && fg[j] && exists i :: i in s && Adjacent(w, |fg|, i, j)
  }

  /** `k` growth steps from `s`. */
  function Reach(w: nat, fg: seq<bool>, s: set<int>, k: nat): (r: set<int>)
    requires w > 0
    decreases k
  {
    if k == 0 then s else Reach(w, fg, Grow(w, fg, s), k - 1)
  }

  /** The component of labelled pixel p: as many growth steps from {p} as
      the mask has pixels, which always reaches the fixpoint. */
  function Component(w: nat, fg: seq<bool>, p: int): set<int>
    requires w > 0 && 0 <= p < |fg| && fg[p]
  {
    Reach(w, fg, {p}, |fg|)
  }

  /** A set closed under growth. */
  predicate Closed(w: nat, fg: seq<bool>, s: set<int>)
    requires w > 0
  {
    Grow(w, fg, s) == s
  }

  lemma {:induction false} ReachExtends(w: nat, fg: seq<bool>, s: set<int>, k: nat)
    requires w > 0
    ensures s <= Reach(w, fg, s, k)
    decreases k
  {
    if k > 0 {
      ReachExtends(w, fg, Grow(w, fg, s), k - 1);
    }
  }

  lemma {:induction false} ReachLabelled(w: nat, fg: seq<bool>, s: set<int>, k: nat)
    requires w > 0 && s <= Labelled(fg)
    ensures Reach(w, fg, s, k) <= Labelled(fg)
    decreases k
  {
    if k > 0 {
      ReachLabelled(w, fg, Grow(w, fg, s), k - 1);
    }
  }

  /** Growth stays inside any closed set containing the start. */
  lemma {:induction false} ReachWithin(w: nat, fg: seq<bool>, s: set<int>, t: set<int>, k: nat)
    requires w > 0 && s <= t && Closed(w, fg, t)
    ensures Reach(w, fg, s, k) <= t
    decreases k
  {
    if k > 0 {
      forall j | j in Grow(w, fg, s) ensures j in t {
        if j !in s {
          var i :| i in s && Adjacent(w, |fg|, i, j);
          assert j in Grow(w, fg, t);
        }
      }
      ReachWithin(w, fg, Grow(w, fg, s), t, k - 1);
    }
  }

  lemma {:induction false} ReachOfClosed(w: nat, fg: seq<bool>, s: set<int>, k: nat)
    requires w > 0 && Closed(w, fg, s)
    ensures Reach(w, fg, s, k) == s
    decreases k
  {
    if k > 0 {
      ReachOfClosed(w, fg, s, k - 1);
    }
  }

  /** Each step either has reached the fixpoint or has added a pixel. */
  lemma {:induction false} ReachGrowth(w: nat, fg: seq<bool>, s: set<int>, k: nat)
    requires w > 0
    ensures Closed(w, fg, Reach(w, fg, s, k)) || |Reach(w, fg, s, k)| >= |s| + k
    decreases k
  {
    if k > 0 {
      var g := Grow(w, fg, s);
      if g == s {
        ReachOfClosed(w, fg, s, k);
      } else {
        ProperSuperset(s, g);
        ReachGrowth(w, fg, g, k - 1);
      }
    }
  }

  lemma ProperSuperset(s: set<int>, g: set<int>)
    requires s <= g && g != s
    ensures |g| > |s|
  {
    var d := g - s;
    assert g == s + d;
  }

  lemma {:induction false} CardBelow(s: set<int>, n: nat)
    requires forall i :: i in s ==> 0 <= i < n
    ensures |s| <= n
    decreases n
  {
    if n > 0 {
      CardBelow(s - {n - 1}, n - 1);
    } else {
      assert forall i :: i !in s;
      assert s == {};
    }
  }

  /** The component is closed: no labelled pixel next to it lies outside. */
  lemma ComponentClosed(w: nat, fg: seq<bool>, p: int)
    requires w > 0 && 0 <= p < |fg| && fg[p]
    ensures Closed(w, fg, Component(w, fg, p))
    ensures p in Component(w, fg, p) && Component(w, fg, p) <= Labelled(fg)
  {
    var c := Component(w, fg, p);
    ReachExtends(w, fg, {p}, |fg|);
    ReachLabelled(w, fg, {p}, |fg|);
    ReachGrowth(w, fg, {p}, |fg|);
    CardBelow(c, |fg|);
  }

  /** A labelled neighbour of a component pixel belongs to the component. */
  lemma ComponentNeighbour(w: nat, fg: seq<bool>, p: int, x: int, y: int)
    requires w > 0 && 0 <= p < |fg| && fg[p]
    requires x in Component(w, fg, p) && 0 <= y < |fg| && fg[y] && Adjacent(w, |fg|, x, y)
    ensures y in Component(w, fg, p)
  {
    ComponentClosed(w, fg, p);
    assert y in Grow(w, fg, Component(w, fg, p));
  }

  /** The component is the least closed set containing its seed. */
  lemma ComponentLeast(w: nat, fg: seq<bool>, p: int, t: set<int>)
    requires w > 0 && 0 <= p < |fg| && fg[p]
    requires p in t && Closed(w, fg, t)
    ensures Component(w, fg, p) <= t
  {
    ReachWithin(w, fg, {p}, t, |fg|);
  }

  /** Every pixel reached from p has p in its own component. */
  lemma {:induction false} ReachedSeesSeed(w: nat, fg: seq<bool>, p: int, s: set<int>, k: nat)
    requires w > 0 && 0 <= p < |fg| && fg[p]
    requires s <= Labelled(fg)
    requires forall y :: y in s ==> 0 <= y < |fg| && fg[y] && p in Component(w, fg, y)
    ensures forall y :: y in Reach(w, fg, s, k) ==> 0 <= y < |fg| && fg[y] && p in Component(w, fg, y)
    decreases k
  {
    if k > 0 {
      var g := Grow(w, fg, s);
      forall y | y in g ensures 0 <= y < |fg| && fg[y] && p in Component(w, fg, y) {
        if y !in s {
          var i :| i in s && Adjacent(w, |fg|, i, y);
          AdjacentSymmetric(w, |fg|, i, y);
          ComponentClosed(w, fg, y);
          ComponentNeighbour(w, fg, y, y, i);
          ComponentClosed(w, fg, y);
          ComponentLeast(w, fg, i, Component(w, fg, y));
        }
      }
      ReachedSeesSeed(w, fg, p, g, k - 1);
    }
  }

  /** Two pixels of one component have the same component: components
      partition the labelled pixels. */
  lemma SameComponent(w: nat, fg: seq<bool>, p: int, x: int)
    requires w > 0 && 0 <= p < |fg| && fg[p]
    requires x in Component(w, fg, p)
    ensures 0 <= x < |fg| && fg[x]
    ensures Component(w, fg, x) == Component(w, fg, p)
  {
    ComponentClosed(w, fg, p);
    ComponentClosed(w, fg, x);
    ComponentLeast(w, fg, x, Component(w, fg, p));
    ComponentClosed(w, fg, p);
    ReachedSeesSeed(w, fg, p, {p}, |fg|);
    ComponentLeast(w, fg, p, Component(w, fg, x));
  }
}
