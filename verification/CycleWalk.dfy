/**
 Cycle walking: apply a permutation of [0, m) until the result falls below d. The walk ends
 because the orbit of a point under a permutation of a finite set comes back to it, and walking
 the inverse permutation undoes it.
 */
module CycleWalk {
  ghost predicate Inverse(m: nat, p: nat -> nat, q: nat -> nat) {
    && (forall x: nat :: x < m ==> p(x) < m && q(p(x)) == x)
    && (forall x: nat :: x < m ==> q(x) < m && p(q(x)) == x)
  }

  ghost function Iter(p: nat -> nat, k: nat, x: nat): nat {
    if k == 0 then x else p(Iter(p, k - 1, x))
  }

  lemma IterStep(p: nat -> nat, k: nat, x: nat)
    ensures Iter(p, 0, x) == x && Iter(p, k + 1, x) == p(Iter(p, k, x))
  {
  }

  lemma {:induction false} IterBelow(m: nat, p: nat -> nat, q: nat -> nat, k: nat, x: nat)
    requires Inverse(m, p, q) && x < m
    ensures Iter(p, k, x) < m
  {
    if k > 0 {
      IterBelow(m, p, q, k - 1, x);
    }
  }

  /** j steps back from the k-th point of the orbit lead to the (k-j)-th. */
  lemma {:induction false} StepsBack(m: nat, p: nat -> nat, q: nat -> nat, k: nat, j: nat, x: nat)
    requires Inverse(m, p, q) && x < m && j <= k
    ensures Iter(q, j, Iter(p, k, x)) == Iter(p, k - j, x)
  {
    if j > 0 {
      StepsBack(m, p, q, k, j - 1, x);
      IterBelow(m, p, q, k - j, x);
    }
  }

  // ----- the orbit returns -----

  ghost function Numbers(m: nat): (s: set<nat>)
    ensures |s| == m && forall x: nat :: x in s <==> x < m
  {
    if m == 0 then {} else Numbers(m - 1) + {m - 1}
  }

  /** The first k points of the orbit. */
  ghost function Orbit(p: nat -> nat, k: nat, x: nat): set<nat> {
    if k == 0 then {} else Orbit(p, k - 1, x) + {Iter(p, k - 1, x)}
  }

  lemma {:induction false} OrbitPoint(p: nat -> nat, k: nat, x: nat, y: nat) returns (i: nat)
    requires y in Orbit(p, k, x)
    ensures i < k && Iter(p, i, x) == y
  {
    if y == Iter(p, k - 1, x) {
      i := k - 1;
    } else {
      i := OrbitPoint(p, k - 1, x, y);
    }
  }

  /** As long as the orbit has not returned to x, its points are all different. */
  lemma {:induction false} OrbitGrows(m: nat, p: nat -> nat, q: nat -> nat, k: nat, x: nat)
    requires Inverse(m, p, q) && x < m
    requires forall j: nat :: 1 <= j < k ==> Iter(p, j, x) != x
    ensures |Orbit(p, k, x)| == k
  {
    if k > 0 {
      OrbitGrows(m, p, q, k - 1, x);
      NewPoint(m, p, q, k - 1, x);
    }
  }

  lemma NewPoint(m: nat, p: nat -> nat, q: nat -> nat, k: nat, x: nat)
    requires Inverse(m, p, q) && x < m
    requires forall j: nat :: 1 <= j <= k ==> Iter(p, j, x) != x
    ensures Iter(p, k, x) !in Orbit(p, k, x)
  {
    hide Orbit, Iter;
    if Iter(p, k, x) in Orbit(p, k, x) {
      var i := OrbitPoint(p, k, x, Iter(p, k, x));
      StepsBack(m, p, q, i, i, x);
      StepsBack(m, p, q, k, i, x);
      IterStep(p, 0, x);
      assert false;
    }
  }

  /** Pigeonhole: within m steps the orbit of x is back at x. */
  lemma OrbitReturns(m: nat, p: nat -> nat, q: nat -> nat, x: nat) returns (k: nat)
    requires Inverse(m, p, q) && x < m
    ensures 1 <= k <= m && Iter(p, k, x) == x
  {
    if forall j: nat :: 1 <= j < m + 1 ==> Iter(p, j, x) != x {
      OrbitGrows(m, p, q, m + 1, x);
      forall y | y in Orbit(p, m + 1, x)
        ensures y in Numbers(m)
      {
        var i := OrbitPoint(p, m + 1, x, y);
        IterBelow(m, p, q, i, x);
      }
      SubsetSize(Orbit(p, m + 1, x), Numbers(m));
      assert false;
    }
    k :| 1 <= k < m + 1 && Iter(p, k, x) == x;
  }

  lemma {:induction false} SubsetSize(a: set<nat>, b: set<nat>)
    requires a <= b
    ensures |a| <= |b|
  {
    if a != {} {
      var x :| x in a;
      SubsetSize(a - {x}, b - {x});
    }
  }

  // ----- walking -----

  /** From x the walk takes k steps to y, the first point below d. */
  ghost predicate Walks(p: nat -> nat, d: nat, x: nat, k: nat, y: nat) {
    && k >= 1 && y == Iter(p, k, x) && y < d
    && forall j: nat :: 1 <= j < k ==> Iter(p, j, x) >= d
  }

  lemma {:induction false} FirstBelow(p: nat -> nat, d: nat, x: nat, k: nat) returns (f: nat)
    requires k >= 1 && Iter(p, k, x) < d
    ensures f <= k && Walks(p, d, x, f, Iter(p, f, x))
  {
    f := 1;
    while Iter(p, f, x) >= d
      invariant 1 <= f <= k && forall j: nat :: 1 <= j < f ==> Iter(p, j, x) >= d
      decreases k - f
    {
      f := f + 1;
    }
  }

  lemma WalkEnds(m: nat, p: nat -> nat, q: nat -> nat, d: nat, x: nat)
    requires Inverse(m, p, q) && x < d <= m
    ensures exists k: nat, y: nat :: Walks(p, d, x, k, y)
  {
    var k := OrbitReturns(m, p, q, x);
    var f := FirstBelow(p, d, x, k);
  }

  lemma WalkUnique(p: nat -> nat, d: nat, x: nat, k: nat, y: nat, k': nat, y': nat)
    requires Walks(p, d, x, k, y) && Walks(p, d, x, k', y')
    ensures k == k' && y == y'
  {
  }

  /** A walk read backward is the walk of the inverse. */
  lemma WalkReverses(m: nat, p: nat -> nat, q: nat -> nat, d: nat, x: nat, k: nat, y: nat)
    requires Inverse(m, p, q) && x < d <= m && Walks(p, d, x, k, y)
    ensures Walks(q, d, y, k, x)
  {
    StepsBack(m, p, q, k, k, x);
    forall j: nat | 1 <= j < k
      ensures Iter(q, j, y) >= d
    {
      StepsBack(m, p, q, k, j, x);
    }
  }

  /** Where the walk from x ends. */
  ghost function Walk(p: nat -> nat, d: nat, x: nat): nat
    requires exists k: nat, y: nat :: Walks(p, d, x, k, y)
  {
    var k: nat, y: nat :| Walks(p, d, x, k, y);
    y
  }

  /** Walking with p and with its inverse are inverse bijections of [0, d). */
  lemma WalkInverse(m: nat, p: nat -> nat, q: nat -> nat, d: nat, x: nat)
    requires Inverse(m, p, q) && x < d <= m
    ensures exists k: nat, y: nat :: Walks(p, d, x, k, y)
    ensures Walk(p, d, x) < d
    ensures exists k: nat, y: nat :: Walks(q, d, Walk(p, d, x), k, y)
    ensures Walk(q, d, Walk(p, d, x)) == x
  {
    WalkEnds(m, p, q, d, x);
    var k: nat :| Walks(p, d, x, k, Walk(p, d, x));
    var y := Walk(p, d, x);
    WalkReverses(m, p, q, d, x, k, y);
    var k': nat :| Walks(q, d, y, k', Walk(q, d, y));
    WalkUnique(q, d, y, k, x, k', Walk(q, d, y));
  }
}
