/** The graph theory behind the retained-set and uniquely-retained-set computations of
    arch-linux/pacman_graph.py, on plain values.

    A dependency graph maps each installed package to the names it depends on; a name
    that is not a key (an unknown dependency) has no outgoing edges. Both retained sets
    are least fixed points of one growth rule: starting from a set S, keep adding a
    dependency d of a member p whenever every name that `guard` lists for d is already
    a member. With no guard this is the transitive dependency closure (the retained
    set); with the reverse-dependency index as guard it is the uniquely retained set. */
module DependencyClosure {

  /** Package name to the names of its (hard) dependencies. */
  type Graph = map<string, set<string>>

  /** `d[k]` on a `defaultdict(set)`: the set stored under `k`, or the empty set. */
  function SetLookup(m: map<string, set<string>>, k: string): (r: set<string>)
    ensures k in m ==> r == m[k]
    ensures k !in m ==> r == {}
  {
    if k in m then m[k] else {}
  }

  /** Every name that occurs in the graph, as a package or as a dependency. */
  ghost function Universe(g: Graph): set<string> {
    g.Keys + (set p, d | p in g && d in g[p] :: d)
  }

  /** The dependencies of members of S that the guard lets in, in one step. */
  ghost function Admitted(g: Graph, guard: map<string, set<string>>, S: set<string>): set<string> {
    set p, d | p in S && p in g && d in g[p] && SetLookup(guard, d) <= S :: d
  }

  /** X is closed under the guarded growth rule. */
  ghost predicate Closed(g: Graph, guard: map<string, set<string>>, X: set<string>) {
    forall p, d :: p in X && p in g && d in g[p] && SetLookup(guard, d) <= X ==> d in X
  }

  lemma SubsetNotLarger<T>(a: set<T>, b: set<T>)
    requires a <= b
    ensures |a| <= |b|
    decreases a
  {
    if a != {} {
      var x :| x in a;
      SubsetNotLarger(a - {x}, b - {x});
    }
  }

  lemma StrictSubsetSmaller<T>(a: set<T>, b: set<T>)
    requires a < b
    ensures |a| < |b|
  {
    assert exists x :: x in b && x !in a;
    var x :| x in b && x !in a;
    SubsetNotLarger(a, b - {x});
  }

  /** One growth step that adds something brings S strictly closer to the universe. */
  lemma GrowthStep(g: Graph, guard: map<string, set<string>>, S: set<string>)
    ensures var T := S + Admitted(g, guard, S);
            T != S ==> |Universe(g) - T| < |Universe(g) - S|
  {
    var T := S + Admitted(g, guard, S);
    if T != S {
      assert exists x :: x in T && x !in S;
      var x :| x in T && x !in S;
      assert x in Universe(g);
      StrictSubsetSmaller(Universe(g) - T, Universe(g) - S);
    }
  }

  /** The least superset of S that is closed under the guarded growth rule. */
  ghost function Saturate(g: Graph, guard: map<string, set<string>>, S: set<string>): (X: set<string>)
    ensures S <= X
    ensures Closed(g, guard, X)
    decreases |Universe(g) - S|
  {
    var T := S + Admitted(g, guard, S);
    if T == S then
      assert forall p, d :: p in S && p in g && d in g[p] && SetLookup(guard, d) <= S ==>
               d in Admitted(g, guard, S);
      S
    else
      GrowthStep(g, guard, S);
      Saturate(g, guard, T)
  }

  /** Saturate(S) lies inside every closed superset of S: it is the least one. */
  lemma {:induction false} SaturateLeast(g: Graph, guard: map<string, set<string>>, S: set<string>,
                                         X: set<string>)
    requires S <= X && Closed(g, guard, X)
    ensures Saturate(g, guard, S) <= X
    decreases |Universe(g) - S|
  {
    var T := S + Admitted(g, guard, S);
    if T != S {
      assert Admitted(g, guard, S) <= X;
      GrowthStep(g, guard, S);
      SaturateLeast(g, guard, T, X);
    }
  }

  /** Every name Saturate adds is a dependency of some member: it comes from the graph. */
  lemma SaturateWithinUniverse(g: Graph, guard: map<string, set<string>>, S: set<string>)
    ensures Saturate(g, guard, S) <= S + Universe(g)
  {
    var Y := S + Universe(g);
    assert Closed(g, guard, Y);
    SaturateLeast(g, guard, S, Y);
  }

  /** A larger start set saturates to a larger set. */
  lemma SaturateMonotone(g: Graph, guard: map<string, set<string>>, S: set<string>, T: set<string>)
    requires S <= T
    ensures Saturate(g, guard, S) <= Saturate(g, guard, T)
  {
    SaturateLeast(g, guard, S, Saturate(g, guard, T));
  }

  /** The transitive dependency closure of S (the unguarded saturation). */
  ghost function Reach(g: Graph, S: set<string>): set<string> {
    Saturate(g, map[], S)
  }

  /** Closedness without a guard: every dependency of a member is a member. */
  lemma ClosedUnderEdges(g: Graph, X: set<string>, p: string, d: string)
    requires Closed(g, map[], X) && p in X && p in g && d in g[p]
    ensures d in X
  {
    assert SetLookup(map[], d) == {};
  }

  /** Following one edge from p stays inside everything p reaches. */
  lemma ReachEdge(g: Graph, p: string, d: string)
    requires p in g && d in g[p]
    ensures Reach(g, {d}) <= Reach(g, {p})
  {
    ClosedUnderEdges(g, Reach(g, {p}), p, d);
    SaturateLeast(g, map[], {d}, Reach(g, {p}));
  }

  /** What a union reaches is the union of what its parts reach. */
  lemma ReachUnion(g: Graph, A: set<string>, B: set<string>)
    ensures Reach(g, A + B) == Reach(g, A) + Reach(g, B)
  {
    var U := Reach(g, A) + Reach(g, B);
    forall p, d | p in U && p in g && d in g[p] && SetLookup(map[], d) <= U
      ensures d in U
    {
      if p in Reach(g, A) { ClosedUnderEdges(g, Reach(g, A), p, d); }
      else { ClosedUnderEdges(g, Reach(g, B), p, d); }
    }
    SaturateLeast(g, map[], A + B, U);
    SaturateMonotone(g, map[], A, A + B);
    SaturateMonotone(g, map[], B, A + B);
  }

  /** A name that Saturate adds beyond the start set is a dependency of a member, and the
      guard of that name lies inside the result. */
  lemma SaturateHasReason(g: Graph, guard: map<string, set<string>>, S: set<string>, q: string)
    requires q in Saturate(g, guard, S) - S
    ensures exists p :: p in Saturate(g, guard, S) && p in g && q in g[p] &&
                        SetLookup(guard, q) <= Saturate(g, guard, S)
  {
    var X := Saturate(g, guard, S);
    var Y := S + (set p, d | p in X && p in g && d in g[p] && SetLookup(guard, d) <= X :: d);
    forall p, d | p in Y && p in g && d in g[p] && SetLookup(guard, d) <= Y
      ensures d in Y
    {
      assert p in X;
    }
    SaturateLeast(g, guard, S, Y);
  }

  /** A guard only holds names back: the guarded saturation lies inside the unguarded one. */
  lemma GuardedWithinReach(g: Graph, guard: map<string, set<string>>, S: set<string>)
    ensures Saturate(g, guard, S) <= Reach(g, S)
  {
    var X := Reach(g, S);
    forall p, d | p in X && p in g && d in g[p] && SetLookup(guard, d) <= X
      ensures d in X
    {
      ClosedUnderEdges(g, X, p, d);
    }
    SaturateLeast(g, guard, S, X);
  }

  /** The sum of f over a finite set of names. */
  ghost function SumOver(S: set<string>, f: string -> real): real
    decreases S
  {
    if S == {} then 0.0
    else
      var x :| x in S;
      f(x) + SumOver(S - {x}, f)
  }

  /** The sum does not depend on which element is taken out first. */
  lemma {:induction false} SumOverRemove(S: set<string>, f: string -> real, y: string)
    requires y in S
    ensures SumOver(S, f) == f(y) + SumOver(S - {y}, f)
    decreases S
  {
    var x :| x in S && SumOver(S, f) == f(x) + SumOver(S - {x}, f);
    if x != y {
      SumOverRemove(S - {x}, f, y);
      SumOverRemove(S - {y}, f, x);
      assert S - {x} - {y} == S - {y} - {x};
    }
  }

  /** Sums split over disjoint unions. */
  lemma {:induction false} SumOverUnion(A: set<string>, B: set<string>, f: string -> real)
    requires A !! B
    ensures SumOver(A + B, f) == SumOver(A, f) + SumOver(B, f)
    decreases A
  {
    if A == {} {
      assert A + B == B;
    } else {
      var x :| x in A;
      SumOverRemove(A + B, f, x);
      assert (A + B) - {x} == (A - {x}) + B;
      SumOverUnion(A - {x}, B, f);
      SumOverRemove(A, f, x);
    }
  }

  /** A pointwise smaller summand gives a smaller sum. */
  lemma {:induction false} SumOverLe(S: set<string>, f: string -> real, h: string -> real)
    requires forall x :: x in S ==> f(x) <= h(x)
    ensures SumOver(S, f) <= SumOver(S, h)
    decreases S
  {
    if S != {} {
      var x :| x in S;
      SumOverRemove(S, f, x);
      SumOverRemove(S, h, x);
      SumOverLe(S - {x}, f, h);
    }
  }

  /** A sum of non-negative terms is non-negative. */
  lemma {:induction false} SumOverNonneg(S: set<string>, f: string -> real)
    requires forall x :: x in S ==> 0.0 <= f(x)
    ensures 0.0 <= SumOver(S, f)
    decreases S
  {
    if S != {} {
      var x :| x in S;
      SumOverRemove(S, f, x);
      SumOverNonneg(S - {x}, f);
    }
  }
}
