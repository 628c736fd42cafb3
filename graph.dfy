/** Directed graphs as finite edge sets, the reachability closure and the
    cycle test that the network runs before it accepts a node.

    The network keeps a directed graph whose edges point from a parent to
    its child. Whether a new node would close a cycle is decided on that
    graph (`networkx.find_cycle` in the source); here `HasCycle` decides it
    through the reachability closure `Reach`, and `HasCycleIffCycleWalk`
    shows that this is the same as the existence of a closed walk. */
module Graph {

  type Edge = (string, string)

  function Sources(E: set<Edge>): set<string> { set e | e in E :: e.0 }

  function Targets(E: set<Edge>): set<string> { set e | e in E :: e.1 }

  /** The vertices one edge away from `S`. */
  function Post(E: set<Edge>, S: set<string>): set<string>
  {
    set e | e in E && e.0 in S :: e.1
  }

  lemma SubsetCard<T>(A: set<T>, B: set<T>)
    requires A <= B
    ensures |A| <= |B|
    decreases |B|
  {
    if B != {} {
      var x :| x in B;
      SubsetCard(A - {x}, B - {x});
      assert A - {x} + (A * {x}) == A;
    }
  }

  lemma StrictSubsetCard<T>(A: set<T>, B: set<T>)
    requires A < B
    ensures |A| < |B|
  {
    assert B - A != {};
    var x :| x in B - A;
    SubsetCard(A, B - {x});
    assert (B - {x}) + {x} == B;
  }

  /** One round of the closure leaves fewer unreached targets. */
  lemma ReachStep(E: set<Edge>, S: set<string>)
    requires !(Post(E, S) <= S)
    ensures |Targets(E) - (S + Post(E, S))| < |Targets(E) - S|
  {
    var y :| y in Post(E, S) && y !in S;
    assert y in Targets(E) - S;
    StrictSubsetCard(Targets(E) - (S + Post(E, S)), Targets(E) - S);
  }

  /** Everything reachable from `S` along edges of `E`, `S` included: a
      superset of `S`, closed under `Post`, and made only of `S` and
      edge targets. */
  function Reach(E: set<Edge>, S: set<string>): (r: set<string>)
    ensures S <= r
    ensures Post(E, r) <= r
    ensures r <= S + Targets(E)
    decreases |Targets(E) - S|
  {
    if Post(E, S) <= S then S
    else
      ReachStep(E, S);
      Reach(E, S + Post(E, S))
  }

  /** `Reach` is the least closed superset. */
  lemma {:induction false} ReachMinimal(E: set<Edge>, S: set<string>, T: set<string>)
    requires S <= T
    requires Post(E, T) <= T
    ensures Reach(E, S) <= T
    decreases |Targets(E) - S|
  {
    if !(Post(E, S) <= S) {
      ReachStep(E, S);
      assert Post(E, S) <= Post(E, T);
      ReachMinimal(E, S + Post(E, S), T);
    }
  }

  /** More edges reach at least as much. */
  lemma ReachMonotone(F: set<Edge>, E: set<Edge>, S: set<string>)
    requires F <= E
    ensures Reach(F, S) <= Reach(E, S)
  {
    var R := Reach(E, S);
    assert Post(F, R) <= Post(E, R);
    ReachMinimal(F, S, R);
  }

  /** Whether some edge's source can be reached from its target, that is
      whether the graph contains a directed cycle. */
  predicate HasCycle(E: set<Edge>)
  {
    exists e | e in E :: e.0 in Reach(E, {e.1})
  }

  ghost predicate IsWalk(E: set<Edge>, p: seq<string>)
  {
    |p| >= 1 && forall i :: 0 <= i < |p| - 1 ==> (p[i], p[i + 1]) in E
  }

  ghost predicate IsCycleWalk(E: set<Edge>, p: seq<string>)
  {
    IsWalk(E, p) && |p| >= 2 && p[0] == p[|p| - 1]
  }

  ghost predicate WalkFrom(E: set<Edge>, S: set<string>, y: string)
  {
    exists p :: IsWalk(E, p) && p[0] in S && p[|p| - 1] == y
  }

  lemma {:induction false} WalkEndInReach(E: set<Edge>, S: set<string>, p: seq<string>)
    requires IsWalk(E, p) && p[0] in S
    ensures p[|p| - 1] in Reach(E, S)
    decreases |p|
  {
    if |p| > 1 {
      var q := p[..|p| - 1];
      assert IsWalk(E, q) by {
        forall i | 0 <= i < |q| - 1 ensures (q[i], q[i + 1]) in E {
          assert (p[i], p[i + 1]) in E;
        }
      }
      WalkEndInReach(E, S, q);
      assert (p[|p| - 2], p[|p| - 1]) in E;
    }
  }

  lemma ExtendWalk(E: set<Edge>, S: set<string>, e: Edge)
    requires e in E && WalkFrom(E, S, e.0)
    ensures WalkFrom(E, S, e.1)
  {
    var p :| IsWalk(E, p) && p[0] in S && p[|p| - 1] == e.0;
    var q := p + [e.1];
    forall i | 0 <= i < |q| - 1 ensures (q[i], q[i + 1]) in E {
      if i < |p| - 1 {
        assert (p[i], p[i + 1]) in E;
      }
    }
    assert IsWalk(E, q);
  }

  lemma ReachHasWalk(E: set<Edge>, S: set<string>, y: string)
    requires y in Reach(E, S)
    ensures WalkFrom(E, S, y)
  {
    var T := set v | v in S + Targets(E) && WalkFrom(E, S, v);
    forall s | s in S ensures s in T {
      assert IsWalk(E, [s]);
    }
    forall v | v in Post(E, T) ensures v in T {
      var e :| e in E && e.0 in T && e.1 == v;
      ExtendWalk(E, S, e);
      assert v in Targets(E);
    }
    ReachMinimal(E, S, T);
  }

  /** `y` is in the closure of `S` exactly when a walk leads there from `S`. */
  lemma ReachIffWalk(E: set<Edge>, S: set<string>, y: string)
    ensures y in Reach(E, S) <==> WalkFrom(E, S, y)
  {
    if y in Reach(E, S) {
      ReachHasWalk(E, S, y);
    }
    if WalkFrom(E, S, y) {
      var p :| IsWalk(E, p) && p[0] in S && p[|p| - 1] == y;
      WalkEndInReach(E, S, p);
    }
  }

  /** The cycle test agrees with the existence of a closed walk. */
  lemma HasCycleIffCycleWalk(E: set<Edge>)
    ensures HasCycle(E) <==> exists p :: IsCycleWalk(E, p)
  {
    if HasCycle(E) {
      var e :| e in E && e.0 in Reach(E, {e.1});
      ReachHasWalk(E, {e.1}, e.0);
      var p :| IsWalk(E, p) && p[0] in {e.1} && p[|p| - 1] == e.0;
      var c := [e.0] + p;
      assert IsWalk(E, c) by {
        forall i | 0 <= i < |c| - 1 ensures (c[i], c[i + 1]) in E {
          if i > 0 {
            assert (p[i - 1], p[i]) in E;
          }
        }
      }
      assert IsCycleWalk(E, c);
    }
    if exists p :: IsCycleWalk(E, p) {
      var p :| IsCycleWalk(E, p);
      var e := (p[0], p[1]);
      assert e in E;
      var q := p[1..];
      assert IsWalk(E, q) by {
        forall i | 0 <= i < |q| - 1 ensures (q[i], q[i + 1]) in E {
          assert (p[i + 1], p[i + 2]) in E;
        }
      }
      WalkEndInReach(E, {e.1}, q);
    }
  }

  /** Dropping edges never creates a cycle. */
  lemma AcyclicSubset(F: set<Edge>, E: set<Edge>)
    requires F <= E
    requires !HasCycle(E)
    ensures !HasCycle(F)
  {
    forall e | e in F ensures e.0 !in Reach(F, {e.1}) {
      ReachMonotone(F, E, {e.1});
    }
  }

  /** A graph whose vertices can be ranked so that every edge climbs is
      acyclic. */
  lemma RankedAcyclic(E: set<Edge>, rank: map<string, int>)
    requires forall e | e in E :: e.0 in rank && e.1 in rank && rank[e.0] < rank[e.1]
    ensures !HasCycle(E)
  {
    forall e | e in E ensures e.0 !in Reach(E, {e.1}) {
      var T := set v | v in {e.1} + Targets(E) && v in rank && rank[v] >= rank[e.1];
      forall v | v in Post(E, T) ensures v in T {
        var d :| d in E && d.0 in T && d.1 == v;
        assert v in Targets(E);
      }
      ReachMinimal(E, {e.1}, T);
    }
  }

  /** Edges into a vertex that has no outgoing edge cannot close a cycle. */
  lemma FreshSinkEdges(E: set<Edge>, b: string, N: set<Edge>)
    requires forall n | n in N :: n.1 == b && n.0 != b
    requires b !in Sources(E)
    ensures HasCycle(E + N) == HasCycle(E)
  {
    forall S: set<string> ensures Reach(E + N, S) <= Reach(E, S) + {b} {
      var T := Reach(E, S) + {b};
      forall v | v in Post(E + N, T) ensures v in T {
        var d :| d in E + N && d.0 in T && d.1 == v;
        if d in E {
          assert d.0 in Sources(E);
          assert v in Post(E, Reach(E, S));
        }
      }
      ReachMinimal(E + N, S, T);
    }
    assert Reach(E, {b}) <= {b} by {
      assert Post(E, {b}) == {};
      ReachMinimal(E, {b}, {b});
    }
    forall n | n in N ensures n.0 !in Reach(E + N, {n.1}) {
      assert Reach(E + N, {n.1}) <= Reach(E, {b}) + {b};
    }
    if HasCycle(E + N) {
      var e :| e in E + N && e.0 in Reach(E + N, {e.1});
      assert e in E;
      assert e.0 in Sources(E);
      assert e.0 in Reach(E, {e.1});
    }
    if HasCycle(E) {
      var e :| e in E && e.0 in Reach(E, {e.1});
      ReachMonotone(E, E + N, {e.1});
    }
  }

  /** Edges out of a vertex that no edge enters cannot close a cycle. */
  lemma FreshSourceEdges(E: set<Edge>, a: string, N: set<Edge>)
    requires forall n | n in N :: n.0 == a && n.1 != a
    requires a !in Targets(E)
    ensures HasCycle(E + N) == HasCycle(E)
  {
    forall S: set<string> | a !in S ensures Reach(E + N, S) <= Reach(E, S) {
      var T := Reach(E, S);
      assert a !in T;
      forall v | v in Post(E + N, T) ensures v in T {
        var d :| d in E + N && d.0 in T && d.1 == v;
        assert d in E;
      }
      ReachMinimal(E + N, S, T);
    }
    if HasCycle(E + N) {
      var e :| e in E + N && e.0 in Reach(E + N, {e.1});
      if e in E {
        assert e.1 in Targets(E);
        assert e.0 in Reach(E, {e.1});
      } else {
        assert false;
      }
    }
    if HasCycle(E) {
      var e :| e in E && e.0 in Reach(E, {e.1});
      ReachMonotone(E, E + N, {e.1});
    }
  }
}
