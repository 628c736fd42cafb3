/** Worked examples of building and shrinking a network, on nodes that
    carry only a name and parents. The names are parameters required to
    be distinct, so each example holds for every choice of names. */
module NetworkExamples {
  import opened Graph
  import opened NetworkNode
  import opened BayesNet

  /** A node with parents and nothing else. */
  function Bare(name: string, predecessors: seq<string>): Node
  {
    Node(name, [], predecessors, map[], [])
  }

  /** A successful add, read off its parts: the new edges, the grown
      vertex set, the pending index after deferral and the warnings. */
  lemma AddedAs(st: NetState, node: Node, E: set<Edge>, V: set<string>, P: map<string, seq<string>>, w: nat)
    requires node.name !in st.nodes
    requires NewEdges(st, node) == E && !HasCycle(st.edges + E)
    requires st.vertices + {node.name} + Sources(E) + Targets(E) == V
    requires Defer(st.pending, node.name, node.predecessors, st.vertices + {node.name}) - {node.name} == P
    requires st.warnings + Count(node.predecessors, node.name) == w
    ensures AddSpec(st, node) == (NetState(st.nodes[node.name := node], V, st.edges + E, P, w), true)
  {
  }

  // ---------------------------------------------------------------------
  // Adding to an empty network

  /** A node whose parents are all missing becomes a lone vertex that
      waits for each parent; adding it again is refused and changes
      nothing, not even the warning count. */
  lemma DuplicateRefused(d: string, i: string, g: string)
    requires d != i && d != g && i != g
    ensures var (s, added) := AddSpec(EmptyState(), Bare(g, [d, i]));
            added &&
            s == NetState(map[g := Bare(g, [d, i])], {g}, {}, map[d := [g], i := [g]], 0) &&
            AddSpec(s, Bare(g, [d, i])) == (s, false)
  {
    var n := Bare(g, [d, i]);
    assert NewEdges(EmptyState(), n) == {};
    assert Defer(map[], g, [], {g}) == map[];
    assert Waiting(map[], d) + [g] == [g] && Waiting(map[d := [g]], i) + [g] == [g];
    DeferSnoc(map[], g, [], d, {g});
    assert [] + [d] == [d];
    DeferSnoc(map[], g, [d], i, {g});
    assert [d] + [i] == [d, i];
    assert map[d := [g]][i := [g]] == map[d := [g], i := [g]];
    assert map[d := [g], i := [g]] - {g} == map[d := [g], i := [g]];
    assert Sources({}) == {} && Targets({}) == {};
    assert EmptyState().vertices + {g} == {g};
    CountZero([d, i], g);
  }

  /** A node listing itself as a parent waits for its other parents,
      gets no self-loop and logs one warning. */
  lemma SelfParentWarned(d: string, i: string, g: string)
    requires d != i && d != g && i != g
    ensures var (s, added) := AddSpec(EmptyState(), Bare(g, [d, i, g]));
            added &&
            s == NetState(map[g := Bare(g, [d, i, g])], {g}, {}, map[d := [g], i := [g]], 1)
  {
    var n := Bare(g, [d, i, g]);
    assert NewEdges(EmptyState(), n) == {};
    assert EmptyState().vertices + {g} == {g};
    assert map[d := [g], i := [g]] - {g} == map[d := [g], i := [g]];
    assert Sources({}) == {} && Targets({}) == {};
    assert [] + [d] == [d] && [d] + [i] == [d, i] && [d, i] + [g] == [d, i, g];
    assert Defer(map[], g, [], {g}) == map[];
    assert Waiting(map[], d) + [g] == [g] && Waiting(map[d := [g]], i) + [g] == [g];
    DeferSnoc(map[], g, [], d, {g});
    DeferSnoc(map[], g, [d], i, {g});
    DeferSnoc(map[], g, [d, i], g, {g});
    assert map[d := [g]][i := [g]] == map[d := [g], i := [g]];
    CountSnoc([], d, g);
    CountSnoc([d], i, g);
    CountSnoc([d, i], g, g);
  }

  /** Deferring the second node: it joins the list of the parent it
      shares with the first node and opens lists for its other parents;
      its own entry, holding the first node, is left alone. */
  lemma SecondDeferral(d: string, i: string, g: string, l: string, k: string)
    requires d != i && d != g && d != l && d != k && i != g && i != l && i != k && g != l && g != k && l != k
    ensures Defer(map[d := [g], i := [g]], i, [d, l, k], {g, i}) ==
              map[d := [g, i], i := [g], l := [i], k := [i]]
  {
    var p0 := map[d := [g], i := [g]];
    assert [] + [d] == [d] && [d] + [l] == [d, l] && [d, l] + [k] == [d, l, k];
    assert Defer(p0, i, [], {g, i}) == p0;
    DeferSnoc(p0, i, [], d, {g, i});
    assert Waiting(p0, d) + [i] == [g, i];
    assert Defer(p0, i, [d], {g, i}) == map[d := [g, i], i := [g]];
    DeferSnoc(p0, i, [d], l, {g, i});
    assert Waiting(map[d := [g, i], i := [g]], l) + [i] == [i];
    assert Defer(p0, i, [d, l], {g, i}) == map[d := [g, i], i := [g], l := [i]];
    DeferSnoc(p0, i, [d, l], k, {g, i});
    assert Waiting(map[d := [g, i], i := [g], l := [i]], k) + [i] == [i];
  }

  /** A node that a waiting child named as its parent gets the edge to
      that child and waits in turn for its own missing parents. */
  lemma WaitingChildLinked(d: string, i: string, g: string, l: string, k: string)
    requires d != i && d != g && d != l && d != k && i != g && i != l && i != k && g != l && g != k && l != k
    ensures var s0 := NetState(map[g := Bare(g, [d, i])], {g}, {}, map[d := [g], i := [g]], 0);
            AddSpec(s0, Bare(i, [d, l, k])) ==
              (NetState(map[g := Bare(g, [d, i]), i := Bare(i, [d, l, k])], {g, i}, {(i, g)},
                        map[d := [g, i], l := [i], k := [i]], 0),
               true)
  {
    var s0 := NetState(map[g := Bare(g, [d, i])], {g}, {}, map[d := [g], i := [g]], 0);
    var n := Bare(i, [d, l, k]);
    assert ParentEdges(s0.vertices, i, [d, l, k]) == {};
    assert ChildEdges(s0.pending, i) == {(i, g)};
    assert NewEdges(s0, n) == {(i, g)};
    RankedAcyclic({(i, g)}, map[i := 0, g := 1]);
    assert Sources({(i, g)}) == {i} && Targets({(i, g)}) == {g};
    assert s0.vertices + {i} == {g, i};
    assert s0.vertices + {i} + {i} + {g} == {g, i};
    assert s0.edges + {(i, g)} == {(i, g)};
    SecondDeferral(d, i, g, l, k);
    assert map[d := [g, i], i := [g], l := [i], k := [i]] - {i} == map[d := [g, i], l := [i], k := [i]];
    CountZero([d, l, k], i);
  }

  // ---------------------------------------------------------------------
  // A node that would close a cycle

  /** `b` waits for its missing parent `a`. */
  lemma ChainStarted(a: string, b: string)
    requires a != b
    ensures AddSpec(EmptyState(), Bare(b, [a])) ==
              (NetState(map[b := Bare(b, [a])], {b}, {}, map[a := [b]], 0), true)
  {
    assert NewEdges(EmptyState(), Bare(b, [a])) == {};
    assert EmptyState().vertices + {b} == {b};
    assert Sources({}) == {} && Targets({}) == {};
    assert [] + [a] == [a];
    assert Defer(map[], b, [], {b}) == map[];
    DeferSnoc(map[], b, [], a, {b});
    assert Waiting(map[], a) + [b] == [b];
    assert map[a := [b]] - {b} == map[a := [b]];
    CountZero([a], b);
  }

  /** `c` is then linked below `b`. */
  lemma ChainExtended(a: string, b: string, c: string)
    requires a != b && a != c && b != c
    ensures var s1 := NetState(map[b := Bare(b, [a])], {b}, {}, map[a := [b]], 0);
            AddSpec(s1, Bare(c, [b])) ==
              (NetState(map[b := Bare(b, [a]), c := Bare(c, [b])], {b, c}, {(b, c)}, map[a := [b]], 0), true)
  {
    var s1 := NetState(map[b := Bare(b, [a])], {b}, {}, map[a := [b]], 0);
    var E := {(b, c)};
    assert NewEdges(s1, Bare(c, [b])) == E by {
      assert ParentEdges(s1.vertices, c, [b]) == E;
      assert ChildEdges(s1.pending, c) == {};
    }
    assert !HasCycle(s1.edges + E) by {
      assert s1.edges + E == E;
      RankedAcyclic(E, map[b := 0, c := 1]);
    }
    assert s1.vertices + {c} + Sources(E) + Targets(E) == {b, c} by {
      assert Sources(E) == {b} && Targets(E) == {c};
    }
    assert Defer(s1.pending, c, [b], s1.vertices + {c}) - {c} == map[a := [b]] by {
      assert [] + [b] == [b];
      assert Defer(s1.pending, c, [], {b, c}) == s1.pending;
      DeferSnoc(s1.pending, c, [], b, {b, c});
      assert s1.pending - {c} == s1.pending;
    }
    CountZero([b], c);
    AddedAs(s1, Bare(c, [b]), E, {b, c}, map[a := [b]], 0);
    assert s1.edges + E == {(b, c)};
    assert s1.nodes[c := Bare(c, [b])] == map[b := Bare(b, [a]), c := Bare(c, [b])];
  }

  /** Building a network from `b` (parent `a`) and `c` (parent `b`). */
  lemma ChainBuilt(a: string, b: string, c: string)
    requires a != b && a != c && b != c
    ensures AddAll(EmptyState(), [Bare(b, [a]), Bare(c, [b])]) ==
              NetState(map[b := Bare(b, [a]), c := Bare(c, [b])], {b, c}, {(b, c)}, map[a := [b]], 0)
  {
    assert [Bare(b, [a]), Bare(c, [b])][..1] == [Bare(b, [a])];
    assert [Bare(b, [a])][..0] == [];
    ChainStarted(a, b);
    ChainExtended(a, b, c);
    assert AddAll(EmptyState(), []) == EmptyState();
    assert AddAll(EmptyState(), [Bare(b, [a])]) == NetState(map[b := Bare(b, [a])], {b}, {}, map[a := [b]], 0);
  }

  /** With `c` below `b` and `b` waiting for `a`, a node `a` whose parent
      is `c` would close the cycle `a`, `b`, `c`: it is refused with a
      warning and nothing else changes. */
  lemma CycleRefused(a: string, b: string, c: string)
    requires a != b && a != c && b != c
    ensures var s := NetState(map[b := Bare(b, [a]), c := Bare(c, [b])], {b, c}, {(b, c)}, map[a := [b]], 0);
            AddSpec(s, Bare(a, [c])) == (s.(warnings := 1), false)
  {
    var s := NetState(map[b := Bare(b, [a]), c := Bare(c, [b])], {b, c}, {(b, c)}, map[a := [b]], 0);
    assert ParentEdges(s.vertices, a, [c]) == {(c, a)};
    assert ChildEdges(s.pending, a) == {(a, b)};
    var E := s.edges + NewEdges(s, Bare(a, [c]));
    assert E == {(b, c), (c, a), (a, b)};
    HasCycleIffCycleWalk(E);
    assert IsCycleWalk(E, [a, b, c, a]);
  }

  /** The same name without the parent is accepted and realises the edge
      `b` was waiting for; no entry is pending any more. */
  lemma ChainCompleted(a: string, b: string, c: string)
    requires a != b && a != c && b != c
    ensures var s := NetState(map[b := Bare(b, [a]), c := Bare(c, [b])], {b, c}, {(b, c)}, map[a := [b]], 0);
            AddSpec(s.(warnings := 1), Bare(a, [])) ==
              (NetState(map[b := Bare(b, [a]), c := Bare(c, [b]), a := Bare(a, [])], {a, b, c},
                        {(b, c), (a, b)}, map[], 1),
               true)
  {
    var s := NetState(map[b := Bare(b, [a]), c := Bare(c, [b])], {b, c}, {(b, c)}, map[a := [b]], 1);
    assert ParentEdges(s.vertices, a, []) == {};
    assert ChildEdges(s.pending, a) == {(a, b)};
    assert NewEdges(s, Bare(a, [])) == {(a, b)};
    RankedAcyclic({(b, c), (a, b)}, map[a := 0, b := 1, c := 2]);
    assert s.edges + {(a, b)} == {(b, c), (a, b)};
    assert Sources({(a, b)}) == {a} && Targets({(a, b)}) == {b};
    assert s.vertices + {a} + {a} + {b} == {a, b, c};
    assert Defer(s.pending, a, [], s.vertices + {a}) == s.pending;
    assert s.pending - {a} == map[];
  }

  // ---------------------------------------------------------------------
  // Removing nodes

  /** A name that is not a node is not removed. */
  lemma AbsentNotRemoved(st: NetState, p: string)
    requires p !in st.nodes
    ensures RemoveSpec(st, p) == (st, false)
  {
  }

  /** Removing a node takes it out of every list of waiting children. */
  lemma RemovedFromWaitingLists(a: string, b: string, c: string, x: string, y: string)
    requires a != b && a != c && b != c && x != y && x != a && x != b && x != c && y != a && y != b && y != c
    ensures var s := NetState(map[a := Bare(a, [x]), b := Bare(b, [x, y]), c := Bare(c, [x, y])], {a, b, c}, {},
                              map[x := [a, b, c], y := [b, c]], 0);
            RemoveSpec(s, b) ==
              (NetState(map[a := Bare(a, [x]), c := Bare(c, [x, y])], {a, c}, {}, map[x := [a, c], y := [c]], 0), true)
  {
    var s := NetState(map[a := Bare(a, [x]), b := Bare(b, [x, y]), c := Bare(c, [x, y])], {a, b, c}, {},
                      map[x := [a, b, c], y := [b, c]], 0);
    assert RemoveFirst([a, b, c], b) == [a, c] by {
      assert [a, b, c][1..] == [b, c];
    }
    assert RemoveFirst([b, c], b) == [c];
    assert (map p | p in s.pending :: RemoveFirst(s.pending[p], b)) == map[x := [a, c], y := [c]];
    assert s.nodes - {b} == map[a := Bare(a, [x]), c := Bare(c, [x, y])];
    assert s.vertices - {b} == {a, c};
    assert (set e | e in s.edges && e.0 != b && e.1 != b) == {};
  }

  /** A list that loses its last waiting child stays, empty. */
  lemma EmptyWaitingListKept(a: string, c: string, x: string, y: string)
    requires a != c && x != y && x != a && x != c && y != a && y != c
    ensures var s := NetState(map[a := Bare(a, [x]), c := Bare(c, [x, y])], {a, c}, {}, map[x := [a, c], y := [c]], 0);
            RemoveSpec(s, c) == (NetState(map[a := Bare(a, [x])], {a}, {}, map[x := [a], y := []], 0), true)
  {
    var s := NetState(map[a := Bare(a, [x]), c := Bare(c, [x, y])], {a, c}, {}, map[x := [a, c], y := [c]], 0);
    assert RemoveFirst([a, c], c) == [a] by {
      assert [a, c][1..] == [c];
      assert [c][1..] == [];
    }
    assert RemoveFirst([c], c) == [];
    assert (map p | p in s.pending :: RemoveFirst(s.pending[p], c)) == map[x := [a], y := []];
    assert s.nodes - {c} == map[a := Bare(a, [x])];
    assert s.vertices - {c} == {a};
    assert (set e | e in s.edges && e.0 != c && e.1 != c) == {};
  }

  /** Removing a parent takes its edges out of the graph; its children
      stay and are not put back on a waiting list. */
  lemma ParentRemoved(d: string, i: string, g: string)
    requires d != i && d != g && i != g
    ensures var s := NetState(map[d := Bare(d, []), i := Bare(i, []), g := Bare(g, [d, i])], {d, i, g},
                              {(d, g), (i, g)}, map[], 0);
            RemoveSpec(s, d) ==
              (NetState(map[i := Bare(i, []), g := Bare(g, [d, i])], {i, g}, {(i, g)}, map[], 0), true)
  {
    var s := NetState(map[d := Bare(d, []), i := Bare(i, []), g := Bare(g, [d, i])], {d, i, g},
                      {(d, g), (i, g)}, map[], 0);
    assert (set e | e in s.edges && e.0 != d && e.1 != d) == {(i, g)};
    assert s.nodes - {d} == map[i := Bare(i, []), g := Bare(g, [d, i])];
    assert s.vertices - {d} == {i, g};
  }
}
