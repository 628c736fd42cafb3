/** The older network object. It keeps the same three pieces of state as
    the current one (a node map, a directed graph, and the children
    waiting for a parent that is not in the graph yet) but builds them
    differently:

    - the cycle test looks at the graph after the bare vertex is inserted
      and before any of the node's edges are realised, so it can only
      fire when the graph already had a cycle;
    - a name already present is filed again, and a parent equal to the
      node gives a self-loop;
    - the purge in `remove_node` tests the name against the pending
      index's keys, which are strings, and calls `.remove` on the first
      key that contains it, which raises `AttributeError`.

    `LegacyState` is the state as a value, `AddSpec` / `RemoveSpec` say
    what the two operations do to it, and the class `BayesianNetwork`
    holds the same state in fields and is proved to follow them. */
module LegacyNetwork {
  import opened Common
  import opened Graph
  import opened NetworkNode
  import opened Strings
  import BayesNet
  import NetworkExamples

  /** The node map, the graph as a vertex set and an edge set, and the
      pending-edge index (for a missing parent, the children waiting for
      it, in arrival order). */
  datatype LegacyState = LegacyState(
    nodes: map<string, Node>,
    vertices: set<string>,
    edges: set<Edge>,
    pending: map<string, seq<string>>)

  /** How `remove_node` ended: it returned, or it raised. */
  datatype Outcome = Returned | Raised(error: Error)

  /** The state of a network built from no nodes. */
  function Empty(): LegacyState
  {
    LegacyState(map[], {}, {}, map[])
  }

  /** What every call keeps: each node is filed under its own name and
      every edge joins two vertices. Unlike the current network, neither
      acyclicity nor "every node is a vertex" is kept. */
  predicate Inv(st: LegacyState)
  {
    (forall k | k in st.nodes :: st.nodes[k].name == k) &&
    Sources(st.edges) <= st.vertices && Targets(st.edges) <= st.vertices
  }

  /** `G.remove_node(name)` guarded by `name in G`: the vertex goes, with
      every edge that touches it. */
  function WithoutVertex(st: LegacyState, name: string): (r: LegacyState)
    ensures r.nodes == st.nodes && r.pending == st.pending
    ensures r.vertices == st.vertices - {name}
    ensures forall e :: e in r.edges <==> e in st.edges && (name in st.vertices ==> e.0 != name && e.1 != name)
  {
    if name in st.vertices then
      st.(vertices := st.vertices - {name}, edges := set e | e in st.edges && e.0 != name && e.1 != name)
    else st
  }

  // ---------------------------------------------------------------------
  // Adding a node

  /** The edges from the node's parents that are in the graph. A parent
      equal to the node is in the graph by then, so it gives a self-loop. */
  function LinkEdges(vertices: set<string>, name: string, predecessors: seq<string>): (r: set<Edge>)
    ensures forall e :: e in r <==> e.1 == name && e.0 in predecessors && e.0 in vertices
  {
    set p | p in predecessors && p in vertices :: (p, name)
  }

  /** `add_node(node)` on the state. The name becomes a vertex; if the
      graph then has a cycle, the vertex is removed again with its edges
      and nothing else changes. Otherwise the node is filed (over any
      node of the same name), each parent in the graph gets an edge to
      it, it waits for each parent outside the graph, each child waiting
      for it gets an edge from it (becoming a vertex if need be), and its
      own pending entry is deleted. */
  function AddSpec(st: LegacyState, node: Node): LegacyState
  {
    var key := node.name;
    var v := st.vertices + {key};
    if HasCycle(st.edges) then WithoutVertex(st.(vertices := v), key)
    else
      var deferred := BayesNet.Defer(st.pending, key, node.predecessors, v);
      var ce := BayesNet.LinksFrom(key, BayesNet.Waiting(deferred, key));
      LegacyState(st.nodes[key := node], v + Targets(ce), st.edges + LinkEdges(v, key, node.predecessors) + ce,
                  deferred - {key})
  }

  /** `BayesianNetwork(initial_network)`: the nodes added one after the
      other. */
  function AddAll(st: LegacyState, nodes: seq<Node>): LegacyState
  {
    if |nodes| == 0 then st
    else AddSpec(AddAll(st, nodes[..|nodes| - 1]), nodes[|nodes| - 1])
  }

  /** An add is refused only when the graph already had a cycle; then the
      name is no vertex any more, no edge touches it, and the node map
      and the pending index are as they were. A name already filed stays
      filed, although it is no vertex now. */
  lemma AddRefused(st: LegacyState, node: Node)
    requires HasCycle(st.edges)
    ensures var s := AddSpec(st, node);
            s.nodes == st.nodes && s.pending == st.pending &&
            s.vertices == st.vertices - {node.name} &&
            (forall e :: e in s.edges <==> e in st.edges && e.0 != node.name && e.1 != node.name)
  {
  }

  /** On an acyclic graph an add is never refused: the node is filed,
      replacing any node of the same name, nothing filed, no vertex and no
      edge is lost, every parent in the graph (the node itself included)
      gets an edge to it, every child that waited for it gets an edge from
      it, it joins the waiting list of each missing parent once per
      occurrence of that parent, no other waiting list changes, and its
      own entry is gone. */
  lemma AddLinks(st: LegacyState, node: Node)
    requires !HasCycle(st.edges)
    ensures var s := AddSpec(st, node);
            var key := node.name;
            s.nodes == st.nodes[key := node] &&
            st.vertices + {key} <= s.vertices && st.edges <= s.edges &&
            (forall p | p in node.predecessors && p in st.vertices + {key} :: (p, key) in s.edges) &&
            (forall c | c in BayesNet.Waiting(st.pending, key) :: c in s.vertices && (key, c) in s.edges) &&
            (forall p | p in node.predecessors && p !in st.vertices + {key} ::
               p in s.pending && s.pending[p] == BayesNet.Waiting(st.pending, p) + BayesNet.Repeat(key, BayesNet.Count(node.predecessors, p))) &&
            (forall p | p in st.pending && p != key && (p in st.vertices || p !in node.predecessors) ::
               p in s.pending && s.pending[p] == st.pending[p]) &&
            key !in s.pending
  {
    var v := st.vertices + {node.name};
    var s := AddSpec(st, node);
    BayesNet.DeferSpec(st.pending, node.name, node.predecessors, v);
    forall p | p in st.pending && p != node.name && p !in st.vertices && p !in node.predecessors
      ensures p in s.pending && s.pending[p] == st.pending[p]
    {
      BayesNet.CountZero(node.predecessors, p);
    }
  }

  /** A node listing itself as a parent, added to an acyclic graph, gets
      a self-loop, so the graph has a cycle from then on. */
  lemma SelfParentLoop(st: LegacyState, node: Node)
    requires !HasCycle(st.edges)
    requires node.name in node.predecessors
    ensures var s := AddSpec(st, node);
            (node.name, node.name) in s.edges && HasCycle(s.edges)
  {
    var s := AddSpec(st, node);
    AddLinks(st, node);
    SelfLoopCycle(s.edges, node.name);
  }

  /** A self-loop is a cycle. */
  lemma SelfLoopCycle(E: set<Edge>, x: string)
    requires (x, x) in E
    ensures HasCycle(E)
  {
    assert x in Reach(E, {x});
  }

  /** While a self-loop on `x` stands, every add of another name is
      refused and the loop stays: after one self-parent, the network
      accepts no other node. */
  lemma SelfLoopBlocks(st: LegacyState, x: string, node: Node)
    requires (x, x) in st.edges
    requires node.name != x
    ensures var s := AddSpec(st, node);
            s.nodes == st.nodes && s.pending == st.pending && (x, x) in s.edges
  {
    SelfLoopCycle(st.edges, x);
  }

  /** An add keeps every node filed under its name and every edge between
      vertices. */
  lemma AddKeepsInvariant(st: LegacyState, node: Node)
    requires Inv(st)
    ensures Inv(AddSpec(st, node))
  {
    var s := AddSpec(st, node);
    var key := node.name;
    var v := st.vertices + {key};
    if HasCycle(st.edges) {
      forall y | y in Sources(s.edges) ensures y in s.vertices {
        var e :| e in s.edges && e.0 == y;
      }
      forall y | y in Targets(s.edges) ensures y in s.vertices {
        var e :| e in s.edges && e.1 == y;
      }
    } else {
      var ce := BayesNet.LinksFrom(key, BayesNet.Waiting(BayesNet.Defer(st.pending, key, node.predecessors, v), key));
      forall y | y in Sources(s.edges) ensures y in s.vertices {
        var e :| e in s.edges && e.0 == y;
      }
      forall y | y in Targets(s.edges) ensures y in s.vertices {
        var e :| e in s.edges && e.1 == y;
        if e in ce {
          assert y in Targets(ce);
        }
      }
    }
  }

  /** Every state built by adds keeps the invariant. */
  lemma {:induction false} AddAllKeepsInvariant(st: LegacyState, nodes: seq<Node>)
    requires Inv(st)
    ensures Inv(AddAll(st, nodes))
    decreases |nodes|
  {
    if |nodes| > 0 {
      AddAllKeepsInvariant(st, nodes[..|nodes| - 1]);
      AddKeepsInvariant(AddAll(st, nodes[..|nodes| - 1]), nodes[|nodes| - 1]);
    }
  }

  // ---------------------------------------------------------------------
  // Removing a node

  /** `remove_node(name)` on the state. The node, if filed, leaves the
      node map. Then the purge looks at the pending index's keys: the
      first key containing the name as a substring gets `.remove` called
      on it, which a string lacks, so the call raises `AttributeError`
      with the node map already changed and the graph untouched. When no
      key contains the name, the vertex, if present, leaves the graph
      with its edges. The waiting lists never change. */
  function RemoveSpec(st: LegacyState, name: string): (LegacyState, Outcome)
  {
    var s := st.(nodes := st.nodes - {name});
    if exists k | k in st.pending :: IsSubstring(name, k) then (s, Raised(AttributeError))
    else (WithoutVertex(s, name), Returned)
  }

  /** A removal always takes the name out of the node map and keeps the
      other nodes and the waiting lists. It raises exactly when some
      pending key contains the name; then the graph is as it was.
      Otherwise it returns with the name gone from the graph and only
      the edges touching it dropped. */
  lemma RemoveOutcome(st: LegacyState, name: string)
    requires Inv(st)
    ensures var (s, outcome) := RemoveSpec(st, name);
            name !in s.nodes && s.nodes.Keys == st.nodes.Keys - {name} &&
            (forall k | k in s.nodes :: s.nodes[k] == st.nodes[k]) &&
            s.pending == st.pending &&
            (outcome == Raised(AttributeError) <==> exists k | k in st.pending :: IsSubstring(name, k)) &&
            (outcome.Raised? ==> s.vertices == st.vertices && s.edges == st.edges) &&
            (outcome == Returned ==>
               s.vertices == st.vertices - {name} &&
               forall e :: e in s.edges <==> e in st.edges && e.0 != name && e.1 != name)
  {
    forall e | e in st.edges ensures e.0 in st.vertices && e.1 in st.vertices {
      assert e.0 in Sources(st.edges) && e.1 in Targets(st.edges);
    }
  }

  /** Removing a parent that children are still waiting for always
      raises: the name is its own pending key. The name is out of the
      node map while the graph keeps it. */
  lemma WaitedForRaises(st: LegacyState, name: string)
    requires name in st.pending
    ensures var (s, outcome) := RemoveSpec(st, name);
            outcome == Raised(AttributeError) && name !in s.nodes &&
            s.vertices == st.vertices && s.edges == st.edges
  {
    assert OccursAt(name, name, 0);
  }

  /** Removal keeps the invariant, whether it returns or raises. */
  lemma RemoveKeepsInvariant(st: LegacyState, name: string)
    requires Inv(st)
    ensures Inv(RemoveSpec(st, name).0)
  {
    var s := RemoveSpec(st, name).0;
    forall y | y in Sources(s.edges) ensures y in s.vertices {
      var e :| e in s.edges && e.0 == y;
      assert e in st.edges;
    }
    forall y | y in Targets(s.edges) ensures y in s.vertices {
      var e :| e in s.edges && e.1 == y;
      assert e in st.edges;
    }
  }

  // ---------------------------------------------------------------------
  // One step of the linking loops

  lemma LinkEdgesSnoc(vertices: set<string>, name: string, xs: seq<string>, p: string)
    ensures LinkEdges(vertices, name, xs + [p]) ==
              LinkEdges(vertices, name, xs) + (if p in vertices then {(p, name)} else {})
  {
  }

  // ---------------------------------------------------------------------
  // Worked examples, on nodes that carry only a name and parents

  /** On an acyclic graph, a node nobody waits for whose parents are all
      vertices becomes a vertex with exactly the edges from its parents;
      the pending index does not change. */
  lemma AddWithParentsPresent(st: LegacyState, node: Node)
    requires !HasCycle(st.edges)
    requires forall p | p in node.predecessors :: p in st.vertices
    requires node.name !in st.pending
    ensures AddSpec(st, node) ==
              st.(nodes := st.nodes[node.name := node], vertices := st.vertices + {node.name},
                  edges := st.edges + LinkEdges(st.vertices, node.name, node.predecessors))
  {
    var v := st.vertices + {node.name};
    var deferred := BayesNet.Defer(st.pending, node.name, node.predecessors, v);
    BayesNet.DeferSpec(st.pending, node.name, node.predecessors, v);
    forall q | q in deferred
      ensures q in st.pending && deferred[q] == st.pending[q]
    {
      BayesNet.CountZero(node.predecessors, q);
    }
    assert forall q :: q in deferred <==> q in st.pending;
    assert deferred == st.pending;
    assert LinkEdges(v, node.name, node.predecessors) == LinkEdges(st.vertices, node.name, node.predecessors);
    assert BayesNet.LinksFrom(node.name, BayesNet.Waiting(deferred, node.name)) == {};
    assert st.pending - {node.name} == st.pending;
  }

  /** On an acyclic graph, a node nobody waits for whose one parent is
      missing becomes a lone vertex and joins that parent's waiting list. */
  lemma AddWaitingForOne(st: LegacyState, node: Node, p: string)
    requires !HasCycle(st.edges)
    requires node.predecessors == [p] && p !in st.vertices && p != node.name
    requires node.name !in st.pending
    ensures AddSpec(st, node) ==
              st.(nodes := st.nodes[node.name := node], vertices := st.vertices + {node.name},
                  pending := st.pending[p := BayesNet.Waiting(st.pending, p) + [node.name]])
  {
    var v := st.vertices + {node.name};
    assert BayesNet.Defer(st.pending, node.name, [], v) == st.pending;
    BayesNet.DeferSnoc(st.pending, node.name, [], p, v);
    assert [] + [p] == [p];
    var deferred := st.pending[p := BayesNet.Waiting(st.pending, p) + [node.name]];
    assert BayesNet.Defer(st.pending, node.name, node.predecessors, v) == deferred;
    assert BayesNet.LinksFrom(node.name, BayesNet.Waiting(deferred, node.name)) == {};
    assert LinkEdges(v, node.name, node.predecessors) == {};
    assert deferred - {node.name} == deferred;
  }

  /** The sample network `D`, `I`, `G(D, I)`, `K` built by the
      constructor: four nodes, four vertices, the two edges into `G` and
      nothing pending. */
  lemma SampleNetwork(d: string, i: string, g: string, k: string, sample: seq<Node>)
    requires d != i && d != g && d != k && i != g && i != k && g != k
    requires sample == [NetworkExamples.Bare(d, []), NetworkExamples.Bare(i, []),
                        NetworkExamples.Bare(g, [d, i]), NetworkExamples.Bare(k, [])]
    ensures var s := AddAll(Empty(), sample);
            s.nodes.Keys == {d, i, g, k} && s.vertices == {d, i, g, k} &&
            s.edges == {(d, g), (i, g)} && s.pending == map[] &&
            |s.nodes| == 4 && |s.vertices| == 4 && |s.edges| == 2 && |s.pending| == 0
  {
    var nd, ni, ng, nk := sample[0], sample[1], sample[2], sample[3];
    var e := Empty();
    FirstThree(d, i, g, nd, ni, ng);
    var s3 := LegacyState(map[d := nd, i := ni, g := ng], {d, i, g}, {(d, g), (i, g)}, map[]);
    RankedAcyclic(s3.edges, map[d := 0, i := 0, g := 1]);
    ExtendPresent(e, [nd, ni, ng], s3, nk);
    assert [nd, ni, ng] + [nk] == sample;
    assert LinkEdges(s3.vertices, k, nk.predecessors) == {};
    var s4 := s3.(nodes := s3.nodes[k := nk], vertices := s3.vertices + {k});
    assert AddAll(e, sample) == s4;
    SampleCounts(d, i, g, k, s4);
  }

  /** The first three nodes of the sample: `G` gets an edge from each of
      its two parents. */
  lemma FirstThree(d: string, i: string, g: string, nd: Node, ni: Node, ng: Node)
    requires d != i && d != g && i != g
    requires nd == NetworkExamples.Bare(d, []) && ni == NetworkExamples.Bare(i, [])
    requires ng == NetworkExamples.Bare(g, [d, i])
    ensures AddAll(Empty(), [nd, ni, ng]) ==
              LegacyState(map[d := nd, i := ni, g := ng], {d, i, g}, {(d, g), (i, g)}, map[])
  {
    var e := Empty();
    TwoRoots(d, i, nd, ni);
    var s2 := e.(nodes := map[d := nd, i := ni], vertices := {d, i});
    ExtendPresent(e, [nd, ni], s2, ng);
    assert [nd, ni] + [ng] == [nd, ni, ng];
    assert LinkEdges(s2.vertices, g, ng.predecessors) == {(d, g), (i, g)};
  }

  /** The first two nodes of the sample: two lone vertices. */
  lemma TwoRoots(d: string, i: string, nd: Node, ni: Node)
    requires nd == NetworkExamples.Bare(d, []) && ni == NetworkExamples.Bare(i, [])
    ensures AddAll(Empty(), [nd, ni]) == Empty().(nodes := map[d := nd, i := ni], vertices := {d, i})
  {
    var e := Empty();
    assert AddAll(e, []) == e;
    ExtendPresent(e, [], e, nd);
    var s1 := e.(nodes := map[d := nd], vertices := {d});
    assert [] + [nd] == [nd];
    ExtendPresent(e, [nd], s1, ni);
    assert [nd] + [ni] == [nd, ni];
  }

  lemma SampleCounts(d: string, i: string, g: string, k: string, s: LegacyState)
    requires d != i && d != g && d != k && i != g && i != k && g != k
    requires s.nodes.Keys == {d, i, g, k} && s.vertices == {d, i, g, k} && s.edges == {(d, g), (i, g)}
    requires s.pending == map[]
    ensures |s.nodes| == 4 && |s.vertices| == 4 && |s.edges| == 2 && |s.pending| == 0
  {
    assert |s.nodes| == |s.nodes.Keys|;
  }

  /** One more step of the constructor, adding a node as in
      `AddWithParentsPresent`. */
  lemma ExtendPresent(st0: LegacyState, ns: seq<Node>, st: LegacyState, node: Node)
    requires AddAll(st0, ns) == st
    requires !HasCycle(st.edges)
    requires forall p | p in node.predecessors :: p in st.vertices
    requires node.name !in st.pending
    ensures AddAll(st0, ns + [node]) ==
              st.(nodes := st.nodes[node.name := node], vertices := st.vertices + {node.name},
                  edges := st.edges + LinkEdges(st.vertices, node.name, node.predecessors))
  {
    AddAllSnoc(st0, ns, node);
    AddWithParentsPresent(st, node);
  }

  /** One more step of the constructor, adding a node as in
      `AddWaitingForOne`. */
  lemma ExtendWaiting(st0: LegacyState, ns: seq<Node>, st: LegacyState, node: Node, p: string)
    requires AddAll(st0, ns) == st
    requires !HasCycle(st.edges)
    requires node.predecessors == [p] && p !in st.vertices && p != node.name
    requires node.name !in st.pending
    ensures AddAll(st0, ns + [node]) ==
              st.(nodes := st.nodes[node.name := node], vertices := st.vertices + {node.name},
                  pending := st.pending[p := BayesNet.Waiting(st.pending, p) + [node.name]])
  {
    AddAllSnoc(st0, ns, node);
    AddWaitingForOne(st, node, p);
  }

  /** The constructor's last step: adding one more node to the nodes
      added so far. */
  lemma AddAllSnoc(st: LegacyState, ns: seq<Node>, n: Node)
    ensures AddAll(st, ns + [n]) == AddSpec(AddAll(st, ns), n)
  {
    assert (ns + [n])[..|ns|] == ns;
  }

  /** The cycle `a -> b -> c -> a` is accepted when `b` (waiting for `a`)
      and `c` come first: each cycle test sees an acyclic graph, and the
      last add closes the cycle while linking. */
  lemma CycleAccepted(a: string, b: string, c: string, ns: seq<Node>)
    requires a != b && a != c && b != c
    requires ns == [NetworkExamples.Bare(b, [a]), NetworkExamples.Bare(c, [b]), NetworkExamples.Bare(a, [c])]
    ensures var s := AddAll(Empty(), ns);
            s.nodes.Keys == {a, b, c} && s.edges == {(b, c), (c, a), (a, b)} && s.pending == map[] &&
            HasCycle(s.edges)
  {
    var nb, nc, na := ns[0], ns[1], ns[2];
    var e := Empty();
    assert AddAll(e, []) == e;
    ExtendWaiting(e, [], e, nb, a);
    var s1 := e.(nodes := map[b := nb], vertices := {b}, pending := map[a := [b]]);
    assert [] + [nb] == [nb];
    assert [] + [b] == [b];
    ExtendPresent(e, [nb], s1, nc);
    var s2 := s1.(nodes := map[b := nb, c := nc], vertices := {b, c}, edges := {(b, c)});
    assert [nb] + [nc] == [nb, nc];
    assert LinkEdges({b}, c, [b]) == {(b, c)};
    assert AddAll(e, [nb, nc]) == s2;
    AddAllSnoc(e, [nb, nc], na);
    assert [nb, nc] + [na] == ns;
    CycleClosed(a, b, c, s2, na);
  }

  /** The last add of `CycleAccepted`: the parent edge `c -> a` and the
      waiting edge `a -> b` close the cycle. */
  lemma CycleClosed(a: string, b: string, c: string, st: LegacyState, na: Node)
    requires a != b && a != c && b != c
    requires st.vertices == {b, c} && st.edges == {(b, c)} && st.pending == map[a := [b]]
    requires na.name == a && na.predecessors == [c]
    ensures var s := AddSpec(st, na);
            s.nodes.Keys == st.nodes.Keys + {a} && s.edges == {(b, c), (c, a), (a, b)} && s.pending == map[] &&
            HasCycle(s.edges)
  {
    RankedAcyclic(st.edges, map[b := 0, c := 1]);
    var v := st.vertices + {a};
    assert BayesNet.Defer(st.pending, a, [], v) == st.pending;
    BayesNet.DeferSnoc(st.pending, a, [], c, v);
    assert [] + [c] == [c];
    assert BayesNet.Defer(st.pending, a, na.predecessors, v) == st.pending;
    assert BayesNet.LinksFrom(a, [b]) == {(a, b)};
    assert LinkEdges(v, a, [c]) == {(c, a)};
    var s := AddSpec(st, na);
    assert s.edges == {(b, c), (c, a), (a, b)};
    HasCycleIffCycleWalk(s.edges);
    assert IsCycleWalk(s.edges, [a, b, c, a]);
  }

  // ---------------------------------------------------------------------
  // The network object

  /** The legacy `BayesianNetwork`: the node map, the graph and the
      pending-edge index, updated in place. */
  class BayesianNetwork {
    var nodes: map<string, Node>
    var vertices: set<string>
    var edges: set<Edge>
    var pending: map<string, seq<string>>

    /** The fields as a state value. */
    function State(): LegacyState
      reads this
    {
      LegacyState(nodes, vertices, edges, pending)
    }

    /** `BayesianNetwork(initial_network)`: an empty network, then every
        node added in order. */
    constructor (initialNetwork: seq<Node>)
      ensures State() == AddAll(Empty(), initialNetwork)
      ensures Inv(State())
    {
      nodes := map[];
      vertices := {};
      edges := {};
      pending := map[];
      new;
      for i := 0 to |initialNetwork|
        invariant State() == AddAll(Empty(), initialNetwork[..i])
      {
        assert initialNetwork[..i + 1][..i] == initialNetwork[..i];
        AddNode(initialNetwork[i]);
      }
      assert initialNetwork[..|initialNetwork|] == initialNetwork;
      AddAllKeepsInvariant(Empty(), initialNetwork);
    }

    /** `add_node(node)`. */
    method AddNode(node: Node)
      modifies this
      ensures State() == AddSpec(old(State()), node)
    {
      ghost var st := State();
      var key := node.name;
      vertices := vertices + {key};
      var hasCycle := GuaranteeGraphHasNoCycle(key);
      if hasCycle {
        return;
      }
      nodes := nodes[key := node];
      LinkPredecessors(node);
      ghost var deferred := pending;
      LinkWaitingChildren(key);
      ghost var v := st.vertices + {key};
      ghost var ce := BayesNet.LinksFrom(key, BayesNet.Waiting(deferred, key));
      assert State() == LegacyState(st.nodes[key := node], v + Targets(ce),
                                    st.edges + LinkEdges(v, key, node.predecessors) + ce, deferred - {key});
    }

    /** The first loop of `add_node`: an edge from each parent in the
        graph, and a place in the waiting list of each other parent. */
    method LinkPredecessors(node: Node)
      modifies this
      ensures edges == old(edges) + LinkEdges(vertices, node.name, node.predecessors)
      ensures pending == BayesNet.Defer(old(pending), node.name, node.predecessors, vertices)
      ensures nodes == old(nodes) && vertices == old(vertices)
    {
      var key := node.name;
      var predecessors := node.predecessors;
      for i := 0 to |predecessors|
        invariant nodes == old(nodes) && vertices == old(vertices)
        invariant edges == old(edges) + LinkEdges(vertices, key, predecessors[..i])
        invariant pending == BayesNet.Defer(old(pending), key, predecessors[..i], vertices)
      {
        var predecessor := predecessors[i];
        assert predecessors[..i + 1] == predecessors[..i] + [predecessor];
        LinkEdgesSnoc(vertices, key, predecessors[..i], predecessor);
        BayesNet.DeferSnoc(old(pending), key, predecessors[..i], predecessor, vertices);
        if predecessor !in vertices {
          pending := pending[predecessor := BayesNet.Waiting(pending, predecessor) + [key]];
        } else {
          edges := edges + {(predecessor, key)};
        }
      }
      assert predecessors[..|predecessors|] == predecessors;
    }

    /** The second loop of `add_node` and the `del` after it: an edge from
        the node to each child waiting for it, then the node's pending
        entry is deleted. */
    method LinkWaitingChildren(key: string)
      requires key in vertices
      modifies this
      ensures edges == old(edges) + BayesNet.LinksFrom(key, BayesNet.Waiting(old(pending), key))
      ensures vertices == old(vertices) + Targets(BayesNet.LinksFrom(key, BayesNet.Waiting(old(pending), key)))
      ensures pending == old(pending) - {key} && nodes == old(nodes)
    {
      var successors := BayesNet.Waiting(pending, key);
      for j := 0 to |successors|
        invariant edges == old(edges) + BayesNet.LinksFrom(key, successors[..j])
        invariant vertices == old(vertices) + Targets(BayesNet.LinksFrom(key, successors[..j]))
        invariant nodes == old(nodes) && pending == old(pending)
      {
        assert successors[..j + 1] == successors[..j] + [successors[j]];
        BayesNet.LinksFromSnoc(key, successors[..j], successors[j]);
        BayesNet.EndsAdd(BayesNet.LinksFrom(key, successors[..j]), key, successors[j]);
        edges := edges + {(key, successors[j])};
        vertices := vertices + {key, successors[j]};
      }
      assert successors[..|successors|] == successors;
      pending := pending - {key};
    }

    /** `_guarantee_graph_has_no_cycle(node_key)`: the whole graph is
        searched for a cycle; if there is one the node's vertex is removed
        again. */
    method GuaranteeGraphHasNoCycle(key: string) returns (hasCycle: bool)
      requires key in vertices
      modifies this
      ensures hasCycle == HasCycle(old(edges))
      ensures State() == if hasCycle then WithoutVertex(old(State()), key) else old(State())
    {
      hasCycle := HasCycle(edges);
      if hasCycle {
        vertices := vertices - {key};
        edges := set e | e in edges && e.0 != key && e.1 != key;
      }
    }

    /** `remove_node(node_name)`. */
    method RemoveNode(name: string) returns (outcome: Outcome)
      modifies this
      ensures (State(), outcome) == RemoveSpec(old(State()), name)
    {
      if name in nodes {
        nodes := nodes - {name};
      } else {
        assert nodes - {name} == nodes;
      }
      var keys := pending.Keys;
      while keys != {}
        invariant keys <= pending.Keys
        invariant forall k | k in pending && k !in keys :: !IsSubstring(name, k)
        invariant State() == old(State()).(nodes := old(nodes) - {name})
        decreases keys
      {
        var k :| k in keys;
        if IsSubstring(name, k) {
          return Raised(AttributeError);
        }
        keys := keys - {k};
      }
      if name in vertices {
        vertices := vertices - {name};
        edges := set e | e in edges && e.0 != name && e.1 != name;
      }
      return Returned;
    }
  }
}
