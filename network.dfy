/** The network's incremental construction: a node map, a directed graph
    of realised parent-to-child edges, and an index of edges still
    waiting for a parent that is not in the graph yet.

    `NetState` is the state as a value and `AddSpec` / `RemoveSpec` say
    what `add_node` and `remove_node` do to it; the class
    `BayesianNetwork` holds the same state in fields and its methods are
    proved to follow the two functions. The graph is a vertex set and an
    edge set: adding an edge adds both of its ends as vertices, as
    `DiGraph.add_edge` does. */
module BayesNet {
  import opened Common
  import opened Graph
  import opened NetworkNode
  import opened Strings
  import Query
  import InputParser
  import opened Inference

  /** The node map, the graph, the pending-edge index (for a missing
      parent, the children waiting for it, in arrival order) and the
      number of warnings logged. */
  datatype NetState = NetState(
    nodes: map<string, Node>,
    vertices: set<string>,
    edges: set<Edge>,
    pending: map<string, seq<string>>,
    warnings: nat)

  /** The state of a network built from no nodes. */
  function EmptyState(): NetState
  {
    NetState(map[], {}, {}, map[], 0)
  }

  /** What stays true of the state from one call to the next: each node
      is filed under its own name and is a vertex, edges join vertices,
      and the graph has no directed cycle. */
  predicate Inv(st: NetState)
  {
    (forall k | k in st.nodes :: st.nodes[k].name == k) &&
    st.nodes.Keys <= st.vertices &&
    Sources(st.edges) <= st.vertices && Targets(st.edges) <= st.vertices &&
    !HasCycle(st.edges)
  }

  // ---------------------------------------------------------------------
  // Helpers on lists

  /** How often `x` occurs in `xs`. */
  function Count(xs: seq<string>, x: string): nat
  {
    if |xs| == 0 then 0
    else Count(xs[..|xs| - 1], x) + (if xs[|xs| - 1] == x then 1 else 0)
  }

  lemma {:induction false} CountZero(xs: seq<string>, x: string)
    ensures Count(xs, x) == 0 <==> x !in xs
    decreases |xs|
  {
    if |xs| > 0 {
      CountZero(xs[..|xs| - 1], x);
      assert xs == xs[..|xs| - 1] + [xs[|xs| - 1]];
    }
  }

  /** `n` copies of `x`. */
  function Repeat(x: string, n: nat): (r: seq<string>)
    ensures |r| == n && forall i :: 0 <= i < n ==> r[i] == x
  {
    seq(n, _ => x)
  }

  /** The list for `p` of the pending index, which is a `defaultdict`:
      an absent key reads as an empty list. */
  function Waiting(pending: map<string, seq<string>>, p: string): seq<string>
  {
    if p in pending then pending[p] else []
  }

  /** `lst.remove(x)`: the list without its first `x`; unchanged when
      there is none (the source only calls it on a list holding `x`). */
  function RemoveFirst(xs: seq<string>, x: string): seq<string>
  {
    if |xs| == 0 then []
    else if xs[0] == x then xs[1..]
    else [xs[0]] + RemoveFirst(xs[1..], x)
  }

  /** `lst.remove(x)` cuts the list at the first `x`. */
  lemma {:induction false} RemoveFirstCuts(xs: seq<string>, x: string)
    ensures x !in xs ==> RemoveFirst(xs, x) == xs
    ensures x in xs ==> RemoveFirst(xs, x) == xs[..IndexOf(xs, x)] + xs[IndexOf(xs, x) + 1..]
  {
    if |xs| > 0 && xs[0] != x {
      assert xs == [xs[0]] + xs[1..];
      RemoveFirstCuts(xs[1..], x);
      if x in xs[1..] {
        var i := IndexOf(xs[1..], x);
        assert xs[..i + 1] == [xs[0]] + xs[1..][..i];
        assert xs[i + 2..] == xs[1..][i + 1..];
      }
    }
  }

  /** `lst.remove(x)` takes exactly one `x` out of the list, if it has
      one, and nothing else. */
  lemma {:induction false} RemoveFirstMultiset(xs: seq<string>, x: string)
    ensures multiset(RemoveFirst(xs, x)) == multiset(xs) - multiset{x}
  {
    if |xs| > 0 {
      assert xs == [xs[0]] + xs[1..];
      if xs[0] != x {
        RemoveFirstMultiset(xs[1..], x);
        assert multiset(RemoveFirst(xs, x)) == multiset{xs[0]} + multiset(RemoveFirst(xs[1..], x));
      }
    }
  }

  // ---------------------------------------------------------------------
  // Adding a node

  /** The edges from the node's parents that are already in the graph; a
      parent equal to the node itself gives no edge. */
  function ParentEdges(vertices: set<string>, name: string, predecessors: seq<string>): (r: set<Edge>)
    ensures forall e :: e in r <==> e.1 == name && e.0 in predecessors && e.0 in vertices && e.0 != name
  {
    set p | p in predecessors && p in vertices && p != name :: (p, name)
  }

  /** The edges from the node to the children waiting for it. */
  function ChildEdges(pending: map<string, seq<string>>, name: string): (r: set<Edge>)
    ensures forall e :: e in r <==> name in pending && e.0 == name && e.1 in pending[name]
  {
    if name in pending then LinksFrom(name, pending[name]) else {}
  }

  /** The edges from `name` to each of `children`. */
  function LinksFrom(name: string, children: seq<string>): (r: set<Edge>)
    ensures forall e :: e in r <==> e.0 == name && e.1 in children
  {
    set c | c in children :: (name, c)
  }

  /** The edges an add of `node` would realise. */
  function NewEdges(st: NetState, node: Node): set<Edge>
  {
    ParentEdges(st.vertices, node.name, node.predecessors) + ChildEdges(st.pending, node.name)
  }

  /** The pending index after deferring `name` for each parent outside
      `vertices`, in order: each such parent's list gains `name`. */
  function Defer(pending: map<string, seq<string>>, name: string, predecessors: seq<string>,
                 vertices: set<string>): map<string, seq<string>>
    decreases |predecessors|
  {
    if |predecessors| == 0 then pending
    else
      var r := Defer(pending, name, predecessors[..|predecessors| - 1], vertices);
      var p := predecessors[|predecessors| - 1];
      if p in vertices then r else r[p := Waiting(r, p) + [name]]
  }

  /** Deferring adds a key for each parent outside the graph; that
      parent's list gains one `name` per occurrence of the parent; every
      other entry is unchanged. */
  lemma {:induction false} DeferSpec(pending: map<string, seq<string>>, name: string, predecessors: seq<string>,
                                     vertices: set<string>)
    ensures var r := Defer(pending, name, predecessors, vertices);
            (forall p :: p in r <==> p in pending || (p in predecessors && p !in vertices)) &&
            (forall p | p in r && p !in vertices :: r[p] == Waiting(pending, p) + Repeat(name, Count(predecessors, p))) &&
            (forall p | p in r && p in vertices :: p in pending && r[p] == pending[p])
    decreases |predecessors|
  {
    if |predecessors| > 0 {
      var init := predecessors[..|predecessors| - 1];
      var p := predecessors[|predecessors| - 1];
      DeferSpec(pending, name, init, vertices);
      assert predecessors == init + [p];
      if p !in vertices {
        CountZero(init, p);
        assert Repeat(name, Count(init, p)) + [name] == Repeat(name, Count(predecessors, p));
      }
    }
  }

  /** `add_node(node)` on the state, with whether the node was added.
      A name already present is refused; so is a node whose edges (to
      parents in the graph and from it to its waiting children) would
      close a cycle, and that refusal logs a warning. Otherwise the node is
      filed and becomes a vertex, those edges are realised, the node waits
      for each parent outside the graph, each parent equal to the node
      logs a warning, and the node's own pending entry is dropped. */
  function AddSpec(st: NetState, node: Node): (NetState, bool)
  {
    if node.name in st.nodes then (st, false)
    else if HasCycle(st.edges + NewEdges(st, node)) then (st.(warnings := st.warnings + 1), false)
    else (Added(st, node), true)
  }

  /** The state after a successful add. */
  function Added(st: NetState, node: Node): NetState
  {
    var key := node.name;
    var n := NewEdges(st, node);
    NetState(st.nodes[key := node],
             st.vertices + {key} + Sources(n) + Targets(n),
             st.edges + n,
             Defer(st.pending, key, node.predecessors, st.vertices + {key}) - {key},
             st.warnings + Count(node.predecessors, key))
  }

  /** An add succeeds exactly for a new name whose edges leave the graph
      acyclic. A refused add leaves the nodes, the graph and the pending
      index as they were, and logs a warning only when a cycle was the
      reason. */
  lemma AddOutcome(st: NetState, node: Node)
    ensures AddSpec(st, node).1 <==> node.name !in st.nodes && !HasCycle(st.edges + NewEdges(st, node))
    ensures !AddSpec(st, node).1 ==>
              var s := AddSpec(st, node).0;
              s.nodes == st.nodes && s.vertices == st.vertices && s.edges == st.edges &&
              s.pending == st.pending &&
              s.warnings == st.warnings + (if node.name in st.nodes then 0 else 1)
  {
  }

  /** What a successful add realises: an edge from each parent already in
      the graph, an edge to each child that waited for the node, a place
      in the waiting list of each missing parent, no self-loop, no pending
      entry for the node itself, and one warning per self-parent. */
  lemma AddLinks(st: NetState, node: Node)
    requires AddSpec(st, node).1
    ensures var s := AddSpec(st, node).0;
            s.nodes == st.nodes[node.name := node] &&
            node.name in s.vertices &&
            (forall p | p in node.predecessors && p in st.vertices && p != node.name :: (p, node.name) in s.edges) &&
            (forall c | c in Waiting(st.pending, node.name) :: (node.name, c) in s.edges) &&
            (forall p | p in node.predecessors && p !in st.vertices && p != node.name ::
               p in s.pending && s.pending[p] == Waiting(st.pending, p) + Repeat(node.name, Count(node.predecessors, p))) &&
            (node.name, node.name) !in s.edges &&
            node.name !in s.pending &&
            s.warnings == st.warnings + Count(node.predecessors, node.name)
  {
    var s := AddSpec(st, node).0;
    DeferSpec(st.pending, node.name, node.predecessors, st.vertices + {node.name});
    assert {node.name} <= Reach(s.edges, {node.name});
  }

  /** A successful add keeps the invariant: the cycle test ran on exactly
      the edge set the add realises. */
  lemma AddKeepsInvariant(st: NetState, node: Node)
    requires Inv(st)
    ensures Inv(AddSpec(st, node).0)
  {
    if AddSpec(st, node).1 {
      var n := NewEdges(st, node);
      var s := Added(st, node);
      assert s.edges == st.edges + n && !HasCycle(s.edges);
      assert Sources(st.edges + n) == Sources(st.edges) + Sources(n);
      assert Targets(st.edges + n) == Targets(st.edges) + Targets(n);
      assert Sources(s.edges) <= s.vertices && Targets(s.edges) <= s.vertices;
    }
  }

  /** `BayesianNetwork(initial_network)`: the nodes added one after the
      other, starting from the empty state. */
  function AddAll(st: NetState, nodes: seq<Node>): NetState
  {
    if |nodes| == 0 then st
    else AddSpec(AddAll(st, nodes[..|nodes| - 1]), nodes[|nodes| - 1]).0
  }

  /** Every state built by adds keeps the invariant. */
  lemma {:induction false} AddAllKeepsInvariant(st: NetState, nodes: seq<Node>)
    requires Inv(st)
    ensures Inv(AddAll(st, nodes))
    decreases |nodes|
  {
    if |nodes| > 0 {
      AddAllKeepsInvariant(st, nodes[..|nodes| - 1]);
      AddKeepsInvariant(AddAll(st, nodes[..|nodes| - 1]), nodes[|nodes| - 1]);
    }
  }

  // ---------------------------------------------------------------------
  // Removing a node

  /** `remove_node(name)` on the state, with whether a node was removed.
      An absent name changes nothing. Otherwise the node leaves the node
      map, one occurrence of the name leaves every pending list (the keys
      stay, possibly with empty lists), and the vertex, if it is one,
      leaves the graph with its incident edges. Children are not deferred
      again. */
  function RemoveSpec(st: NetState, name: string): (NetState, bool)
  {
    if name !in st.nodes then (st, false)
    else
      (NetState(st.nodes - {name},
                st.vertices - {name},
                if name in st.vertices then set e | e in st.edges && e.0 != name && e.1 != name else st.edges,
                map p | p in st.pending :: RemoveFirst(st.pending[p], name),
                st.warnings),
       true)
  }

  /** A removal succeeds exactly for a present name; then the name is
      gone from the node map and the graph, no edge touches it, the
      pending keys stay and each list loses exactly one occurrence of the
      name where it had one. */
  lemma RemoveOutcome(st: NetState, name: string)
    requires Inv(st)
    ensures RemoveSpec(st, name).1 <==> name in st.nodes
    ensures !RemoveSpec(st, name).1 ==> RemoveSpec(st, name).0 == st
    ensures RemoveSpec(st, name).1 ==>
              var s := RemoveSpec(st, name).0;
              s.nodes.Keys == st.nodes.Keys - {name} &&
              (forall k | k in s.nodes :: s.nodes[k] == st.nodes[k]) &&
              s.vertices == st.vertices - {name} &&
              (forall e | e in s.edges :: e in st.edges && e.0 != name && e.1 != name) &&
              (forall e | e in st.edges && e.0 != name && e.1 != name :: e in s.edges) &&
              s.pending.Keys == st.pending.Keys &&
              (forall p | p in s.pending :: multiset(s.pending[p]) == multiset(st.pending[p]) - multiset{name}) &&
              s.warnings == st.warnings
  {
    if name in st.nodes {
      var s := RemoveSpec(st, name).0;
      forall p | p in s.pending
        ensures multiset(s.pending[p]) == multiset(st.pending[p]) - multiset{name}
      {
        RemoveFirstMultiset(st.pending[p], name);
      }
    }
  }

  /** Removal keeps the invariant: dropping edges cannot make a cycle. */
  lemma RemoveKeepsInvariant(st: NetState, name: string)
    requires Inv(st)
    ensures Inv(RemoveSpec(st, name).0)
  {
    if name in st.nodes {
      var s := RemoveSpec(st, name).0;
      AcyclicSubset(s.edges, st.edges);
      forall v | v in Sources(s.edges) ensures v in s.vertices {
        var e :| e in s.edges && e.0 == v;
        assert e in st.edges;
      }
      forall v | v in Targets(s.edges) ensures v in s.vertices {
        var e :| e in s.edges && e.1 == v;
        assert e in st.edges;
      }
    }
  }

  // ---------------------------------------------------------------------
  // One step of the linking loops

  lemma CountSnoc(xs: seq<string>, p: string, x: string)
    ensures Count(xs + [p], x) == Count(xs, x) + (if p == x then 1 else 0)
  {
    assert (xs + [p])[..|xs|] == xs;
  }

  lemma DeferSnoc(pending: map<string, seq<string>>, name: string, xs: seq<string>, p: string,
                  vertices: set<string>)
    ensures Defer(pending, name, xs + [p], vertices) ==
              if p in vertices then Defer(pending, name, xs, vertices)
              else Defer(pending, name, xs, vertices)[p := Waiting(Defer(pending, name, xs, vertices), p) + [name]]
  {
    assert (xs + [p])[..|xs|] == xs;
  }

  lemma ParentEdgesSnoc(vertices: set<string>, name: string, xs: seq<string>, p: string)
    ensures ParentEdges(vertices, name, xs + [p]) ==
              ParentEdges(vertices, name, xs) + (if p in vertices && p != name then {(p, name)} else {})
  {
  }

  lemma LinksFromSnoc(name: string, xs: seq<string>, c: string)
    ensures LinksFrom(name, xs + [c]) == LinksFrom(name, xs) + {(name, c)}
  {
  }

  /** A successful add spelt out as the linking steps produce it: the
      node becomes a vertex first, then the parent edges, then the child
      edges of the pending index after deferral are realised. */
  lemma LinkedState(st: NetState, node: Node, deferred: map<string, seq<string>>)
    requires deferred == Defer(st.pending, node.name, node.predecessors, st.vertices + {node.name})
    ensures var k := node.name;
            var pe := ParentEdges(st.vertices + {k}, k, node.predecessors);
            var ce := ChildEdges(deferred, k);
            Added(st, node) ==
              NetState(st.nodes[k := node],
                       st.vertices + {k} + Targets(pe) + Sources(ce) + Targets(ce),
                       st.edges + pe + ce,
                       deferred - {k},
                       st.warnings + Count(node.predecessors, k))
  {
    var k := node.name;
    var pe := ParentEdges(st.vertices + {k}, k, node.predecessors);
    var ce := ChildEdges(st.pending, k);
    ParentEdgesIgnoreNode(st.vertices, k, node.predecessors);
    DeferKeepsOwnEntry(st.pending, k, node.predecessors, st.vertices + {k});
    assert Sources(pe + ce) == Sources(pe) + Sources(ce);
    assert Targets(pe + ce) == Targets(pe) + Targets(ce);
  }

  /** Deferring a node never touches the pending entry of a vertex, in
      particular not the node's own entry once it is a vertex. */
  lemma DeferKeepsOwnEntry(pending: map<string, seq<string>>, name: string, predecessors: seq<string>,
                           vertices: set<string>)
    requires name in vertices
    ensures ChildEdges(Defer(pending, name, predecessors, vertices), name) == ChildEdges(pending, name)
  {
    DeferSpec(pending, name, predecessors, vertices);
  }

  /** A parent equal to the node gives no edge, so whether the node is
      already a vertex does not matter. */
  lemma ParentEdgesIgnoreNode(vertices: set<string>, name: string, predecessors: seq<string>)
    ensures ParentEdges(vertices + {name}, name, predecessors) == ParentEdges(vertices, name, predecessors)
  {
  }

  lemma EndsAdd(E: set<Edge>, a: string, b: string)
    ensures Sources(E + {(a, b)}) == Sources(E) + {a}
    ensures Targets(E + {(a, b)}) == Targets(E) + {b}
  {
    assert (a, b) in E + {(a, b)};
  }

  // ---------------------------------------------------------------------
  // Topological orders

  /** `networkx.topological_sort(G)`: every vertex once, and no edge from
      a later vertex to an earlier one (or to itself). */
  predicate IsTopologicalOrder(st: NetState, topology: seq<string>)
  {
    Distinct(topology) &&
    (forall x | x in topology :: x in st.vertices) && (forall x | x in st.vertices :: x in topology) &&
    forall i, j | 0 <= i <= j < |topology| :: (topology[j], topology[i]) !in st.edges
  }

  /** The traversal from `stack` on, then the rest of the outer loop. */
  function TraverseThenDown(nodes: map<string, Node>, variables: set<string>, topology: seq<string>, k: nat,
                            stack: seq<string>, needed: set<string>): Result<set<string>>
    requires k <= |topology|
  {
    match Traverse(nodes, stack, needed)
    case Err(e) => Err(e)
    case Ok(more) => EliminateDown(nodes, variables, topology, k, more)
  }

  // ---------------------------------------------------------------------
  // The network object

  /** `BayesianNetwork`: the node map, the graph as a vertex set and an
      edge set, the pending-edge index and the warning count, updated in
      place by `AddNode` and `RemoveNode`. */
  class BayesianNetwork {
    var nodes: map<string, Node>
    var vertices: set<string>
    var edges: set<Edge>
    var pending: map<string, seq<string>>
    var warnings: nat

    /** The fields as a state value. */
    function State(): NetState
      reads this
    {
      NetState(nodes, vertices, edges, pending, warnings)
    }

    ghost predicate Valid()
      reads this
    {
      Inv(State())
    }

    /** `BayesianNetwork(initial_network)`: an empty network, then every
        node added in order. */
    constructor (initialNetwork: seq<Node>)
      ensures State() == AddAll(EmptyState(), initialNetwork)
      ensures Valid()
    {
      nodes := map[];
      vertices := {};
      edges := {};
      pending := map[];
      warnings := 0;
      new;
      for i := 0 to |initialNetwork|
        invariant State() == AddAll(EmptyState(), initialNetwork[..i])
      {
        assert initialNetwork[..i + 1][..i] == initialNetwork[..i];
        var _ := AddNode(initialNetwork[i]);
      }
      assert initialNetwork[..|initialNetwork|] == initialNetwork;
      AddAllKeepsInvariant(EmptyState(), initialNetwork);
    }

    /** `add_node(node)`. */
    method AddNode(node: Node) returns (added: bool)
      modifies this
      ensures (State(), added) == AddSpec(old(State()), node)
      ensures old(Valid()) ==> Valid()
    {
      if Valid() {
        AddKeepsInvariant(State(), node);
      }
      var key := node.name;
      if key in nodes {
        return false;
      }
      var hasCycle := GuaranteeGraphHasNoCycle(key, node);
      if hasCycle {
        warnings := warnings + 1;
        return false;
      }
      ghost var st := State();
      nodes := nodes[key := node];
      var graphVertices, graphEdges := vertices + {key}, edges;
      graphVertices, graphEdges := AddPredecessorEdges(key, node, graphVertices, graphEdges, true);
      ghost var deferred := pending;
      graphVertices, graphEdges := AddExpectedEdgesIfExist(key, graphVertices, graphEdges, true);
      vertices, edges := graphVertices, graphEdges;
      LinkedState(st, node, deferred);
      assert State().nodes == Added(st, node).nodes;
      assert State().vertices == Added(st, node).vertices;
      assert State().edges == Added(st, node).edges;
      assert State().pending == Added(st, node).pending;
      assert State().warnings == Added(st, node).warnings;
      return true;
    }

    /** `_guarantee_graph_has_no_cycle(node_key, node)`: the two linking
        steps run on a copy of the graph without touching the pending
        index, and the copy is checked for a cycle. */
    method GuaranteeGraphHasNoCycle(key: string, node: Node) returns (hasCycle: bool)
      requires node.name == key
      ensures hasCycle == HasCycle(edges + NewEdges(State(), node))
    {
      var copiedVertices, copiedEdges := vertices, edges;
      copiedVertices, copiedEdges := AddPredecessorEdges(key, node, copiedVertices, copiedEdges, false);
      copiedVertices, copiedEdges := AddExpectedEdgesIfExist(key, copiedVertices, copiedEdges, false);
      assert copiedEdges == edges + NewEdges(State(), node);
      hasCycle := HasCycle(copiedEdges);
    }

    /** `_add_predecessor_edges`: an edge from each parent already in the
        target graph, none from the node to itself; when the internal
        state is to be updated, the node waits for each parent outside
        the graph and each self-parent logs a warning. */
    method AddPredecessorEdges(key: string, node: Node, targetVertices: set<string>, targetEdges: set<Edge>,
                               updateInternalVariables: bool)
      returns (newVertices: set<string>, newEdges: set<Edge>)
      requires node.name == key
      requires updateInternalVariables ==> key in targetVertices
      modifies if updateInternalVariables then {this} else {}
      ensures newEdges == targetEdges + ParentEdges(targetVertices, key, node.predecessors)
      ensures newVertices == targetVertices + Targets(ParentEdges(targetVertices, key, node.predecessors))
      ensures updateInternalVariables ==>
                pending == Defer(old(pending), key, node.predecessors, targetVertices) &&
                warnings == old(warnings) + Count(node.predecessors, key)
      ensures nodes == old(nodes) && vertices == old(vertices) && edges == old(edges)
    {
      newVertices, newEdges := targetVertices, targetEdges;
      var predecessors := node.predecessors;
      ghost var linked: set<Edge> := {};
      for i := 0 to |predecessors|
        invariant linked == ParentEdges(targetVertices, key, predecessors[..i])
        invariant newEdges == targetEdges + linked
        invariant newVertices == targetVertices + Targets(linked)
        invariant newVertices <= targetVertices + {key}
        invariant updateInternalVariables ==>
                    pending == Defer(old(pending), key, predecessors[..i], targetVertices) &&
                    warnings == old(warnings) + Count(predecessors[..i], key)
        invariant nodes == old(nodes) && vertices == old(vertices) && edges == old(edges)
      {
        var predecessor := predecessors[i];
        assert predecessors[..i + 1] == predecessors[..i] + [predecessor];
        ParentEdgesSnoc(targetVertices, key, predecessors[..i], predecessor);
        DeferSnoc(old(pending), key, predecessors[..i], predecessor, targetVertices);
        CountSnoc(predecessors[..i], predecessor, key);
        if predecessor !in newVertices {
          if updateInternalVariables {
            pending := pending[predecessor := Waiting(pending, predecessor) + [key]];
          }
        } else if predecessor == key {
          if updateInternalVariables {
            warnings := warnings + 1;
          }
        } else {
          EndsAdd(linked, predecessor, key);
          newEdges := newEdges + {(predecessor, key)};
          newVertices := newVertices + {predecessor, key};
          linked := linked + {(predecessor, key)};
        }
      }
      assert predecessors[..|predecessors|] == predecessors;
    }

    /** `_add_expected_edges_if_exist`: an edge from the node to each child
        waiting for it; when the internal state is to be updated, the
        node's pending entry is then dropped. */
    method AddExpectedEdgesIfExist(key: string, targetVertices: set<string>, targetEdges: set<Edge>,
                                   updateInternalVariables: bool)
      returns (newVertices: set<string>, newEdges: set<Edge>)
      modifies if updateInternalVariables then {this} else {}
      ensures newEdges == targetEdges + ChildEdges(old(pending), key)
      ensures newVertices == targetVertices + Sources(ChildEdges(old(pending), key)) +
                             Targets(ChildEdges(old(pending), key))
      ensures updateInternalVariables ==> pending == old(pending) - {key}
      ensures nodes == old(nodes) && vertices == old(vertices) && edges == old(edges) &&
              warnings == old(warnings)
    {
      newVertices, newEdges := targetVertices, targetEdges;
      if key in pending {
        var successors := pending[key];
        for j := 0 to |successors|
          invariant newEdges == targetEdges + LinksFrom(key, successors[..j])
          invariant newVertices == targetVertices + Sources(LinksFrom(key, successors[..j])) +
                                   Targets(LinksFrom(key, successors[..j]))
          invariant pending == old(pending) && nodes == old(nodes) && vertices == old(vertices) &&
                    edges == old(edges) && warnings == old(warnings)
        {
          assert successors[..j + 1] == successors[..j] + [successors[j]];
          LinksFromSnoc(key, successors[..j], successors[j]);
          EndsAdd(LinksFrom(key, successors[..j]), key, successors[j]);
          newEdges := newEdges + {(key, successors[j])};
          newVertices := newVertices + {key, successors[j]};
        }
        assert successors[..|successors|] == successors;
        if updateInternalVariables {
          pending := pending - {key};
        }
      } else {
        assert ChildEdges(pending, key) == {};
        if updateInternalVariables {
          assert pending - {key} == pending;
        }
      }
    }

    /** `remove_node(node_name)`. */
    method RemoveNode(name: string) returns (removed: bool)
      modifies this
      ensures (State(), removed) == RemoveSpec(old(State()), name)
      ensures old(Valid()) ==> Valid()
    {
      if Valid() {
        RemoveKeepsInvariant(State(), name);
      }
      ghost var st := State();
      if name in nodes {
        nodes := nodes - {name};
      } else {
        return false;
      }
      var keys := pending.Keys;
      while keys != {}
        invariant keys <= pending.Keys && pending.Keys == st.pending.Keys
        invariant forall p | p in pending ::
                    pending[p] == if p in keys then st.pending[p] else RemoveFirst(st.pending[p], name)
        invariant nodes == st.nodes - {name} && vertices == st.vertices && edges == st.edges &&
                  warnings == st.warnings
        decreases keys
      {
        var p :| p in keys;
        RemoveFirstCuts(pending[p], name);
        if name in pending[p] {
          pending := pending[p := RemoveFirst(pending[p], name)];
        }
        keys := keys - {p};
      }
      assert pending == map p | p in st.pending :: RemoveFirst(st.pending[p], name);
      if name in vertices {
        vertices := vertices - {name};
        edges := set e | e in edges && e.0 != name && e.1 != name;
      } else {
        assert vertices - {name} == vertices;
      }
      return true;
    }

    /** `_eliminate_unnecessary_variables(variables)`: from the last name
        of the topology to the first, every name in `variables` starts a
        depth-first walk over predecessors. */
    method EliminateUnnecessaryVariables(variables: set<string>, topology: seq<string>)
      returns (r: Result<set<string>>)
      ensures r == Eliminate(nodes, variables, topology)
    {
      var needed: set<string> := {};
      var k: nat := |topology|;
      while k > 0
        invariant k <= |topology|
        invariant Eliminate(nodes, variables, topology) == EliminateDown(nodes, variables, topology, k, needed)
      {
        var node := topology[k - 1];
        if node in variables {
          var stack := [node];
          while |stack| > 0
            invariant Eliminate(nodes, variables, topology) ==
                      TraverseThenDown(nodes, variables, topology, k - 1, stack, needed)
            decreases |nodes.Keys - needed|, |stack|
          {
            var variable := stack[|stack| - 1];
            stack := stack[..|stack| - 1];
            if variable !in needed {
              if variable !in nodes {
                return Err(KeyError(variable));
              }
              StrictSubsetCard(nodes.Keys - (needed + {variable}), nodes.Keys - needed);
              needed := needed + {variable};
              stack := stack + nodes[variable].predecessors;
            }
          }
        }
        k := k - 1;
      }
      return Ok(needed);
    }

    /** `_calculate_joint_probability(variables)`; `isInt` tells whether
        Python's result is the int `0` rather than a float. */
    method CalculateJointProbability(variables: seq<Query.QueryVariable>, topology: seq<string>)
      returns (r: Result<Answer>, isInt: bool)
      requires Valid() && IsTopologicalOrder(State(), topology)
      ensures r == Joint(nodes, variables, topology)
      ensures isInt == IntJoint(nodes, variables, topology)
    {
      var neededVariableNames := NeededMap(variables);
      var purified := EliminateUnnecessaryVariables(neededVariableNames.Keys, topology);
      if purified.Err? {
        return Err(purified.error), false;
      }
      EliminateSound(nodes, neededVariableNames.Keys, topology);
      r, isInt := JointOfPurified(variables, topology, purified.value);
    }

    /** The part of `_calculate_joint_probability` after the elimination:
        one probability, or one per combination of query values. */
    method JointOfPurified(variables: seq<Query.QueryVariable>, topology: seq<string>, purified: set<string>)
      returns (r: Result<Answer>, isInt: bool)
      requires Distinct(topology) && forall x | x in purified :: x in topology
      ensures r == JointFrom(nodes, variables, topology, purified)
      ensures isInt == (QueryNames(variables) == [] && IntZero(nodes, OrderFor(variables, topology, purified)))
    {
      var neededVariableNames := NeededMap(variables);
      var hidden := purified - neededVariableNames.Keys;
      var order := DecideCalculationOrder(neededVariableNames, purified, hidden, topology);
      var names := QueryNames(variables);
      isInt := |names| == 0 && IntZero(nodes, order);
      var values := QueryValues(nodes, names);
      if values.Err? {
        return Err(values.error), isInt;
      }
      if |names| > 0 {
        var table := TabulateAll(order, names, InputParser.Product(values.value));
        if table.Err? {
          return Err(table.error), isInt;
        }
        return Ok(PerContext(table.value)), isInt;
      } else {
        var p := Infer(nodes, order, map[]);
        if p.Err? {
          return Err(p.error), isInt;
        }
        return Ok(Single(p.value)), isInt;
      }
    }

    /** The loop over `itertools.product`: one probability per combination,
        keyed by the bound combination. */
    method TabulateAll(order: seq<Factor>, names: seq<string>, combinations: seq<seq<string>>)
      returns (r: Result<map<seq<(string, string)>, real>>)
      ensures r == Tabulate(nodes, order, map[], KeysOf(names, combinations))
    {
      ghost var keys := KeysOf(names, combinations);
      var table: map<seq<(string, string)>, real> := map[];
      for i := 0 to |combinations|
        invariant Tabulate(nodes, order, map[], keys) == Tabulate(nodes, order, table, keys[i..])
      {
        var p := Infer(nodes, order, Bind(names, combinations[i]));
        assert keys[i..][1..] == keys[i + 1..];
        if p.Err? {
          return Err(p.error);
        }
        table := table[Pairs(names, combinations[i]) := p.value];
      }
      assert keys[|combinations|..] == [];
      return Ok(table);
    }


    /** `P(query)`. */
    method P(query: string, topology: seq<string>) returns (r: Result<Answer>)
      requires Valid() && IsTopologicalOrder(State(), topology)
      ensures r == Posterior(nodes, query, topology)
    {
      var parsed := Query.QueryParser(query, Some(SymbolContext(nodes)));
      if parsed.Err? {
        return Err(parsed.error);
      }
      if parsed.value.NoMatch? {
        return Err(InvalidQuery);
      }
      var queries, evidences := parsed.value.queries, parsed.value.evidences;
      var numerator, numeratorIsInt := CalculateJointProbability(queries + evidences, topology);
      if numerator.Err? {
        return Err(numerator.error);
      }
      var denominator, _ := CalculateJointProbability(evidences, topology);
      if denominator.Err? {
        return Err(denominator.error);
      }
      match denominator.value
      case Single(d) =>
        if numeratorIsInt {
          return Err(AttributeError);
        }
        return Divide(numerator.value, d);
      case PerContext(_) =>
        EvidenceJointSingle(nodes, evidences, topology);
        assert false;
    }
  }
}
