/** Exact inference over a network's nodes: the factors of a calculation
    order and the recursive sum-product evaluation that multiplies each
    node's table entry with the rest of the order and sums hidden
    variables out.

    A factor is a query variable (no value; its value comes from the
    context), a known variable (a value that extends the context) or a
    hidden variable (no value; summed over the node's values). A factor
    with both a value and the sum-out flag is refused. */
module Inference {
  import opened Common
  import opened Graph
  import opened Strings
  import opened NetworkNode
  import opened Query
  import opened InputParser

  /** `ProbabilityFactor(name, value, sum_out)`. */
  datatype Factor = Factor(name: string, value: Option<string>, sumOut: bool)

  predicate IsHidden(f: Factor) { f.value.None? && f.sumOut }

  /** `_probability_inference(order, **context)`. The first factor's node
      must exist (`KeyError` otherwise); a query factor multiplies the
      node's probability in the context with the rest; a known factor
      first binds its value in the context; a hidden factor sums the whole
      order over the node's values, with the factor replaced by a known
      one for each value; an empty order is 1. Errors surface in the order
      the source evaluates: the probability before the rest of the order,
      and the values of a hidden node from first to last. */
  function Infer(nodes: map<string, Node>, order: seq<Factor>, context: map<string, string>): Result<real>
    decreases |order|, if |order| > 0 && IsHidden(order[0]) then 1 else 0, 0
  {
    if |order| == 0 then Ok(1.0)
    else
      var f := order[0];
      if f.name !in nodes then Err(KeyError(f.name))
      else if f.value.None? && !f.sumOut then
        Chain(Probability(nodes[f.name], context), Infer(nodes, order[1..], context))
      else if f.value.None? then
        SumOver(nodes, f.name, nodes[f.name].randomVariables, order[1..], context)
      else if !f.sumOut then
        var bound := context[f.name := f.value.value];
        Chain(Probability(nodes[f.name], bound), Infer(nodes, order[1..], bound))
      else Err(InvalidProbabilityFactor(f.name))
  }

  /** The sum, over `values` from first to last, of the order that starts
      with the known factor `name = v` and goes on with `rest`. */
  function SumOver(nodes: map<string, Node>, name: string, values: seq<string>, rest: seq<Factor>,
                   context: map<string, string>): Result<real>
    decreases |rest| + 1, 0, |values|
  {
    if |values| == 0 then Ok(0.0)
    else
      Plus(Infer(nodes, [Factor(name, Some(values[0]), false)] + rest, context),
           SumOver(nodes, name, values[1..], rest, context))
  }

  /** The sum of two results, the first error winning. */
  function Plus(p: Result<real>, q: Result<real>): (r: Result<real>)
    ensures r.Ok? <==> p.Ok? && q.Ok?
    ensures r.Ok? ==> r.value == p.value + q.value
    ensures p.Err? ==> r == p
    ensures p.Ok? && q.Err? ==> r == q
  {
    match p
    case Err(e) => Err(e)
    case Ok(a) =>
      match q
      case Err(e) => Err(e)
      case Ok(b) => Ok(a + b)
  }

  /** The product of two results, the first error winning. */
  function Chain(p: Result<real>, q: Result<real>): (r: Result<real>)
    ensures r.Ok? <==> p.Ok? && q.Ok?
    ensures r.Ok? ==> r.value == p.value * q.value
    ensures p.Err? ==> r == p
    ensures p.Ok? && q.Err? ==> r == q
  {
    match p
    case Err(e) => Err(e)
    case Ok(a) =>
      match q
      case Err(e) => Err(e)
      case Ok(b) => Ok(a * b)
  }

  // ---------------------------------------------------------------------
  // What an order reads from its context

  /** The names the node stored under `name` reads: its predecessors and
      its own name. */
  function NodeReads(nodes: map<string, Node>, name: string): set<string>
  {
    if name in nodes then (set p | p in nodes[name].predecessors) + {nodes[name].name} else {}
  }

  /** The names an order may read from the context: every factor's name and
      what every factor's node reads. */
  function Relevant(nodes: map<string, Node>, order: seq<Factor>): (r: set<string>)
    ensures forall i | 0 <= i < |order| :: order[i].name in r
  {
    if |order| == 0 then {}
    else {order[0].name} + NodeReads(nodes, order[0].name) + Relevant(nodes, order[1..])
  }

  /** Two contexts that hold the same values for `names`. */
  predicate Agree(c1: map<string, string>, c2: map<string, string>, names: set<string>)
  {
    forall x | x in names :: (x in c1 <==> x in c2) && (x in c1 ==> c1[x] == c2[x])
  }

  lemma {:induction false} ContextValuesLocal(names: seq<string>, c1: map<string, string>, c2: map<string, string>)
    requires Agree(c1, c2, set x | x in names)
    ensures ContextValues(names, c1) == ContextValues(names, c2)
  {
    if |names| > 0 {
      assert Agree(c1, c2, set x | x in names[1..]);
      ContextValuesLocal(names[1..], c1, c2);
    }
  }

  /** A node's probability reads only its predecessors and its own name. */
  lemma ProbabilityLocal(node: Node, c1: map<string, string>, c2: map<string, string>)
    requires Agree(c1, c2, (set p | p in node.predecessors) + {node.name})
    ensures Probability(node, c1) == Probability(node, c2)
  {
    ContextValuesLocal(node.predecessors, c1, c2);
  }

  /** Evaluating an order reads only its relevant names. */
  lemma {:induction false} InferLocal(nodes: map<string, Node>, order: seq<Factor>,
                                      c1: map<string, string>, c2: map<string, string>)
    requires Agree(c1, c2, Relevant(nodes, order))
    ensures Infer(nodes, order, c1) == Infer(nodes, order, c2)
    decreases |order|, if |order| > 0 && IsHidden(order[0]) then 1 else 0, 0
  {
    if |order| > 0 && order[0].name in nodes {
      var f := order[0];
      var node := nodes[f.name];
      assert Agree(c1, c2, Relevant(nodes, order[1..]));
      assert Agree(c1, c2, NodeReads(nodes, f.name));
      if f.value.None? && !f.sumOut {
        ProbabilityLocal(node, c1, c2);
        InferLocal(nodes, order[1..], c1, c2);
      } else if f.value.None? {
        assert Relevant(nodes, order) == {f.name} + NodeReads(nodes, f.name) + Relevant(nodes, order[1..]);
        SumOverLocal(nodes, f.name, node.randomVariables, order[1..], c1, c2);
      } else if !f.sumOut {
        var b1, b2 := c1[f.name := f.value.value], c2[f.name := f.value.value];
        ProbabilityLocal(node, b1, b2);
        InferLocal(nodes, order[1..], b1, b2);
      }
    }
  }

  lemma {:induction false} SumOverLocal(nodes: map<string, Node>, name: string, values: seq<string>,
                                        rest: seq<Factor>, c1: map<string, string>, c2: map<string, string>)
    requires name in nodes
    requires Agree(c1, c2, {name} + NodeReads(nodes, name) + Relevant(nodes, rest))
    ensures SumOver(nodes, name, values, rest, c1) == SumOver(nodes, name, values, rest, c2)
    decreases |rest| + 1, 0, |values|
  {
    if |values| > 0 {
      var order := [Factor(name, Some(values[0]), false)] + rest;
      assert order[1..] == rest;
      assert Relevant(nodes, order) == {name} + NodeReads(nodes, name) + Relevant(nodes, rest);
      InferLocal(nodes, order, c1, c2);
      SumOverLocal(nodes, name, values[1..], rest, c1, c2);
    }
  }

  // ---------------------------------------------------------------------
  // Summing out a variable nothing later depends on

  /** Every node is stored under its own name. */
  predicate Named(nodes: map<string, Node>)
  {
    forall k | k in nodes :: nodes[k].name == k
  }

  /** The sum over `values` of the node's probability with its own value
      bound to each. */
  function RowSum(node: Node, values: seq<string>, context: map<string, string>): Result<real>
  {
    if |values| == 0 then Ok(0.0)
    else Plus(Probability(node, context[node.name := values[0]]), RowSum(node, values[1..], context))
  }

  /** Every predecessor of `node` is a node and holds one of its values in
      the context. */
  predicate ParentsAssigned(nodes: map<string, Node>, node: Node, context: map<string, string>)
  {
    forall p | p in node.predecessors :: p in nodes && p in context && context[p] in nodes[p].randomVariables
  }

  /** The node's table rows sum to 1 for every assignment of its parents. */
  ghost predicate Normalised(nodes: map<string, Node>, node: Node)
  {
    forall c: map<string, string> | ParentsAssigned(nodes, node, c) :: RowSum(node, node.randomVariables, c) == Ok(1.0)
  }

  /** Multiplying out a sum of two results. */
  lemma PlusChain(p: Result<real>, q: Result<real>, x: Result<real>)
    requires p.Ok? && q.Ok?
    ensures Plus(Chain(p, x), Chain(q, x)) == Chain(Plus(p, q), x)
  {
    if x.Ok? {
      var px, qx, pq := Chain(p, x), Chain(q, x), Plus(p, q);
      assert px.Ok? && qx.Ok? && pq.Ok?;
      var pqx := Chain(pq, x);
      assert pqx.Ok? && pqx.value == pq.value * x.value;
      assert pq.value * x.value == px.value + qx.value;
      assert Plus(px, qx).value == pqx.value;
      assert Plus(px, qx) == Ok(Plus(px, qx).value);
    }
  }

  /** One value of a sum whose rest ignores the summed name. */
  lemma SumOverStep(nodes: map<string, Node>, n: string, values: seq<string>,
                    post: seq<Factor>, c: map<string, string>)
    requires n in nodes && nodes[n].name == n
    requires n !in Relevant(nodes, post)
    requires |values| > 0
    ensures SumOver(nodes, n, values, post, c) ==
              Plus(Chain(Probability(nodes[n], c[n := values[0]]), Infer(nodes, post, c)),
                   SumOver(nodes, n, values[1..], post, c))
  {
    var order := [Factor(n, Some(values[0]), false)] + post;
    assert order[1..] == post;
    InferLocal(nodes, post, c[n := values[0]], c);
  }

  /** Summing an order whose rest ignores the summed name scales the rest by
      the node's row sum. */
  lemma {:induction false} SumOverScaled(nodes: map<string, Node>, n: string, values: seq<string>,
                                         post: seq<Factor>, c: map<string, string>)
    requires n in nodes && nodes[n].name == n
    requires n !in Relevant(nodes, post)
    requires RowSum(nodes[n], values, c).Ok?
    ensures SumOver(nodes, n, values, post, c) ==
              if |values| == 0 then Ok(0.0) else Chain(RowSum(nodes[n], values, c), Infer(nodes, post, c))
  {
    if |values| > 0 {
      var node := nodes[n];
      var p0, rowRest := Probability(node, c[n := values[0]]), RowSum(node, values[1..], c);
      assert RowSum(node, values, c) == Plus(p0, rowRest);
      SumOverStep(nodes, n, values, post, c);
      SumOverScaled(nodes, n, values[1..], post, c);
      ScaleCombine(p0, rowRest, Infer(nodes, post, c), SumOver(nodes, n, values[1..], post, c), |values| == 1);
    }
  }

  /** The step of `SumOverScaled` on plain results: the first row times
      the rest, plus the scaled remaining rows, is the row sum times the
      rest. */
  lemma ScaleCombine(p0: Result<real>, rowRest: Result<real>, x: Result<real>, sRest: Result<real>, last: bool)
    requires p0.Ok? && rowRest.Ok?
    requires last ==> rowRest == Ok(0.0) && sRest == Ok(0.0)
    requires !last ==> sRest == Chain(rowRest, x)
    ensures Plus(Chain(p0, x), sRest) == Chain(Plus(p0, rowRest), x)
  {
    if last {
      if x.Ok? {
        assert p0.value * x.value + 0.0 == (p0.value + 0.0) * x.value;
      }
    } else {
      PlusChain(p0, rowRest, x);
    }
  }

  /** A hidden factor in front of an order that ignores it changes nothing,
      once its parents hold values and its table is normalised. */
  lemma BarrenFirst(nodes: map<string, Node>, n: string, post: seq<Factor>, c: map<string, string>)
    requires n in nodes && nodes[n].name == n
    requires Normalised(nodes, nodes[n])
    requires ParentsAssigned(nodes, nodes[n], c)
    requires n !in Relevant(nodes, post)
    ensures Infer(nodes, [Factor(n, None, true)] + post, c) == Infer(nodes, post, c)
  {
    var order := [Factor(n, None, true)] + post;
    assert order[1..] == post;
    var values := nodes[n].randomVariables;
    assert RowSum(nodes[n], values, c) == Ok(1.0);
    SumOverScaled(nodes, n, values, post, c);
  }

  /** The names an order binds in the context: those of its known and
      hidden factors. */
  function Assigned(order: seq<Factor>): set<string>
  {
    if |order| == 0 then {}
    else (if order[0].value.None? && !order[0].sumOut then {} else {order[0].name}) + Assigned(order[1..])
  }

  /** Every known value is one of its node's values. */
  predicate FactorsInDomain(nodes: map<string, Node>, order: seq<Factor>)
  {
    forall i | 0 <= i < |order| && order[i].value.Some? && order[i].name in nodes ::
      order[i].value.value in nodes[order[i].name].randomVariables
  }

  /** Each predecessor of `node` is a node that `pre` binds or that the
      context holds one of its values for. */
  predicate Ready(nodes: map<string, Node>, node: Node, pre: seq<Factor>, c: map<string, string>)
  {
    forall p | p in node.predecessors ::
      p in nodes && (p in Assigned(pre) || (p in c && c[p] in nodes[p].randomVariables))
  }

  /** The pruning theorem: a hidden factor whose node no later factor reads
      can be dropped from anywhere in the order, provided its parents are
      bound before it and its table is normalised. */
  lemma {:induction false} DropBarren(nodes: map<string, Node>, pre: seq<Factor>, n: string,
                                      post: seq<Factor>, c: map<string, string>)
    requires n in nodes && nodes[n].name == n
    requires Normalised(nodes, nodes[n])
    requires n !in Relevant(nodes, post)
    requires Ready(nodes, nodes[n], pre, c)
    requires FactorsInDomain(nodes, pre)
    ensures Infer(nodes, pre + [Factor(n, None, true)] + post, c) == Infer(nodes, pre + post, c)
    decreases |pre|, if |pre| > 0 && IsHidden(pre[0]) then 1 else 0, 0
  {
    var h := Factor(n, None, true);
    var o1, o2 := pre + [h] + post, pre + post;
    if |pre| == 0 {
      assert o1 == [h] + post && o2 == post;
      BarrenFirst(nodes, n, post, c);
    } else {
      var f, rest := pre[0], pre[1..];
      assert o1[0] == f && o1[1..] == rest + [h] + post;
      assert o2[0] == f && o2[1..] == rest + post;
      assert FactorsInDomain(nodes, rest);
      if f.name in nodes {
        if f.value.None? && !f.sumOut {
          DropBarren(nodes, rest, n, post, c);
        } else if f.value.None? {
          DropBarrenSum(nodes, f.name, nodes[f.name].randomVariables, rest, n, post, c);
        } else if !f.sumOut {
          var bound := c[f.name := f.value.value];
          DropBarren(nodes, rest, n, post, bound);
        }
      }
    }
  }

  lemma {:induction false} DropBarrenSum(nodes: map<string, Node>, m: string, values: seq<string>,
                                         pre: seq<Factor>, n: string, post: seq<Factor>, c: map<string, string>)
    requires m in nodes && forall i | 0 <= i < |values| :: values[i] in nodes[m].randomVariables
    requires n in nodes && nodes[n].name == n
    requires Normalised(nodes, nodes[n])
    requires n !in Relevant(nodes, post)
    requires Ready(nodes, nodes[n], [Factor(m, None, true)] + pre, c)
    requires FactorsInDomain(nodes, pre)
    ensures SumOver(nodes, m, values, pre + [Factor(n, None, true)] + post, c) ==
            SumOver(nodes, m, values, pre + post, c)
    decreases |pre| + 1, 0, |values|
  {
    if |values| > 0 {
      var h, k := Factor(n, None, true), Factor(m, Some(values[0]), false);
      KnownFirst(nodes, m, values[0], pre, c, nodes[n]);
      DropBarren(nodes, [k] + pre, n, post, c);
      ConsAssoc(k, pre, h, post);
      DropBarrenSum(nodes, m, values[1..], pre, n, post, c);
    }
  }

  /** Binding a summed-out factor to one of its values keeps what the
      order binds and keeps its known values in their domains. */
  lemma KnownFirst(nodes: map<string, Node>, m: string, v: string, pre: seq<Factor>,
                   c: map<string, string>, node: Node)
    requires m in nodes && v in nodes[m].randomVariables
    requires Ready(nodes, node, [Factor(m, None, true)] + pre, c)
    requires FactorsInDomain(nodes, pre)
    ensures Ready(nodes, node, [Factor(m, Some(v), false)] + pre, c)
    ensures FactorsInDomain(nodes, [Factor(m, Some(v), false)] + pre)
  {
    var k := Factor(m, Some(v), false);
    assert ([k] + pre)[1..] == pre;
    assert ([Factor(m, None, true)] + pre)[1..] == pre;
    assert Assigned([k] + pre) == Assigned([Factor(m, None, true)] + pre);
  }

  lemma ConsAssoc(k: Factor, pre: seq<Factor>, f: Factor, post: seq<Factor>)
    ensures [k] + pre + [f] + post == [k] + (pre + [f] + post)
    ensures [k] + pre + post == [k] + (pre + post)
  {
  }

  // ---------------------------------------------------------------------
  // Keeping only the needed variables and their ancestors

  /** Links from every node to each of its predecessors. */
  function ParentLinks(nodes: map<string, Node>): (r: set<Edge>)
    ensures forall k, p :: (k, p) in r <==> k in nodes && p in nodes[k].predecessors
  {
    set k, p | k in nodes && p in nodes[k].predecessors :: (k, p)
  }

  /** The names in `seeds` and all their recursive predecessors. */
  function Ancestors(nodes: map<string, Node>, seeds: set<string>): set<string>
  {
    Reach(ParentLinks(nodes), seeds)
  }

  /** Every predecessor of a node of `T` is in `T`. */
  predicate ParentClosed(nodes: map<string, Node>, T: set<string>)
  {
    forall x, p | x in T && x in nodes && p in nodes[x].predecessors :: p in T
  }

  /** The ancestors are closed under predecessors and lie inside every
      predecessor-closed superset of the seeds. */
  lemma AncestorsLeast(nodes: map<string, Node>, seeds: set<string>, T: set<string>)
    ensures seeds <= Ancestors(nodes, seeds)
    ensures ParentClosed(nodes, Ancestors(nodes, seeds))
    ensures seeds <= T && ParentClosed(nodes, T) ==> Ancestors(nodes, seeds) <= T
  {
    var E, A := ParentLinks(nodes), Ancestors(nodes, seeds);
    forall x, p | x in A && x in nodes && p in nodes[x].predecessors ensures p in A {
      assert (x, p) in E;
      assert p in Post(E, A);
    }
    if seeds <= T && ParentClosed(nodes, T) {
      forall y | y in Post(E, T) ensures y in T {
        var e :| e in E && e.0 in T && e.1 == y;
      }
      ReachMinimal(E, seeds, T);
    }
  }

  /** The names of `topology` that `variables` holds: where the traversal
      starts. */
  function Seeds(variables: set<string>, topology: seq<string>): set<string>
  {
    set x | x in topology && x in variables
  }

  /** The depth-first traversal of `_eliminate_unnecessary_variables`:
      take the last name off the stack; an unseen name joins `needed` and
      pushes its node's predecessors, and a name that is not a node is a
      `KeyError`. */
  function Traverse(nodes: map<string, Node>, stack: seq<string>, needed: set<string>): Result<set<string>>
    decreases |nodes.Keys - needed|, |stack|
  {
    if |stack| == 0 then Ok(needed)
    else
      var v, rest := stack[|stack| - 1], stack[..|stack| - 1];
      if v in needed then Traverse(nodes, rest, needed)
      else if v !in nodes then Err(KeyError(v))
      else
        StrictSubsetCard(nodes.Keys - (needed + {v}), nodes.Keys - needed);
        Traverse(nodes, rest + nodes[v].predecessors, needed + {v})
  }

  /** The outer loop over the first `k` names of the topology, last to
      first: every name the caller needs starts a traversal. */
  function EliminateDown(nodes: map<string, Node>, variables: set<string>, topology: seq<string>,
                         k: nat, needed: set<string>): Result<set<string>>
    requires k <= |topology|
  {
    if k == 0 then Ok(needed)
    else if topology[k - 1] in variables then
      match Traverse(nodes, [topology[k - 1]], needed)
      case Err(e) => Err(e)
      case Ok(more) => EliminateDown(nodes, variables, topology, k - 1, more)
    else EliminateDown(nodes, variables, topology, k - 1, needed)
  }

  /** `_eliminate_unnecessary_variables(variables)` over a topological
      order of the graph. */
  function Eliminate(nodes: map<string, Node>, variables: set<string>, topology: seq<string>): Result<set<string>>
  {
    EliminateDown(nodes, variables, topology, |topology|, {})
  }

  /** Every predecessor of a node already in `needed` is in `needed` or
      still on the stack. */
  predicate Frontier(nodes: map<string, Node>, needed: set<string>, stack: seq<string>)
  {
    forall x, p | x in needed && x in nodes && p in nodes[x].predecessors :: p in needed || p in stack
  }

  /** Every name of `xs` is in `T`. */
  predicate AllIn(xs: seq<string>, T: set<string>)
  {
    forall i | 0 <= i < |xs| :: xs[i] in T
  }

  lemma {:induction false} TraverseSound(nodes: map<string, Node>, stack: seq<string>, needed: set<string>,
                                         R: set<string>)
    requires ParentClosed(nodes, R)
    requires needed <= R && AllIn(stack, R)
    requires needed <= nodes.Keys
    requires Frontier(nodes, needed, stack)
    ensures TraversalMeets(nodes, stack, needed, R)
    decreases |nodes.Keys - needed|, |stack|
  {
    if |stack| == 0 {
      EmptyStep(nodes, needed, R);
    } else {
      var v, rest := stack[|stack| - 1], stack[..|stack| - 1];
      assert AllIn(rest, R) && v in R;
      assert stack == rest + [v];
      if v in needed {
        assert Frontier(nodes, needed, rest);
        TraverseSound(nodes, rest, needed, R);
        SkipStep(nodes, rest, v, needed, R);
      } else if v in nodes {
        StepSound(nodes, v, rest, needed, R);
        StrictSubsetCard(nodes.Keys - (needed + {v}), nodes.Keys - needed);
        TraverseSound(nodes, rest + nodes[v].predecessors, needed + {v}, R);
        VisitStep(nodes, rest, v, needed, R);
      } else {
        MissingStep(nodes, rest, v, needed, R);
      }
    }
  }

  /** What a traversal from `stack` with `needed` found so far achieves
      inside a predecessor-closed `R`: on success a closed set between
      `needed` and `R` that holds the stack; on failure a `KeyError` for a
      name of `R` that is no node. */
  predicate TraversalMeets(nodes: map<string, Node>, stack: seq<string>, needed: set<string>, R: set<string>)
  {
    var t := Traverse(nodes, stack, needed);
    (t.Ok? ==> needed <= t.value <= R && t.value <= nodes.Keys && ParentClosed(nodes, t.value) &&
               AllIn(stack, t.value)) &&
    (t.Err? ==> t.error.KeyError? && t.error.key in R && t.error.key !in nodes)
  }

  /** An empty stack returns what was found, which the frontier then
      shows closed. */
  lemma EmptyStep(nodes: map<string, Node>, needed: set<string>, R: set<string>)
    requires needed <= R && needed <= nodes.Keys
    requires Frontier(nodes, needed, [])
    ensures TraversalMeets(nodes, [], needed, R)
  {
    assert ParentClosed(nodes, needed);
  }

  /** Popping a name that is no node fails with its `KeyError`. */
  lemma MissingStep(nodes: map<string, Node>, rest: seq<string>, v: string, needed: set<string>, R: set<string>)
    requires v !in nodes && v !in needed && v in R
    ensures TraversalMeets(nodes, rest + [v], needed, R)
  {
    var stack := rest + [v];
    assert stack[|stack| - 1] == v;
  }

  /** Popping a name already found leaves the outcome of the rest. */
  lemma SkipStep(nodes: map<string, Node>, rest: seq<string>, v: string, needed: set<string>, R: set<string>)
    requires v in needed
    requires TraversalMeets(nodes, rest, needed, R)
    ensures TraversalMeets(nodes, rest + [v], needed, R)
  {
    var stack := rest + [v];
    assert stack[..|stack| - 1] == rest;
    assert Traverse(nodes, stack, needed) == Traverse(nodes, rest, needed);
    var t := Traverse(nodes, rest, needed);
    if t.Ok? {
      AllInSnoc(rest, v, rest, t.value);
    }
  }

  /** Popping a new node pushes its predecessors and records it. */
  lemma VisitStep(nodes: map<string, Node>, rest: seq<string>, v: string, needed: set<string>, R: set<string>)
    requires v in nodes && v !in needed
    requires TraversalMeets(nodes, rest + nodes[v].predecessors, needed + {v}, R)
    ensures TraversalMeets(nodes, rest + [v], needed, R)
  {
    var stack, pushed := rest + [v], rest + nodes[v].predecessors;
    assert stack[..|stack| - 1] == rest;
    assert Traverse(nodes, stack, needed) == Traverse(nodes, pushed, needed + {v});
    var t := Traverse(nodes, pushed, needed + {v});
    if t.Ok? {
      assert pushed[..|rest|] == rest;
      AllInSnoc(rest, v, pushed, t.value);
    }
  }

  /** A stack whose prefix begins a list inside `T`, and whose top is in
      `T`, lies inside `T`. */
  lemma AllInSnoc(rest: seq<string>, v: string, pushed: seq<string>, T: set<string>)
    requires v in T && AllIn(pushed, T)
    requires |rest| <= |pushed| && pushed[..|rest|] == rest
    ensures AllIn(rest + [v], T)
  {
    forall i | 0 <= i < |rest| + 1 ensures (rest + [v])[i] in T {
      if i < |rest| {
        assert pushed[i] == rest[i];
      }
    }
  }

  /** Visiting a new node keeps the traversal's invariant. */
  lemma StepSound(nodes: map<string, Node>, v: string, rest: seq<string>, needed: set<string>, R: set<string>)
    requires ParentClosed(nodes, R)
    requires v in nodes && v in R && AllIn(rest, R)
    requires Frontier(nodes, needed, rest + [v])
    ensures AllIn(rest + nodes[v].predecessors, R)
    ensures Frontier(nodes, needed + {v}, rest + nodes[v].predecessors)
  {
    var pushed := rest + nodes[v].predecessors;
    forall i | 0 <= i < |pushed| ensures pushed[i] in R {
      if i >= |rest| {
        assert pushed[i] == nodes[v].predecessors[i - |rest|];
      } else {
        assert pushed[i] == rest[i];
      }
    }
    forall x, p | x in needed + {v} && x in nodes && p in nodes[x].predecessors
      ensures p in needed + {v} || p in pushed
    {
      if x == v {
        var j :| 0 <= j < |nodes[v].predecessors| && nodes[v].predecessors[j] == p;
        assert pushed[|rest| + j] == p;
      } else {
        assert p in needed || p in rest + [v];
        if p in rest {
          var j :| 0 <= j < |rest| && rest[j] == p;
          assert pushed[j] == p;
        }
      }
    }
  }

  lemma {:induction false} EliminateDownSound(nodes: map<string, Node>, variables: set<string>,
                                              topology: seq<string>, k: nat, needed: set<string>)
    requires k <= |topology|
    requires needed <= Ancestors(nodes, Seeds(variables, topology))
    requires needed <= nodes.Keys && ParentClosed(nodes, needed)
    requires forall i | k <= i < |topology| && topology[i] in variables :: topology[i] in needed
    ensures EliminateDown(nodes, variables, topology, k, needed).Ok? ==>
              var found := EliminateDown(nodes, variables, topology, k, needed).value;
              Seeds(variables, topology) <= found <= Ancestors(nodes, Seeds(variables, topology)) &&
              found <= nodes.Keys && ParentClosed(nodes, found)
    ensures EliminateDown(nodes, variables, topology, k, needed).Err? ==>
              var e := EliminateDown(nodes, variables, topology, k, needed).error;
              e.KeyError? && e.key in Ancestors(nodes, Seeds(variables, topology)) && e.key !in nodes
  {
    var R := Ancestors(nodes, Seeds(variables, topology));
    AncestorsLeast(nodes, Seeds(variables, topology), R);
    if k == 0 {
      forall x | x in Seeds(variables, topology) ensures x in needed {
        var i :| 0 <= i < |topology| && topology[i] == x;
      }
    } else if topology[k - 1] in variables {
      assert topology[k - 1] in Seeds(variables, topology);
      TraverseSound(nodes, [topology[k - 1]], needed, R);
      var t := Traverse(nodes, [topology[k - 1]], needed);
      if t.Ok? {
        assert [topology[k - 1]][0] in t.value;
        EliminateDownSound(nodes, variables, topology, k - 1, t.value);
      }
    } else {
      EliminateDownSound(nodes, variables, topology, k - 1, needed);
    }
  }

  /** The traversal finds exactly the ancestors of the needed names the
      topology holds, and it fails, with a `KeyError` for one of them,
      exactly when one of those ancestors is not a node. */
  lemma EliminateSound(nodes: map<string, Node>, variables: set<string>, topology: seq<string>)
    ensures Eliminate(nodes, variables, topology).Ok? <==> Ancestors(nodes, Seeds(variables, topology)) <= nodes.Keys
    ensures Eliminate(nodes, variables, topology).Ok? ==>
              Eliminate(nodes, variables, topology).value == Ancestors(nodes, Seeds(variables, topology))
    ensures Eliminate(nodes, variables, topology).Err? ==>
              var e := Eliminate(nodes, variables, topology).error;
              e.KeyError? && e.key in Ancestors(nodes, Seeds(variables, topology)) && e.key !in nodes
  {
    var S := Seeds(variables, topology);
    EliminateDownSound(nodes, variables, topology, |topology|, {});
    var r := Eliminate(nodes, variables, topology);
    if r.Ok? {
      AncestorsLeast(nodes, S, r.value);
    }
  }

  // ---------------------------------------------------------------------
  // The calculation order

  /** The names of `topology` that `purified` holds, in topology order. */
  function InTopologyOrder(topology: seq<string>, purified: set<string>): seq<string>
  {
    if |topology| == 0 then []
    else (if topology[0] in purified then [topology[0]] else []) + InTopologyOrder(topology[1..], purified)
  }

  /** A list without repetitions, such as a topological sort. */
  predicate Distinct(xs: seq<string>)
  {
    forall i, j | 0 <= i < j < |xs| :: xs[i] != xs[j]
  }

  /** The filter keeps exactly the names of `purified` that the topology
      holds. */
  lemma {:induction false} InTopologyOrderMembers(topology: seq<string>, purified: set<string>)
    ensures forall x :: x in InTopologyOrder(topology, purified) <==> x in purified && x in topology
  {
    if |topology| > 0 {
      InTopologyOrderMembers(topology[1..], purified);
      forall x ensures x in InTopologyOrder(topology, purified) <==> x in purified && x in topology {
        assert x in topology <==> x == topology[0] || x in topology[1..];
      }
    }
  }

  /** The names of `xs` appear in `topology` in the same order. */
  predicate SortedBy(xs: seq<string>, topology: seq<string>)
  {
    forall i, j, a, b | 0 <= i < j < |xs| && 0 <= a < |topology| && 0 <= b < |topology| &&
                        topology[a] == xs[i] && topology[b] == xs[j] :: a < b
  }

  /** Filtering a repetition-free topology keeps the names in increasing
      position, so it is `purified` sorted by position. */
  lemma {:induction false} InTopologyOrderSorted(topology: seq<string>, purified: set<string>)
    requires Distinct(topology)
    ensures SortedBy(InTopologyOrder(topology, purified), topology)
  {
    if |topology| > 0 {
      var t, r, rest := topology[0], InTopologyOrder(topology, purified), InTopologyOrder(topology[1..], purified);
      var tail := topology[1..];
      assert Distinct(tail);
      InTopologyOrderSorted(tail, purified);
      InTopologyOrderMembers(tail, purified);
      assert t !in tail;
      forall i, j, a, b | 0 <= i < j < |r| && 0 <= a < |topology| && 0 <= b < |topology| &&
                          topology[a] == r[i] && topology[b] == r[j]
        ensures a < b
      {
        var off := if t in purified then 1 else 0;
        assert r == (if t in purified then [t] else []) + rest;
        assert r[j] == rest[j - off] && r[j] in tail;
        assert b > 0 && tail[b - 1] == r[j];
        if i >= off {
          assert r[i] == rest[i - off] && r[i] in tail;
          assert a > 0 && tail[a - 1] == r[i];
          assert SortedBy(rest, tail);
          assert tail[a - 1] == rest[i - off] && tail[b - 1] == rest[j - off];
        } else {
          assert r[i] == t && a == 0;
        }
      }
    }
  }

  /** The factor names are the filtered names. */
  lemma FactorNames(names: seq<string>, r: seq<Factor>)
    requires |r| == |names| && forall i | 0 <= i < |r| :: r[i].name == names[i]
    ensures (set i | 0 <= i < |r| :: r[i].name) == set x | x in names
  {
    forall x | x in names ensures x in set i | 0 <= i < |r| :: r[i].name {
      var i :| 0 <= i < |names| && names[i] == x;
      assert r[i].name == x;
    }
  }

  /** `_decide_calculation_order`: one factor per purified name, sorted by
      position in the topology; a needed name carries its value, and a
      hidden one is summed out. */
  function DecideCalculationOrder(needed: map<string, QueryVariable>, purified: set<string>, hidden: set<string>,
                                  topology: seq<string>): (r: seq<Factor>)
    requires Distinct(topology)
    requires forall x | x in purified :: x in topology
    ensures (set i | 0 <= i < |r| :: r[i].name) == purified
    ensures forall i, j, a, b | 0 <= i < j < |r| && 0 <= a < |topology| && 0 <= b < |topology| &&
                                topology[a] == r[i].name && topology[b] == r[j].name :: a < b
    ensures forall i | 0 <= i < |r| ::
              r[i].value == (if r[i].name in needed then needed[r[i].name].value else None) &&
              r[i].sumOut == (r[i].name in hidden)
  {
    var names := InTopologyOrder(topology, purified);
    InTopologyOrderMembers(topology, purified);
    InTopologyOrderSorted(topology, purified);
    var r := seq(|names|, i requires 0 <= i < |names| =>
      Factor(names[i], if names[i] in needed then needed[names[i]].value else None, names[i] in hidden));
    FactorNames(names, r);
    assert (set x | x in names) == purified;
    forall i, j, a, b | 0 <= i < j < |r| && 0 <= a < |topology| && 0 <= b < |topology| &&
                        topology[a] == r[i].name && topology[b] == r[j].name
      ensures a < b
    {
      assert SortedBy(names, topology);
      assert topology[a] == names[i] && topology[b] == names[j];
    }
    r
  }

  // ---------------------------------------------------------------------
  // Joint probabilities

  /** What `_calculate_joint_probability` and `P` return: one number when
      there are no query variables, else a table with one entry per
      combination of query values, keyed by the (name, value) pairs of the
      combination. */
  datatype Answer = Single(p: real) | PerContext(table: map<seq<(string, string)>, real>)

  /** `{v.name: v for v in variables}`: the later of two equal names wins. */
  function NeededMap(variables: seq<QueryVariable>): (r: map<string, QueryVariable>)
    ensures r.Keys == Names(variables)
  {
    if |variables| == 0 then map[]
    else
      var init, last := variables[..|variables| - 1], variables[|variables| - 1];
      assert variables == init + [last];
      NeededMap(init)[last.name := last]
  }

  /** With distinct names, every variable is found under its name. */
  lemma {:induction false} NeededMapDistinct(variables: seq<QueryVariable>)
    requires DistinctNames(variables)
    ensures forall i | 0 <= i < |variables| :: NeededMap(variables)[variables[i].name] == variables[i]
  {
    if |variables| > 0 {
      var init, last := variables[..|variables| - 1], variables[|variables| - 1];
      assert forall i | 0 <= i < |init| :: init[i] == variables[i];
      assert DistinctNames(init);
      NeededMapDistinct(init);
    }
  }

  /** The names of the variables without a value, in order. */
  function QueryNames(variables: seq<QueryVariable>): (r: seq<string>)
    ensures forall x :: x in r <==> exists i | 0 <= i < |variables| :: variables[i].value.None? && variables[i].name == x
  {
    if |variables| == 0 then []
    else
      (if variables[0].value.None? then [variables[0].name] else []) + QueryNames(variables[1..])
  }

  lemma {:induction false} QueryNamesOfValued(variables: seq<QueryVariable>)
    requires forall i | 0 <= i < |variables| :: variables[i].value.Some?
    ensures QueryNames(variables) == []
  {
    if |variables| > 0 {
      QueryNamesOfValued(variables[1..]);
    }
  }

  /** The value lists of the named nodes; the first name that is not a
      node is a `KeyError`. */
  function QueryValues(nodes: map<string, Node>, names: seq<string>): (r: Result<seq<seq<string>>>)
    ensures r.Ok? <==> forall i | 0 <= i < |names| :: names[i] in nodes
    ensures r.Ok? ==> |r.value| == |names| && forall i | 0 <= i < |names| :: r.value[i] == nodes[names[i]].randomVariables
    ensures r.Err? ==> r.error.KeyError? && r.error.key in names && r.error.key !in nodes
  {
    if |names| == 0 then Ok([])
    else if names[0] !in nodes then Err(KeyError(names[0]))
    else
      match QueryValues(nodes, names[1..])
      case Err(e) => Err(e)
      case Ok(rest) => Ok([nodes[names[0]].randomVariables] + rest)
  }

  /** The context a list of (name, value) pairs builds, as `dict` does:
      the later of two equal names wins. */
  function PairsContext(pairs: seq<(string, string)>): (r: map<string, string>)
    ensures r.Keys == set i | 0 <= i < |pairs| :: pairs[i].0
  {
    if |pairs| == 0 then map[]
    else map[pairs[0].0 := pairs[0].1] + PairsContext(pairs[1..])
  }

  /** `dict(zip(names, combination))`. */
  function Bind(names: seq<string>, combination: seq<string>): map<string, string>
  {
    PairsContext(Pairs(names, combination))
  }

  /** The pairs of `zip(names, combination)`: the table key of a
      combination. */
  function Pairs(names: seq<string>, combination: seq<string>): (r: seq<(string, string)>)
    ensures |r| == if |names| < |combination| then |names| else |combination|
    ensures forall i | 0 <= i < |r| :: r[i] == (names[i], combination[i])
  {
    if |names| == 0 || |combination| == 0 then []
    else [(names[0], combination[0])] + Pairs(names[1..], combination[1..])
  }

  /** The table keys of the combinations, in order. */
  function KeysOf(names: seq<string>, combinations: seq<seq<string>>): (r: seq<seq<(string, string)>>)
    ensures |r| == |combinations|
    ensures forall i | 0 <= i < |r| :: r[i] == Pairs(names, combinations[i])
  {
    seq(|combinations|, i requires 0 <= i < |combinations| => Pairs(names, combinations[i]))
  }

  /** The loop of `_calculate_joint_probability` from `table` on: the
      probability of each key's context is stored under the key; the first
      error ends the loop. */
  function Tabulate(nodes: map<string, Node>, order: seq<Factor>, table: map<seq<(string, string)>, real>,
                    keys: seq<seq<(string, string)>>): Result<map<seq<(string, string)>, real>>
    decreases |keys|
  {
    if |keys| == 0 then Ok(table)
    else
      match Infer(nodes, order, PairsContext(keys[0]))
      case Err(e) => Err(e)
      case Ok(p) => Tabulate(nodes, order, table[keys[0] := p], keys[1..])
  }

  /** `_calculate_joint_probability` once `purified` is known: order the
      factors, then evaluate the order once, or once per combination of
      query values. */
  function JointFrom(nodes: map<string, Node>, variables: seq<QueryVariable>, topology: seq<string>,
                     purified: set<string>): Result<Answer>
    requires Distinct(topology)
    requires forall x | x in purified :: x in topology
  {
    var order := OrderFor(variables, topology, purified);
    var names := QueryNames(variables);
    match QueryValues(nodes, names)
    case Err(e) => Err(e)
    case Ok(lists) =>
      if |names| > 0 then
        match Tabulate(nodes, order, map[], KeysOf(names, Product(lists)))
        case Err(e) => Err(e)
        case Ok(t) => Ok(PerContext(t))
      else
        match Infer(nodes, order, map[])
        case Err(e) => Err(e)
        case Ok(p) => Ok(Single(p))
  }

  /** `_calculate_joint_probability(variables)` over a topological order
      of a graph that holds every node. */
  function Joint(nodes: map<string, Node>, variables: seq<QueryVariable>, topology: seq<string>): Result<Answer>
    requires Distinct(topology)
    requires forall x | x in nodes :: x in topology
  {
    var seeds := NeededMap(variables).Keys;
    match Eliminate(nodes, seeds, topology)
    case Err(e) => Err(e)
    case Ok(purified) =>
      EliminateSound(nodes, seeds, topology);
      JointFrom(nodes, variables, topology, purified)
  }

  /** Whether Python evaluates `_probability_inference(order)` to the int
      `0` and not to a float. `sum` over an empty generator is the int `0`,
      so a leading hidden factor whose node has no values gives it. Every
      other branch gives a float: the base case is `1.0`, a query or known
      factor multiplies a float table entry in, and a hidden factor with
      values adds terms that each start with a known factor. */
  predicate IntZero(nodes: map<string, Node>, order: seq<Factor>)
  {
    |order| > 0 && order[0].name in nodes && IsHidden(order[0]) &&
    |nodes[order[0].name].randomVariables| == 0
  }

  /** The int `0` is the number 0. */
  lemma IntZeroValue(nodes: map<string, Node>, order: seq<Factor>, context: map<string, string>)
    requires IntZero(nodes, order)
    ensures Infer(nodes, order, context) == Ok(0.0)
  {
  }

  /** Whether `_calculate_joint_probability(variables)` returns the int `0`:
      there are no query variables, so the order is evaluated once, and
      that evaluation is the int `0`. */
  predicate IntJoint(nodes: map<string, Node>, variables: seq<QueryVariable>, topology: seq<string>)
    requires Distinct(topology)
    requires forall x | x in nodes :: x in topology
  {
    var seeds := NeededMap(variables).Keys;
    match Eliminate(nodes, seeds, topology)
    case Err(_) => false
    case Ok(purified) =>
      EliminateSound(nodes, seeds, topology);
      QueryNames(variables) == [] && IntZero(nodes, OrderFor(variables, topology, purified))
  }

  /** An int joint probability is the single number 0. */
  lemma IntJointValue(nodes: map<string, Node>, variables: seq<QueryVariable>, topology: seq<string>)
    requires Distinct(topology)
    requires forall x | x in nodes :: x in topology
    requires IntJoint(nodes, variables, topology)
    ensures Joint(nodes, variables, topology) == Ok(Single(0.0))
  {
    var seeds := NeededMap(variables).Keys;
    EliminateSound(nodes, seeds, topology);
    var purified := Eliminate(nodes, seeds, topology).value;
    IntZeroValue(nodes, OrderFor(variables, topology, purified), map[]);
  }

  /** `symbol_context`: every node's values under its name. */
  function SymbolContext(nodes: map<string, Node>): (r: map<string, seq<string>>)
    ensures r.Keys == nodes.Keys
    ensures forall k | k in r :: r[k] == nodes[k].randomVariables
  {
    map k | k in nodes :: nodes[k].randomVariables
  }

  /** The division that ends `P`: a number by the denominator, or every
      entry of a table by it; a zero denominator is a `ZeroDivisionError`
      unless there is nothing to divide. */
  function Divide(numerator: Answer, denominator: real): (r: Result<Answer>)
    ensures denominator != 0.0 ==> r.Ok? && r.value.Single? == numerator.Single?
    ensures denominator == 0.0 ==> (r.Ok? <==> numerator.PerContext? && |numerator.table| == 0)
    ensures r.Ok? && numerator.Single? ==> r.value.p * denominator == numerator.p
    ensures r.Ok? && numerator.PerContext? ==>
              r.value.PerContext? && r.value.table.Keys == numerator.table.Keys &&
              forall k | k in numerator.table :: r.value.table[k] * denominator == numerator.table[k]
  {
    match numerator
    case Single(p) => if denominator == 0.0 then Err(ZeroDivisionError) else Ok(Single(p / denominator))
    case PerContext(t) =>
      if |t| == 0 then Ok(PerContext(map[]))
      else if denominator == 0.0 then Err(ZeroDivisionError)
      else Ok(PerContext(map k | k in t :: t[k] / denominator))
  }

  /** `P(query)`: parse the query against the symbol context (a text
      outside the grammar is `InvalidQuery`, and the parser's own errors
      pass through), then divide the joint probability of the query and
      evidence variables by that of the evidence variables. A numerator
      that is the int `0` fails the `type(...) == float` test and is then
      asked for `.items()`, an `AttributeError`; the denominator is
      computed before that test. */
  function Posterior(nodes: map<string, Node>, query: string, topology: seq<string>): Result<Answer>
    requires Distinct(topology)
    requires forall x | x in nodes :: x in topology
  {
    match QueryParser(query, Some(SymbolContext(nodes)))
    case Err(e) => Err(e)
    case Ok(NoMatch) => Err(InvalidQuery)
    case Ok(Parsed(queries, evidences)) =>
      match Joint(nodes, queries + evidences, topology)
      case Err(e) => Err(e)
      case Ok(numerator) =>
        match Joint(nodes, evidences, topology)
        case Err(e) => Err(e)
        case Ok(Single(denominator)) =>
          if IntJoint(nodes, queries + evidences, topology) then Err(AttributeError)
          else Divide(numerator, denominator)
        case Ok(PerContext(_)) =>
          EvidenceJointSingle(nodes, evidences, topology);
          assert false;
          Err(InvalidQuery)
  }

  /** Evidence variables all carry values, so their joint probability is a
      single number. */
  lemma EvidenceJointSingle(nodes: map<string, Node>, evidences: seq<QueryVariable>, topology: seq<string>)
    requires Distinct(topology)
    requires forall x | x in nodes :: x in topology
    requires forall i | 0 <= i < |evidences| :: evidences[i].value.Some?
    ensures Joint(nodes, evidences, topology).Ok? ==> Joint(nodes, evidences, topology).value.Single?
  {
    QueryNamesOfValued(evidences);
    var seeds := NeededMap(evidences).Keys;
    EliminateSound(nodes, seeds, topology);
    var e := Eliminate(nodes, seeds, topology);
    if e.Ok? {
      JointFromSingle(nodes, evidences, topology, e.value);
    }
  }

  /** The loop fails exactly when some key's context does. */
  lemma {:induction false} TabulateOk(nodes: map<string, Node>, order: seq<Factor>,
                                      table: map<seq<(string, string)>, real>, keys: seq<seq<(string, string)>>)
    ensures Tabulate(nodes, order, table, keys).Ok? <==>
              forall i | 0 <= i < |keys| :: Infer(nodes, order, PairsContext(keys[i])).Ok?
    decreases |keys|
  {
    if |keys| > 0 {
      var p := Infer(nodes, order, PairsContext(keys[0]));
      if p.Ok? {
        TabulateOk(nodes, order, table[keys[0] := p.value], keys[1..]);
        assert forall i | 0 < i < |keys| :: keys[i] == keys[1..][i - 1];
      }
    }
  }

  /** The context of `keys[i]` is the first to fail, and fails with `e`. */
  predicate FailsFirstAt(nodes: map<string, Node>, order: seq<Factor>, keys: seq<seq<(string, string)>>,
                         i: int, e: Error)
  {
    0 <= i < |keys| && Infer(nodes, order, PairsContext(keys[i])) == Err(e) &&
    forall j | 0 <= j < i :: Infer(nodes, order, PairsContext(keys[j])).Ok?
  }

  /** It fails with the error of the first key whose context fails. */
  lemma {:induction false} TabulateErr(nodes: map<string, Node>, order: seq<Factor>,
                                       table: map<seq<(string, string)>, real>, keys: seq<seq<(string, string)>>)
    requires Tabulate(nodes, order, table, keys).Err?
    ensures exists i :: FailsFirstAt(nodes, order, keys, i, Tabulate(nodes, order, table, keys).error)
    decreases |keys|
  {
    var p := Infer(nodes, order, PairsContext(keys[0]));
    var e := Tabulate(nodes, order, table, keys).error;
    if p.Ok? {
      var rest, next := keys[1..], table[keys[0] := p.value];
      assert Tabulate(nodes, order, table, keys) == Tabulate(nodes, order, next, rest);
      TabulateErr(nodes, order, next, rest);
      var i :| FailsFirstAt(nodes, order, rest, i, e);
      assert forall j | 1 <= j <= i + 1 :: keys[j] == rest[j - 1];
      assert FailsFirstAt(nodes, order, keys, i + 1, e);
    } else {
      assert FailsFirstAt(nodes, order, keys, 0, e);
    }
  }

  /** On success every key holds the probability of its context, and the
      other entries of `table` stay. */
  lemma {:induction false} TabulateTable(nodes: map<string, Node>, order: seq<Factor>,
                                         table: map<seq<(string, string)>, real>, keys: seq<seq<(string, string)>>)
    requires Tabulate(nodes, order, table, keys).Ok?
    ensures var t := Tabulate(nodes, order, table, keys).value;
            t.Keys == table.Keys + (set k | k in keys) &&
            (forall k | k in keys :: Infer(nodes, order, PairsContext(k)).Ok? &&
                                     t[k] == Infer(nodes, order, PairsContext(k)).value) &&
            (forall k | k in table && k !in keys :: t[k] == table[k])
    decreases |keys|
  {
    if |keys| > 0 {
      var p := Infer(nodes, order, PairsContext(keys[0]));
      var rest := keys[1..];
      TabulateTable(nodes, order, table[keys[0] := p.value], rest);
      assert forall k :: k in keys <==> k == keys[0] || k in rest;
    }
  }

  /** The calculation order `_calculate_joint_probability` builds for
      `variables` once `purified` is known. */
  function OrderFor(variables: seq<QueryVariable>, topology: seq<string>, purified: set<string>): seq<Factor>
    requires Distinct(topology)
    requires forall x | x in purified :: x in topology
  {
    var needed := NeededMap(variables);
    DecideCalculationOrder(needed, purified, purified - needed.Keys, topology)
  }

  /** The joint probability is a single number exactly when no variable is
      a query variable. */
  lemma JointFromSingle(nodes: map<string, Node>, variables: seq<QueryVariable>, topology: seq<string>,
                        purified: set<string>)
    requires Distinct(topology)
    requires forall x | x in purified :: x in topology
    ensures JointFrom(nodes, variables, topology, purified).Ok? ==>
              (JointFrom(nodes, variables, topology, purified).value.Single? <==> QueryNames(variables) == [])
  {
  }

  /** With query variables, the joint probability has one entry per
      combination of their values, each the probability of the calculation
      order in the context the combination binds. */
  lemma JointFromTable(nodes: map<string, Node>, variables: seq<QueryVariable>, topology: seq<string>,
                       purified: set<string>)
    requires Distinct(topology)
    requires forall x | x in purified :: x in topology
    requires JointFrom(nodes, variables, topology, purified).Ok?
    requires QueryNames(variables) != []
    ensures QueryValues(nodes, QueryNames(variables)).Ok?
    ensures var names, order := QueryNames(variables), OrderFor(variables, topology, purified);
            var t := JointFrom(nodes, variables, topology, purified).value.table;
            t.Keys == (set c | c in Product(QueryValues(nodes, names).value) :: Pairs(names, c)) &&
            forall k | k in t :: Infer(nodes, order, PairsContext(k)).Ok? &&
                                 t[k] == Infer(nodes, order, PairsContext(k)).value
  {
    var names, order := QueryNames(variables), OrderFor(variables, topology, purified);
    var lists := QueryValues(nodes, names);
    var combinations := Product(lists.value);
    var keys := KeysOf(names, combinations);
    assert JointFrom(nodes, variables, topology, purified) ==
           match Tabulate(nodes, order, map[], keys)
           case Err(e) => Err(e)
           case Ok(t) => Ok(PerContext(t));
    TabulateTable(nodes, order, map[], keys);
    KeysOfSet(names, combinations);
  }

  lemma KeysOfSet(names: seq<string>, combinations: seq<seq<string>>)
    ensures (set k | k in KeysOf(names, combinations)) == set c | c in combinations :: Pairs(names, c)
  {
    var keys := KeysOf(names, combinations);
    forall k | k in keys ensures k in set c | c in combinations :: Pairs(names, c) {
      var i :| 0 <= i < |keys| && keys[i] == k;
      assert combinations[i] in combinations;
    }
    forall k | k in set c | c in combinations :: Pairs(names, c) ensures k in keys {
      var c :| c in combinations && k == Pairs(names, c);
      var i :| 0 <= i < |combinations| && combinations[i] == c;
      assert keys[i] == k;
    }
  }
}
