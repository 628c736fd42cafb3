/** A node of the Bayesian network: its name, the values its random
    variable can take, its parents (predecessors) in declared order, its
    conditional probability table and the value lists of its parents
    followed by its own values.

    The table is keyed by rendered value tuples: the parents' values in
    declared order followed by the node's own value, written
    `(v1,v2,...,vn)`. The record is immutable; its fields are the
    constructor arguments. */
module NetworkNode {
  import opened Common
  import opened Strings

  datatype Node = Node(
    name: string,
    randomVariables: seq<string>,
    predecessors: seq<string>,
    probabilities: map<string, real>,
    allRandomVariables: seq<seq<string>>)

  /** The table key of a value tuple: the values separated by commas,
      wrapped in parentheses. */
  function ProbabilityKey(values: seq<string>): (r: string)
    ensures |r| >= 2 && r[0] == '(' && r[|r| - 1] == ')'
    ensures r[1..|r| - 1] == Join(values, ',')
  {
    "(" + Join(values, ',') + ")"
  }

  /** Distinct tuples of comma-free values have distinct keys, so a
      rendered key names exactly one row of the table. */
  lemma ProbabilityKeyInjective(u: seq<string>, v: seq<string>)
    requires |u| >= 1 && |v| >= 1
    requires forall i :: 0 <= i < |u| ==> ',' !in u[i]
    requires forall i :: 0 <= i < |v| ==> ',' !in v[i]
    requires ProbabilityKey(u) == ProbabilityKey(v)
    ensures u == v
  {
    var ku, kv := ProbabilityKey(u), ProbabilityKey(v);
    assert ku[1..|ku| - 1] == kv[1..|kv| - 1];
    JoinInjective(u, v, ',');
  }

  /** The context values of `names`, in order; the first name the context
      lacks is a `KeyError`. */
  function ContextValues(names: seq<string>, context: map<string, string>): (r: Result<seq<string>>)
    ensures r.Ok? <==> forall i :: 0 <= i < |names| ==> names[i] in context
    ensures r.Ok? ==> |r.value| == |names| &&
                      forall i :: 0 <= i < |names| ==> r.value[i] == context[names[i]]
    ensures r.Err? ==> exists i :: 0 <= i < |names| && names[i] !in context &&
                         r.error == KeyError(names[i]) &&
                         forall j :: 0 <= j < i ==> names[j] in context
  {
    if |names| == 0 then Ok([])
    else if names[0] !in context then Err(KeyError(names[0]))
    else
      match ContextValues(names[1..], context)
      case Err(e) => Err(e)
      case Ok(rest) => Ok([context[names[0]]] + rest)
  }

  /** The values `probability` reads from a context: the predecessors'
      values in declared order, then the node's own. */
  function ContextTuple(node: Node, context: map<string, string>): (r: seq<string>)
    requires forall p | p in node.predecessors :: p in context
    requires node.name in context
    ensures |r| == |node.predecessors| + 1
    ensures forall i :: 0 <= i < |node.predecessors| ==> r[i] == context[node.predecessors[i]]
    ensures r[|node.predecessors|] == context[node.name]
  {
    seq(|node.predecessors|, i requires 0 <= i < |node.predecessors| =>
          context[node.predecessors[i]]) + [context[node.name]]
  }

  /** The key under which `probability` looks a context up. */
  function ContextKey(node: Node, context: map<string, string>): string
    requires forall p | p in node.predecessors :: p in context
    requires node.name in context
  {
    ProbabilityKey(ContextTuple(node, context))
  }

  /** `NetworkNode.probability(**context)`: the table entry for the parents'
      context values followed by the node's own context value. A missing
      parent or own name, or a missing table row, is a `KeyError`. */
  function Probability(node: Node, context: map<string, string>): (r: Result<real>)
    ensures r.Ok? <==> (forall p | p in node.predecessors :: p in context) &&
                       node.name in context &&
                       ContextKey(node, context) in node.probabilities
    ensures r.Ok? ==> r.value == node.probabilities[ContextKey(node, context)]
    ensures (exists p | p in node.predecessors :: p !in context) ==>
              r.Err? && r.error.KeyError? && r.error.key in node.predecessors
    ensures (forall p | p in node.predecessors :: p in context) && node.name !in context ==>
              r == Err(KeyError(node.name))
    ensures (forall p | p in node.predecessors :: p in context) && node.name in context &&
            ContextKey(node, context) !in node.probabilities ==>
              r == Err(KeyError(ContextKey(node, context)))
  {
    match ContextValues(node.predecessors, context)
    case Err(e) => Err(e)
    case Ok(values) =>
      if node.name !in context then Err(KeyError(node.name))
      else
        var key := ProbabilityKey(values + [context[node.name]]);
        assert values + [context[node.name]] == ContextTuple(node, context);
        if key in node.probabilities then Ok(node.probabilities[key]) else Err(KeyError(key))
  }

  /** A parentless node looks up the one-value key `(v)`. */
  lemma ParentlessProbability(node: Node, v: string)
    requires node.predecessors == []
    ensures Probability(node, map[node.name := v]) ==
              if "(" + v + ")" in node.probabilities
              then Ok(node.probabilities["(" + v + ")"])
              else Err(KeyError("(" + v + ")"))
  {
    var ctx := map[node.name := v];
    assert ContextKey(node, ctx) == ProbabilityKey([v]);
    assert ContextValues([], ctx) == Ok([]);
  }
}
