/** Single steps of the evaluation of a calculation order, for orders
    whose factors are written out: a known factor multiplies its entry
    with the rest, a hidden factor over two values adds the two known
    versions, and evaluations whose entries are given evaluate to the
    products and sums of those entries. The entries are parameters, so
    that each lemma relates an evaluation to the entries its hypotheses
    fix. */
module EvaluationSteps {
  import opened Common
  import opened NetworkNode
  import opened Inference

  /** A known factor binds its value, then multiplies the node's entry
      with the rest of the order. */
  lemma KnownStep(nodes: map<string, Node>, name: string, v: string, rest: seq<Factor>, c: map<string, string>)
    requires name in nodes
    ensures Infer(nodes, [Factor(name, Some(v), false)] + rest, c) ==
              Chain(Probability(nodes[name], c[name := v]), Infer(nodes, rest, c[name := v]))
  {
    var order := [Factor(name, Some(v), false)] + rest;
    assert order[0] == Factor(name, Some(v), false) && order[1..] == rest;
  }

  /** A hidden factor over two values sums the order with each value
      known in turn. */
  lemma HiddenStep(nodes: map<string, Node>, name: string, v: string, w: string, rest: seq<Factor>,
                   c: map<string, string>)
    requires name in nodes && nodes[name].randomVariables == [v, w]
    ensures Infer(nodes, [Factor(name, None, true)] + rest, c) ==
              Plus(Infer(nodes, [Factor(name, Some(v), false)] + rest, c),
                   Plus(Infer(nodes, [Factor(name, Some(w), false)] + rest, c), Ok(0.0)))
  {
    var order := [Factor(name, None, true)] + rest;
    assert order[0] == Factor(name, None, true) && order[1..] == rest;
    assert [v, w][1..] == [w] && [w][1..] == [];
    assert SumOver(nodes, name, [], rest, c) == Ok(0.0);
    assert SumOver(nodes, name, [w], rest, c) ==
             Plus(Infer(nodes, [Factor(name, Some(w), false)] + rest, c), Ok(0.0));
  }

  /** A known factor last in the order: its entry times the 1 of the
      empty rest. */
  lemma LastStep(nodes: map<string, Node>, a: string, z: string, c: map<string, string>)
    requires a in nodes
    ensures Infer(nodes, [Factor(a, Some(z), false)], c) == Chain(Probability(nodes[a], c[a := z]), Ok(1.0))
  {
    KnownStep(nodes, a, z, [], c);
    assert [Factor(a, Some(z), false)] + [] == [Factor(a, Some(z), false)];
  }

  /** What an order of a hidden factor `e` over the values `t` and `f`
      and a known factor `a = z` evaluates to, written out: the sum over
      both values of `e` of the two entries' product. */
  function PairValue(nodes: map<string, Node>, e: string, t: string, f: string, a: string, z: string,
                     c: map<string, string>): Result<real>
    requires e in nodes && a in nodes
  {
    Plus(Chain(Probability(nodes[e], c[e := t]), Chain(Probability(nodes[a], c[e := t][a := z]), Ok(1.0))),
         Plus(Chain(Probability(nodes[e], c[e := f]), Chain(Probability(nodes[a], c[e := f][a := z]), Ok(1.0))),
              Ok(0.0)))
  }

  lemma PairStep(nodes: map<string, Node>, e: string, t: string, f: string, a: string, z: string,
                 c: map<string, string>)
    requires e in nodes && a in nodes && nodes[e].randomVariables == [t, f]
    ensures Infer(nodes, [Factor(e, None, true), Factor(a, Some(z), false)], c) == PairValue(nodes, e, t, f, a, z, c)
  {
    var ka := Factor(a, Some(z), false);
    assert [Factor(e, None, true)] + [ka] == [Factor(e, None, true), ka];
    HiddenStep(nodes, e, t, f, [ka], c);
    KnownStep(nodes, e, t, [ka], c);
    LastStep(nodes, a, z, c[e := t]);
    KnownStep(nodes, e, f, [ka], c);
    LastStep(nodes, a, z, c[e := f]);
  }

  /** What an order of two hidden factors `b` and `e` over the values `t`
      and `f` and a known factor `a = z` evaluates to, written out. */
  function TripleValue(nodes: map<string, Node>, b: string, e: string, t: string, f: string, a: string, z: string,
                       c: map<string, string>): Result<real>
    requires b in nodes && e in nodes && a in nodes
  {
    Plus(Chain(Probability(nodes[b], c[b := t]), PairValue(nodes, e, t, f, a, z, c[b := t])),
         Plus(Chain(Probability(nodes[b], c[b := f]), PairValue(nodes, e, t, f, a, z, c[b := f])), Ok(0.0)))
  }

  lemma TripleStep(nodes: map<string, Node>, b: string, e: string, t: string, f: string, a: string, z: string,
                   c: map<string, string>)
    requires b in nodes && e in nodes && a in nodes
    requires nodes[b].randomVariables == [t, f] && nodes[e].randomVariables == [t, f]
    ensures Infer(nodes, [Factor(b, None, true), Factor(e, None, true), Factor(a, Some(z), false)], c) ==
              TripleValue(nodes, b, e, t, f, a, z, c)
  {
    var rest := [Factor(e, None, true), Factor(a, Some(z), false)];
    assert [Factor(b, None, true)] + rest == [Factor(b, None, true), Factor(e, None, true), Factor(a, Some(z), false)];
    HiddenStep(nodes, b, t, f, rest, c);
    KnownPair(nodes, b, t, e, t, f, a, z, c);
    KnownPair(nodes, b, f, e, t, f, a, z, c);
  }

  /** A known factor `b = v` in front of the order of `PairValue`. */
  lemma KnownPair(nodes: map<string, Node>, b: string, v: string, e: string, t: string, f: string, a: string,
                  z: string, c: map<string, string>)
    requires b in nodes && e in nodes && a in nodes && nodes[e].randomVariables == [t, f]
    ensures Infer(nodes, [Factor(b, Some(v), false)] + [Factor(e, None, true), Factor(a, Some(z), false)], c) ==
              Chain(Probability(nodes[b], c[b := v]), PairValue(nodes, e, t, f, a, z, c[b := v]))
  {
    KnownStep(nodes, b, v, [Factor(e, None, true), Factor(a, Some(z), false)], c);
    PairStep(nodes, e, t, f, a, z, c[b := v]);
  }
}
