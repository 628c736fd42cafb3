/** A network in which `P` meets the int `0`: a node `h` with no values is
    the only parent of a node `x` with the one value `v`. The calculation
    order of `x = v` opens with `h` as a hidden factor, `sum` over `h`'s
    empty value list is the int `0`, and the posterior of `x = v` raises
    `AttributeError` at `.items()`. The names, the value and the two tables
    are parameters. */
module IntZeroExample {
  import opened Common
  import opened NetworkNode
  import opened Query
  import opened Inference
  import opened Conditioning

  /** `h` with no values, and `x` with parent `h` and the value `v`. */
  function EmptyParentNet(h: string, x: string, v: string, th: map<string, real>, tx: map<string, real>):
    map<string, Node>
  {
    map[h := Node(h, [], [], th, []), x := Node(x, [v], [h], tx, [[], [v]])]
  }

  /** `P(x = v)` raises `AttributeError`. */
  lemma EmptyParentRaises(h: string, x: string, v: string, th: map<string, real>, tx: map<string, real>)
    requires IsWord(h) && IsWord(x) && IsWord(v) && h != x
    ensures Posterior(EmptyParentNet(h, x, v, th, tx), Render([QueryVariable(x, Some(v))], []), [h, x]) ==
              Err(AttributeError)
  {
    var nodes := EmptyParentNet(h, x, v, th, tx);
    var q := QueryVariable(x, Some(v));
    ParseEmptyParent(h, x, v, th, tx);
    NumeratorIntZero(h, x, v, th, tx);
    IntJointValue(nodes, [q], [h, x]);
    DenominatorOne(h, x, v, th, tx);
    PosteriorSingle(nodes, Render([q], []), [h, x], [q], [], 0.0, 1.0);
  }

  /** The query reads back as the one term `x = v`. */
  lemma ParseEmptyParent(h: string, x: string, v: string, th: map<string, real>, tx: map<string, real>)
    requires IsWord(h) && IsWord(x) && IsWord(v) && h != x
    ensures QueryParser(Render([QueryVariable(x, Some(v))], []), Some(SymbolContext(EmptyParentNet(h, x, v, th, tx)))) ==
              Ok(Parsed([QueryVariable(x, Some(v))], []))
  {
    var nodes := EmptyParentNet(h, x, v, th, tx);
    var qs := [QueryVariable(x, Some(v))];
    assert qs + [] == qs;
    assert SymbolContext(nodes)[x] == [v];
    assert InContext(qs[0], SymbolContext(nodes));
    ParseRender(qs, [], Some(SymbolContext(nodes)));
  }

  /** The numerator's order is `h` summed out, then `x = v`, so it is the
      int `0`. */
  lemma NumeratorIntZero(h: string, x: string, v: string, th: map<string, real>, tx: map<string, real>)
    requires h != x
    ensures IntJoint(EmptyParentNet(h, x, v, th, tx), [QueryVariable(x, Some(v))], [h, x])
  {
    var nodes := EmptyParentNet(h, x, v, th, tx);
    var vs := [QueryVariable(x, Some(v))];
    assert Names(vs) == {x} by {
      assert vs[0].name == x;
    }
    AncestorsLeast(nodes, {x}, {h, x});
    assert ValuedNodes(nodes, vs);
    IntJointOfValued(nodes, vs, [h, x], {h, x});
    OrderOfEmptyParent(h, x, v);
  }

  lemma OrderOfEmptyParent(h: string, x: string, v: string)
    requires h != x
    ensures OrderFor([QueryVariable(x, Some(v))], [h, x], {h, x}) == [Factor(h, None, true), Factor(x, Some(v), false)]
  {
    var vs := [QueryVariable(x, Some(v))];
    assert vs[..0] == [];
    var needed := NeededMap(vs);
    assert needed == map[x := vs[0]];
    assert [h, x][1..] == [x] && [x][1..] == [];
    assert InTopologyOrder([], {h, x}) == [];
    assert InTopologyOrder([x], {h, x}) == [x];
    assert InTopologyOrder([h, x], {h, x}) == [h, x];
    DecideOrderTags(needed, {h, x}, {h, x} - needed.Keys, [h, x]);
  }

  /** The denominator has no variables, so it is the float `1.0`. */
  lemma DenominatorOne(h: string, x: string, v: string, th: map<string, real>, tx: map<string, real>)
    requires h != x
    ensures Joint(EmptyParentNet(h, x, v, th, tx), [], [h, x]) == Ok(Single(1.0))
  {
    var nodes := EmptyParentNet(h, x, v, th, tx);
    assert Names([]) == {};
    AncestorsLeast(nodes, {}, {});
    JointOfValuedAt(nodes, [], [h, x], {});
    var order := OrderFor([], [h, x], {});
    if |order| > 0 {
      assert false;
    }
  }
}
