/** What `P` computes for a variable whose parents are all evidence: the
    entry of its table. A known factor whose parents are fixed before it
    and that nothing after it reads multiplies the whole evaluation by one
    number (`FactorOut`); the order of a query with one extra known
    variable is the order of its evidence with one factor inserted
    (`OrderInsert`); together they give the node's table entry as the
    posterior whenever no evidence variable descends from it
    (`ParentsKnownPosterior`). */
module Conditioning {
  import opened Common
  import opened Graph
  import opened NetworkNode
  import opened Query
  import opened Strings
  import opened Inference

  // ---------------------------------------------------------------------
  // Pulling a known factor out of an evaluation

  /** The context after the known factors of `order` have bound their
      values: what every evaluation path holds for names no hidden factor
      binds. */
  function Known(order: seq<Factor>, context: map<string, string>): map<string, string>
  {
    if |order| == 0 then context
    else if order[0].value.Some? && !order[0].sumOut then
      Known(order[1..], context[order[0].name := order[0].value.value])
    else Known(order[1..], context)
  }

  /** The names an order sums out. */
  function HiddenNames(order: seq<Factor>): set<string>
  {
    if |order| == 0 then {} else (if IsHidden(order[0]) then {order[0].name} else {}) + HiddenNames(order[1..])
  }

  /** A constant factor commutes with another one. */
  lemma ChainScale(a: real, p: Result<real>, q: Result<real>)
    ensures Chain(p, Chain(Ok(a), q)) == Chain(Ok(a), Chain(p, q))
  {
    if p.Ok? && q.Ok? {
      var aq, pq := Chain(Ok(a), q), Chain(p, q);
      assert aq.Ok? && pq.Ok?;
      var l, r := Chain(p, aq), Chain(Ok(a), pq);
      assert l.Ok? && r.Ok?;
      assert l.value == p.value * (a * q.value);
      assert r.value == a * (p.value * q.value);
      assert l.value == r.value;
    }
  }

  /** A constant factor distributes over a sum. */
  lemma PlusScale(a: real, p: Result<real>, q: Result<real>)
    ensures Plus(Chain(Ok(a), p), Chain(Ok(a), q)) == Chain(Ok(a), Plus(p, q))
  {
    if p.Ok? && q.Ok? {
      var ap, aq, pq := Chain(Ok(a), p), Chain(Ok(a), q), Plus(p, q);
      assert ap.Ok? && aq.Ok? && pq.Ok?;
      var l, r := Plus(ap, aq), Chain(Ok(a), pq);
      assert l.Ok? && r.Ok?;
      assert l.value == a * p.value + a * q.value;
      assert r.value == a * (p.value + q.value);
      assert l.value == r.value;
    }
  }

  /** Binding the known factors keeps two contexts in agreement. */
  lemma {:induction false} KnownAgree(order: seq<Factor>, c1: map<string, string>, c2: map<string, string>,
                                      names: set<string>)
    requires Agree(c1, c2, names)
    ensures Agree(Known(order, c1), Known(order, c2), names)
  {
    if |order| > 0 {
      var f := order[0];
      if f.value.Some? && !f.sumOut {
        KnownAgree(order[1..], c1[f.name := f.value.value], c2[f.name := f.value.value], names);
      } else {
        KnownAgree(order[1..], c1, c2, names);
      }
    }
  }

  /** The probability of the known factor `f` once `pre` has run. */
  function FactorProbability(nodes: map<string, Node>, pre: seq<Factor>, f: Factor, c: map<string, string>): Result<real>
    requires f.name in nodes && f.value.Some?
  {
    Probability(nodes[f.name], Known(pre, c)[f.name := f.value.value])
  }

  /** The first factor of an order: a query factor, a known factor, a
      hidden factor, or one that fails. */
  lemma InferStep(nodes: map<string, Node>, g: Factor, tail: seq<Factor>, c: map<string, string>)
    ensures g.name !in nodes ==> Infer(nodes, [g] + tail, c) == Err(KeyError(g.name))
    ensures g.name in nodes && g.value.None? && !g.sumOut ==>
              Infer(nodes, [g] + tail, c) == Chain(Probability(nodes[g.name], c), Infer(nodes, tail, c))
    ensures g.name in nodes && g.value.None? && g.sumOut ==>
              Infer(nodes, [g] + tail, c) == SumOver(nodes, g.name, nodes[g.name].randomVariables, tail, c)
    ensures g.name in nodes && g.value.Some? && !g.sumOut ==>
              var bound := c[g.name := g.value.value];
              Infer(nodes, [g] + tail, c) == Chain(Probability(nodes[g.name], bound), Infer(nodes, tail, bound))
    ensures g.name in nodes && g.value.Some? && g.sumOut ==>
              Infer(nodes, [g] + tail, c) == Err(InvalidProbabilityFactor(g.name))
  {
    assert ([g] + tail)[0] == g && ([g] + tail)[1..] == tail;
  }

  /** A known factor whose node reads nothing that `pre` sums out, and that
      nothing after it reads, multiplies the evaluation without it by its
      probability, on every path through `pre` alike. */
  lemma {:induction false} FactorOut(nodes: map<string, Node>, pre: seq<Factor>, f: Factor, post: seq<Factor>,
                                     c: map<string, string>)
    requires f.value.Some? && !f.sumOut && f.name in nodes && nodes[f.name].name == f.name
    requires f.name !in Relevant(nodes, post)
    requires NodeReads(nodes, f.name) !! HiddenNames(pre)
    requires FactorProbability(nodes, pre, f, c).Ok?
    ensures Infer(nodes, pre + [f] + post, c) == Chain(FactorProbability(nodes, pre, f, c), Infer(nodes, pre + post, c))
    decreases |pre|, if |pre| > 0 && IsHidden(pre[0]) then 1 else 0, 0
  {
    var pf := FactorProbability(nodes, pre, f, c);
    if |pre| == 0 {
      assert pre + [f] + post == [f] + post && pre + post == post;
      InferStep(nodes, f, post, c);
      InferLocal(nodes, post, c[f.name := f.value.value], c);
    } else {
      var g, rest := pre[0], pre[1..];
      assert pre + [f] + post == [g] + (rest + [f] + post);
      assert pre + post == [g] + (rest + post);
      InferStep(nodes, g, rest + [f] + post, c);
      InferStep(nodes, g, rest + post, c);
      assert HiddenNames(rest) <= HiddenNames(pre);
      if g.name in nodes {
        if g.value.None? && !g.sumOut {
          assert FactorProbability(nodes, rest, f, c) == pf;
          FactorOut(nodes, rest, f, post, c);
          ChainScale(pf.value, Probability(nodes[g.name], c), Infer(nodes, rest + post, c));
        } else if g.value.None? {
          assert FactorProbability(nodes, rest, f, c) == pf;
          FactorOutSum(nodes, g.name, nodes[g.name].randomVariables, rest, f, post, c);
        } else if !g.sumOut {
          var bound := c[g.name := g.value.value];
          assert FactorProbability(nodes, rest, f, bound) == pf;
          FactorOut(nodes, rest, f, post, bound);
          ChainScale(pf.value, Probability(nodes[g.name], bound), Infer(nodes, rest + post, bound));
        }
      }
    }
  }

  lemma {:induction false} FactorOutSum(nodes: map<string, Node>, m: string, values: seq<string>,
                                        pre: seq<Factor>, f: Factor, post: seq<Factor>, c: map<string, string>)
    requires f.value.Some? && !f.sumOut && f.name in nodes && nodes[f.name].name == f.name
    requires f.name !in Relevant(nodes, post)
    requires NodeReads(nodes, f.name) !! HiddenNames(pre) + {m}
    requires FactorProbability(nodes, pre, f, c).Ok?
    ensures SumOver(nodes, m, values, pre + [f] + post, c) ==
            Chain(FactorProbability(nodes, pre, f, c), SumOver(nodes, m, values, pre + post, c))
    decreases |pre| + 1, 0, |values|
  {
    var pf := FactorProbability(nodes, pre, f, c);
    if |values| > 0 {
      var k := Factor(m, Some(values[0]), false);
      var o1, o2 := pre + [f] + post, pre + post;
      SumOverFirst(nodes, m, values, o1, c);
      SumOverFirst(nodes, m, values, o2, c);
      SameFactorProbability(nodes, m, values[0], pre, f, c);
      assert HiddenNames([k] + pre) == HiddenNames(pre) by {
        assert ([k] + pre)[1..] == pre;
      }
      FactorOut(nodes, [k] + pre, f, post, c);
      ConsAssoc(k, pre, f, post);
      var a1, a2 := Infer(nodes, [k] + o1, c), Infer(nodes, [k] + o2, c);
      var s1, s2 := SumOver(nodes, m, values[1..], o1, c), SumOver(nodes, m, values[1..], o2, c);
      assert a1 == Chain(pf, a2);
      FactorOutSum(nodes, m, values[1..], pre, f, post, c);
      assert s1 == Chain(pf, s2);
      assert pf == Ok(pf.value);
      PlusScale(pf.value, a2, s2);
      assert SumOver(nodes, m, values, o1, c) == Plus(a1, s1);
      assert SumOver(nodes, m, values, o2, c) == Plus(a2, s2);
    } else {
      assert Chain(pf, Ok(0.0)) == Ok(0.0) by {
        assert pf.value * 0.0 == 0.0;
      }
    }
  }

  /** The first term of a sum over values. */
  lemma SumOverFirst(nodes: map<string, Node>, m: string, values: seq<string>, rest: seq<Factor>,
                     c: map<string, string>)
    requires |values| > 0
    ensures SumOver(nodes, m, values, rest, c) ==
            Plus(Infer(nodes, [Factor(m, Some(values[0]), false)] + rest, c), SumOver(nodes, m, values[1..], rest, c))
  {
  }

  /** Binding a name the node does not read leaves its probability as it
      was. */
  lemma SameFactorProbability(nodes: map<string, Node>, m: string, v: string, pre: seq<Factor>, f: Factor,
                              c: map<string, string>)
    requires f.value.Some? && f.name in nodes
    requires m !in NodeReads(nodes, f.name)
    ensures FactorProbability(nodes, [Factor(m, Some(v), false)] + pre, f, c) == FactorProbability(nodes, pre, f, c)
  {
    var k := Factor(m, Some(v), false);
    var bound := c[m := v];
    assert ([k] + pre)[1..] == pre;
    var names := NodeReads(nodes, f.name);
    assert Agree(bound, c, names);
    KnownAgree(pre, bound, c, names);
    var x := f.value.value;
    assert Agree(Known(pre, bound)[f.name := x], Known(pre, c)[f.name := x], names);
    ProbabilityLocal(nodes[f.name], Known(pre, bound)[f.name := x], Known(pre, c)[f.name := x]);
  }

  // ---------------------------------------------------------------------
  // Inserting one name into the calculation order

  lemma {:induction false} FilterConcat(a: seq<string>, b: seq<string>, purified: set<string>)
    ensures InTopologyOrder(a + b, purified) == InTopologyOrder(a, purified) + InTopologyOrder(b, purified)
  {
    if |a| > 0 {
      assert (a + b)[0] == a[0] && (a + b)[1..] == a[1..] + b;
      FilterConcat(a[1..], b, purified);
      var head := if a[0] in purified then [a[0]] else [];
      assert InTopologyOrder(a + b, purified) == head + (InTopologyOrder(a[1..], purified) + InTopologyOrder(b, purified));
      assert InTopologyOrder(a, purified) == head + InTopologyOrder(a[1..], purified);
    } else {
      assert a + b == b;
    }
  }

  lemma {:induction false} FilterIgnores(a: seq<string>, purified: set<string>, x: string)
    requires x !in a
    ensures InTopologyOrder(a, purified + {x}) == InTopologyOrder(a, purified)
  {
    if |a| > 0 {
      assert x !in a[1..];
      FilterIgnores(a[1..], purified, x);
    }
  }

  /** The factor `_decide_calculation_order` makes of one name. */
  function Tag(needed: map<string, QueryVariable>, hidden: set<string>, name: string): Factor
  {
    Factor(name, if name in needed then needed[name].value else None, name in hidden)
  }

  /** The factors of a list of names. */
  function Tags(needed: map<string, QueryVariable>, hidden: set<string>, names: seq<string>): (r: seq<Factor>)
    ensures |r| == |names| && forall i | 0 <= i < |r| :: r[i] == Tag(needed, hidden, names[i])
  {
    seq(|names|, i requires 0 <= i < |names| => Tag(needed, hidden, names[i]))
  }

  /** `_decide_calculation_order` tags the filtered names. */
  lemma DecideOrderTags(needed: map<string, QueryVariable>, purified: set<string>, hidden: set<string>,
                        topology: seq<string>)
    requires Distinct(topology)
    requires forall y | y in purified :: y in topology
    ensures DecideCalculationOrder(needed, purified, hidden, topology) ==
            Tags(needed, hidden, InTopologyOrder(topology, purified))
  {
  }

  /** Tagging with maps that agree on `a` and `b` the list with `x` inserted
      inserts the factor of `x`. */
  lemma TagsInsert(needed1: map<string, QueryVariable>, hidden1: set<string>,
                   needed2: map<string, QueryVariable>, hidden2: set<string>,
                   a: seq<string>, x: string, b: seq<string>, purified: set<string>)
    requires forall y | y in a :: y in purified
    requires forall y | y in b :: y in purified
    requires forall y | y in purified ::
               (y in needed2 <==> y in needed1) && (y in needed1 ==> needed2[y] == needed1[y]) &&
               (y in hidden2 <==> y in hidden1)
    ensures var r1 := Tags(needed1, hidden1, a + b);
            Tags(needed2, hidden2, a + [x] + b) == r1[..|a|] + [Tag(needed2, hidden2, x)] + r1[|a|..]
  {
    var r1, r2 := Tags(needed1, hidden1, a + b), Tags(needed2, hidden2, a + [x] + b);
    var pos := |a|;
    forall i | 0 <= i < pos ensures r2[i] == r1[i] {
      assert (a + [x] + b)[i] == a[i] == (a + b)[i];
    }
    forall i | pos < i < |r2| ensures r2[i] == r1[i - 1] {
      assert (a + [x] + b)[i] == b[i - pos - 1] == (a + b)[i - 1];
    }
    SeqInsert(r1, r2, pos, Tag(needed2, hidden2, x));
  }

  /** Filtering by one more name, found at position `k`, inserts it after
      the names before `k`. */
  lemma NamesInsert(purified: set<string>, topology: seq<string>, k: nat)
    requires Distinct(topology)
    requires k < |topology| && topology[k] !in purified
    ensures var a, b := InTopologyOrder(topology[..k], purified), InTopologyOrder(topology[k + 1..], purified);
            InTopologyOrder(topology, purified) == a + b &&
            InTopologyOrder(topology, purified + {topology[k]}) == a + [topology[k]] + b
  {
    var x := topology[k];
    var t1, t2 := topology[..k], topology[k + 1..];
    assert topology == t1 + [x] + t2;
    assert x !in t1 && x !in t2 by {
      forall i | 0 <= i < |t1| ensures t1[i] != x { assert t1[i] == topology[i]; }
      forall i | 0 <= i < |t2| ensures t2[i] != x { assert t2[i] == topology[k + 1 + i]; }
    }
    var p1, m := purified + {x}, t1 + [x];
    assert m + t2 == topology;
    assert InTopologyOrder([x], purified) == [] && InTopologyOrder([x], p1) == [x] by {
      assert [x][1..] == [];
    }
    var a, b := InTopologyOrder(t1, purified), InTopologyOrder(t2, purified);
    FilterConcat(t1, [x], purified);
    assert InTopologyOrder(m, purified) == a + [] == a;
    FilterConcat(m, t2, purified);
    FilterIgnores(t1, purified, x);
    FilterIgnores(t2, purified, x);
    FilterConcat(t1, [x], p1);
    assert InTopologyOrder(m, p1) == a + [x];
    FilterConcat(m, t2, p1);
  }

  /** A sequence one longer than `r1`, equal to it before `pos` and shifted
      by one after, is `r1` with one element inserted at `pos`. */
  lemma SeqInsert(r1: seq<Factor>, r2: seq<Factor>, pos: nat, t: Factor)
    requires pos <= |r1| && |r2| == |r1| + 1 && r2[pos] == t
    requires forall i | 0 <= i < pos :: r2[i] == r1[i]
    requires forall i | pos < i < |r2| :: r2[i] == r1[i - 1]
    ensures r2 == r1[..pos] + [t] + r1[pos..]
  {
  }

  /** Adding `x`, found at position `k` of the topology, to the purified
      names inserts its factor after the factors of the names before `k`
      and leaves every other factor as it was, when the two needed maps
      and hidden sets agree on the other names. */
  lemma OrderInsert(needed1: map<string, QueryVariable>, hidden1: set<string>,
                    needed2: map<string, QueryVariable>, hidden2: set<string>,
                    purified: set<string>, topology: seq<string>, k: nat)
    requires Distinct(topology)
    requires forall y | y in purified :: y in topology
    requires k < |topology| && topology[k] !in purified
    requires forall y | y in purified ::
               (y in needed2 <==> y in needed1) && (y in needed1 ==> needed2[y] == needed1[y]) &&
               (y in hidden2 <==> y in hidden1)
    ensures var r1 := DecideCalculationOrder(needed1, purified, hidden1, topology);
            var pos := |InTopologyOrder(topology[..k], purified)|;
            pos <= |r1| &&
            DecideCalculationOrder(needed2, purified + {topology[k]}, hidden2, topology) ==
              r1[..pos] + [Tag(needed2, hidden2, topology[k])] + r1[pos..]
  {
    var x := topology[k];
    NamesInsert(purified, topology, k);
    var a, b := InTopologyOrder(topology[..k], purified), InTopologyOrder(topology[k + 1..], purified);
    InTopologyOrderMembers(topology, purified);
    DecideOrderTags(needed1, purified, hidden1, topology);
    DecideOrderTags(needed2, purified + {x}, hidden2, topology);
    assert forall y | y in a :: y in purified;
    assert forall y | y in b :: y in purified;
    TagsInsert(needed1, hidden1, needed2, hidden2, a, x, b, purified);
  }

  // ---------------------------------------------------------------------
  // Facts about the order the theorem needs

  /** Every node's predecessors, other than itself, come before it in the
      topology. */
  predicate ParentsFirst(nodes: map<string, Node>, topology: seq<string>)
  {
    forall i, j | 0 <= i < |topology| && 0 <= j < |topology| && topology[i] in nodes &&
                  topology[j] in nodes[topology[i]].predecessors && topology[j] != topology[i] :: j < i
  }

  /** A name that no factor has and no factor's node reads is not relevant. */
  lemma {:induction false} NotRelevant(nodes: map<string, Node>, order: seq<Factor>, x: string)
    requires forall i | 0 <= i < |order| :: order[i].name != x && x !in NodeReads(nodes, order[i].name)
    ensures x !in Relevant(nodes, order)
  {
    if |order| > 0 {
      NotRelevant(nodes, order[1..], x);
    }
  }

  /** The names an order sums out are names of its hidden factors. */
  lemma {:induction false} HiddenNamesIn(order: seq<Factor>)
    ensures forall y | y in HiddenNames(order) :: exists i | 0 <= i < |order| :: order[i].name == y && order[i].sumOut
  {
    if |order| > 0 {
      HiddenNamesIn(order[1..]);
      forall y | y in HiddenNames(order)
        ensures exists i | 0 <= i < |order| :: order[i].name == y && order[i].sumOut
      {
        if y !in HiddenNames(order[1..]) {
          assert order[0].name == y && order[0].sumOut;
        } else {
          var i :| 0 <= i < |order[1..]| && order[1..][i].name == y && order[1..][i].sumOut;
          assert order[i + 1].name == y;
        }
      }
    }
  }

  /** A name no factor has keeps its value. */
  lemma {:induction false} KnownKeeps(order: seq<Factor>, c: map<string, string>, n: string)
    requires forall i | 0 <= i < |order| :: order[i].name != n
    requires n in c
    ensures n in Known(order, c) && Known(order, c)[n] == c[n]
  {
    if |order| > 0 {
      assert order[0].name != n;
      var f := order[0];
      if f.value.Some? && !f.sumOut {
        KnownKeeps(order[1..], c[f.name := f.value.value], n);
      } else {
        KnownKeeps(order[1..], c, n);
      }
    }
  }

  /** A known factor whose name no later factor has leaves its value bound. */
  lemma {:induction false} KnownLookup(order: seq<Factor>, c: map<string, string>, i: nat)
    requires i < |order| && order[i].value.Some? && !order[i].sumOut
    requires forall j | i < j < |order| :: order[j].name != order[i].name
    ensures order[i].name in Known(order, c) && Known(order, c)[order[i].name] == order[i].value.value
  {
    var f := order[0];
    var c1 := if f.value.Some? && !f.sumOut then c[f.name := f.value.value] else c;
    assert Known(order, c) == Known(order[1..], c1);
    if i == 0 {
      forall j | 0 <= j < |order[1..]| ensures order[1..][j].name != f.name {
        assert order[1..][j] == order[j + 1];
      }
      KnownKeeps(order[1..], c1, f.name);
    } else {
      assert order[1..][i - 1] == order[i];
      forall j | i - 1 < j < |order[1..]| ensures order[1..][j].name != order[i].name {
        assert order[1..][j] == order[j + 1];
      }
      KnownLookup(order[1..], c1, i - 1);
    }
  }

  /** Adding a name whose predecessors are all seeds adds just that name to
      the ancestors. */
  lemma AncestorsAddChild(nodes: map<string, Node>, seeds: set<string>, x: string)
    requires x in nodes && forall p | p in nodes[x].predecessors :: p in seeds
    ensures Ancestors(nodes, seeds + {x}) == Ancestors(nodes, seeds) + {x}
  {
    var A, B := Ancestors(nodes, seeds), Ancestors(nodes, seeds + {x});
    AncestorsLeast(nodes, seeds, A + {x});
    AncestorsLeast(nodes, seeds + {x}, A + {x});
    AncestorsLeast(nodes, seeds, B);
    AncestorsLeast(nodes, seeds + {x}, B);
  }

  /** The (name, value) context of the evidence: `P`'s conditioning event. */
  function EvidenceContext(vs: seq<QueryVariable>): (r: map<string, string>)
    ensures forall k | k in r :: k in NeededMap(vs) && NeededMap(vs)[k].value == Some(r[k])
    ensures forall k | k in NeededMap(vs) && NeededMap(vs)[k].value.Some? :: k in r
  {
    var m := NeededMap(vs);
    map k | k in m && m[k].value.Some? :: m[k].value.value
  }

  /** Filtering a list without repetitions keeps it without repetitions. */
  lemma {:induction false} FilterDistinct(topology: seq<string>, purified: set<string>)
    requires Distinct(topology)
    ensures Distinct(InTopologyOrder(topology, purified))
  {
    if |topology| > 0 {
      var tail := topology[1..];
      assert Distinct(tail);
      FilterDistinct(tail, purified);
      InTopologyOrderMembers(tail, purified);
      assert topology[0] !in tail;
    }
  }

  lemma NamesCons(q: QueryVariable, es: seq<QueryVariable>)
    ensures Names([q] + es) == {q.name} + Names(es)
  {
    var vs := [q] + es;
    assert vs[0] == q;
    forall y | y in Names(es) ensures y in Names(vs) {
      var i :| 0 <= i < |es| && es[i].name == y;
      assert vs[i + 1] == es[i];
    }
    forall y | y in Names(vs) ensures y in {q.name} + Names(es) {
      var i :| 0 <= i < |vs| && vs[i].name == y;
      if i > 0 {
        assert vs[i] == es[i - 1];
      }
    }
  }

  /** Evidence variables carry values and name nodes: what the parser
      guarantees of them against the network's symbols. */
  predicate ValuedNodes(nodes: map<string, Node>, vs: seq<QueryVariable>)
  {
    forall i | 0 <= i < |vs| :: vs[i].value.Some? && vs[i].name in nodes
  }

  /** The joint probability of valued variables: their ancestors must all be
      nodes, and then it is the single probability of their order. */
  lemma JointOfValued(nodes: map<string, Node>, vs: seq<QueryVariable>, topology: seq<string>)
    requires Distinct(topology) && forall x | x in nodes :: x in topology
    requires ValuedNodes(nodes, vs)
    ensures Joint(nodes, vs, topology).Ok? ==> Ancestors(nodes, Names(vs)) <= nodes.Keys
    ensures Ancestors(nodes, Names(vs)) <= nodes.Keys ==>
              Joint(nodes, vs, topology) ==
                match Infer(nodes, OrderFor(vs, topology, Ancestors(nodes, Names(vs))), map[])
                case Err(e) => Err(e)
                case Ok(p) => Ok(Single(p))
  {
    var keys := NeededMap(vs).Keys;
    assert Seeds(keys, topology) == Names(vs) by {
      forall y | y in Names(vs) ensures y in topology {
        var i :| 0 <= i < |vs| && vs[i].name == y;
      }
    }
    EliminateSound(nodes, keys, topology);
    QueryNamesOfValued(vs);
  }

  lemma DistinctTail(q: QueryVariable, es: seq<QueryVariable>)
    requires DistinctNames([q] + es)
    ensures DistinctNames(es) && q.name !in Names(es)
  {
    var vs := [q] + es;
    forall i, j | 0 <= i < j < |es| ensures es[i].name != es[j].name {
      assert vs[i + 1] == es[i] && vs[j + 1] == es[j];
    }
    forall i | 0 <= i < |es| ensures es[i].name != q.name {
      assert vs[i + 1] == es[i] && vs[0] == q;
    }
  }

  /** With distinct names, the needed map of `[q] + es` holds `q` and
      agrees with that of `es` elsewhere. */
  lemma NeededCons(q: QueryVariable, es: seq<QueryVariable>)
    requires DistinctNames([q] + es)
    ensures DistinctNames(es)
    ensures NeededMap([q] + es).Keys == NeededMap(es).Keys + {q.name} && q.name !in NeededMap(es)
    ensures NeededMap([q] + es)[q.name] == q
    ensures forall y | y in NeededMap(es) :: NeededMap([q] + es)[y] == NeededMap(es)[y]
  {
    NamesCons(q, es);
    DistinctTail(q, es);
    NeededConsHead(q, es);
    NeededConsRest(q, es);
  }

  lemma NeededConsHead(q: QueryVariable, es: seq<QueryVariable>)
    requires DistinctNames([q] + es)
    ensures q.name in NeededMap([q] + es) && NeededMap([q] + es)[q.name] == q
  {
    var vs := [q] + es;
    NeededMapDistinct(vs);
    assert vs[0] == q;
  }

  lemma NeededConsRest(q: QueryVariable, es: seq<QueryVariable>)
    requires DistinctNames([q] + es) && DistinctNames(es)
    ensures forall y | y in NeededMap(es) :: y in NeededMap([q] + es) && NeededMap([q] + es)[y] == NeededMap(es)[y]
  {
    var vs := [q] + es;
    NeededMapDistinct(vs);
    NeededMapDistinct(es);
    var m1, m2 := NeededMap(es), NeededMap(vs);
    assert forall i | 0 <= i < |es| :: vs[i + 1] == es[i];
    forall y | y in m1 ensures y in m2 && m2[y] == m1[y] {
      var i :| 0 <= i < |es| && es[i].name == y;
      assert m2[vs[i + 1].name] == vs[i + 1];
    }
  }

  /** With distinct names, a valued variable in front of the evidence adds
      its own binding to the evidence context. */
  lemma ContextCons(q: QueryVariable, es: seq<QueryVariable>)
    requires q.value.Some? && DistinctNames([q] + es)
    ensures EvidenceContext([q] + es) == EvidenceContext(es)[q.name := q.value.value]
  {
    ContextConsHead(q, es);
    ContextConsKept(q, es);
    ContextConsOnly(q, es);
    UpdateFrom(EvidenceContext(es), EvidenceContext([q] + es), q.name, q.value.value);
  }

  /** A map that holds everything of `m`, binds `k` to `v` and nothing else
      is `m` updated at `k`. */
  lemma UpdateFrom(m: map<string, string>, m': map<string, string>, k: string, v: string)
    requires k in m' && m'[k] == v
    requires forall y | y in m :: y in m' && m'[y] == m[y]
    requires forall y | y in m' :: y == k || y in m
    ensures m' == m[k := v]
  {
    assert m'.Keys == m[k := v].Keys;
  }

  lemma ContextConsHead(q: QueryVariable, es: seq<QueryVariable>)
    requires q.value.Some? && DistinctNames([q] + es)
    ensures q.name in EvidenceContext([q] + es) && EvidenceContext([q] + es)[q.name] == q.value.value
  {
    NeededConsHead(q, es);
  }

  lemma ContextConsKept(q: QueryVariable, es: seq<QueryVariable>)
    requires DistinctNames([q] + es)
    ensures forall k | k in EvidenceContext(es) ::
              k in EvidenceContext([q] + es) && EvidenceContext([q] + es)[k] == EvidenceContext(es)[k]
  {
    NeededCons(q, es);
  }

  lemma ContextConsOnly(q: QueryVariable, es: seq<QueryVariable>)
    requires DistinctNames([q] + es)
    ensures forall k | k in EvidenceContext([q] + es) :: k == q.name || k in EvidenceContext(es)
  {
    NeededCons(q, es);
  }

  /** The order for `[q] + es` is the order for `es` with the known factor
      of `q` inserted after the names that come before `q` in the topology. */
  lemma QueryOrder(nodes: map<string, Node>, q: QueryVariable, es: seq<QueryVariable>, topology: seq<string>)
    requires Distinct(topology) && forall x | x in nodes :: x in topology
    requires q.name in nodes && q.value.Some? && ValuedNodes(nodes, es)
    requires DistinctNames([q] + es)
    requires q.name !in Ancestors(nodes, Names(es)) && Ancestors(nodes, Names(es)) <= nodes.Keys
    ensures var A, k := Ancestors(nodes, Names(es)), IndexOf(topology, q.name);
            var o1, pos := OrderFor(es, topology, A), |InTopologyOrder(topology[..k], A)|;
            pos <= |o1| &&
            OrderFor([q] + es, topology, A + {q.name}) == o1[..pos] + [Factor(q.name, q.value, false)] + o1[pos..]
  {
    var A, k, x := Ancestors(nodes, Names(es)), IndexOf(topology, q.name), q.name;
    NeededCons(q, es);
    var needed1, needed2 := NeededMap(es), NeededMap([q] + es);
    var hidden1, hidden2 := A - needed1.Keys, (A + {x}) - needed2.Keys;
    assert forall y | y in A :: y in topology;
    OrderInsert(needed1, hidden1, needed2, hidden2, A, topology, k);
    assert Tag(needed2, hidden2, x) == Factor(x, q.value, false);
  }

  /** The order for `[q] + es` evaluates to `q`'s probability in the
      evidence context times the order for `es`. */
  lemma QueryFactorOut(nodes: map<string, Node>, q: QueryVariable, es: seq<QueryVariable>, topology: seq<string>)
    requires Distinct(topology) && forall x | x in nodes :: x in topology
    requires Named(nodes) && ParentsFirst(nodes, topology)
    requires q.name in nodes && q.value.Some? && ValuedNodes(nodes, es)
    requires DistinctNames([q] + es)
    requires forall p | p in nodes[q.name].predecessors :: p in Names(es)
    requires q.name !in Ancestors(nodes, Names(es)) && Ancestors(nodes, Names(es)) <= nodes.Keys
    requires Probability(nodes[q.name], EvidenceContext(es)[q.name := q.value.value]).Ok?
    ensures var A := Ancestors(nodes, Names(es));
            Infer(nodes, OrderFor([q] + es, topology, A + {q.name}), map[]) ==
            Chain(Probability(nodes[q.name], EvidenceContext(es)[q.name := q.value.value]),
                  Infer(nodes, OrderFor(es, topology, A), map[]))
  {
    var A, k, x := Ancestors(nodes, Names(es)), IndexOf(topology, q.name), q.name;
    var o1, pos := OrderFor(es, topology, A), |InTopologyOrder(topology[..k], A)|;
    QueryOrder(nodes, q, es, topology);
    QueryPremises(nodes, q, es, topology);
    ProbabilityLocal(nodes[x], Known(o1[..pos], map[])[x := q.value.value], EvidenceContext(es)[x := q.value.value]);
    FactorOut(nodes, o1[..pos], Factor(x, q.value, false), o1[pos..], map[]);
    SplitJoin(o1, pos);
  }

  lemma SplitJoin(order: seq<Factor>, pos: nat)
    requires pos <= |order|
    ensures order[..pos] + order[pos..] == order
  {
  }

  /** Around the position of `q`, the order of the evidence alone meets what
      factoring `q` out needs: nothing after it reads `q`, nothing before it
      sums out what `q` reads, and what comes before binds `q`'s parents to
      their evidence values. */
  lemma QueryPremises(nodes: map<string, Node>, q: QueryVariable, es: seq<QueryVariable>, topology: seq<string>)
    requires Distinct(topology) && forall x | x in nodes :: x in topology
    requires Named(nodes) && ParentsFirst(nodes, topology)
    requires q.name in nodes && q.value.Some? && ValuedNodes(nodes, es)
    requires DistinctNames([q] + es)
    requires forall p | p in nodes[q.name].predecessors :: p in Names(es)
    requires q.name !in Ancestors(nodes, Names(es)) && Ancestors(nodes, Names(es)) <= nodes.Keys
    ensures var A, k, x := Ancestors(nodes, Names(es)), IndexOf(topology, q.name), q.name;
            var o1, pos := OrderFor(es, topology, A), |InTopologyOrder(topology[..k], A)|;
            pos <= |o1| && x !in Relevant(nodes, o1[pos..]) && NodeReads(nodes, x) !! HiddenNames(o1[..pos]) &&
            Agree(Known(o1[..pos], map[])[x := q.value.value], EvidenceContext(es)[x := q.value.value],
                  NodeReads(nodes, x))
  {
    var A, k, x := Ancestors(nodes, Names(es)), IndexOf(topology, q.name), q.name;
    NeededCons(q, es);
    var needed1 := NeededMap(es);
    var hidden1 := A - needed1.Keys;
    var o1, pos := OrderFor(es, topology, A), |InTopologyOrder(topology[..k], A)|;
    AncestorsLeast(nodes, Names(es), A);
    assert forall y | y in A :: y in topology;
    OrderNamesIn(needed1, A, hidden1, topology);
    PreTags(es, topology, A, k);
    PostIgnores(nodes, A, x, o1, pos);
    ReadsVisible(nodes, x, needed1.Keys, hidden1);
    PreHidden(nodes, x, o1, pos, hidden1);
    QueryParentsBound(nodes, q, es, topology, A, k, o1[..pos]);
  }

  /** Every factor of the order names a purified name and is summed out
      exactly when the name is hidden. */
  lemma OrderNamesIn(needed: map<string, QueryVariable>, purified: set<string>, hidden: set<string>,
                     topology: seq<string>)
    requires Distinct(topology) && forall y | y in purified :: y in topology
    ensures var r := DecideCalculationOrder(needed, purified, hidden, topology);
            forall j | 0 <= j < |r| :: r[j].name in purified && r[j].sumOut == (r[j].name in hidden)
  {
    DecideOrderTags(needed, purified, hidden, topology);
    InTopologyOrderMembers(topology, purified);
  }

  /** No factor over a predecessor-closed set of nodes reads a name outside
      it. */
  lemma PostIgnores(nodes: map<string, Node>, A: set<string>, x: string, order: seq<Factor>, pos: nat)
    requires Named(nodes) && A <= nodes.Keys && ParentClosed(nodes, A) && x !in A
    requires pos <= |order| && forall j | 0 <= j < |order| :: order[j].name in A
    ensures x !in Relevant(nodes, order[pos..])
  {
    var post := order[pos..];
    forall i | 0 <= i < |post| ensures post[i].name != x && x !in NodeReads(nodes, post[i].name) {
      var y := order[pos + i].name;
      assert post[i].name == y && y in A;
      assert NodeReads(nodes, y) == (set p | p in nodes[y].predecessors) + {y};
    }
    NotRelevant(nodes, post, x);
  }

  /** A node whose parents are all outside the hidden names, and which is
      not hidden itself, reads no hidden name. */
  lemma ReadsVisible(nodes: map<string, Node>, x: string, names: set<string>, hidden: set<string>)
    requires x in nodes && nodes[x].name == x && x !in hidden && names !! hidden
    requires forall p | p in nodes[x].predecessors :: p in names
    ensures forall y | y in NodeReads(nodes, x) :: y !in hidden
  {
    assert NodeReads(nodes, x) == (set p | p in nodes[x].predecessors) + {x};
  }

  /** An order that sums out only hidden names sums out nothing the node
      reads, when it reads no hidden name. */
  lemma PreHidden(nodes: map<string, Node>, x: string, order: seq<Factor>, pos: nat, hidden: set<string>)
    requires pos <= |order| && forall j | 0 <= j < |order| :: order[j].sumOut ==> order[j].name in hidden
    requires forall y | y in NodeReads(nodes, x) :: y !in hidden
    ensures NodeReads(nodes, x) !! HiddenNames(order[..pos])
  {
    var pre := order[..pos];
    HiddenNamesIn(pre);
    forall y | y in HiddenNames(pre) ensures y in hidden {
      var i :| 0 <= i < |pre| && pre[i].name == y && pre[i].sumOut;
      assert order[i] == pre[i];
    }
  }

  /** The factors before position `k` of the topology are the tags of the
      purified names before `k`. */
  lemma PreTags(es: seq<QueryVariable>, topology: seq<string>, A: set<string>, k: nat)
    requires Distinct(topology) && forall y | y in A :: y in topology
    requires k < |topology| && topology[k] !in A
    ensures var needed, a := NeededMap(es), InTopologyOrder(topology[..k], A);
            |a| <= |OrderFor(es, topology, A)| &&
            OrderFor(es, topology, A)[..|a|] == Tags(needed, A - needed.Keys, a)
  {
    var needed := NeededMap(es);
    var a, b := InTopologyOrder(topology[..k], A), InTopologyOrder(topology[k + 1..], A);
    NamesInsert(A, topology, k);
    DecideOrderTags(needed, A, A - needed.Keys, topology);
    TagsPrefix(needed, A - needed.Keys, a, b);
  }

  lemma TagsPrefix(needed: map<string, QueryVariable>, hidden: set<string>, a: seq<string>, b: seq<string>)
    ensures Tags(needed, hidden, a + b)[..|a|] == Tags(needed, hidden, a)
  {
    var l, r := Tags(needed, hidden, a + b)[..|a|], Tags(needed, hidden, a);
    forall i | 0 <= i < |a| ensures l[i] == r[i] {
      assert (a + b)[i] == a[i];
    }
  }

  /** Every parent of `q` is bound, before `q`, to its evidence value. */
  lemma QueryParentsBound(nodes: map<string, Node>, q: QueryVariable, es: seq<QueryVariable>, topology: seq<string>,
                          A: set<string>, k: nat, pre: seq<Factor>)
    requires Distinct(topology) && forall x | x in nodes :: x in topology
    requires ParentsFirst(nodes, topology)
    requires k < |topology| && topology[k] == q.name && q.name in nodes && q.value.Some?
    requires nodes[q.name].name == q.name
    requires ValuedNodes(nodes, es) && DistinctNames(es)
    requires forall p | p in nodes[q.name].predecessors :: p in Names(es)
    requires Names(es) <= A && q.name !in A
    requires pre == Tags(NeededMap(es), A - NeededMap(es).Keys, InTopologyOrder(topology[..k], A))
    ensures var v := q.value.value;
            Agree(Known(pre, map[])[q.name := v], EvidenceContext(es)[q.name := v], NodeReads(nodes, q.name))
  {
    var x, v := q.name, q.value.value;
    var ctx1, ctx2 := Known(pre, map[])[x := v], EvidenceContext(es)[x := v];
    forall p | p in nodes[x].predecessors ensures p in ctx1 && p in ctx2 && ctx1[p] == ctx2[p] {
      assert p in A;
      ParentBound(nodes, es, topology, A, k, pre, p);
    }
    AgreeOnReads(nodes, x, ctx1, ctx2);
  }

  /** Two contexts that agree on a node's name and on each of its parents
      agree on everything the node reads. */
  lemma AgreeOnReads(nodes: map<string, Node>, x: string, c1: map<string, string>, c2: map<string, string>)
    requires x in nodes && nodes[x].name == x
    requires x in c1 && x in c2 && c1[x] == c2[x]
    requires forall p | p in nodes[x].predecessors :: p in c1 && p in c2 && c1[p] == c2[p]
    ensures Agree(c1, c2, NodeReads(nodes, x))
  {
    assert NodeReads(nodes, x) == (set p | p in nodes[x].predecessors) + {x};
  }

  /** One parent of the node at position `k`, an evidence variable, is bound
      to its evidence value by the factors before `k`. */
  lemma ParentBound(nodes: map<string, Node>, es: seq<QueryVariable>, topology: seq<string>,
                    A: set<string>, k: nat, pre: seq<Factor>, p: string)
    requires Distinct(topology) && forall x | x in nodes :: x in topology
    requires ParentsFirst(nodes, topology)
    requires k < |topology| && topology[k] in nodes
    requires p in nodes[topology[k]].predecessors && p != topology[k] && p in Names(es)
    requires ValuedNodes(nodes, es) && DistinctNames(es) && Names(es) <= A
    requires pre == Tags(NeededMap(es), A - NeededMap(es).Keys, InTopologyOrder(topology[..k], A))
    ensures p in Known(pre, map[]) && p in EvidenceContext(es) && Known(pre, map[])[p] == EvidenceContext(es)[p]
  {
    var needed := NeededMap(es);
    var a := InTopologyOrder(topology[..k], A);
    var i :| 0 <= i < |es| && es[i].name == p;
    NeededMapDistinct(es);
    assert needed[p] == es[i];
    ParentBefore(nodes, topology, k, p);
    assert Distinct(topology[..k]);
    FilterDistinct(topology[..k], A);
    InTopologyOrderMembers(topology[..k], A);
    BoundBefore(pre, a, needed, A - needed.Keys, p);
  }

  /** A parent of the node at position `k` is among the names before `k`. */
  lemma ParentBefore(nodes: map<string, Node>, topology: seq<string>, k: nat, p: string)
    requires Distinct(topology) && forall x | x in nodes :: x in topology
    requires ParentsFirst(nodes, topology)
    requires k < |topology| && topology[k] in nodes
    requires p in nodes && p in nodes[topology[k]].predecessors && p != topology[k]
    ensures p in topology[..k]
  {
    var j := IndexOf(topology, p);
    assert j < k;
    assert topology[..k][j] == p;
  }

  /** In the known factors of a repetition-free list of names, a needed
      name that is not hidden is bound to its value. */
  lemma BoundBefore(pre: seq<Factor>, a: seq<string>, needed: map<string, QueryVariable>, hidden: set<string>, p: string)
    requires pre == Tags(needed, hidden, a) && Distinct(a)
    requires p in a && p in needed && p !in hidden && needed[p].value.Some?
    ensures p in Known(pre, map[]) && Known(pre, map[])[p] == needed[p].value.value
  {
    var m :| 0 <= m < |a| && a[m] == p;
    assert pre[m] == Tag(needed, hidden, p);
    forall j | m < j < |pre| ensures pre[j].name != p {
      assert pre[j] == Tag(needed, hidden, a[j]);
    }
    KnownLookup(pre, map[], m);
  }

  // ---------------------------------------------------------------------
  // The posterior of a variable whose parents are all evidence

  /** Adding a valued variable whose parents are all evidence, and that is
      not an ancestor of the evidence, multiplies the joint probability of
      the evidence by the variable's table entry. */
  lemma ParentsKnownJoint(nodes: map<string, Node>, q: QueryVariable, es: seq<QueryVariable>, topology: seq<string>,
                          p: real, d: real)
    requires Distinct(topology) && forall x | x in nodes :: x in topology
    requires Named(nodes) && ParentsFirst(nodes, topology)
    requires q.name in nodes && q.value.Some? && ValuedNodes(nodes, es)
    requires DistinctNames([q] + es)
    requires forall y | y in nodes[q.name].predecessors :: y in Names(es)
    requires q.name !in Ancestors(nodes, Names(es))
    requires Joint(nodes, es, topology) == Ok(Single(d))
    requires Probability(nodes[q.name], EvidenceContext(es)[q.name := q.value.value]) == Ok(p)
    ensures Joint(nodes, [q] + es, topology) == Ok(Single(p * d))
  {
    var A := Ancestors(nodes, Names(es));
    JointOfValuedAt(nodes, es, topology, A);
    ExtendedQuery(nodes, q, es);
    JointOfValuedAt(nodes, [q] + es, topology, A + {q.name});
    QueryFactorOut(nodes, q, es, topology);
    var i1 := Infer(nodes, OrderFor(es, topology, A), map[]);
    var i2 := Infer(nodes, OrderFor([q] + es, topology, A + {q.name}), map[]);
    SingleChain(Joint(nodes, es, topology), Joint(nodes, [q] + es, topology), p, d, i1, i2);
  }

  /** The query with one more valued node, whose parents are among the
      evidence: its names are valued nodes, and its ancestors are those of
      the evidence and the new node. */
  lemma ExtendedQuery(nodes: map<string, Node>, q: QueryVariable, es: seq<QueryVariable>)
    requires q.name in nodes && q.value.Some? && ValuedNodes(nodes, es)
    requires forall p | p in nodes[q.name].predecessors :: p in Names(es)
    ensures ValuedNodes(nodes, [q] + es)
    ensures Ancestors(nodes, Names([q] + es)) == Ancestors(nodes, Names(es)) + {q.name}
    ensures Ancestors(nodes, Names(es)) <= nodes.Keys ==> Ancestors(nodes, Names([q] + es)) <= nodes.Keys
  {
    var vs := [q] + es;
    forall i | 0 <= i < |vs| ensures vs[i].value.Some? && vs[i].name in nodes {
      if i > 0 { assert vs[i] == es[i - 1]; }
    }
    NamesCons(q, es);
    AncestorsAddChild(nodes, Names(es), q.name);
    assert Names(vs) == Names(es) + {q.name};
  }

  /** Two single answers whose evaluations differ by one factor. */
  lemma SingleChain(j1: Result<Answer>, j2: Result<Answer>, p: real, d: real, i1: Result<real>, i2: Result<real>)
    requires j1 == (match i1 case Err(e) => Err(e) case Ok(x) => Ok(Single(x)))
    requires j2 == (match i2 case Err(e) => Err(e) case Ok(x) => Ok(Single(x)))
    requires i2 == Chain(Ok(p), i1) && j1 == Ok(Single(d))
    ensures j2 == Ok(Single(p * d))
  {
    assert i1 == Ok(d);
    var c := Chain(Ok(p), Ok(d));
    assert c.Ok? && c.value == p * d;
    assert i2 == Ok(p * d);
  }

  /** `JointOfValued` with the ancestors named. */
  lemma JointOfValuedAt(nodes: map<string, Node>, vs: seq<QueryVariable>, topology: seq<string>, A: set<string>)
    requires Distinct(topology) && forall x | x in nodes :: x in topology
    requires ValuedNodes(nodes, vs) && A == Ancestors(nodes, Names(vs))
    ensures Joint(nodes, vs, topology).Ok? ==> A <= nodes.Keys
    ensures A <= nodes.Keys ==> forall y | y in A :: y in topology
    ensures A <= nodes.Keys ==>
              Joint(nodes, vs, topology) ==
                match Infer(nodes, OrderFor(vs, topology, A), map[])
                case Err(e) => Err(e)
                case Ok(p) => Ok(Single(p))
  {
    JointOfValued(nodes, vs, topology);
  }

  /** `P(X=x | E1=e1, ...)` where the evidence holds every parent of `X` and
      no evidence variable descends from `X`: the answer is `X`'s own table
      entry for those parent values, whatever else the evidence says and
      whatever the network holds besides. */
  lemma ParentsKnownPosterior(nodes: map<string, Node>, query: string, q: QueryVariable, es: seq<QueryVariable>,
                              topology: seq<string>, p: real, d: real)
    requires Distinct(topology) && forall x | x in nodes :: x in topology
    requires Named(nodes) && ParentsFirst(nodes, topology)
    requires q.name in nodes && q.value.Some?
    requires QueryParser(query, Some(SymbolContext(nodes))) == Ok(Parsed([q], es))
    requires forall y | y in nodes[q.name].predecessors :: y in Names(es)
    requires q.name !in Ancestors(nodes, Names(es))
    requires Joint(nodes, es, topology) == Ok(Single(d)) && d != 0.0
    requires Probability(nodes[q.name], EvidenceContext(es)[q.name := q.value.value]) == Ok(p)
    ensures Posterior(nodes, query, topology) == Ok(Single(p))
  {
    ParsedValued(nodes, query, q, es);
    ParentsKnownJoint(nodes, q, es, topology, p, d);
    ParentsKnownFloat(nodes, q, es, topology, d);
    PosteriorSingle(nodes, query, topology, [q], es, p * d, d);
    DivideCancel(p, d);
  }

  /** The numerator of such a query is a float: its order is that of the
      evidence with a known factor inserted, and the evidence's order does
      not open with an empty hidden sum, since its value `d` is not 0. */
  lemma ParentsKnownFloat(nodes: map<string, Node>, q: QueryVariable, es: seq<QueryVariable>,
                          topology: seq<string>, d: real)
    requires Distinct(topology) && forall x | x in nodes :: x in topology
    requires q.name in nodes && q.value.Some? && ValuedNodes(nodes, es)
    requires DistinctNames([q] + es)
    requires forall y | y in nodes[q.name].predecessors :: y in Names(es)
    requires q.name !in Ancestors(nodes, Names(es))
    requires Joint(nodes, es, topology) == Ok(Single(d)) && d != 0.0
    ensures !IntJoint(nodes, [q] + es, topology)
  {
    var A := Ancestors(nodes, Names(es));
    EvidenceFloat(nodes, es, topology, A, d);
    ExtendedQuery(nodes, q, es);
    IntJointOfValued(nodes, [q] + es, topology, A + {q.name});
    QueryOrder(nodes, q, es, topology);
    var k := IndexOf(topology, q.name);
    InsertKnownFloat(nodes, OrderFor(es, topology, A), |InTopologyOrder(topology[..k], A)|, Factor(q.name, q.value, false));
  }

  /** Valued evidence with a nonzero joint: its ancestors are nodes, and
      its order is not the int `0`. */
  lemma EvidenceFloat(nodes: map<string, Node>, es: seq<QueryVariable>, topology: seq<string>, A: set<string>,
                      d: real)
    requires Distinct(topology) && forall x | x in nodes :: x in topology
    requires ValuedNodes(nodes, es) && A == Ancestors(nodes, Names(es))
    requires Joint(nodes, es, topology) == Ok(Single(d)) && d != 0.0
    ensures A <= nodes.Keys && forall y | y in A :: y in topology
    ensures !IntZero(nodes, OrderFor(es, topology, A))
  {
    JointOfValuedAt(nodes, es, topology, A);
    NonzeroNotInt(nodes, OrderFor(es, topology, A), Joint(nodes, es, topology), d);
  }

  /** An order whose single answer is not 0 is not the int `0`. */
  lemma NonzeroNotInt(nodes: map<string, Node>, order: seq<Factor>, j: Result<Answer>, d: real)
    requires j == match Infer(nodes, order, map[]) case Err(e) => Err(e) case Ok(p) => Ok(Single(p))
    requires j == Ok(Single(d)) && d != 0.0
    ensures !IntZero(nodes, order)
  {
    if IntZero(nodes, order) {
      IntZeroValue(nodes, order, map[]);
    }
  }

  /** Inserting a factor that is not summed out into an order that is not
      the int `0` gives an order that is not the int `0`. */
  lemma InsertKnownFloat(nodes: map<string, Node>, o: seq<Factor>, pos: nat, f: Factor)
    requires pos <= |o| && !f.sumOut && !IntZero(nodes, o)
    ensures !IntZero(nodes, o[..pos] + [f] + o[pos..])
  {
    var o2 := o[..pos] + [f] + o[pos..];
    if pos > 0 {
      assert o2[0] == o[0];
    } else {
      assert o2[0] == f;
    }
  }

  /** For valued variables whose ancestors are all nodes, the joint is the
      int `0` exactly when their order is. */
  lemma IntJointOfValued(nodes: map<string, Node>, vs: seq<QueryVariable>, topology: seq<string>, A: set<string>)
    requires Distinct(topology) && forall x | x in nodes :: x in topology
    requires ValuedNodes(nodes, vs) && A == Ancestors(nodes, Names(vs)) && A <= nodes.Keys
    ensures forall y | y in A :: y in topology
    ensures IntJoint(nodes, vs, topology) == IntZero(nodes, OrderFor(vs, topology, A))
  {
    var keys := NeededMap(vs).Keys;
    assert Seeds(keys, topology) == Names(vs) by {
      forall y | y in Names(vs) ensures y in topology {
        var i :| 0 <= i < |vs| && vs[i].name == y;
      }
    }
    EliminateSound(nodes, keys, topology);
    QueryNamesOfValued(vs);
  }

  /** Conditional independence: a variable whose parents the evidence
      fixes has the same posterior under any two such evidence lists that
      agree on those parents, however else they differ, as long as neither
      holds a descendant of the variable. So `P(M | J, A, E, B)` equals
      `P(M | A)` for the value of `A` both give. */
  lemma ParentsScreenOff(nodes: map<string, Node>, topology: seq<string>, q: QueryVariable,
                         query1: string, es1: seq<QueryVariable>, d1: real,
                         query2: string, es2: seq<QueryVariable>, d2: real, p: real)
    requires Distinct(topology) && forall x | x in nodes :: x in topology
    requires Named(nodes) && ParentsFirst(nodes, topology)
    requires q.name in nodes && q.value.Some?
    requires QueryParser(query1, Some(SymbolContext(nodes))) == Ok(Parsed([q], es1))
    requires QueryParser(query2, Some(SymbolContext(nodes))) == Ok(Parsed([q], es2))
    requires forall y | y in nodes[q.name].predecessors :: y in Names(es1) && y in Names(es2)
    requires forall y | y in nodes[q.name].predecessors ::
               y in EvidenceContext(es1) && y in EvidenceContext(es2) &&
               EvidenceContext(es1)[y] == EvidenceContext(es2)[y]
    requires q.name !in Ancestors(nodes, Names(es1)) && q.name !in Ancestors(nodes, Names(es2))
    requires Joint(nodes, es1, topology) == Ok(Single(d1)) && d1 != 0.0
    requires Joint(nodes, es2, topology) == Ok(Single(d2)) && d2 != 0.0
    requires Probability(nodes[q.name], EvidenceContext(es1)[q.name := q.value.value]) == Ok(p)
    ensures Posterior(nodes, query1, topology) == Posterior(nodes, query2, topology) == Ok(Single(p))
  {
    var v := q.value.value;
    ParsedValued(nodes, query1, q, es1);
    AgreeOnReads(nodes, q.name, EvidenceContext(es1)[q.name := v], EvidenceContext(es2)[q.name := v]);
    ProbabilityLocal(nodes[q.name], EvidenceContext(es1)[q.name := v], EvidenceContext(es2)[q.name := v]);
    ParentsKnownPosterior(nodes, query1, q, es1, topology, p, d1);
    ParentsKnownPosterior(nodes, query2, q, es2, topology, p, d2);
  }

  /** A query parsed against the network's symbols names nodes only, each
      once, and its evidence variables all carry values. */
  lemma ParsedValued(nodes: map<string, Node>, query: string, q: QueryVariable, es: seq<QueryVariable>)
    requires QueryParser(query, Some(SymbolContext(nodes))) == Ok(Parsed([q], es))
    ensures q.name in nodes && ValuedNodes(nodes, es) && DistinctNames([q] + es)
  {
    var symbols := SymbolContext(nodes);
    assert AllInContext([q], symbols) && AllInContext(es, symbols);
    assert InContext([q][0], symbols);
    forall i | 0 <= i < |es| ensures es[i].value.Some? && es[i].name in nodes {
      assert InContext(es[i], symbols);
    }
  }

  /** `P` on a parsed query whose two joint probabilities are single
      numbers: their quotient, unless the numerator is the int `0`, whose
      missing `.items()` raises `AttributeError`. */
  lemma PosteriorSingle(nodes: map<string, Node>, query: string, topology: seq<string>,
                        qs: seq<QueryVariable>, es: seq<QueryVariable>, n: real, d: real)
    requires Distinct(topology) && forall x | x in nodes :: x in topology
    requires QueryParser(query, Some(SymbolContext(nodes))) == Ok(Parsed(qs, es))
    requires Joint(nodes, qs + es, topology) == Ok(Single(n))
    requires Joint(nodes, es, topology) == Ok(Single(d))
    ensures Posterior(nodes, query, topology) ==
              if IntJoint(nodes, qs + es, topology) then Err(AttributeError) else Divide(Single(n), d)
  {
  }

  /** Dividing by the denominator undoes multiplying by it. */
  lemma DivideCancel(a: real, d: real)
    requires d != 0.0
    ensures Divide(Single(a * d), d) == Ok(Single(a))
  {
    assert a * d / d == a;
  }
}
