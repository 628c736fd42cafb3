/** Two answers of the inference tests on the burglary-alarm network, and
    the alarm's marginal, read off the conditioning theorems and the
    evaluation of calculation orders: the alarm's posterior given both of
    its causes is its own table entry, Mary's call given the alarm is
    screened off from the other three variables, and the alarm's marginal
    sums both causes out. */
module AlarmExample {
  import opened Common
  import opened NetworkNode
  import opened Query
  import opened Inference
  import opened Conditioning
  import opened EvaluationSteps
  import opened AlarmNetwork

  /** Well-chosen labels and a network of the alarm network's shape. */
  predicate Shaped(L: Labels, nodes: map<string, Node>)
  {
    WellChosen(L) && AlarmShaped(L, nodes)
  }

  /** A network with the alarm network's names, parents and tables. */
  ghost predicate IsAlarm(L: Labels, nodes: map<string, Node>)
  {
    WellChosen(L) && AlarmShaped(L, nodes) && AlarmTables(L, nodes)
  }

  // ---------------------------------------------------------------------
  // The network's shape

  /** `Topology` lists every node once with parents first, and every node
      is stored under its name. */
  lemma AlarmShape(L: Labels, nodes: map<string, Node>)
    requires Shaped(L, nodes)
    ensures Distinct(Topology(L)) && forall x | x in nodes :: x in Topology(L)
    ensures Named(nodes) && ParentsFirst(nodes, Topology(L))
  {
    AlarmParentsFirst(L, nodes);
  }

  lemma AlarmParentsFirst(L: Labels, nodes: map<string, Node>)
    requires Shaped(L, nodes)
    ensures ParentsFirst(nodes, Topology(L))
  {
    var T := Topology(L);
    forall i, j | 0 <= i < |T| && 0 <= j < |T| && T[i] in nodes &&
                  T[j] in nodes[T[i]].predecessors && T[j] != T[i]
      ensures j < i
    {
      if i == 2 {
        assert T[j] == L.b || T[j] == L.e;
      } else if i >= 3 {
        assert T[j] == L.a;
      }
    }
  }

  /** A set of names that holds the predecessors of each of its nodes holds
      all the ancestors of its subsets. */
  lemma AncestorsWithin(nodes: map<string, Node>, seeds: set<string>, closed: set<string>)
    requires seeds <= closed && ParentClosed(nodes, closed)
    ensures Ancestors(nodes, seeds) <= closed
  {
    AncestorsLeast(nodes, seeds, closed);
  }

  /** An evidence term assigned a value. */
  function Valued(name: string, value: string): QueryVariable
  {
    QueryVariable(name, Some(value))
  }

  /** Distinct evidence names each find their own value in the context. */
  lemma EvidenceAt(es: seq<QueryVariable>, i: nat)
    requires DistinctNames(es) && i < |es| && es[i].value.Some?
    ensures es[i].name in EvidenceContext(es) && EvidenceContext(es)[es[i].name] == es[i].value.value
  {
    NeededMapDistinct(es);
  }

  // ---------------------------------------------------------------------
  // Joint probabilities of evidence

  /** The joint probability of no variables is 1. */
  lemma JointEmpty(L: Labels, nodes: map<string, Node>)
    requires Shaped(L, nodes)
    ensures Joint(nodes, [], Topology(L)) == Ok(Single(1.0))
  {
    AlarmShape(L, nodes);
    assert Names([]) == {};
    AncestorsWithin(nodes, {}, {});
    JointOfValuedAt(nodes, [], Topology(L), {});
    var order := OrderFor([], Topology(L), {});
    if |order| > 0 {
      assert false;
    }
  }

  /** One more valued node whose parents are all in the evidence and that
      is outside a predecessor-closed set holding the evidence multiplies
      the joint probability by its table entry. */
  lemma Extend(L: Labels, nodes: map<string, Node>, q: QueryVariable, es: seq<QueryVariable>,
               closed: set<string>, p: real, d: real)
    requires Shaped(L, nodes) && Grows(nodes, q, es, closed)
    requires Joint(nodes, es, Topology(L)) == Ok(Single(d))
    requires Probability(nodes[q.name], EvidenceContext(es)[q.name := q.value.value]) == Ok(p)
    ensures Joint(nodes, [q] + es, Topology(L)) == Ok(Single(p * d))
  {
    AlarmShape(L, nodes);
    AncestorsWithin(nodes, Names(es), closed);
    ParentsKnownJoint(nodes, q, es, Topology(L), p, d);
  }

  /** `q` is a valued node outside the evidence whose parents are all
      evidence, and the evidence lies in a predecessor-closed set without
      `q`. */
  predicate Grows(nodes: map<string, Node>, q: QueryVariable, es: seq<QueryVariable>, closed: set<string>)
  {
    q.name in nodes && q.value.Some? && ValuedNodes(nodes, es) && DistinctNames([q] + es) &&
    (forall y | y in nodes[q.name].predecessors :: y in Names(es)) &&
    Names(es) <= closed && ParentClosed(nodes, closed) && q.name !in closed
  }

  lemma NamesOf2(u: QueryVariable, v: QueryVariable)
    ensures Names([u, v]) == {u.name, v.name}
  {
    var vs := [u, v];
    assert vs[0] == u && vs[1] == v;
  }

  /** Each node's entry in a context that values its parents and itself. */
  lemma BurglaryAt(L: Labels, nodes: map<string, Node>, c: map<string, string>, x: string)
    requires IsAlarm(L, nodes) && IsValue(L, x)
    requires L.b in c && c[L.b] == x
    ensures Probability(nodes[L.b], c) == Ok(BurglaryEntry(L, x))
  {
  }

  lemma EarthquakeAt(L: Labels, nodes: map<string, Node>, c: map<string, string>, y: string)
    requires IsAlarm(L, nodes) && IsValue(L, y)
    requires L.e in c && c[L.e] == y
    ensures Probability(nodes[L.e], c) == Ok(EarthquakeEntry(L, y))
  {
  }

  lemma AlarmAt(L: Labels, nodes: map<string, Node>, c: map<string, string>, x: string, y: string, z: string)
    requires IsAlarm(L, nodes) && IsValue(L, x) && IsValue(L, y) && IsValue(L, z)
    requires L.b in c && L.e in c && L.a in c && c[L.b] == x && c[L.e] == y && c[L.a] == z
    ensures Probability(nodes[L.a], c) == Ok(AlarmEntry(L, x, y, z))
  {
  }

  lemma JohnAt(L: Labels, nodes: map<string, Node>, c: map<string, string>, x: string, y: string)
    requires IsAlarm(L, nodes) && IsValue(L, x) && IsValue(L, y)
    requires L.a in c && L.j in c && c[L.a] == x && c[L.j] == y
    ensures Probability(nodes[L.j], c) == Ok(JohnEntry(L, x, y))
  {
  }

  lemma MaryAt(L: Labels, nodes: map<string, Node>, c: map<string, string>, x: string, y: string)
    requires IsAlarm(L, nodes) && IsValue(L, x) && IsValue(L, y)
    requires L.a in c && L.m in c && c[L.a] == x && c[L.m] == y
    ensures Probability(nodes[L.m], c) == Ok(MaryEntry(L, x, y))
  {
  }

  /** The evidence context of valued terms with distinct names binds each
      name to its value. */
  lemma ContextOf2(u: QueryVariable, v: QueryVariable)
    requires u.value.Some? && v.value.Some? && u.name != v.name
    ensures EvidenceContext([u, v]) == map[u.name := u.value.value, v.name := v.value.value]
  {
    var es := [u, v];
    EvidenceAt(es, 0);
    EvidenceAt(es, 1);
  }

  /** `P(Burglary = x, Earthquake = y)`: the burglary's entry times the
      earthquake's joint probability. */
  lemma CausesJointFrom(L: Labels, nodes: map<string, Node>, x: string, y: string, p: real, d: real)
    requires Shaped(L, nodes)
    requires Joint(nodes, [Valued(L.e, y)], Topology(L)) == Ok(Single(d))
    requires Probability(nodes[L.b], map[L.e := y][L.b := x]) == Ok(p)
    ensures Joint(nodes, [Valued(L.b, x), Valued(L.e, y)], Topology(L)) == Ok(Single(p * d))
  {
    RootGrows(L, nodes, L.b, x, L.e, y);
    Extend(L, nodes, Valued(L.b, x), [Valued(L.e, y)], {L.e}, p, d);
  }

  /** The shape facts of adding one cause to the other. */
  lemma RootGrows(L: Labels, nodes: map<string, Node>, r: string, x: string, s: string, y: string)
    requires Shaped(L, nodes) && ((r == L.b && s == L.e) || (r == L.e && s == L.b))
    ensures var qr, qs := Valued(r, x), Valued(s, y);
            Grows(nodes, qr, [qs], {s}) && [qr] + [qs] == [qr, qs] && EvidenceContext([qs]) == map[s := y]
  {
    var qr, qs := Valued(r, x), Valued(s, y);
    assert [qs][0] == qs;
    assert Names([qs]) == {s};
    EvidenceAt([qs], 0);
    assert [qr] + [qs] == [qr, qs];
  }

  /** `P(R = y)` for a cause `R`, the burglary or the earthquake. */
  lemma RootAlone(L: Labels, nodes: map<string, Node>, r: string, y: string, pr: real)
    requires Shaped(L, nodes) && (r == L.b || r == L.e)
    requires Probability(nodes[r], map[r := y]) == Ok(pr)
    ensures Joint(nodes, [Valued(r, y)], Topology(L)) == Ok(Single(pr))
  {
    var qr := Valued(r, y);
    JointEmpty(L, nodes);
    assert Names([]) == {};
    assert EvidenceContext([]) == map[];
    assert [qr] + [] == [qr];
    Extend(L, nodes, qr, [], {}, pr, 1.0);
  }

  // ---------------------------------------------------------------------
  // The alarm given both causes

  /** `P(Alarm = z | Burglary = x, Earthquake = y)` is the alarm's table
      entry for its two causes, `0.95` for all three true and `0.999` for
      all three false. */
  lemma AlarmGivenCauses(L: Labels, nodes: map<string, Node>, x: string, y: string, z: string)
    requires IsAlarm(L, nodes) && IsValue(L, x) && IsValue(L, y) && IsValue(L, z)
    ensures Posterior(nodes, Render([Valued(L.a, z)], [Valued(L.b, x), Valued(L.e, y)]), Topology(L)) ==
              Ok(Single(AlarmEntry(L, x, y, z)))
    ensures x == y == z == L.t ==> AlarmEntry(L, x, y, z) == 0.95
    ensures x == y == z == L.f ==> AlarmEntry(L, x, y, z) == 0.999
  {
    var pb, pe := BurglaryEntry(L, x), EarthquakeEntry(L, y);
    CauseEntries(L, nodes, x, y, z);
    ProductPositive(pb, pe);
    RootAlone(L, nodes, L.e, y, pe);
    CausesJointFrom(L, nodes, x, y, pb, pe);
    GivenCausesPosterior(L, nodes, x, y, z, AlarmEntry(L, x, y, z), pb * pe);
  }

  /** The three entries the posterior reads. */
  lemma CauseEntries(L: Labels, nodes: map<string, Node>, x: string, y: string, z: string)
    requires IsAlarm(L, nodes) && IsValue(L, x) && IsValue(L, y) && IsValue(L, z)
    ensures Probability(nodes[L.e], map[L.e := y]) == Ok(EarthquakeEntry(L, y))
    ensures Probability(nodes[L.b], map[L.e := y][L.b := x]) == Ok(BurglaryEntry(L, x))
    ensures Probability(nodes[L.a], map[L.b := x, L.e := y][L.a := z]) == Ok(AlarmEntry(L, x, y, z))
  {
    var ce := map[L.e := y];
    var cb := ce[L.b := x];
    assert L.e in ce && ce[L.e] == y && L.b in cb && cb[L.b] == x;
    EarthquakeAt(L, nodes, ce, y);
    BurglaryAt(L, nodes, cb, x);
    var c := map[L.b := x, L.e := y][L.a := z];
    assert L.b in c && L.e in c && L.a in c && c[L.b] == x && c[L.e] == y && c[L.a] == z;
    AlarmAt(L, nodes, c, x, y, z);
  }

  /** The posterior from the joint probability of the causes and the
      alarm's entry. */
  lemma GivenCausesPosterior(L: Labels, nodes: map<string, Node>, x: string, y: string, z: string,
                             pa: real, d: real)
    requires Shaped(L, nodes) && IsValue(L, x) && IsValue(L, y) && IsValue(L, z)
    requires Joint(nodes, [Valued(L.b, x), Valued(L.e, y)], Topology(L)) == Ok(Single(d)) && d != 0.0
    requires Probability(nodes[L.a], map[L.b := x, L.e := y][L.a := z]) == Ok(pa)
    ensures Posterior(nodes, Render([Valued(L.a, z)], [Valued(L.b, x), Valued(L.e, y)]), Topology(L)) ==
              Ok(Single(pa))
  {
    var qa, es := Valued(L.a, z), [Valued(L.b, x), Valued(L.e, y)];
    AlarmShape(L, nodes);
    CausesQuery(L, nodes, x, y, z);
    CausesNotAncestor(L, nodes, x, y);
    ContextOf2(Valued(L.b, x), Valued(L.e, y));
    ParentsKnownPosterior(nodes, Render([qa], es), qa, es, Topology(L), pa, d);
  }

  lemma ProductPositive(p: real, q: real)
    requires p > 0.0 && q > 0.0
    ensures p * q > 0.0
  {
  }

  /** The query `a=z|b=x,e=y` reads back as its terms. */
  lemma CausesQuery(L: Labels, nodes: map<string, Node>, x: string, y: string, z: string)
    requires Shaped(L, nodes) && IsValue(L, x) && IsValue(L, y) && IsValue(L, z)
    ensures QueryParser(Render([Valued(L.a, z)], [Valued(L.b, x), Valued(L.e, y)]), Some(SymbolContext(nodes))) ==
              Ok(Parsed([Valued(L.a, z)], [Valued(L.b, x), Valued(L.e, y)]))
  {
    var qs, es := [Valued(L.a, z)], [Valued(L.b, x), Valued(L.e, y)];
    assert qs + es == [Valued(L.a, z), Valued(L.b, x), Valued(L.e, y)];
    ParseRender(qs, es, Some(SymbolContext(nodes)));
  }

  /** The alarm is no ancestor of its causes, and they are the parents. */
  lemma CausesNotAncestor(L: Labels, nodes: map<string, Node>, x: string, y: string)
    requires Shaped(L, nodes)
    ensures Names([Valued(L.b, x), Valued(L.e, y)]) == {L.b, L.e}
    ensures L.a !in Ancestors(nodes, Names([Valued(L.b, x), Valued(L.e, y)]))
    ensures forall p | p in nodes[L.a].predecessors :: p in Names([Valued(L.b, x), Valued(L.e, y)])
  {
    var es := [Valued(L.b, x), Valued(L.e, y)];
    NamesOf2(es[0], es[1]);
    AncestorsWithin(nodes, {L.b, L.e}, {L.b, L.e});
  }

  // ---------------------------------------------------------------------
  // The alarm alone: both causes summed out

  /** `P(Alarm = z)`: `0.002516442` for the alarm going off, the rest for
      it staying off. */
  function AlarmMarginal(L: Labels, z: string): real
  {
    if z == L.t then 0.002516442 else 0.997483558
  }

  /** The two entries read below a burglary bound to `x`: the
      earthquake's for `y` and the alarm's for `x`, `y`, `z`. */
  lemma EntriesHold(L: Labels, nodes: map<string, Node>, c: map<string, string>, x: string, y: string, z: string)
    requires IsAlarm(L, nodes) && IsValue(L, x) && IsValue(L, y) && IsValue(L, z)
    requires L.b in c && c[L.b] == x
    ensures Probability(nodes[L.e], c[L.e := y]) == Ok(EarthquakeEntry(L, y))
    ensures Probability(nodes[L.a], c[L.e := y][L.a := z]) == Ok(AlarmEntry(L, x, y, z))
  {
    var ce := c[L.e := y];
    assert L.e in ce && ce[L.e] == y;
    EarthquakeAt(L, nodes, ce, y);
    var ca := ce[L.a := z];
    assert L.b in ca && L.e in ca && L.a in ca && ca[L.b] == x && ca[L.e] == y && ca[L.a] == z;
    AlarmAt(L, nodes, ca, x, y, z);
  }

  /** Below a burglary bound to `x`, the earthquake summed out before the
      alarm known as `z`: `0.002 * at + 0.998 * af`, for the alarm's
      entries `at` and `af` under the two earthquake values. */
  lemma CausePairValue(L: Labels, nodes: map<string, Node>, c: map<string, string>, x: string, z: string,
                       at: real, af: real)
    requires IsAlarm(L, nodes) && IsValue(L, x) && IsValue(L, z)
    requires L.b in c && c[L.b] == x && at == AlarmEntry(L, x, L.t, z) && af == AlarmEntry(L, x, L.f, z)
    ensures PairValue(nodes, L.e, L.t, L.f, L.a, z, c) == Ok(0.002 * at + 0.998 * af)
  {
    EntriesHold(L, nodes, c, x, L.t, z);
    EntriesHold(L, nodes, c, x, L.f, z);
    assert EarthquakeEntry(L, L.t) == 0.002 && EarthquakeEntry(L, L.f) == 0.998;
    LastValue(at);
    LastValue(af);
    SumOfProducts(0.002, Chain(Ok(at), Ok(1.0)), at, 0.998, Chain(Ok(af), Ok(1.0)), af);
  }

  /** Both causes summed out before the alarm known as `z`. */
  lemma TripleValueIs(L: Labels, nodes: map<string, Node>, z: string)
    requires IsAlarm(L, nodes) && IsValue(L, z)
    ensures TripleValue(nodes, L.b, L.e, L.t, L.f, L.a, z, map[]) == Ok(AlarmMarginal(L, z))
  {
    var c: map<string, string> := map[];
    var ct, cf := c[L.b := L.t], c[L.b := L.f];
    assert L.b in ct && ct[L.b] == L.t && L.b in cf && cf[L.b] == L.f;
    BurglaryAt(L, nodes, ct, L.t);
    BurglaryAt(L, nodes, cf, L.f);
    assert BurglaryEntry(L, L.t) == 0.001 && BurglaryEntry(L, L.f) == 0.999;
    if z == L.t {
      CausePairValue(L, nodes, ct, L.t, z, 0.95, 0.94);
      CausePairValue(L, nodes, cf, L.f, z, 0.29, 0.001);
      SumOfProducts(0.001, PairValue(nodes, L.e, L.t, L.f, L.a, z, ct), 0.002 * 0.95 + 0.998 * 0.94,
                    0.999, PairValue(nodes, L.e, L.t, L.f, L.a, z, cf), 0.002 * 0.29 + 0.998 * 0.001);
    } else {
      CausePairValue(L, nodes, ct, L.t, z, 0.05, 0.06);
      CausePairValue(L, nodes, cf, L.f, z, 0.71, 0.999);
      SumOfProducts(0.001, PairValue(nodes, L.e, L.t, L.f, L.a, z, ct), 0.002 * 0.05 + 0.998 * 0.06,
                    0.999, PairValue(nodes, L.e, L.t, L.f, L.a, z, cf), 0.002 * 0.71 + 0.998 * 0.999);
    }
  }

  lemma LastValue(p: real)
    ensures Chain(Ok(p), Ok(1.0)) == Ok(p)
  {
    var r: Result<real> := Chain(Ok(p), Ok(1.0));
    assert r.Ok? && r.value == p * 1.0 == p;
  }

  /** `p1 * r1 + (p2 * r2 + 0)` on results holding `s1` and `s2`. */
  lemma SumOfProducts(p1: real, r1: Result<real>, s1: real, p2: real, r2: Result<real>, s2: real)
    requires r1 == Ok(s1) && r2 == Ok(s2)
    ensures Plus(Chain(Ok(p1), r1), Plus(Chain(Ok(p2), r2), Ok(0.0))) == Ok(p1 * s1 + p2 * s2)
  {
    var u1: Result<real> := Chain(Ok(p1), r1);
    var u2: Result<real> := Chain(Ok(p2), r2);
    assert u1.Ok? && u1.value == p1 * s1;
    assert u2.Ok? && u2.value == p2 * s2;
    var w: Result<real> := Plus(u2, Ok(0.0));
    assert w == Ok(p2 * s2);
    var v: Result<real> := Plus(u1, w);
    assert v.Ok? && v.value == p1 * s1 + p2 * s2;
  }

  /** The ancestors of the alarm are the alarm and its causes. */
  lemma AlarmAncestors(L: Labels, nodes: map<string, Node>, z: string)
    requires Shaped(L, nodes)
    ensures Names([Valued(L.a, z)]) == {L.a} && ValuedNodes(nodes, [Valued(L.a, z)])
    ensures Ancestors(nodes, Names([Valued(L.a, z)])) == {L.b, L.e, L.a}
  {
    var vs := [Valued(L.a, z)];
    assert vs[0].name == L.a;
    assert Names(vs) == {L.a};
    AncestorsLeast(nodes, {L.a}, {L.b, L.e, L.a});
  }

  /** The calculation order for the alarm alone: both causes hidden, in
      topological order, then the alarm. */
  lemma AlarmOrder(L: Labels, z: string)
    requires Distinct(Topology(L))
    ensures OrderFor([Valued(L.a, z)], Topology(L), {L.b, L.e, L.a}) ==
              [Factor(L.b, None, true), Factor(L.e, None, true), Factor(L.a, Some(z), false)]
  {
    var T, P := Topology(L), {L.b, L.e, L.a};
    AlarmFilter(L);
    AlarmNeeded(L, z);
    var needed := map[L.a := Valued(L.a, z)];
    DecideOrderTags(needed, P, P - needed.Keys, T);
    assert L.b != L.a && L.e != L.a by {
      assert T[0] == L.b && T[1] == L.e && T[2] == L.a;
    }
  }

  /** The causes and the alarm, in topological order. */
  lemma AlarmFilter(L: Labels)
    requires Distinct(Topology(L))
    ensures InTopologyOrder(Topology(L), {L.b, L.e, L.a}) == [L.b, L.e, L.a]
  {
    var T, P := Topology(L), {L.b, L.e, L.a};
    assert L.j !in P && L.m !in P by {
      assert T[0] == L.b && T[1] == L.e && T[2] == L.a && T[3] == L.j && T[4] == L.m;
    }
    assert T[1..] == [L.e, L.a, L.j, L.m] && T[1..][1..] == [L.a, L.j, L.m];
    assert [L.a, L.j, L.m][1..] == [L.j, L.m] && [L.j, L.m][1..] == [L.m] && [L.m][1..] == [];
    assert InTopologyOrder([L.m], P) == [];
    assert InTopologyOrder([L.j, L.m], P) == [];
    assert InTopologyOrder([L.a, L.j, L.m], P) == [L.a];
    assert InTopologyOrder([L.e, L.a, L.j, L.m], P) == [L.e, L.a];
  }

  lemma AlarmNeeded(L: Labels, z: string)
    ensures NeededMap([Valued(L.a, z)]) == map[L.a := Valued(L.a, z)]
  {
    assert [Valued(L.a, z)][..0] == [];
  }

  /** `P(Alarm = z)` is the marginal. */
  lemma AlarmAlone(L: Labels, nodes: map<string, Node>, z: string)
    requires IsAlarm(L, nodes) && IsValue(L, z)
    ensures Joint(nodes, [Valued(L.a, z)], Topology(L)) == Ok(Single(AlarmMarginal(L, z)))
  {
    AlarmShape(L, nodes);
    TripleValueIs(L, nodes, z);
    AlarmAloneFrom(L, nodes, z, AlarmMarginal(L, z));
  }

  /** `P(Alarm = z)` is what the calculation order for the alarm alone
      evaluates to. */
  lemma AlarmAloneFrom(L: Labels, nodes: map<string, Node>, z: string, m: real)
    requires Shaped(L, nodes)
    requires Distinct(Topology(L)) && forall x | x in nodes :: x in Topology(L)
    requires TripleValue(nodes, L.b, L.e, L.t, L.f, L.a, z, map[]) == Ok(m)
    ensures Joint(nodes, [Valued(L.a, z)], Topology(L)) == Ok(Single(m))
  {
    AlarmJointOrder(L, nodes, z);
    TripleStep(nodes, L.b, L.e, L.t, L.f, L.a, z, map[]);
  }

  /** The joint probability of the alarm alone is the value of its
      calculation order. */
  lemma AlarmJointOrder(L: Labels, nodes: map<string, Node>, z: string)
    requires Shaped(L, nodes)
    requires Distinct(Topology(L)) && forall x | x in nodes :: x in Topology(L)
    ensures Joint(nodes, [Valued(L.a, z)], Topology(L)) ==
              match Infer(nodes, [Factor(L.b, None, true), Factor(L.e, None, true), Factor(L.a, Some(z), false)], map[])
              case Err(e) => Err(e)
              case Ok(p) => Ok(Single(p))
  {
    AlarmAncestors(L, nodes, z);
    JointOfValuedAt(nodes, [Valued(L.a, z)], Topology(L), {L.b, L.e, L.a});
    AlarmOrder(L, z);
  }

  // ---------------------------------------------------------------------
  // Mary's call screened off by the alarm

  /** `P(MaryCalls = m | JohnCalls = j, Alarm = a, Earthquake = y,
      Burglary = x)` and `P(MaryCalls = m | Alarm = a)` are both Mary's
      table entry for the alarm's value `a`, whatever `j`, `y` and `x`
      are. */
  lemma MaryScreenedOff(L: Labels, nodes: map<string, Node>, m: string, j: string, a: string, y: string, x: string)
    requires IsAlarm(L, nodes) && IsValue(L, m) && IsValue(L, j) && IsValue(L, a) && IsValue(L, y) && IsValue(L, x)
    ensures Posterior(nodes, Render([Valued(L.m, m)], [Valued(L.j, j), Valued(L.a, a), Valued(L.e, y), Valued(L.b, x)]),
                      Topology(L)) ==
            Posterior(nodes, Render([Valued(L.m, m)], [Valued(L.a, a)]), Topology(L)) ==
            Ok(Single(MaryEntry(L, a, m)))
  {
    MaryGivenEvidence(L, nodes, m, j, a, y, x);
    MaryGivenAlarmEntry(L, nodes, m, a);
  }

  /** `P(MaryCalls = m | JohnCalls = j, Alarm = a, Earthquake = y,
      Burglary = x)` is Mary's entry for `a`. */
  lemma MaryGivenEvidence(L: Labels, nodes: map<string, Node>, m: string, j: string, a: string, y: string, x: string)
    requires IsAlarm(L, nodes) && IsValue(L, m) && IsValue(L, j) && IsValue(L, a) && IsValue(L, y) && IsValue(L, x)
    ensures Posterior(nodes, Render([Valued(L.m, m)], [Valued(L.j, j), Valued(L.a, a), Valued(L.e, y), Valued(L.b, x)]),
                      Topology(L)) == Ok(Single(MaryEntry(L, a, m)))
  {
    var pb, pe, pa, pj := BurglaryEntry(L, x), EarthquakeEntry(L, y), AlarmEntry(L, x, y, a), JohnEntry(L, a, j);
    ChainEntries(L, nodes, j, a, y, x);
    MaryEntries(L, nodes, m, j, a, y, x);
    EntriesPositive(L, x, y, a, j);
    var d2 := pe * pb;
    var d3 := pa * d2;
    var d4 := pj * d3;
    ProductsPositive(pb, pe, pa, pj, d2, d3, d4);
    EvidenceJoint(L, nodes, j, a, y, x, pb, pe, pa, pj, d2, d3, d4);
    MaryGivenAll(L, nodes, m, j, a, y, x, MaryEntry(L, a, m), d4);
  }

  /** `P(MaryCalls = m | Alarm = a)` is Mary's entry for `a`. */
  lemma MaryGivenAlarmEntry(L: Labels, nodes: map<string, Node>, m: string, a: string)
    requires IsAlarm(L, nodes) && IsValue(L, m) && IsValue(L, a)
    ensures Posterior(nodes, Render([Valued(L.m, m)], [Valued(L.a, a)]), Topology(L)) == Ok(Single(MaryEntry(L, a, m)))
  {
    MaryEntries(L, nodes, m, L.t, a, L.t, L.t);
    EntriesPositive(L, L.t, L.t, a, L.t);
    AlarmAlone(L, nodes, a);
    MaryGivenAlarm(L, nodes, m, a, MaryEntry(L, a, m), AlarmMarginal(L, a));
  }

  /** The entries the joint probability of the four evidence variables
      reads. */
  lemma ChainEntries(L: Labels, nodes: map<string, Node>, j: string, a: string, y: string, x: string)
    requires IsAlarm(L, nodes) && IsValue(L, j) && IsValue(L, a) && IsValue(L, y) && IsValue(L, x)
    ensures Probability(nodes[L.b], map[L.b := x]) == Ok(BurglaryEntry(L, x))
    ensures Probability(nodes[L.e], map[L.b := x][L.e := y]) == Ok(EarthquakeEntry(L, y))
    ensures Probability(nodes[L.a], map[L.e := y, L.b := x][L.a := a]) == Ok(AlarmEntry(L, x, y, a))
    ensures Probability(nodes[L.j], map[L.e := y, L.b := x][L.a := a][L.j := j]) == Ok(JohnEntry(L, a, j))
  {
    var cb := map[L.b := x];
    var ce := cb[L.e := y];
    assert L.b in cb && cb[L.b] == x && L.e in ce && ce[L.e] == y;
    BurglaryAt(L, nodes, cb, x);
    EarthquakeAt(L, nodes, ce, y);
    var ca := map[L.e := y, L.b := x][L.a := a];
    assert L.b in ca && L.e in ca && L.a in ca && ca[L.b] == x && ca[L.e] == y && ca[L.a] == a;
    AlarmAt(L, nodes, ca, x, y, a);
    var cj := map[L.e := y, L.b := x][L.a := a][L.j := j];
    assert L.a in cj && L.j in cj && cj[L.a] == a && cj[L.j] == j;
    JohnAt(L, nodes, cj, a, j);
  }

  /** Mary's entry in the contexts of both queries. */
  lemma MaryEntries(L: Labels, nodes: map<string, Node>, m: string, j: string, a: string, y: string, x: string)
    requires IsAlarm(L, nodes) && IsValue(L, m) && IsValue(L, a)
    ensures Probability(nodes[L.m], map[L.e := y, L.b := x][L.a := a][L.j := j][L.m := m]) == Ok(MaryEntry(L, a, m))
    ensures Probability(nodes[L.m], map[L.a := a][L.m := m]) == Ok(MaryEntry(L, a, m))
  {
    var c1 := map[L.e := y, L.b := x][L.a := a][L.j := j][L.m := m];
    assert L.a in c1 && L.m in c1 && c1[L.a] == a && c1[L.m] == m;
    MaryAt(L, nodes, c1, a, m);
    var c2 := map[L.a := a][L.m := m];
    assert L.a in c2 && L.m in c2 && c2[L.a] == a && c2[L.m] == m;
    MaryAt(L, nodes, c2, a, m);
  }

  /** No entry of the tables is zero. */
  lemma EntriesPositive(L: Labels, x: string, y: string, a: string, j: string)
    ensures BurglaryEntry(L, x) > 0.0 && EarthquakeEntry(L, y) > 0.0
    ensures AlarmEntry(L, x, y, a) > 0.0 && JohnEntry(L, a, j) > 0.0
    ensures AlarmMarginal(L, a) > 0.0
  {
  }

  lemma ProductsPositive(pb: real, pe: real, pa: real, pj: real, d2: real, d3: real, d4: real)
    requires pb > 0.0 && pe > 0.0 && pa > 0.0 && pj > 0.0
    requires d2 == pe * pb && d3 == pa * d2 && d4 == pj * d3
    ensures d4 > 0.0
  {
    assert d2 > 0.0;
    assert d3 > 0.0;
  }

  /** `P(JohnCalls = j, Alarm = a, Earthquake = y, Burglary = x)`: the
      product of the four entries, built up from the burglary on. The
      partial products are named so that each step multiplies one entry. */
  lemma EvidenceJoint(L: Labels, nodes: map<string, Node>, j: string, a: string, y: string, x: string,
                      pb: real, pe: real, pa: real, pj: real, d2: real, d3: real, d4: real)
    requires Shaped(L, nodes)
    requires Probability(nodes[L.b], map[L.b := x]) == Ok(pb)
    requires Probability(nodes[L.e], map[L.b := x][L.e := y]) == Ok(pe)
    requires Probability(nodes[L.a], map[L.e := y, L.b := x][L.a := a]) == Ok(pa)
    requires Probability(nodes[L.j], map[L.e := y, L.b := x][L.a := a][L.j := j]) == Ok(pj)
    requires d2 == pe * pb && d3 == pa * d2 && d4 == pj * d3
    ensures Joint(nodes, [Valued(L.j, j), Valued(L.a, a), Valued(L.e, y), Valued(L.b, x)], Topology(L)) ==
              Ok(Single(d4))
  {
    CausesAlarmJoint(L, nodes, a, y, x, pb, pe, pa, d2, d3);
    JohnOnAlarm(L, nodes, j, a, y, x, pj, d3, d4);
  }

  /** `P(Alarm = a, Earthquake = y, Burglary = x)`. */
  lemma CausesAlarmJoint(L: Labels, nodes: map<string, Node>, a: string, y: string, x: string,
                         pb: real, pe: real, pa: real, d2: real, d3: real)
    requires Shaped(L, nodes)
    requires Probability(nodes[L.b], map[L.b := x]) == Ok(pb)
    requires Probability(nodes[L.e], map[L.b := x][L.e := y]) == Ok(pe)
    requires Probability(nodes[L.a], map[L.e := y, L.b := x][L.a := a]) == Ok(pa)
    requires d2 == pe * pb && d3 == pa * d2
    ensures Joint(nodes, [Valued(L.a, a), Valued(L.e, y), Valued(L.b, x)], Topology(L)) == Ok(Single(d3))
  {
    CausesOrdered(L, nodes, y, x, pb, pe, d2);
    AlarmOnCauses(L, nodes, a, y, x, pa, d2, d3);
  }

  /** `P(Earthquake = y, Burglary = x)`, the burglary first. */
  lemma CausesOrdered(L: Labels, nodes: map<string, Node>, y: string, x: string, pb: real, pe: real, d2: real)
    requires Shaped(L, nodes)
    requires Probability(nodes[L.b], map[L.b := x]) == Ok(pb)
    requires Probability(nodes[L.e], map[L.b := x][L.e := y]) == Ok(pe)
    requires d2 == pe * pb
    ensures Joint(nodes, [Valued(L.e, y), Valued(L.b, x)], Topology(L)) == Ok(Single(d2))
  {
    RootAlone(L, nodes, L.b, x, pb);
    EarthquakeOnBurglary(L, nodes, y, x, pe, pb);
  }

  lemma EarthquakeOnBurglary(L: Labels, nodes: map<string, Node>, y: string, x: string, pe: real, d: real)
    requires Shaped(L, nodes)
    requires Joint(nodes, [Valued(L.b, x)], Topology(L)) == Ok(Single(d))
    requires Probability(nodes[L.e], map[L.b := x][L.e := y]) == Ok(pe)
    ensures Joint(nodes, [Valued(L.e, y), Valued(L.b, x)], Topology(L)) == Ok(Single(pe * d))
  {
    RootGrows(L, nodes, L.e, y, L.b, x);
    Extend(L, nodes, Valued(L.e, y), [Valued(L.b, x)], {L.b}, pe, d);
  }

  lemma AlarmOnCauses(L: Labels, nodes: map<string, Node>, a: string, y: string, x: string, pa: real, d: real, r: real)
    requires Shaped(L, nodes)
    requires Joint(nodes, [Valued(L.e, y), Valued(L.b, x)], Topology(L)) == Ok(Single(d))
    requires Probability(nodes[L.a], map[L.e := y, L.b := x][L.a := a]) == Ok(pa)
    requires r == pa * d
    ensures Joint(nodes, [Valued(L.a, a), Valued(L.e, y), Valued(L.b, x)], Topology(L)) == Ok(Single(r))
  {
    var qa, qe, qb := Valued(L.a, a), Valued(L.e, y), Valued(L.b, x);
    AlarmGrows(L, nodes, a, y, x);
    Extend(L, nodes, qa, [qe, qb], {L.b, L.e}, pa, d);
  }

  /** The shape facts of adding the alarm to the two causes. */
  lemma AlarmGrows(L: Labels, nodes: map<string, Node>, a: string, y: string, x: string)
    requires Shaped(L, nodes)
    ensures var qa, qe, qb := Valued(L.a, a), Valued(L.e, y), Valued(L.b, x);
            Grows(nodes, qa, [qe, qb], {L.b, L.e}) &&
            [qa] + [qe, qb] == [qa, qe, qb] && EvidenceContext([qe, qb]) == map[L.e := y, L.b := x]
  {
    var qa, qe, qb := Valued(L.a, a), Valued(L.e, y), Valued(L.b, x);
    ValuedTwo(nodes, qe, qb);
    DistinctThree(qa, qe, qb);
    RootsClosed(nodes, L.b, L.e);
    NamesOf2(qe, qb);
    ContextOf2(qe, qb);
    Cons2(qa, qe, qb);
  }

  lemma JohnOnAlarm(L: Labels, nodes: map<string, Node>, j: string, a: string, y: string, x: string,
                    pj: real, d: real, r: real)
    requires Shaped(L, nodes)
    requires Joint(nodes, [Valued(L.a, a), Valued(L.e, y), Valued(L.b, x)], Topology(L)) == Ok(Single(d))
    requires Probability(nodes[L.j], map[L.e := y, L.b := x][L.a := a][L.j := j]) == Ok(pj)
    requires r == pj * d
    ensures Joint(nodes, [Valued(L.j, j), Valued(L.a, a), Valued(L.e, y), Valued(L.b, x)], Topology(L)) ==
              Ok(Single(r))
  {
    var qj, qa, qe, qb := Valued(L.j, j), Valued(L.a, a), Valued(L.e, y), Valued(L.b, x);
    JohnGrows(L, nodes, j, a, y, x);
    Extend(L, nodes, qj, [qa, qe, qb], {L.b, L.e, L.a}, pj, d);
  }

  /** The shape facts of adding John's call to the alarm and its causes. */
  lemma JohnGrows(L: Labels, nodes: map<string, Node>, j: string, a: string, y: string, x: string)
    requires Shaped(L, nodes)
    ensures var qj, qa, qe, qb := Valued(L.j, j), Valued(L.a, a), Valued(L.e, y), Valued(L.b, x);
            Grows(nodes, qj, [qa, qe, qb], {L.b, L.e, L.a}) && [qj] + [qa, qe, qb] == [qj, qa, qe, qb] &&
            EvidenceContext([qa, qe, qb]) == map[L.e := y, L.b := x][L.a := a]
  {
    var qj, qa, qe, qb := Valued(L.j, j), Valued(L.a, a), Valued(L.e, y), Valued(L.b, x);
    JohnReady(L, nodes, j, a, y, x);
    JohnClosed(L, nodes, j, a, y, x);
    ContextOf3(qa, qe, qb);
    Cons3(qj, qa, qe, qb);
  }

  lemma JohnReady(L: Labels, nodes: map<string, Node>, j: string, a: string, y: string, x: string)
    requires Shaped(L, nodes)
    ensures var qj, qa, qe, qb := Valued(L.j, j), Valued(L.a, a), Valued(L.e, y), Valued(L.b, x);
            L.j in nodes && ValuedNodes(nodes, [qa, qe, qb]) && DistinctNames([qj] + [qa, qe, qb])
  {
    var qj, qa, qe, qb := Valued(L.j, j), Valued(L.a, a), Valued(L.e, y), Valued(L.b, x);
    ValuedThree(nodes, qa, qe, qb);
    DistinctFour(qj, qa, qe, qb);
  }

  lemma JohnClosed(L: Labels, nodes: map<string, Node>, j: string, a: string, y: string, x: string)
    requires Shaped(L, nodes)
    ensures var qa, qe, qb := Valued(L.a, a), Valued(L.e, y), Valued(L.b, x);
            (forall p | p in nodes[L.j].predecessors :: p in Names([qa, qe, qb])) &&
            Names([qa, qe, qb]) <= {L.b, L.e, L.a} && ParentClosed(nodes, {L.b, L.e, L.a}) && L.j !in {L.b, L.e, L.a}
  {
    CausesClosed(nodes, L.b, L.e, L.a);
    NamesOf3(Valued(L.a, a), Valued(L.e, y), Valued(L.b, x));
  }

  lemma ValuedTwo(nodes: map<string, Node>, u: QueryVariable, v: QueryVariable)
    requires u.value.Some? && v.value.Some? && u.name in nodes && v.name in nodes
    ensures ValuedNodes(nodes, [u, v])
  {
  }

  lemma ValuedThree(nodes: map<string, Node>, u: QueryVariable, v: QueryVariable, w: QueryVariable)
    requires u.value.Some? && v.value.Some? && w.value.Some?
    requires u.name in nodes && v.name in nodes && w.name in nodes
    ensures ValuedNodes(nodes, [u, v, w])
  {
  }

  lemma DistinctThree(u: QueryVariable, v: QueryVariable, w: QueryVariable)
    requires u.name != v.name && u.name != w.name && v.name != w.name
    ensures DistinctNames([u] + [v, w])
  {
    Cons2(u, v, w);
  }

  lemma DistinctFour(u: QueryVariable, v: QueryVariable, w: QueryVariable, s: QueryVariable)
    requires u.name != v.name && u.name != w.name && u.name != s.name
    requires v.name != w.name && v.name != s.name && w.name != s.name
    ensures DistinctNames([u] + [v, w, s])
  {
    Cons3(u, v, w, s);
  }

  lemma Cons2<T>(u: T, v: T, w: T)
    ensures [u] + [v, w] == [u, v, w]
  {
  }

  lemma Cons3<T>(u: T, v: T, w: T, s: T)
    ensures [u] + [v, w, s] == [u, v, w, s]
  {
  }

  /** Two roots form a predecessor-closed set, and so do they with a child
      of both. */
  lemma RootsClosed(nodes: map<string, Node>, b: string, e: string)
    requires b in nodes && e in nodes && nodes[b].predecessors == [] && nodes[e].predecessors == []
    ensures ParentClosed(nodes, {b, e})
  {
  }

  lemma CausesClosed(nodes: map<string, Node>, b: string, e: string, a: string)
    requires b in nodes && e in nodes && a in nodes
    requires nodes[b].predecessors == [] && nodes[e].predecessors == [] && nodes[a].predecessors == [b, e]
    ensures ParentClosed(nodes, {b, e, a})
  {
  }

  lemma NamesOf3(u: QueryVariable, v: QueryVariable, w: QueryVariable)
    ensures Names([u, v, w]) == {u.name, v.name, w.name}
  {
    var vs := [u, v, w];
    assert vs[0] == u && vs[1] == v && vs[2] == w;
  }

  lemma NamesOf4(u: QueryVariable, v: QueryVariable, w: QueryVariable, s: QueryVariable)
    ensures Names([u, v, w, s]) == {u.name, v.name, w.name, s.name}
  {
    var vs := [u, v, w, s];
    assert vs[0] == u && vs[1] == v && vs[2] == w && vs[3] == s;
  }

  /** Evidence contexts of three and four valued terms, built from the back. */
  lemma ContextOf3(u: QueryVariable, v: QueryVariable, w: QueryVariable)
    requires u.value.Some? && v.value.Some? && w.value.Some?
    requires u.name != v.name && u.name != w.name && v.name != w.name
    ensures EvidenceContext([u, v, w]) ==
              map[v.name := v.value.value, w.name := w.value.value][u.name := u.value.value]
  {
    ContextOf2(v, w);
    DistinctThree(u, v, w);
    ContextCons(u, [v, w]);
    Cons2(u, v, w);
  }

  lemma ContextOf4(u: QueryVariable, v: QueryVariable, w: QueryVariable, s: QueryVariable)
    requires u.value.Some? && v.value.Some? && w.value.Some? && s.value.Some?
    requires u.name != v.name && u.name != w.name && u.name != s.name
    requires v.name != w.name && v.name != s.name && w.name != s.name
    ensures EvidenceContext([u, v, w, s]) ==
              map[w.name := w.value.value, s.name := s.value.value][v.name := v.value.value][u.name := u.value.value]
  {
    ContextOf3(v, w, s);
    DistinctFour(u, v, w, s);
    ContextCons(u, [v, w, s]);
    Cons3(u, v, w, s);
  }

  /** Mary's posterior given all four other variables. */
  lemma MaryGivenAll(L: Labels, nodes: map<string, Node>, m: string, j: string, a: string, y: string, x: string,
                     pm: real, d: real)
    requires Shaped(L, nodes) && IsValue(L, m) && IsValue(L, j) && IsValue(L, a) && IsValue(L, y) && IsValue(L, x)
    requires Joint(nodes, [Valued(L.j, j), Valued(L.a, a), Valued(L.e, y), Valued(L.b, x)], Topology(L)) ==
               Ok(Single(d)) && d != 0.0
    requires Probability(nodes[L.m], map[L.e := y, L.b := x][L.a := a][L.j := j][L.m := m]) == Ok(pm)
    ensures Posterior(nodes, Render([Valued(L.m, m)], [Valued(L.j, j), Valued(L.a, a), Valued(L.e, y), Valued(L.b, x)]),
                      Topology(L)) == Ok(Single(pm))
  {
    var qm, es := Valued(L.m, m), [Valued(L.j, j), Valued(L.a, a), Valued(L.e, y), Valued(L.b, x)];
    AlarmShape(L, nodes);
    AllQuery(L, nodes, m, j, a, y, x);
    AllNotAncestor(L, nodes, j, a, y, x);
    ContextOf4(Valued(L.j, j), Valued(L.a, a), Valued(L.e, y), Valued(L.b, x));
    ParentsKnownPosterior(nodes, Render([qm], es), qm, es, Topology(L), pm, d);
  }

  /** Mary's call is no ancestor of the four other variables, and her
      parent is among them. */
  lemma AllNotAncestor(L: Labels, nodes: map<string, Node>, j: string, a: string, y: string, x: string)
    requires Shaped(L, nodes)
    ensures var es := [Valued(L.j, j), Valued(L.a, a), Valued(L.e, y), Valued(L.b, x)];
            L.m !in Ancestors(nodes, Names(es)) && forall p | p in nodes[L.m].predecessors :: p in Names(es)
  {
    var es := [Valued(L.j, j), Valued(L.a, a), Valued(L.e, y), Valued(L.b, x)];
    NamesOf4(es[0], es[1], es[2], es[3]);
    AncestorsWithin(nodes, {L.j, L.a, L.e, L.b}, {L.j, L.a, L.e, L.b});
  }

  /** The query `m=m|j=j,a=a,e=y,b=x` reads back as its terms. */
  lemma AllQuery(L: Labels, nodes: map<string, Node>, m: string, j: string, a: string, y: string, x: string)
    requires Shaped(L, nodes) && IsValue(L, m) && IsValue(L, j) && IsValue(L, a) && IsValue(L, y) && IsValue(L, x)
    ensures QueryParser(Render([Valued(L.m, m)], [Valued(L.j, j), Valued(L.a, a), Valued(L.e, y), Valued(L.b, x)]),
                        Some(SymbolContext(nodes))) ==
              Ok(Parsed([Valued(L.m, m)], [Valued(L.j, j), Valued(L.a, a), Valued(L.e, y), Valued(L.b, x)]))
  {
    var qs, es := [Valued(L.m, m)], [Valued(L.j, j), Valued(L.a, a), Valued(L.e, y), Valued(L.b, x)];
    AllTerms(L, m, j, a, y, x);
    AllDeclared(L, nodes, m, j, a, y, x);
    ParseRender(qs, es, Some(SymbolContext(nodes)));
  }

  lemma AllTerms(L: Labels, m: string, j: string, a: string, y: string, x: string)
    requires WellChosen(L) && IsValue(L, m) && IsValue(L, j) && IsValue(L, a) && IsValue(L, y) && IsValue(L, x)
    ensures var qs, es := [Valued(L.m, m)], [Valued(L.j, j), Valued(L.a, a), Valued(L.e, y), Valued(L.b, x)];
            WellFormedTerms(qs, es) && DistinctNames(qs + es)
  {
    var qs, es := [Valued(L.m, m)], [Valued(L.j, j), Valued(L.a, a), Valued(L.e, y), Valued(L.b, x)];
    assert qs + es == [Valued(L.m, m), Valued(L.j, j), Valued(L.a, a), Valued(L.e, y), Valued(L.b, x)];
  }

  lemma AllDeclared(L: Labels, nodes: map<string, Node>, m: string, j: string, a: string, y: string, x: string)
    requires Shaped(L, nodes) && IsValue(L, m) && IsValue(L, j) && IsValue(L, a) && IsValue(L, y) && IsValue(L, x)
    ensures var qs, es := [Valued(L.m, m)], [Valued(L.j, j), Valued(L.a, a), Valued(L.e, y), Valued(L.b, x)];
            AllInContext(qs, SymbolContext(nodes)) && AllInContext(es, SymbolContext(nodes))
  {
  }

  /** Mary's posterior given the alarm alone. */
  lemma MaryGivenAlarm(L: Labels, nodes: map<string, Node>, m: string, a: string, pm: real, d: real)
    requires Shaped(L, nodes) && IsValue(L, m) && IsValue(L, a)
    requires Joint(nodes, [Valued(L.a, a)], Topology(L)) == Ok(Single(d)) && d != 0.0
    requires Probability(nodes[L.m], map[L.a := a][L.m := m]) == Ok(pm)
    ensures Posterior(nodes, Render([Valued(L.m, m)], [Valued(L.a, a)]), Topology(L)) == Ok(Single(pm))
  {
    var qm, es := Valued(L.m, m), [Valued(L.a, a)];
    AlarmShape(L, nodes);
    AlarmQuery(L, nodes, m, a);
    AlarmNotAncestor(L, nodes, a);
    ParentsKnownPosterior(nodes, Render([qm], es), qm, es, Topology(L), pm, d);
  }

  /** The query `m=m|a=a` reads back as its terms. */
  lemma AlarmQuery(L: Labels, nodes: map<string, Node>, m: string, a: string)
    requires Shaped(L, nodes) && IsValue(L, m) && IsValue(L, a)
    ensures QueryParser(Render([Valued(L.m, m)], [Valued(L.a, a)]), Some(SymbolContext(nodes))) ==
              Ok(Parsed([Valued(L.m, m)], [Valued(L.a, a)]))
  {
    ParseRender([Valued(L.m, m)], [Valued(L.a, a)], Some(SymbolContext(nodes)));
  }

  /** Mary's call is no ancestor of the alarm, which is her parent. */
  lemma AlarmNotAncestor(L: Labels, nodes: map<string, Node>, a: string)
    requires Shaped(L, nodes)
    ensures L.m !in Ancestors(nodes, Names([Valued(L.a, a)]))
    ensures forall p | p in nodes[L.m].predecessors :: p in Names([Valued(L.a, a)])
    ensures EvidenceContext([Valued(L.a, a)]) == map[L.a := a]
  {
    AlarmAncestors(L, nodes, a);
    ContextOf1(Valued(L.a, a));
  }

  lemma ContextOf1(u: QueryVariable)
    requires u.value.Some?
    ensures EvidenceContext([u]) == map[u.name := u.value.value]
  {
    EvidenceAt([u], 0);
  }
}
