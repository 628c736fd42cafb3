/** The burglary-alarm network of the inference tests: its five nodes,
    their tables, and what the proofs use of it.

    The five names and the two values are parameters: any words, the
    names pairwise distinct and the values distinct, so each result holds
    for `Burglary`, `Earthquake`, `Alarm`, `JohnCalls`, `MaryCalls` and
    `t`, `f` as the tests choose them. */
module AlarmNetwork {
  import opened Common
  import opened NetworkNode
  import opened Query
  import opened Inference

  /** The names of the five nodes and the two values. */
  datatype Labels = Labels(b: string, e: string, a: string, j: string, m: string, t: string, f: string)

  predicate WellChosen(L: Labels)
  {
    IsWord(L.b) && IsWord(L.e) && IsWord(L.a) && IsWord(L.j) && IsWord(L.m) &&
    IsWord(L.t) && IsWord(L.f) && L.t != L.f &&
    L.b != L.e && L.b != L.a && L.b != L.j && L.b != L.m &&
    L.e != L.a && L.e != L.j && L.e != L.m &&
    L.a != L.j && L.a != L.m && L.j != L.m
  }

  predicate IsValue(L: Labels, x: string)
  {
    x == L.t || x == L.f
  }

  // ---------------------------------------------------------------------
  // The tables

  function Key1(x: string): string { ProbabilityKey([x]) }

  function Key2(x: string, y: string): string { ProbabilityKey([x, y]) }

  function Key3(x: string, y: string, z: string): string { ProbabilityKey([x, y, z]) }

  /** `P(Burglary = x)`. */
  function BurglaryEntry(L: Labels, x: string): real
  {
    if x == L.t then 0.001 else 0.999
  }

  /** `P(Earthquake = y)`. */
  function EarthquakeEntry(L: Labels, y: string): real
  {
    if y == L.t then 0.002 else 0.998
  }

  /** `P(Alarm = z | Burglary = x, Earthquake = y)`. */
  function AlarmEntry(L: Labels, x: string, y: string, z: string): real
  {
    if x == L.t then
      if y == L.t then (if z == L.t then 0.95 else 0.05) else (if z == L.t then 0.94 else 0.06)
    else
      if y == L.t then (if z == L.t then 0.29 else 0.71) else (if z == L.t then 0.001 else 0.999)
  }

  /** `P(JohnCalls = y | Alarm = x)`. */
  function JohnEntry(L: Labels, x: string, y: string): real
  {
    if x == L.t then (if y == L.t then 0.90 else 0.10) else (if y == L.t then 0.05 else 0.95)
  }

  /** `P(MaryCalls = y | Alarm = x)`. */
  function MaryEntry(L: Labels, x: string, y: string): real
  {
    if x == L.t then (if y == L.t then 0.70 else 0.30) else (if y == L.t then 0.01 else 0.99)
  }

  function BurglaryNode(L: Labels): Node
  {
    Node(L.b, [L.t, L.f], [], map[Key1(L.t) := 0.001, Key1(L.f) := 0.999], [[L.t, L.f]])
  }

  function EarthquakeNode(L: Labels): Node
  {
    Node(L.e, [L.t, L.f], [], map[Key1(L.t) := 0.002, Key1(L.f) := 0.998], [[L.t, L.f]])
  }

  function AlarmNode(L: Labels): Node
  {
    var t, f := L.t, L.f;
    Node(L.a, [t, f], [L.b, L.e],
         map[Key3(f, f, f) := 0.999, Key3(f, f, t) := 0.001, Key3(f, t, f) := 0.71, Key3(f, t, t) := 0.29,
             Key3(t, f, f) := 0.06, Key3(t, f, t) := 0.94, Key3(t, t, f) := 0.05, Key3(t, t, t) := 0.95],
         [[t, f], [t, f], [t, f]])
  }

  function JohnNode(L: Labels): Node
  {
    var t, f := L.t, L.f;
    Node(L.j, [t, f], [L.a], map[Key2(f, f) := 0.95, Key2(f, t) := 0.05, Key2(t, f) := 0.10, Key2(t, t) := 0.90],
         [[t, f], [t, f]])
  }

  function MaryNode(L: Labels): Node
  {
    var t, f := L.t, L.f;
    Node(L.m, [t, f], [L.a], map[Key2(f, f) := 0.99, Key2(f, t) := 0.01, Key2(t, f) := 0.30, Key2(t, t) := 0.70],
         [[t, f], [t, f]])
  }

  /** The network's nodes under their names. */
  function Alarm(L: Labels): map<string, Node>
  {
    map[L.b := BurglaryNode(L), L.e := EarthquakeNode(L), L.a := AlarmNode(L),
        L.j := JohnNode(L), L.m := MaryNode(L)]
  }

  /** One admissible topological order of the network: each node after
      its parents. It is not necessarily the order networkx's
      `topological_sort` produces, which the tests record as `Earthquake`
      before `Burglary`; the results about `P` here are stated for this
      order. */
  function Topology(L: Labels): (r: seq<string>)
    ensures WellChosen(L) ==> Distinct(r)
  {
    [L.b, L.e, L.a, L.j, L.m]
  }

  // ---------------------------------------------------------------------
  // Table lookups

  /** Keys of value tuples differ where the tuples do. */
  lemma KeyDistinct(L: Labels, u: seq<string>, v: seq<string>)
    requires WellChosen(L)
    requires |u| >= 1 && |v| >= 1
    requires forall s | s in u :: IsValue(L, s)
    requires forall s | s in v :: IsValue(L, s)
    ensures ProbabilityKey(u) == ProbabilityKey(v) <==> u == v
  {
    WordAvoids(L.t, ',');
    WordAvoids(L.f, ',');
    if ProbabilityKey(u) == ProbabilityKey(v) {
      assert forall i | 0 <= i < |u| :: u[i] in u;
      assert forall i | 0 <= i < |v| :: v[i] in v;
      ProbabilityKeyInjective(u, v);
    }
  }

  lemma Key1Distinct(L: Labels, x: string, x': string)
    requires WellChosen(L) && IsValue(L, x) && IsValue(L, x')
    ensures Key1(x) == Key1(x') <==> x == x'
  {
    KeyDistinct(L, [x], [x']);
    assert [x][0] == x && [x'][0] == x';
  }

  lemma Key2Distinct(L: Labels, x: string, y: string, x': string, y': string)
    requires WellChosen(L) && IsValue(L, x) && IsValue(L, y) && IsValue(L, x') && IsValue(L, y')
    ensures Key2(x, y) == Key2(x', y') <==> x == x' && y == y'
  {
    var u, v := [x, y], [x', y'];
    KeyDistinct(L, u, v);
    if u == v {
      assert u[0] == v[0] && u[1] == v[1];
    }
  }

  lemma Key3Distinct(L: Labels, x: string, y: string, z: string, x': string, y': string, z': string)
    requires WellChosen(L) && IsValue(L, x) && IsValue(L, y) && IsValue(L, z)
    requires IsValue(L, x') && IsValue(L, y') && IsValue(L, z')
    ensures Key3(x, y, z) == Key3(x', y', z') <==> x == x' && y == y' && z == z'
  {
    var u, v := [x, y, z], [x', y', z'];
    KeyDistinct(L, u, v);
    if u == v {
      assert u[0] == v[0] && u[1] == v[1] && u[2] == v[2];
    }
  }

  /** A parentless node of the network reads its entry for its own value. */
  lemma BurglaryProbability(L: Labels, c: map<string, string>)
    requires WellChosen(L) && L.b in c && IsValue(L, c[L.b])
    ensures Probability(BurglaryNode(L), c) == Ok(BurglaryEntry(L, c[L.b]))
  {
    var n := BurglaryNode(L);
    assert ContextTuple(n, c) == [c[L.b]];
    Key1Distinct(L, L.t, L.f);
  }

  lemma EarthquakeProbability(L: Labels, c: map<string, string>)
    requires WellChosen(L) && L.e in c && IsValue(L, c[L.e])
    ensures Probability(EarthquakeNode(L), c) == Ok(EarthquakeEntry(L, c[L.e]))
  {
    var n := EarthquakeNode(L);
    assert ContextTuple(n, c) == [c[L.e]];
    Key1Distinct(L, L.t, L.f);
  }

  /** The table rows hold the entries. */
  lemma AlarmRow(L: Labels, x: string, y: string, z: string)
    requires WellChosen(L) && IsValue(L, x) && IsValue(L, y) && IsValue(L, z)
    ensures Key3(x, y, z) in AlarmNode(L).probabilities
    ensures AlarmNode(L).probabilities[Key3(x, y, z)] == AlarmEntry(L, x, y, z)
  {
    var t, f := L.t, L.f;
    var k := Key3(x, y, z);
    var m0 := map[Key3(f, f, f) := 0.999, Key3(f, f, t) := 0.001, Key3(f, t, f) := 0.71, Key3(f, t, t) := 0.29];
    var m1 := map[Key3(t, f, f) := 0.06, Key3(t, f, t) := 0.94, Key3(t, t, f) := 0.05, Key3(t, t, t) := 0.95];
    assert AlarmNode(L).probabilities == m0 + m1;
    if x == t {
      RowOf4(L, x, y, z, t, m1, 0.06, 0.94, 0.05, 0.95);
    } else {
      RowOf4(L, x, y, z, t, m1, 0.06, 0.94, 0.05, 0.95);
      RowOf4(L, x, y, z, f, m0, 0.999, 0.001, 0.71, 0.29);
    }
  }

  /** The rows of a table whose first value is `w`, in the order
      (f,f), (f,t), (t,f), (t,t) of the other two. */
  lemma RowOf4(L: Labels, x: string, y: string, z: string, w: string, m: map<string, real>,
               pff: real, pft: real, ptf: real, ptt: real)
    requires WellChosen(L) && IsValue(L, x) && IsValue(L, y) && IsValue(L, z) && IsValue(L, w)
    requires m == map[Key3(w, L.f, L.f) := pff, Key3(w, L.f, L.t) := pft,
                      Key3(w, L.t, L.f) := ptf, Key3(w, L.t, L.t) := ptt]
    ensures Key3(x, y, z) in m <==> x == w
    ensures x == w ==>
              m[Key3(x, y, z)] == if y == L.t then (if z == L.t then ptt else ptf) else (if z == L.t then pft else pff)
  {
    var t, f := L.t, L.f;
    Key3Distinct(L, x, y, z, w, f, f);
    Key3Distinct(L, x, y, z, w, f, t);
    Key3Distinct(L, x, y, z, w, t, f);
    Key3Distinct(L, x, y, z, w, t, t);
  }

  lemma JohnRow(L: Labels, x: string, y: string)
    requires WellChosen(L) && IsValue(L, x) && IsValue(L, y)
    ensures Key2(x, y) in JohnNode(L).probabilities
    ensures JohnNode(L).probabilities[Key2(x, y)] == JohnEntry(L, x, y)
  {
    var t, f := L.t, L.f;
    Key2Distinct(L, x, y, f, f);
    Key2Distinct(L, x, y, f, t);
    Key2Distinct(L, x, y, t, f);
    Key2Distinct(L, x, y, t, t);
  }

  lemma MaryRow(L: Labels, x: string, y: string)
    requires WellChosen(L) && IsValue(L, x) && IsValue(L, y)
    ensures Key2(x, y) in MaryNode(L).probabilities
    ensures MaryNode(L).probabilities[Key2(x, y)] == MaryEntry(L, x, y)
  {
    var t, f := L.t, L.f;
    Key2Distinct(L, x, y, f, f);
    Key2Distinct(L, x, y, f, t);
    Key2Distinct(L, x, y, t, f);
    Key2Distinct(L, x, y, t, t);
  }

  lemma AlarmProbability(L: Labels, c: map<string, string>)
    requires WellChosen(L) && L.b in c && L.e in c && L.a in c
    requires IsValue(L, c[L.b]) && IsValue(L, c[L.e]) && IsValue(L, c[L.a])
    ensures Probability(AlarmNode(L), c) == Ok(AlarmEntry(L, c[L.b], c[L.e], c[L.a]))
  {
    Tuple3(AlarmNode(L), c, L.b, L.e, L.a);
    AlarmRow(L, c[L.b], c[L.e], c[L.a]);
  }

  lemma JohnProbability(L: Labels, c: map<string, string>)
    requires WellChosen(L) && L.a in c && L.j in c && IsValue(L, c[L.a]) && IsValue(L, c[L.j])
    ensures Probability(JohnNode(L), c) == Ok(JohnEntry(L, c[L.a], c[L.j]))
  {
    Tuple2(JohnNode(L), c, L.a, L.j);
    JohnRow(L, c[L.a], c[L.j]);
  }

  lemma MaryProbability(L: Labels, c: map<string, string>)
    requires WellChosen(L) && L.a in c && L.m in c && IsValue(L, c[L.a]) && IsValue(L, c[L.m])
    ensures Probability(MaryNode(L), c) == Ok(MaryEntry(L, c[L.a], c[L.m]))
  {
    Tuple2(MaryNode(L), c, L.a, L.m);
    MaryRow(L, c[L.a], c[L.m]);
  }

  /** The context tuple of a node with one parent, and with two. */
  lemma Tuple2(n: Node, c: map<string, string>, p: string, x: string)
    requires n.predecessors == [p] && n.name == x && p in c && x in c
    ensures ContextTuple(n, c) == [c[p], c[x]]
  {
  }

  lemma Tuple3(n: Node, c: map<string, string>, p: string, q: string, x: string)
    requires n.predecessors == [p, q] && n.name == x && p in c && q in c && x in c
    ensures ContextTuple(n, c) == [c[p], c[q], c[x]]
  {
  }

  // ---------------------------------------------------------------------
  // What the proofs use of the network

  /** The nodes hold the five names, each node under its own name, with the
      values `t`, `f` and the predecessors of the alarm network. */
  predicate AlarmShaped(L: Labels, nodes: map<string, Node>)
  {
    nodes.Keys == {L.b, L.e, L.a, L.j, L.m} &&
    nodes[L.b].name == L.b && nodes[L.e].name == L.e && nodes[L.a].name == L.a &&
    nodes[L.j].name == L.j && nodes[L.m].name == L.m &&
    nodes[L.b].predecessors == [] && nodes[L.e].predecessors == [] &&
    nodes[L.a].predecessors == [L.b, L.e] &&
    nodes[L.j].predecessors == [L.a] && nodes[L.m].predecessors == [L.a] &&
    nodes[L.b].randomVariables == nodes[L.e].randomVariables == nodes[L.a].randomVariables ==
    nodes[L.j].randomVariables == nodes[L.m].randomVariables == [L.t, L.f]
  }

  /** Each node's probability in a context that values its parents and
      itself is its table entry. */
  ghost predicate AlarmTables(L: Labels, nodes: map<string, Node>)
    requires AlarmShaped(L, nodes)
  {
    (forall c {:trigger Probability(nodes[L.b], c)} | L.b in c && IsValue(L, c[L.b]) ::
       Probability(nodes[L.b], c) == Ok(BurglaryEntry(L, c[L.b]))) &&
    (forall c {:trigger Probability(nodes[L.e], c)} | L.e in c && IsValue(L, c[L.e]) ::
       Probability(nodes[L.e], c) == Ok(EarthquakeEntry(L, c[L.e]))) &&
    (forall c {:trigger Probability(nodes[L.a], c)} | L.b in c && L.e in c && L.a in c && IsValue(L, c[L.b]) && IsValue(L, c[L.e]) && IsValue(L, c[L.a]) ::
       Probability(nodes[L.a], c) == Ok(AlarmEntry(L, c[L.b], c[L.e], c[L.a]))) &&
    (forall c {:trigger Probability(nodes[L.j], c)} | L.a in c && L.j in c && IsValue(L, c[L.a]) && IsValue(L, c[L.j]) ::
       Probability(nodes[L.j], c) == Ok(JohnEntry(L, c[L.a], c[L.j]))) &&
    (forall c {:trigger Probability(nodes[L.m], c)} | L.a in c && L.m in c && IsValue(L, c[L.a]) && IsValue(L, c[L.m]) ::
       Probability(nodes[L.m], c) == Ok(MaryEntry(L, c[L.a], c[L.m])))
  }

  /** The network above has that shape and those tables. */
  lemma AlarmFacts(L: Labels)
    requires WellChosen(L)
    ensures AlarmShaped(L, Alarm(L)) && AlarmTables(L, Alarm(L))
  {
    var nodes := Alarm(L);
    assert nodes[L.b] == BurglaryNode(L) && nodes[L.e] == EarthquakeNode(L) && nodes[L.a] == AlarmNode(L);
    assert nodes[L.j] == JohnNode(L) && nodes[L.m] == MaryNode(L);
    forall c | L.b in c && IsValue(L, c[L.b]) ensures Probability(nodes[L.b], c) == Ok(BurglaryEntry(L, c[L.b])) {
      BurglaryProbability(L, c);
    }
    forall c | L.e in c && IsValue(L, c[L.e]) ensures Probability(nodes[L.e], c) == Ok(EarthquakeEntry(L, c[L.e])) {
      EarthquakeProbability(L, c);
    }
    forall c | L.b in c && L.e in c && L.a in c && IsValue(L, c[L.b]) && IsValue(L, c[L.e]) && IsValue(L, c[L.a])
      ensures Probability(nodes[L.a], c) == Ok(AlarmEntry(L, c[L.b], c[L.e], c[L.a]))
    {
      AlarmProbability(L, c);
    }
    forall c | L.a in c && L.j in c && IsValue(L, c[L.a]) && IsValue(L, c[L.j])
      ensures Probability(nodes[L.j], c) == Ok(JohnEntry(L, c[L.a], c[L.j]))
    {
      JohnProbability(L, c);
    }
    forall c | L.a in c && L.m in c && IsValue(L, c[L.a]) && IsValue(L, c[L.m])
      ensures Probability(nodes[L.m], c) == Ok(MaryEntry(L, c[L.a], c[L.m]))
    {
      MaryProbability(L, c);
    }
  }
}
