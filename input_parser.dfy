/** The network loader: it reads one node description per key of the
    network object, normalises the table keys, checks that the description
    is complete and builds the node.

    A node description is the JSON object of one node. Each of its three
    fields may be missing. The network is the JSON object of all nodes:
    its keys in document order, and the description under each key. */
module InputParser {
  import opened Common
  import opened Strings
  import opened NetworkNode

  const PredecessorsToken := "predecessors"
  const RandomVariablesToken := "random_variables"
  const ProbabilitiesToken := "probabilities"

  /** The fields every description must have, in the order they are
      checked. */
  const EssentialFields := [PredecessorsToken, RandomVariablesToken, ProbabilitiesToken]

  /** A node description. The table keeps its entries in document order,
      because that order decides which entry survives when two keys
      normalise to the same text. */
  datatype NodeData = NodeData(
    predecessors: Option<seq<string>>,
    randomVariables: Option<seq<string>>,
    probabilities: Option<seq<(string, real)>>)

  datatype Network = Network(order: seq<string>, data: map<string, NodeData>)

  /** The keys of a JSON object: each once, and exactly the described
      names. */
  predicate ValidNetwork(network: Network)
  {
    (forall i, j :: 0 <= i < j < |network.order| ==> network.order[i] != network.order[j]) &&
    (forall n | n in network.data :: n in network.order) &&
    (forall i :: 0 <= i < |network.order| ==> network.order[i] in network.data)
  }

  // ---------------------------------------------------------------------
  // The Cartesian product in `itertools.product` order

  /** `x` put in front of every tuple of `rs`. */
  function Prepend(x: string, rs: seq<seq<string>>): (r: seq<seq<string>>)
    ensures |r| == |rs|
    ensures forall i :: 0 <= i < |rs| ==> r[i] == [x] + rs[i]
  {
    seq(|rs|, i requires 0 <= i < |rs| => [x] + rs[i])
  }

  /** Every value of `xs` in turn put in front of every tuple of `rs`:
      the first value varies slowest. */
  function PrependAll(xs: seq<string>, rs: seq<seq<string>>): (r: seq<seq<string>>)
    ensures |r| == |xs| * |rs|
    ensures forall c | c in r :: |c| >= 1 && c[0] in xs && c[1..] in rs
  {
    if |xs| == 0 then []
    else
      var rest := PrependAll(xs[1..], rs);
      assert |xs| * |rs| == |rs| + (|xs| - 1) * |rs|;
      assert forall c | c in Prepend(xs[0], rs) :: c[1..] in rs by {
        forall c | c in Prepend(xs[0], rs) ensures c[1..] in rs {
          var i :| 0 <= i < |rs| && Prepend(xs[0], rs)[i] == c;
          assert c[1..] == rs[i];
        }
      }
      Prepend(xs[0], rs) + rest
  }

  /** The number of tuples in the product: the product of the list
      lengths. */
  function ProductSize(lists: seq<seq<string>>): nat
  {
    if |lists| == 0 then 1 else |lists[0]| * ProductSize(lists[1..])
  }

  /** `itertools.product(*lists)`: every choice of one value per list, in
      lexicographic order of the positions. */
  function Product(lists: seq<seq<string>>): (r: seq<seq<string>>)
    ensures |r| == ProductSize(lists)
  {
    if |lists| == 0 then [[]] else PrependAll(lists[0], Product(lists[1..]))
  }

  /** Every tuple of the product picks one value from each list. */
  lemma {:induction false} ProductSound(lists: seq<seq<string>>, c: seq<string>)
    requires c in Product(lists)
    ensures |c| == |lists|
    ensures forall i :: 0 <= i < |lists| ==> c[i] in lists[i]
    decreases |lists|
  {
    if |lists| > 0 {
      assert c in PrependAll(lists[0], Product(lists[1..]));
      ProductSound(lists[1..], c[1..]);
      forall i | 0 <= i < |lists| ensures c[i] in lists[i] {
        if i > 0 {
          assert c[i] == c[1..][i - 1];
        }
      }
    }
  }

  lemma {:induction false} PrependAllComplete(xs: seq<string>, rs: seq<seq<string>>, x: string, t: seq<string>)
    requires x in xs && t in rs
    ensures [x] + t in PrependAll(xs, rs)
    decreases |xs|
  {
    if xs[0] == x {
      var i :| 0 <= i < |rs| && rs[i] == t;
      assert Prepend(xs[0], rs)[i] == [x] + t;
    } else {
      PrependAllComplete(xs[1..], rs, x, t);
    }
  }

  /** Every choice of one value per list is in the product. */
  lemma {:induction false} ProductComplete(lists: seq<seq<string>>, c: seq<string>)
    requires |c| == |lists|
    requires forall i :: 0 <= i < |lists| ==> c[i] in lists[i]
    ensures c in Product(lists)
    decreases |lists|
  {
    if |lists| > 0 {
      var t := c[1..];
      assert forall i :: 0 <= i < |lists| - 1 ==> t[i] == c[i + 1];
      ProductComplete(lists[1..], t);
      PrependAllComplete(lists[0], Product(lists[1..]), c[0], t);
      assert [c[0]] + t == c;
    }
  }

  // ---------------------------------------------------------------------
  // Key normalisation

  /** The table key with every blank removed. */
  function NormalKey(key: string): string
  {
    Delete(key, ' ')
  }

  /** `{key.replace(' ', ''): value for key, value in probabilities.items()}`:
      the keys without blanks; where two keys collapse to one, the later
      entry wins. */
  function NormaliseKeys(entries: seq<(string, real)>): (r: map<string, real>)
    ensures forall k :: k in r <==> exists i :: 0 <= i < |entries| && NormalKey(entries[i].0) == k
    ensures forall k | k in r :: ' ' !in k
  {
    if |entries| == 0 then map[]
    else
      var init := entries[..|entries| - 1];
      var last := entries[|entries| - 1];
      assert forall i :: 0 <= i < |init| ==> init[i] == entries[i];
      NormaliseKeys(init)[NormalKey(last.0) := last.1]
  }

  /** An entry whose normalised key no later entry shares keeps its
      value. */
  lemma {:induction false} NormaliseKeysLaterWins(entries: seq<(string, real)>, i: nat)
    requires i < |entries|
    requires forall j :: i < j < |entries| ==> NormalKey(entries[j].0) != NormalKey(entries[i].0)
    ensures NormalKey(entries[i].0) in NormaliseKeys(entries)
    ensures NormaliseKeys(entries)[NormalKey(entries[i].0)] == entries[i].1
    decreases |entries|
  {
    var init := entries[..|entries| - 1];
    if i < |entries| - 1 {
      assert forall j :: 0 <= j < |init| ==> init[j] == entries[j];
      NormaliseKeysLaterWins(init, i);
    }
  }

  /** Keys that stay distinct after normalisation keep the entry count. */
  lemma {:induction false} NormaliseKeysCount(entries: seq<(string, real)>)
    requires forall i, j :: 0 <= i < j < |entries| ==> NormalKey(entries[i].0) != NormalKey(entries[j].0)
    ensures |NormaliseKeys(entries)| == |entries|
    decreases |entries|
  {
    if |entries| > 0 {
      var init := entries[..|entries| - 1];
      assert forall i :: 0 <= i < |init| ==> init[i] == entries[i];
      NormaliseKeysCount(init);
      var last := entries[|entries| - 1];
      assert NormalKey(last.0) !in NormaliseKeys(init);
      assert NormaliseKeys(entries).Keys == NormaliseKeys(init).Keys + {NormalKey(last.0)};
    }
  }

  // ---------------------------------------------------------------------
  // The three validators

  /** The first of `fields` that the description lacks. */
  function FirstMissingField(fields: seq<string>, data: NodeData): (r: Option<string>)
    ensures r.None? <==> forall i :: 0 <= i < |fields| ==> HasField(data, fields[i])
    ensures r.Some? ==> exists i :: 0 <= i < |fields| && fields[i] == r.value && !HasField(data, fields[i]) &&
                          forall j :: 0 <= j < i ==> HasField(data, fields[j])
  {
    if |fields| == 0 then None
    else if !HasField(data, fields[0]) then Some(fields[0])
    else
      var r := FirstMissingField(fields[1..], data);
      if r.Some? then
        var i :| 0 <= i < |fields[1..]| && fields[1..][i] == r.value && !HasField(data, fields[1..][i]) &&
                 forall j :: 0 <= j < i ==> HasField(data, fields[1..][j]);
        assert fields[i + 1] == r.value;
        assert forall j :: 0 <= j < i + 1 ==> HasField(data, fields[j]) by {
          forall j | 0 <= j < i + 1 ensures HasField(data, fields[j]) {
            if j > 0 {
              assert fields[j] == fields[1..][j - 1];
            }
          }
        }
        r
      else
        assert forall j :: 0 <= j < |fields| ==> HasField(data, fields[j]) by {
          forall j | 0 <= j < |fields| ensures HasField(data, fields[j]) {
            if j > 0 {
              assert fields[j] == fields[1..][j - 1];
            }
          }
        }
        r
  }

  /** `field in node_data`. */
  predicate HasField(data: NodeData, field: string)
  {
    if field == PredecessorsToken then data.predecessors.Some?
    else if field == RandomVariablesToken then data.randomVariables.Some?
    else if field == ProbabilitiesToken then data.probabilities.Some?
    else false
  }

  /** `_assert_essential_fields_exist`: the first missing field, in the
      order predecessors, random variables, probabilities, is
      `IncompleteNodeData`; a description with all three but no values is
      `HaveAtLeastOneRandomVariable`. */
  function AssertEssentialFieldsExist(name: string, data: NodeData): (r: Option<Error>)
    ensures r.None? <==> data.predecessors.Some? && data.randomVariables.Some? &&
                         data.probabilities.Some? && |data.randomVariables.value| > 0
    ensures data.predecessors.None? ==> r == Some(IncompleteNodeData(name, PredecessorsToken))
    ensures data.predecessors.Some? && data.randomVariables.None? ==>
              r == Some(IncompleteNodeData(name, RandomVariablesToken))
    ensures data.predecessors.Some? && data.randomVariables.Some? && data.probabilities.None? ==>
              r == Some(IncompleteNodeData(name, ProbabilitiesToken))
    ensures data.predecessors.Some? && data.randomVariables.Some? && data.probabilities.Some? &&
            |data.randomVariables.value| == 0 ==>
              r == Some(HaveAtLeastOneRandomVariable(name))
  {
    match FirstMissingField(EssentialFields, data)
    case Some(field) =>
      assert HasField(data, PredecessorsToken) == data.predecessors.Some?;
      assert HasField(data, RandomVariablesToken) == data.randomVariables.Some?;
      assert HasField(data, ProbabilitiesToken) == data.probabilities.Some?;
      var i :| 0 <= i < |EssentialFields| && EssentialFields[i] == field && !HasField(data, field) &&
               forall j :: 0 <= j < i ==> HasField(data, EssentialFields[j]);
      assert EssentialFields[0] == PredecessorsToken && EssentialFields[1] == RandomVariablesToken &&
             EssentialFields[2] == ProbabilitiesToken;
      Some(IncompleteNodeData(name, field))
    case None =>
      assert HasField(data, EssentialFields[0]) && HasField(data, EssentialFields[1]) &&
             HasField(data, EssentialFields[2]);
      if |data.randomVariables.value| == 0 then Some(HaveAtLeastOneRandomVariable(name)) else None
  }

  /** The first of `names` that is not in `keys`. */
  function FirstAbsent(names: seq<string>, keys: set<string>): (r: Option<string>)
    ensures r.None? <==> forall i :: 0 <= i < |names| ==> names[i] in keys
    ensures r.Some? ==> exists i :: 0 <= i < |names| && names[i] == r.value && names[i] !in keys &&
                          forall j :: 0 <= j < i ==> names[j] in keys
  {
    if |names| == 0 then None
    else if names[0] !in keys then Some(names[0])
    else
      var r := FirstAbsent(names[1..], keys);
      if r.Some? then
        var i :| 0 <= i < |names[1..]| && names[1..][i] == r.value && names[1..][i] !in keys &&
                 forall j :: 0 <= j < i ==> names[1..][j] in keys;
        assert names[i + 1] == r.value;
        r
      else
        assert forall j :: 0 <= j < |names| ==> names[j] in keys by {
          forall j | 0 <= j < |names| ensures names[j] in keys {
            if j > 0 {
              assert names[j] == names[1..][j - 1];
            }
          }
        }
        r
  }

  /** `_assert_all_predecessors_exist`: the first predecessor that the
      network does not describe is `PredecessorNotExistInNetwork`; a
      description without predecessors is a `KeyError`. */
  function AssertAllPredecessorsExist(data: NodeData, network: Network): (r: Option<Error>)
    ensures data.predecessors.None? ==> r == Some(KeyError(PredecessorsToken))
    ensures data.predecessors.Some? ==>
              (r.None? <==> forall p | p in data.predecessors.value :: p in network.data)
    ensures data.predecessors.Some? && r.Some? ==>
              exists i :: 0 <= i < |data.predecessors.value| &&
                          r.value == PredecessorNotExistInNetwork(data.predecessors.value[i]) &&
                          data.predecessors.value[i] !in network.data &&
                          forall j :: 0 <= j < i ==> data.predecessors.value[j] in network.data
  {
    if data.predecessors.None? then Some(KeyError(PredecessorsToken))
    else
      match FirstAbsent(data.predecessors.value, network.data.Keys)
      case Some(p) => Some(PredecessorNotExistInNetwork(p))
      case None => None
  }

  /** The key of the first tuple, in order, that the table lacks. */
  function FirstMissingKey(combinations: seq<seq<string>>, probabilities: map<string, real>): (r: Option<string>)
    ensures r.None? <==> forall i :: 0 <= i < |combinations| ==> ProbabilityKey(combinations[i]) in probabilities
    ensures r.Some? ==> exists i :: 0 <= i < |combinations| && r.value == ProbabilityKey(combinations[i]) &&
                          r.value !in probabilities &&
                          forall j :: 0 <= j < i ==> ProbabilityKey(combinations[j]) in probabilities
  {
    if |combinations| == 0 then None
    else if ProbabilityKey(combinations[0]) !in probabilities then Some(ProbabilityKey(combinations[0]))
    else
      var r := FirstMissingKey(combinations[1..], probabilities);
      if r.Some? then
        var i :| 0 <= i < |combinations[1..]| && r.value == ProbabilityKey(combinations[1..][i]) &&
                 r.value !in probabilities &&
                 forall j :: 0 <= j < i ==> ProbabilityKey(combinations[1..][j]) in probabilities;
        assert combinations[i + 1] == combinations[1..][i];
        assert forall j :: 0 <= j < i + 1 ==> ProbabilityKey(combinations[j]) in probabilities by {
          forall j | 0 <= j < i + 1 ensures ProbabilityKey(combinations[j]) in probabilities {
            if j > 0 {
              assert combinations[j] == combinations[1..][j - 1];
            }
          }
        }
        r
      else
        assert forall j :: 0 <= j < |combinations| ==> ProbabilityKey(combinations[j]) in probabilities by {
          forall j | 0 <= j < |combinations| ensures ProbabilityKey(combinations[j]) in probabilities {
            if j > 0 {
              assert combinations[j] == combinations[1..][j - 1];
            }
          }
        }
        r
  }

  /** `_assert_all_probabilities_exist`: every tuple of the product of the
      value lists must have its rendered key in the table; the first
      missing key in product order is `NotAllExpectedProbabilityExist`.
      Keys the product does not produce are allowed. */
  function AssertAllProbabilitiesExist(name: string, probabilities: map<string, real>,
                                       allRandomVariables: seq<seq<string>>): (r: Option<Error>)
    ensures r.None? <==> forall c | c in Product(allRandomVariables) :: ProbabilityKey(c) in probabilities
    ensures r.Some? ==>
              var combinations := Product(allRandomVariables);
              exists i :: 0 <= i < |combinations| &&
                          r.value == NotAllExpectedProbabilityExist(name, ProbabilityKey(combinations[i])) &&
                          ProbabilityKey(combinations[i]) !in probabilities &&
                          forall j :: 0 <= j < i ==> ProbabilityKey(combinations[j]) in probabilities
  {
    match FirstMissingKey(Product(allRandomVariables), probabilities)
    case Some(key) => Some(NotAllExpectedProbabilityExist(name, key))
    case None => None
  }

  // ---------------------------------------------------------------------
  // Building one node, and the whole network

  /** The value lists of the predecessors, in declared order; an unknown
      predecessor, or one without values, fails as a lookup. */
  function ValueLists(predecessors: seq<string>, network: Network): (r: Result<seq<seq<string>>>)
    ensures r.Ok? <==> forall i :: 0 <= i < |predecessors| ==>
                         predecessors[i] in network.data &&
                         network.data[predecessors[i]].randomVariables.Some?
    ensures r.Ok? ==> |r.value| == |predecessors| &&
                      forall i :: 0 <= i < |predecessors| ==>
                        r.value[i] == network.data[predecessors[i]].randomVariables.value
    ensures r.Err? ==> r.error.KeyError?
  {
    if |predecessors| == 0 then Ok([])
    else
      var p := predecessors[0];
      if p !in network.data then Err(KeyError(p))
      else if network.data[p].randomVariables.None? then Err(KeyError(RandomVariablesToken))
      else
        match ValueLists(predecessors[1..], network)
        case Err(e) => Err(e)
        case Ok(rest) =>
          assert forall i :: 1 <= i < |predecessors| ==> predecessors[i] == predecessors[1..][i - 1];
          Ok([network.data[p].randomVariables.value] + rest)
  }

  /** The reads at the head of `validate_and_parse_node`: the description
      (a missing node is a `KeyError`), its random variables, probabilities
      and predecessors in that order (a missing field is a `KeyError`), then
      the predecessors' value lists. */
  function ReadNode(name: string, network: Network): (r: Result<(NodeData, seq<seq<string>>)>)
    ensures r.Ok? <==> name in network.data &&
                       network.data[name].predecessors.Some? &&
                       network.data[name].randomVariables.Some? &&
                       network.data[name].probabilities.Some? &&
                       ValueLists(network.data[name].predecessors.value, network).Ok?
    ensures r.Ok? ==> r.value.0 == network.data[name] &&
                      ValueLists(network.data[name].predecessors.value, network) == Ok(r.value.1)
    ensures r.Err? ==> r.error.KeyError?
    ensures name !in network.data ==> r == Err(KeyError(name))
    ensures name in network.data && network.data[name].randomVariables.None? ==>
              r == Err(KeyError(RandomVariablesToken))
    ensures name in network.data && network.data[name].randomVariables.Some? &&
            network.data[name].probabilities.None? ==>
              r == Err(KeyError(ProbabilitiesToken))
    ensures name in network.data && network.data[name].randomVariables.Some? &&
            network.data[name].probabilities.Some? && network.data[name].predecessors.None? ==>
              r == Err(KeyError(PredecessorsToken))
  {
    if name !in network.data then Err(KeyError(name))
    else
      var d := network.data[name];
      if d.randomVariables.None? then Err(KeyError(RandomVariablesToken))
      else if d.probabilities.None? then Err(KeyError(ProbabilitiesToken))
      else if d.predecessors.None? then Err(KeyError(PredecessorsToken))
      else
        match ValueLists(d.predecessors.value, network)
        case Err(e) => Err(e)
        case Ok(lists) => Ok((d, lists))
  }

  /** The tail of `validate_and_parse_node`, once the fields are read and
      the table normalised: the three validators in order, then the node.
      The fields and the predecessors are known to be there, so only an
      empty value list or a missing table row can fail. */
  function BuildNode(name: string, network: Network, d: NodeData, lists: seq<seq<string>>,
                     probabilities: map<string, real>): (r: Result<Node>)
    requires d.predecessors.Some? && d.randomVariables.Some? && d.probabilities.Some?
    requires ValueLists(d.predecessors.value, network) == Ok(lists)
    ensures r.Ok? <==> |d.randomVariables.value| > 0 &&
                       forall c | c in Product(lists + [d.randomVariables.value]) :: ProbabilityKey(c) in probabilities
    ensures r.Ok? ==> r.value == Node(name, d.randomVariables.value, d.predecessors.value, probabilities,
                                      lists + [d.randomVariables.value])
    ensures |d.randomVariables.value| == 0 ==> r == Err(HaveAtLeastOneRandomVariable(name))
    ensures r.Err? ==> r.error == HaveAtLeastOneRandomVariable(name) ||
                       r.error.NotAllExpectedProbabilityExist?
  {
    var all := lists + [d.randomVariables.value];
    var essential := AssertEssentialFieldsExist(name, d);
    if essential.Some? then Err(essential.value)
    else
      // every predecessor was looked up already, so this check passes
      assert AssertAllPredecessorsExist(d, network).None?;
      var complete := AssertAllProbabilitiesExist(name, probabilities, all);
      if complete.Some? then Err(complete.value)
      else Ok(Node(name, d.randomVariables.value, d.predecessors.value, probabilities, all))
  }

  /** Everything `validate_and_parse_node` requires of a node: it is
      described with all three fields and at least one value, every
      predecessor is described with values, and the normalised table has a
      row for every tuple of the product. */
  predicate Loadable(name: string, network: Network)
  {
    name in network.data &&
    var d := network.data[name];
    d.predecessors.Some? && d.randomVariables.Some? && d.probabilities.Some? &&
    |d.randomVariables.value| > 0 &&
    ValueLists(d.predecessors.value, network).Ok? &&
    forall c | c in Product(ValueLists(d.predecessors.value, network).value + [d.randomVariables.value]) ::
      ProbabilityKey(c) in NormaliseKeys(d.probabilities.value)
  }

  /** `validate_and_parse_node(node_name, network)`. The fields are read
      (random variables, probabilities, predecessors) and the
      predecessors' value lists looked up before any validator runs, so a
      missing field or an unknown predecessor fails as a `KeyError`; the
      validators can then only report an empty value list or a missing
      table row. */
  function ValidateAndParseNode(name: string, network: Network): (r: Result<Node>)
    ensures r.Ok? ==> name in network.data && network.data[name].predecessors.Some? &&
                      network.data[name].randomVariables.Some? && network.data[name].probabilities.Some?
    ensures r.Ok? ==>
              var d := network.data[name];
              r.value.name == name &&
              r.value.randomVariables == d.randomVariables.value &&
              r.value.predecessors == d.predecessors.value &&
              r.value.probabilities == NormaliseKeys(d.probabilities.value) &&
              |r.value.allRandomVariables| == |d.predecessors.value| + 1 &&
              r.value.allRandomVariables[|d.predecessors.value|] == d.randomVariables.value &&
              (forall i :: 0 <= i < |d.predecessors.value| ==>
                 d.predecessors.value[i] in network.data &&
                 network.data[d.predecessors.value[i]].randomVariables.Some? &&
                 r.value.allRandomVariables[i] == network.data[d.predecessors.value[i]].randomVariables.value)
    ensures r.Ok? ==> |r.value.randomVariables| > 0 &&
                      forall c | c in Product(r.value.allRandomVariables) ::
                        ProbabilityKey(c) in r.value.probabilities
    ensures name !in network.data ==> r == Err(KeyError(name))
    ensures name in network.data && network.data[name].randomVariables.None? ==>
              r == Err(KeyError(RandomVariablesToken))
    ensures r.Err? ==> !r.error.IncompleteNodeData? && !r.error.PredecessorNotExistInNetwork?
  {
    match ReadNode(name, network)
    case Err(e) => Err(e)
    case Ok((d, lists)) => BuildNode(name, network, d, lists, NormaliseKeys(d.probabilities.value))
  }

  /** A node loads exactly when its description and its predecessors'
      descriptions are complete and its table covers the product. */
  lemma LoadableIffOk(name: string, network: Network)
    ensures ValidateAndParseNode(name, network).Ok? <==> Loadable(name, network)
  {
  }

  /** The values of a list of results, or the first error among them. */
  function Collect<T>(results: seq<Result<T>>): (r: Result<seq<T>>)
    ensures r.Ok? ==> |r.value| == |results| &&
                      forall i :: 0 <= i < |results| ==> results[i] == Ok(r.value[i])
    ensures r.Err? ==> exists i :: 0 <= i < |results| && results[i] == Err(r.error) &&
                         forall j :: 0 <= j < i ==> results[j].Ok?
  {
    if |results| == 0 then Ok([])
    else
      var init := results[..|results| - 1];
      assert forall i :: 0 <= i < |init| ==> init[i] == results[i];
      match Collect(init)
      case Err(e) => Err(e)
      case Ok(values) =>
        match results[|results| - 1]
        case Err(e) => Err(e)
        case Ok(v) => Ok(values + [v])
  }

  /** Once a prefix of the results fails, the whole list fails the same
      way. */
  lemma {:induction false} CollectPrefixErr<T>(results: seq<Result<T>>, i: nat)
    requires i <= |results|
    requires Collect(results[..i]).Err?
    ensures Collect(results) == Collect(results[..i])
    decreases |results| - i
  {
    if i < |results| {
      assert results[..i + 1][..i] == results[..i];
      CollectPrefixErr(results, i + 1);
    } else {
      assert results[..i] == results;
    }
  }

  /** The outcome of `validate_and_parse_node` for every key, in key
      order. */
  function NodeResults(network: Network): (r: seq<Result<Node>>)
    ensures |r| == |network.order|
    ensures forall i :: 0 <= i < |r| ==> r[i] == ValidateAndParseNode(network.order[i], network)
  {
    seq(|network.order|, i requires 0 <= i < |network.order| => ValidateAndParseNode(network.order[i], network))
  }

  /** `InputParser.from_dict(network)`: one node per key of the network,
      in key order; the first key whose node fails reports its error. */
  method FromDict(network: Network) returns (r: Result<seq<Node>>)
    ensures r == Collect(NodeResults(network))
  {
    var parsed: seq<Node> := [];
    for i := 0 to |network.order|
      invariant Collect(NodeResults(network)[..i]) == Ok(parsed)
    {
      var results := NodeResults(network);
      assert results[..i + 1][..i] == results[..i];
      var node := ValidateAndParseNode(network.order[i], network);
      assert results[..i + 1][i] == node;
      if node.Err? {
        CollectPrefixErr(results, i + 1);
        return Err(node.error);
      }
      parsed := parsed + [node.value];
    }
    assert NodeResults(network)[..|network.order|] == NodeResults(network);
    return Ok(parsed);
  }

  // ---------------------------------------------------------------------
  // What a loaded node guarantees

  /** A node whose table covers the product of its value lists answers
      `probability` for every context that gives each predecessor and the
      node itself one of its declared values. */
  lemma CoveredProbabilityTotal(node: Node, context: map<string, string>)
    requires |node.allRandomVariables| == |node.predecessors| + 1
    requires node.allRandomVariables[|node.predecessors|] == node.randomVariables
    requires forall c | c in Product(node.allRandomVariables) :: ProbabilityKey(c) in node.probabilities
    requires forall i :: 0 <= i < |node.predecessors| ==>
               node.predecessors[i] in context && context[node.predecessors[i]] in node.allRandomVariables[i]
    requires node.name in context && context[node.name] in node.randomVariables
    ensures Probability(node, context).Ok?
  {
    var c := ContextTuple(node, context);
    assert forall i :: 0 <= i < |node.allRandomVariables| ==> c[i] in node.allRandomVariables[i];
    ProductComplete(node.allRandomVariables, c);
  }

  /** In particular, every loaded node does. */
  lemma LoadedProbabilityTotal(name: string, network: Network, context: map<string, string>)
    requires ValidateAndParseNode(name, network).Ok?
    requires var node := ValidateAndParseNode(name, network).value;
             (forall i :: 0 <= i < |node.predecessors| ==>
                node.predecessors[i] in context &&
                context[node.predecessors[i]] in node.allRandomVariables[i]) &&
             name in context && context[name] in node.randomVariables
    ensures Probability(ValidateAndParseNode(name, network).value, context).Ok?
  {
    CoveredProbabilityTotal(ValidateAndParseNode(name, network).value, context);
  }
}
