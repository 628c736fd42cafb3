# Bayesian-network exact inference, modelled in Dafny

This project models the core of `bayesian-inference`, a small Python package for exact inference
on discrete Bayesian networks. It also proves properties of that model. The core has four parts:

- **The network node** (`NetworkNode`). A node has a name, the values of its random variable,
  its parents (predecessors) in declared order, and a conditional probability table. The table is
  keyed by rendered value tuples `(p1,...,pn,v)`. Looking up a context reads the parents' values
  and the node's own value, then the table row of that key.
- **The query parser** (`query_parser`). It reads `X, Y=y | Z=z, W=w` against a regular grammar,
  cuts the text into trimmed terms, and rejects repeated names. When the network's symbol table
  is given, it also rejects undeclared names and values.
- **The network** (`BayesianNetwork`). It holds a node map, a directed acyclic graph of
  parent-to-child edges and an index of edges still waiting for a parent. `add_node` refuses
  duplicates and any node whose edges would close a cycle. `remove_node` takes a node out of all
  three. `P(query)` computes a posterior by variable elimination: it keeps the ancestors of the
  needed variables, orders the factors topologically and evaluates the sum-product recursively.
  It then divides the joint probability of query and evidence by that of the evidence.
- **The loader** (`InputParser`). It builds one node per key of a decoded JSON object. It
  normalises the table keys, validates the description and reports the first failure.

The repository also holds an older copy of the same package under `src/`. Its network, query
parser and loader are modelled as well (`LegacyNetwork`, `LegacyQuery`, `LegacyInputParser`).
Each is proved to agree with, or to differ from, the current code in stated ways.

Modules, one per file:

- `common.dfy`: the `Option` and `Result` types, and one `Error` variant per exception class.
- `strings.dfy`: `join`, `split`, substring and `replace`.
- `graph.dfy`: edge sets, the reachability closure and the cycle test.
- `network_node.dfy`: the node and its table lookup.
- `query.dfy`: the query parser; `query_examples.dfy` holds its unit cases.
- `legacy_query.dfy`: the older query parser.
- `input_parser.dfy`: the loader; `legacy_input_parser.dfy` is the older loader.
- `py_dict.dfy`: the part of CPython's dictionary that decides what a loop over `d.items()`
  sees while its body stores and deletes keys. The older loader's key rewriting runs on it.
- `inference.dfy`:
  - the factors and the recursive evaluation;
  - the pruning by ancestors;
  - the calculation order;
  - the joint probability and `P`.
- `conditioning.dfy`: what `P` computes for a variable whose parents are all evidence.
- `evaluation_steps.dfy`: single evaluation steps of written-out calculation orders.
- `alarm_network.dfy`: the burglary-alarm network of the inference tests, over symbolic names.
- `alarm_example.dfy`: two of those tests' answers and the alarm's marginal, derived from the theorems above.
- `int_zero_example.dfy`: a network on which `P` raises `AttributeError`, because a sum over no values is the int `0`.
- `network.dfy`:
  - the network state as a value (`NetState`, `AddSpec`, `RemoveSpec`);
  - the class `BayesianNetwork`, whose methods are proved to follow those functions.
- `network_examples.dfy`: the network's unit cases.
- `legacy_network.dfy`: the older network.

The current `validate_and_parse_node` reads the three fields, and the predecessors' value lists,
before any validator runs. A missing field therefore surfaces as a `KeyError`, never as
`IncompleteNodeDataException`. A missing predecessor surfaces the same way, never as
`PredecessorNotExistInNetwork`. The model follows the code here; the documented behaviour differs.
`AssertEssentialFieldsExist` and `AssertAllPredecessorsExist` still model the two validators as
written, and these are the paths their unit tests call directly.

## Model

| member | source | states |
|---|---|---|
| Strings.Split | bayesian_inference/probability/probability.py:101-102 | `split` always yields at least one piece |
| Strings.JoinSplit | bayesian_inference/probability/probability.py:101-102 | no piece of a split holds the separator, and joining the pieces with it gives the text back |
| Strings.SplitJoin | bayesian_inference/probability/probability.py:101-102 | splitting a join of separator-free parts gives back exactly those parts |
| Strings.JoinInjective | bayesian_inference/entity/network_node.py:77-79 | joining is injective on separator-free parts |
| Strings.Delete | bayesian_inference/input_parser/input_parser.py:60-61 | `replace(c, '')` leaves no `c`, keeps the set of other characters, and leaves a text without `c` unchanged |
| Strings.DeleteConcat | bayesian_inference/input_parser/input_parser.py:60-61 | removal works piece by piece: removing from a concatenation concatenates the removals, so order and count of the kept characters are those of the text |
| Strings.DeleteSingle | bayesian_inference/input_parser/input_parser.py:60-61 | one character is removed exactly when it is `c` |
| Strings.IndexOf | bayesian_inference/entity/bayesian_network.py:174-176 | the first position of a name in a list: it holds the name and no earlier position does |
| Graph.Reach | bayesian_inference/entity/bayesian_network.py:109 | the closure contains the seeds, is closed under one edge step, and holds only seeds and edge targets |
| Graph.ReachMinimal | bayesian_inference/entity/bayesian_network.py:109 | the closure lies inside every closed superset of the seeds |
| Graph.ReachIffWalk | bayesian_inference/entity/bayesian_network.py:109 | a vertex is in the closure exactly when some walk leads to it from a seed |
| Graph.HasCycleIffCycleWalk | bayesian_inference/entity/bayesian_network.py:109-112 | the cycle test used for `find_cycle` holds exactly when the edge set has a closed walk |
| Graph.AcyclicSubset | bayesian_inference/entity/bayesian_network.py:178-179 | dropping edges never creates a cycle |
| Graph.RankedAcyclic | bayesian_inference/entity/bayesian_network.py:325-327 | a graph whose edges all climb some ranking (such as a topological order) has no cycle |
| Graph.FreshSinkEdges | bayesian_inference/entity/bayesian_network.py:130-142 | edges into a vertex with no outgoing edge cannot close a cycle |
| Graph.FreshSourceEdges | bayesian_inference/entity/bayesian_network.py:154-156 | edges out of a vertex that no edge enters cannot close a cycle |
| NetworkNode.ProbabilityKey | bayesian_inference/entity/network_node.py:77-79 | the key is `(`, the values joined by commas, then `)` |
| NetworkNode.ProbabilityKeyInjective | bayesian_inference/entity/network_node.py:77-79 | distinct tuples of comma-free values get distinct keys, so a key names exactly one row |
| NetworkNode.ContextValues | bayesian_inference/entity/network_node.py:74 | the context's values for the names, in order; on failure, a `KeyError` for the first name the context lacks |
| NetworkNode.ContextTuple | bayesian_inference/entity/network_node.py:74 | the parents' context values in declared order, then the node's own |
| NetworkNode.Probability | bayesian_inference/entity/network_node.py:73-75 | succeeds exactly when every parent and the node are in the context and the key is a row; then it is that row. Otherwise a `KeyError` naming the missing parent, the node or the key |
| NetworkNode.ParentlessProbability | bayesian_inference/entity/unit_test.py:14-37 | a parentless node looks up the one-value key `(v)` |
| Query.LeadingBlanks | bayesian_inference/probability/probability.py:69 | counts exactly the blanks at the start of the text |
| Query.TrailingBlanks | bayesian_inference/probability/probability.py:69 | counts exactly the blanks at the end of the text |
| Query.Strip | bayesian_inference/probability/probability.py:69 | `strip()` gives a slice with only blanks outside it; a non-empty result neither starts nor ends with a blank |
| Query.StripPadded | bayesian_inference/probability/probability.py:69 | stripping removes exactly the blanks around a text that has none at its ends |
| Query.MapToQueryVariable | bayesian_inference/probability/probability.py:64-69 | a matched group gives a word as its name, and a word as its value when it has one; a valued group always has a value |
| Query.FindGroups | bayesian_inference/probability/probability.py:104-106 | one term per comma-separated group, in order |
| Query.ExtractMatched | bayesian_inference/probability/probability.py:94-106 | a full match yields at least one query term and well-formed terms on both sides; every evidence term has a value |
| Query.NamesCardinality | bayesian_inference/probability/probability.py:76-78 | the set of names is no larger than the list, and exactly as large when no name repeats |
| Query.AllUniqueIffDistinct | bayesian_inference/probability/probability.py:71-79 | the uniqueness test passes exactly when no name repeats anywhere across both sides |
| Query.FirstNotInContext | bayesian_inference/probability/probability.py:81-92 | none exactly when every term is declared with a declared value; otherwise the first failing term |
| Query.FirstNotInContextAt | bayesian_inference/probability/probability.py:87-92 | the term reported is the one at the first failing index |
| Query.QueryParser | bayesian_inference/probability/probability.py:24-124 | `NoMatch` exactly for texts outside the grammar. The repeated-name error is raised exactly when a matched text repeats a name. An undeclared-name error names a failing query term, or else a failing evidence term. Valid distinct declared terms are returned as extracted |
| Query.RenderVariableRoundTrip | bayesian_inference/probability/probability.py:64-69 | a well-formed term written back matches its group and reads back as itself |
| Query.RenderTermsRoundTrip | bayesian_inference/probability/probability.py:104-106 | a list of well-formed terms written back matches the side's grammar and reads back as the same list |
| Query.ParseRender | bayesian_inference/probability/probability.py:94-120 | a rendered query with distinct well-formed terms parses back to the same terms, in order, under any symbol table that declares them |
| Query.ValidateRendered | bayesian_inference/probability/probability.py:108-117 | a rendered query fails at its first undeclared query term, or else at its first undeclared evidence term, or parses |
| Query.RenderMatches | bayesian_inference/probability/probability.py:94-106 | a rendered query matches the grammar and extracts to its own terms |
| Query.PaddedValuedGroup | bayesian_inference/probability/probability.py:10-12 | `name = value` with blanks around both words matches either group and reads back as the two trimmed words |
| Query.PaddedNameGroup | bayesian_inference/probability/probability.py:10-11 | a name with blanks around it matches the query group and reads back without a value |
| QueryExamples.EmptyRejected | bayesian_inference/probability/unit_test.py:92-95 | the empty text does not match |
| QueryExamples.LoneCommaRejected | bayesian_inference/probability/unit_test.py:97-100 | `,` does not match |
| QueryExamples.TrailingCommaRejected | bayesian_inference/probability/unit_test.py:107-110 | `A ,` does not match |
| QueryExamples.LeadingCommaRejected | bayesian_inference/probability/unit_test.py:112-115 | `, A` does not match |
| QueryExamples.EmptyEvidenceRejected | bayesian_inference/probability/unit_test.py:117-120 | `A | ` does not match |
| QueryExamples.EvidenceWithoutValueRejected | bayesian_inference/probability/unit_test.py:142-145 | `A = a | B` does not match: evidence needs a value |
| QueryExamples.TwoBarsRejected | bayesian_inference/probability/unit_test.py:157-160 | a second `|` does not match |
| QueryExamples.BlankInsideNameRejected | bayesian_inference/probability/unit_test.py:162-165 | `A K = a, ...` does not match: a name is one word |
| QueryExamples.PaddedGroupB | bayesian_inference/probability/unit_test.py:55-62 | `     B  =   b ` reads as `B=b` |
| QueryExamples.PaddedGroupA | bayesian_inference/probability/unit_test.py:55-62 | `  A   ` reads as `A` |
| QueryExamples.PaddedGroupC | bayesian_inference/probability/unit_test.py:55-62 | `   C ` reads as `C` |
| QueryExamples.PaddedGroupD | bayesian_inference/probability/unit_test.py:55-62 | `   D  =  D ` reads as `D=D` |
| QueryExamples.ContextQueryRead | bayesian_inference/probability/unit_test.py:182-194 | `A,B=b,C,D=d|E=e,F=ff,G=g,H=hh` matches and reads back term by term |
| QueryExamples.ContextAccepted | bayesian_inference/probability/unit_test.py:182-194 | that query passes a symbol table that declares all its names and values |
| QueryExamples.RepeatedNameRejected | bayesian_inference/probability/unit_test.py:172-175 | `A,B,C|A=a,G=g` raises the repeated-name error without a symbol table |
| QueryExamples.QuerySideNotInContext | bayesian_inference/probability/unit_test.py:216-224 | a query-side value outside its declared values names that variable (`B`), although an evidence name is undeclared too |
| QueryExamples.EvidenceSideNotInContext | bayesian_inference/probability/unit_test.py:226-234 | with every query term declared, the undeclared evidence name (`F`) is the one reported |
| LegacyQuery.LegacyQueryParser | src/probability/probability.py:20-49 | `NoMatch` exactly outside the grammar; otherwise the extracted terms, at least one query term, all well formed |
| LegacyQuery.CurrentRefinesLegacy | src/probability/probability.py:38-49 | where the current parser returns, the older one returns the same. The current parser raises exactly when the older one reads terms with a repeated name, or terms a given symbol table does not declare |
| LegacyQuery.LegacyIgnoresContext | src/probability/probability.py:20-49 | the network context passed to the older parser changes nothing |
| LegacyQuery.RepeatedNameAccepted | src/probability/probability.py:38-47 | `A|A=a` is read by the older parser and rejected by the current one |
| InputParser.Product | bayesian_inference/input_parser/input_parser.py:126 | `itertools.product` has as many tuples as the product of the list lengths, each as long as the number of lists |
| InputParser.ProductSound | bayesian_inference/input_parser/input_parser.py:126 | every tuple of the product picks one value from each list |
| InputParser.ProductComplete | bayesian_inference/input_parser/input_parser.py:126 | every choice of one value per list is a tuple of the product |
| InputParser.NormalKey | bayesian_inference/input_parser/input_parser.py:61 | definition of `key.replace(' ', '')`; meaning given by `Strings.DeleteConcat` and `LegacyInputParser.NormalKeyOfNormal` |
| InputParser.NormaliseKeys | bayesian_inference/input_parser/input_parser.py:60-61 | the normalised table's keys are exactly the blank-free forms of the given keys, none with a blank |
| InputParser.NormaliseKeysLaterWins | bayesian_inference/input_parser/input_parser.py:60-61 | an entry whose normal key no later entry shares keeps its value under that key |
| InputParser.NormaliseKeysCount | bayesian_inference/input_parser/input_parser.py:60-61 | keys that stay distinct once normalised keep the entry count |
| InputParser.FirstMissingField | bayesian_inference/input_parser/input_parser.py:85-88 | none exactly when every field is present; otherwise the first absent field in checking order |
| InputParser.AssertEssentialFieldsExist | bayesian_inference/input_parser/input_parser.py:74-92 | the first missing field is reported naming node and field. With all fields, an empty value list is reported. Otherwise it passes |
| InputParser.FirstAbsent | bayesian_inference/input_parser/input_parser.py:106-109 | none exactly when every name is present; otherwise the first absent one |
| InputParser.AssertAllPredecessorsExist | bayesian_inference/input_parser/input_parser.py:94-109 | passes exactly when every predecessor is a key of the network; otherwise it names the first absent one |
| InputParser.FirstMissingKey | bayesian_inference/input_parser/input_parser.py:126-130 | none exactly when every tuple's key is in the table; otherwise the key of the first missing tuple in product order |
| InputParser.AssertAllProbabilitiesExist | bayesian_inference/input_parser/input_parser.py:111-130 | passes exactly when every tuple of the product has a row; otherwise it names the node and the first missing key |
| InputParser.ValueLists | bayesian_inference/input_parser/input_parser.py:57-58 | the predecessors' value lists in order; an unknown predecessor or a missing field is a `KeyError` |
| InputParser.ReadNode | bayesian_inference/input_parser/input_parser.py:53-58 | the description is read, in the source's order of dictionary reads, before any check; each missing read is a `KeyError` |
| InputParser.ValidateAndParseNode | bayesian_inference/input_parser/input_parser.py:50-72 | a loaded node carries the name, the fields, the normalised table and the parents' value lists followed by its own. It has a value and a row for every tuple of the product. An unknown name or a missing value list is a `KeyError`. The missing-field and missing-predecessor errors never arise |
| InputParser.LoadableIffOk | bayesian_inference/input_parser/input_parser.py:50-72 | a node loads exactly when its description and its predecessors' are complete and its table covers the product |
| InputParser.Collect | bayesian_inference/input_parser/input_parser.py:43-48 | all values in order when every result succeeds; otherwise the first failing result's error |
| InputParser.CollectPrefixErr | bayesian_inference/input_parser/input_parser.py:44-46 | once a prefix fails, the whole list fails the same way |
| InputParser.NodeResults | bayesian_inference/input_parser/input_parser.py:44-45 | one outcome per network key, in key order |
| InputParser.FromDict | bayesian_inference/input_parser/input_parser.py:41-48 | the loop returns the nodes of every key in key order, or the first key's error |
| InputParser.CoveredProbabilityTotal | bayesian_inference/input_parser/input_parser.py:111-130 | a node whose table covers the product answers a lookup for every context of declared values |
| InputParser.LoadedProbabilityTotal | bayesian_inference/input_parser/input_parser.py:50-72 | every loaded node answers a lookup for every context of declared values |
| LegacyInputParser.MapOf | src/input_parser/input_parser.py:49 | the dictionary's keys are exactly the entries' keys |
| LegacyInputParser.MapOfValue | src/input_parser/input_parser.py:49 | in a dictionary every entry keeps its value |
| LegacyInputParser.NormalKeyOfNormal | src/input_parser/input_parser.py:55-56 | a normal key has no blank; a key is its own normal form exactly when it has none |
| LegacyInputParser.InPlaceNormalised | src/input_parser/input_parser.py:54-58 | definition of the rewriting loop's outcome: `RuntimeError` when some key has a blank, the table untouched otherwise; meaning given by `LegacyInputParser.NormaliseInPlace` |
| LegacyInputParser.NormaliseInPlace | src/input_parser/input_parser.py:54-58 | the loop that stores and deletes keys of the dictionary it iterates over, run on CPython's dictionary for any resize schedule, raises `RuntimeError` exactly when some key has a blank, and otherwise ends with the table unchanged |
| LegacyInputParser.Advance | src/input_parser/input_parser.py:54 | a step of the iteration raises only after a rewrite, ends normally only when no key has a blank and the dictionary is the table, and otherwise returns the item under the cursor |
| LegacyInputParser.Kept | src/input_parser/input_parser.py:55-56 | an item whose key has no blank leaves the dictionary alone and keeps the loop's invariant |
| LegacyInputParser.Rewritten | src/input_parser/input_parser.py:55-58 | storing the blank-free key and deleting the old one keeps the loop's invariant, with the iteration now bound to raise |
| LegacyInputParser.SlotsFacts | src/input_parser/input_parser.py:49 | the entry array of a decoded table is a dictionary of the table's size holding the table |
| LegacyInputParser.BlankFreeNormalised | src/input_parser/input_parser.py:54-58 | without blanks the untouched table is the comprehension's table |
| LegacyInputParser.BlankKeyRaises | src/input_parser/input_parser.py:54-58 | a table with one key holding a blank stops the older loader with `RuntimeError`, while the comprehension stores the value under the blank-free key |
| LegacyInputParser.SpacedKeyRaises | src/input_parser/input_parser.py:54-58 | the table `{"(1, 0)": 0.3}` raises in the older loader and becomes `{"(1,0)": 0.3}` in the current one |
| LegacyInputParser.SharedFormRaises | src/input_parser/input_parser.py:54-58 | a key with a blank next to its blank-free form also raises, while the current loader keeps the later value |
| LegacyInputParser.LegacyNode | src/input_parser/input_parser.py:44-67 | definition of the older node loader: the same reads, the in-place rewrite, then the same validators; meaning given by `LegacyInputParser.LegacyNodeAgrees` |
| LegacyInputParser.ValidateAndParseNodeInPlace | src/input_parser/input_parser.py:44-67 | the older node loader, running the rewriting loop, computes `LegacyNode` |
| LegacyInputParser.LegacyNodeAgrees | src/input_parser/input_parser.py:44-67 | the older node loader fails where the current one fails before the rewrite; after the reads it raises `RuntimeError` exactly when a key of its table has a blank, and otherwise loads the current loader's node |
| LegacyInputParser.LegacyResults | src/input_parser/input_parser.py:38-40 | one older outcome per network key, in key order |
| LegacyInputParser.Parse | src/input_parser/input_parser.py:32-42 | the older loop returns every key's node in key order, or the first key's error |
| LegacyInputParser.LegacyParseAgrees | src/input_parser/input_parser.py:32-67 | without a key holding a blank, the two loaders load the same nodes or fail alike; whenever the older one loads, no listed node's table has such a key |
| PyDict.Step | src/input_parser/input_parser.py:54 | one `next` of an items iterator: `RuntimeError` once the size changed or once it meets an item after returning as many as the dictionary had; otherwise the next live slot |
| PyDict.IndexOf | src/input_parser/input_parser.py:57-58 | the slot holding a key, or the array's end when it is absent |
| PyDict.CompactIndex | src/input_parser/input_parser.py:57 | a resize moves each key forward and keeps present keys present and absent ones absent |
| PyDict.CompactDistinct | src/input_parser/input_parser.py:57 | a resize keeps the keys distinct |
| PyDict.RewriteStep | src/input_parser/input_parser.py:57-58 | storing the blank-free key and deleting the item's key shrinks the dictionary when the new key was present; otherwise the size stays, one slot more than the keys, all live from the cursor on |
| PyDict.StoreExisting | src/input_parser/input_parser.py:57-58 | a store over a present key keeps the slots and a delete then shrinks the size by one |
| PyDict.StoreNew | src/input_parser/input_parser.py:57-58 | a store of a new key without resize appends a slot and the delete keeps the size |
| PyDict.StoreNewResized | src/input_parser/input_parser.py:57-58 | a store of a new key after a resize leaves exactly one slot more than the keys, all live from the cursor on |
| Inference.Infer | bayesian_inference/entity/bayesian_network.py:253-316 | definition of `_probability_inference`; meaning given by `Inference.InferLocal`, `Conditioning.FactorOut` and `Inference.DropBarren` |
| Inference.Plus | bayesian_inference/entity/bayesian_network.py:299-301 | the sum of two results succeeds exactly when both do; otherwise it carries the first error |
| Inference.Chain | bayesian_inference/entity/bayesian_network.py:287-312 | the product of two results succeeds exactly when both do; otherwise it carries the first error |
| Inference.Relevant | bayesian_inference/entity/bayesian_network.py:283-312 | every factor's name is among the names an order reads |
| Inference.ProbabilityLocal | bayesian_inference/entity/network_node.py:73-75 | a node's lookup reads only its parents and its own name |
| Inference.InferLocal | bayesian_inference/entity/bayesian_network.py:253-316 | evaluating an order reads only its relevant names from the context |
| Inference.PlusChain | bayesian_inference/entity/bayesian_network.py:299-301 | a factor common to two summands multiplies out |
| Inference.SumOverScaled | bayesian_inference/entity/bayesian_network.py:295-301 | summing a name the rest ignores scales the rest by the node's row sum |
| Inference.BarrenFirst | bayesian_inference/entity/bayesian_network.py:295-301 | a hidden factor in front, which nothing after it reads and whose rows sum to 1, changes nothing |
| Inference.DropBarren | bayesian_inference/entity/bayesian_network.py:350-370 | pruning: a hidden factor that no later factor reads, with normalised rows and bound parents, can be dropped from anywhere in the order |
| Inference.ParentLinks | bayesian_inference/entity/bayesian_network.py:368 | a link from every node to each of its predecessors, and no other links |
| Inference.AncestorsLeast | bayesian_inference/entity/bayesian_network.py:350-370 | the ancestors hold the seeds, are closed under predecessors and lie inside every such closed set |
| Inference.Traverse | bayesian_inference/entity/bayesian_network.py:363-368 | definition of the depth-first traversal; meaning given by `Inference.TraverseSound` |
| Inference.TraverseSound | bayesian_inference/entity/bayesian_network.py:363-368 | the depth-first traversal stays inside any predecessor-closed set; on success the needed set is closed, and a `KeyError` names a predecessor that is no node |
| Inference.StepSound | bayesian_inference/entity/bayesian_network.py:365-368 | visiting a new node keeps the traversal's frontier invariant |
| Inference.EliminateDownSound | bayesian_inference/entity/bayesian_network.py:360-368 | the outer loop over the reversed topology keeps the needed set inside the seeds' ancestors and closed |
| Inference.Eliminate | bayesian_inference/entity/bayesian_network.py:350-370 | definition of `_eliminate_unnecessary_variables`; meaning given by `Inference.EliminateSound` |
| Inference.EliminateSound | bayesian_inference/entity/bayesian_network.py:350-370 | `_eliminate_unnecessary_variables` succeeds exactly when every ancestor of the needed names is a node; then it returns exactly those ancestors. Otherwise the `KeyError` names a non-node ancestor |
| Inference.InTopologyOrderMembers | bayesian_inference/entity/bayesian_network.py:342-347 | the sort keeps exactly the purified names the topology lists |
| Inference.InTopologyOrderSorted | bayesian_inference/entity/bayesian_network.py:342-347 | the sorted names appear in topology order |
| Inference.DecideCalculationOrder | bayesian_inference/entity/bayesian_network.py:329-348 | one factor per purified name, sorted by topology position. A needed name carries its value; a hidden name is summed out |
| Inference.NeededMap | bayesian_inference/entity/bayesian_network.py:226 | `{v.name: v}` has exactly the variables' names as keys |
| Inference.NeededMapDistinct | bayesian_inference/entity/bayesian_network.py:226 | with distinct names, every variable is found under its own name |
| Inference.QueryNames | bayesian_inference/entity/bayesian_network.py:238 | exactly the names of the variables without a value |
| Inference.QueryNamesOfValued | bayesian_inference/entity/bayesian_network.py:238 | all-valued variables have no query names |
| Inference.QueryValues | bayesian_inference/entity/bayesian_network.py:239-240 | the value lists of the named nodes in order; a `KeyError` exactly when a name is no node |
| Inference.PairsContext | bayesian_inference/entity/bayesian_network.py:246 | the context's keys are the pairs' names |
| Inference.Pairs | bayesian_inference/entity/bayesian_network.py:246 | `zip` pairs position by position, as long as the shorter list |
| Inference.KeysOf | bayesian_inference/entity/bayesian_network.py:245-248 | one table key per combination, in order |
| Inference.TabulateOk | bayesian_inference/entity/bayesian_network.py:245-249 | the table loop fails exactly when some combination's evaluation does |
| Inference.TabulateErr | bayesian_inference/entity/bayesian_network.py:245-249 | the loop fails with the error of the first failing combination |
| Inference.TabulateTable | bayesian_inference/entity/bayesian_network.py:245-249 | on success every combination's key holds the probability of its context, and the table has no other keys |
| Inference.Joint | bayesian_inference/entity/bayesian_network.py:210-251 | definition of `_calculate_joint_probability`; meaning given by `Inference.JointFromSingle`, `Inference.JointFromTable` and `Conditioning.ParentsKnownJoint` |
| Inference.JointFromSingle | bayesian_inference/entity/bayesian_network.py:243-251 | the joint probability is a single number exactly when no variable lacks a value |
| Inference.JointFromTable | bayesian_inference/entity/bayesian_network.py:243-249 | with query variables, the joint probability has one entry per combination of their values, each the evaluation of that context |
| Inference.EvidenceJointSingle | bayesian_inference/entity/bayesian_network.py:203 | the evidence's joint probability is always a single number |
| Inference.Posterior | bayesian_inference/entity/bayesian_network.py:184-208 | definition of `P`, including the `AttributeError` of an int `0` numerator; meaning given by `Conditioning.PosteriorSingle`, `Conditioning.ParentsKnownPosterior`, `Conditioning.ParentsScreenOff` and `IntZeroExample.EmptyParentRaises` |
| Inference.IntJointValue | bayesian_inference/entity/bayesian_network.py:295-301 | a joint probability that Python computes as the int `0` (no query variables, and the order opens with a hidden node that has no values) is the single number 0 |
| Inference.SymbolContext | bayesian_inference/entity/bayesian_network.py:318-323 | every node's values under its name, and no other key |
| Inference.Divide | bayesian_inference/entity/bayesian_network.py:205-208 | a non-zero denominator divides the number or every entry, keeping the keys. A zero denominator is `ZeroDivisionError`, unless the table is empty |
| Inference.KeysOfSet | bayesian_inference/entity/bayesian_network.py:245-248 | the table keys are the pairs of exactly the product's combinations |
| Conditioning.FactorOut | bayesian_inference/entity/bayesian_network.py:302-312 | a known factor whose parents are bound before it, and that nothing after reads, multiplies the evaluation by its table entry |
| Conditioning.OrderInsert | bayesian_inference/entity/bayesian_network.py:329-348 | adding one name to the purified set inserts its factor at its topology position and leaves the rest in order |
| Conditioning.ContextCons | bayesian_inference/entity/bayesian_network.py:226 | the context of evidence `[q] + es` is that of `es` with `q`'s value added |
| Conditioning.QueryOrder | bayesian_inference/entity/bayesian_network.py:226-235 | the order for `[q] + es` is the evidence's order with `q`'s known factor inserted |
| Conditioning.QueryFactorOut | bayesian_inference/entity/bayesian_network.py:253-316 | that order evaluates to `q`'s table entry times the evidence's evaluation |
| Conditioning.JointOfValued | bayesian_inference/entity/bayesian_network.py:243-251 | the joint probability of valued variables is the evaluation of their ancestors' order, if all ancestors are nodes |
| Conditioning.ParentsKnownJoint | bayesian_inference/entity/bayesian_network.py:210-251 | adding a valued variable whose parents are all evidence, and no evidence descends from it, multiplies the joint by its table entry |
| Conditioning.ParentsKnownPosterior | bayesian_inference/entity/bayesian_network.py:184-208 | `P(X=x | E)`, where `E` fixes every parent of `X` and no evidence descends from `X`, is `X`'s table row for those parent values |
| Conditioning.ParentsScreenOff | bayesian_inference/entity/unit_test.py:455-463 | conditional independence: two evidence lists that agree on a variable's parents give it the same posterior, however else they differ |
| Conditioning.PosteriorSingle | bayesian_inference/entity/bayesian_network.py:196-208 | `P` on a parsed query with single joint numbers is their quotient, unless the numerator is the int `0`, which fails the `float` test and raises `AttributeError` at `.items()` |
| Conditioning.ParentsKnownFloat | bayesian_inference/entity/bayesian_network.py:205-208 | when the evidence's joint is not 0, the numerator of such a query is a float, so `P` divides |
| Conditioning.IntJointOfValued | bayesian_inference/entity/bayesian_network.py:243-251 | for valued variables whose ancestors are nodes, the joint is the int `0` exactly when their ancestors' order opens with a hidden node that has no values |
| Conditioning.ParsedValued | bayesian_inference/entity/bayesian_network.py:196-197 | a query parsed against the network's symbols names only nodes, each once, and all evidence carries values |
| Conditioning.DivideCancel | bayesian_inference/entity/bayesian_network.py:205-206 | dividing by a non-zero denominator undoes multiplying by it |
| BayesNet.CountZero | bayesian_inference/entity/bayesian_network.py:130-135 | a name occurs zero times exactly when it is absent |
| BayesNet.RemoveFirstCuts | bayesian_inference/entity/bayesian_network.py:175-176 | `list.remove` cuts the list at the first occurrence, and leaves a list without one unchanged |
| BayesNet.RemoveFirstMultiset | bayesian_inference/entity/bayesian_network.py:175-176 | `list.remove` takes exactly one occurrence out, if there is one |
| BayesNet.ParentEdges | bayesian_inference/entity/bayesian_network.py:130-142 | exactly an edge from each parent in the graph other than the node itself |
| BayesNet.ChildEdges | bayesian_inference/entity/bayesian_network.py:154-156 | exactly an edge to each child waiting for the node |
| BayesNet.DeferSpec | bayesian_inference/entity/bayesian_network.py:130-135 | deferral appends the node once per mention to each missing parent's list, and touches no other entry |
| BayesNet.AddSpec | bayesian_inference/entity/bayesian_network.py:56-90 | definition of `add_node` on the state as a value; meaning given by `BayesNet.AddOutcome`, `BayesNet.AddLinks` and `BayesNet.AddKeepsInvariant` |
| BayesNet.AddOutcome | bayesian_inference/entity/bayesian_network.py:56-90 | an add succeeds exactly for a new name whose edges keep the graph acyclic. A refused add changes nothing but the warning count, which grows only for a cycle |
| BayesNet.AddLinks | bayesian_inference/entity/bayesian_network.py:84-88 | a successful add files the node, realises parent and child edges and defers the missing parents. It makes no self-loop, drops the node's pending entry and warns once per self-mention |
| BayesNet.AddKeepsInvariant | bayesian_inference/entity/bayesian_network.py:56-112 | every add keeps nodes named, nodes as vertices, edges between vertices, and the graph acyclic |
| BayesNet.AddAllKeepsInvariant | bayesian_inference/entity/bayesian_network.py:45-54 | every network built by the constructor keeps the invariant |
| BayesNet.RemoveSpec | bayesian_inference/entity/bayesian_network.py:160-182 | definition of `remove_node` on the state as a value; meaning given by `BayesNet.RemoveOutcome` and `BayesNet.RemoveKeepsInvariant` |
| BayesNet.RemoveOutcome | bayesian_inference/entity/bayesian_network.py:160-182 | a removal succeeds exactly for a filed name and then changes nothing else. The name leaves the nodes and the graph with its edges, the pending keys stay, and each list loses one occurrence |
| BayesNet.RemoveKeepsInvariant | bayesian_inference/entity/bayesian_network.py:160-182 | removal keeps the invariant |
| BayesNet.LinkedState | bayesian_inference/entity/bayesian_network.py:84-88 | the linking steps in source order produce exactly the added state |
| BayesNet.DeferKeepsOwnEntry | bayesian_inference/entity/bayesian_network.py:132-135 | deferral never touches the pending entry of a vertex, so the node's waiting children are unchanged by it |
| BayesNet.ParentEdgesIgnoreNode | bayesian_inference/entity/bayesian_network.py:137-141 | whether the node is already a vertex does not change its parent edges |
| BayesNet.BayesianNetwork.constructor | bayesian_inference/entity/bayesian_network.py:45-54 | the network is the empty one with every initial node added in order, and it satisfies the invariant |
| BayesNet.BayesianNetwork.AddNode | bayesian_inference/entity/bayesian_network.py:56-90 | the new state and the flag are those of `AddSpec`, and the invariant is kept |
| BayesNet.BayesianNetwork.GuaranteeGraphHasNoCycle | bayesian_inference/entity/bayesian_network.py:92-112 | the trial on a copy reports whether the node's edges would close a cycle, and changes nothing |
| BayesNet.BayesianNetwork.AddPredecessorEdges | bayesian_inference/entity/bayesian_network.py:114-142 | the target graph gains exactly the parent edges. With updates on, missing parents are deferred and self-mentions warned; with updates off, nothing else changes |
| BayesNet.BayesianNetwork.AddExpectedEdgesIfExist | bayesian_inference/entity/bayesian_network.py:144-158 | the target graph gains exactly the waiting-child edges; with updates on, the pending entry is deleted |
| BayesNet.BayesianNetwork.RemoveNode | bayesian_inference/entity/bayesian_network.py:160-182 | the new state and the flag are those of `RemoveSpec`, and the invariant is kept |
| BayesNet.BayesianNetwork.EliminateUnnecessaryVariables | bayesian_inference/entity/bayesian_network.py:350-370 | the loop computes the pruning function, whose meaning `EliminateSound` gives |
| BayesNet.BayesianNetwork.CalculateJointProbability | bayesian_inference/entity/bayesian_network.py:210-251 | the method computes the joint probability over the given topological order, and reports whether Python's result is the int `0` |
| BayesNet.BayesianNetwork.TabulateAll | bayesian_inference/entity/bayesian_network.py:244-249 | the loop over the combinations builds the table that `TabulateTable` describes |
| BayesNet.BayesianNetwork.P | bayesian_inference/entity/bayesian_network.py:184-208 | the method computes the posterior of the query over the given topological order, raising `AttributeError` on an int `0` numerator |
| IntZeroExample.EmptyParentRaises | bayesian_inference/entity/bayesian_network.py:184-208 | with `h` valueless and the only parent of `x`, `P(x = v)` raises `AttributeError` |
| EvaluationSteps.KnownStep | bayesian_inference/entity/bayesian_network.py:302-312 | a known factor in front binds its value and multiplies its entry with the rest |
| EvaluationSteps.HiddenStep | bayesian_inference/entity/bayesian_network.py:295-301 | a hidden factor over two values adds the order with each value known |
| EvaluationSteps.LastStep | bayesian_inference/entity/bayesian_network.py:276-281 | a known factor last is its entry times the 1 of the empty order |
| EvaluationSteps.PairStep | bayesian_inference/entity/bayesian_network.py:276-312 | a hidden factor and a known one evaluate to the sum over the hidden values of the two entries' product |
| EvaluationSteps.KnownPair | bayesian_inference/entity/bayesian_network.py:302-312 | a known factor in front of such a pair multiplies its entry with the pair's value |
| EvaluationSteps.TripleStep | bayesian_inference/entity/bayesian_network.py:276-312 | two hidden factors and a known one evaluate to the double sum of the three entries' product |
| AlarmNetwork.BurglaryProbability | bayesian_inference/entity/unit_test.py:247-250 | the burglary node answers its table entry for the context's value |
| AlarmNetwork.EarthquakeProbability | bayesian_inference/entity/unit_test.py:251-254 | the earthquake node answers its table entry |
| AlarmNetwork.AlarmProbability | bayesian_inference/entity/unit_test.py:255-260 | the alarm node answers the entry for the burglary, earthquake and alarm values |
| AlarmNetwork.JohnProbability | bayesian_inference/entity/unit_test.py:261-264 | John's node answers the entry for the alarm and call values |
| AlarmNetwork.MaryProbability | bayesian_inference/entity/unit_test.py:265-269 | Mary's node answers the entry for the alarm and call values |
| AlarmNetwork.AlarmFacts | bayesian_inference/entity/unit_test.py:246-274 | the test network has the five nodes with their parents, two values each, and every lookup gives its table entry |
| AlarmExample.AlarmShape | bayesian_inference/entity/unit_test.py:246-274 | the topology `Burglary, Earthquake, Alarm, JohnCalls, MaryCalls` lists every node once with parents first |
| AlarmExample.AlarmGivenCauses | bayesian_inference/entity/unit_test.py:471-476 | `P(Alarm = z | Burglary = x, Earthquake = y)` is the alarm's table entry; `0.95` for all true and `0.999` for all false |
| AlarmExample.AlarmAlone | bayesian_inference/entity/bayesian_network.py:210-251 | the joint probability of the alarm alone sums both causes out: `0.002516442` for true, `0.997483558` for false |
| AlarmExample.MaryScreenedOff | bayesian_inference/entity/unit_test.py:455-463 | `P(MaryCalls = m | JohnCalls = j, Alarm = a, Earthquake = y, Burglary = x)` equals `P(MaryCalls = m | Alarm = a)`, and both are Mary's table entry |
| NetworkExamples.DuplicateRefused | bayesian_inference/entity/unit_test.py:80-92 | a second add of the same node is refused and changes nothing; the first leaves one vertex and two pending keys |
| NetworkExamples.SelfParentWarned | bayesian_inference/entity/unit_test.py:94-106 | a node listing itself as a parent makes no self-loop, waits for its other parents and logs one warning |
| NetworkExamples.SecondDeferral | bayesian_inference/entity/unit_test.py:108-130 | deferring `I(D, L, K)` appends to `D`'s list and opens lists for `L` and `K` |
| NetworkExamples.WaitingChildLinked | bayesian_inference/entity/unit_test.py:108-130 | `I` gets the edge to its waiting child `G`, giving one edge and three pending keys |
| NetworkExamples.ChainBuilt | bayesian_inference/entity/unit_test.py:132-163 | building a chain: `b` waits for `a`, and `c` is linked below `b` |
| NetworkExamples.CycleRefused | bayesian_inference/entity/unit_test.py:153-156 | `a` with parent `c`, while `b` waits for `a`, would close a cycle: refused with one warning |
| NetworkExamples.ChainCompleted | bayesian_inference/entity/unit_test.py:160-163 | `a` without the parent is accepted and realises the waiting edge to `b` |
| NetworkExamples.AbsentNotRemoved | bayesian_inference/entity/unit_test.py:176-177 | removing an unknown name returns false and changes nothing |
| NetworkExamples.ParentRemoved | bayesian_inference/entity/unit_test.py:170-182 | removing `D` from the sample network takes out its edge; `G` is not deferred again |
| NetworkExamples.RemovedFromWaitingLists | bayesian_inference/entity/unit_test.py:197-222 | removing a waiting child takes it out of every waiting list |
| NetworkExamples.EmptyWaitingListKept | bayesian_inference/entity/unit_test.py:224-235 | a waiting list that loses its last child stays, empty |
| LegacyNetwork.WithoutVertex | src/entity/bayesian_network.py:84-85 | the vertex, if present, goes with every edge touching it; the node map and pending index stay |
| LegacyNetwork.LinkEdges | src/entity/bayesian_network.py:58-63 | exactly an edge from each parent in the graph, the node itself included |
| LegacyNetwork.AddSpec | src/entity/bayesian_network.py:33-68 | definition of the older `add_node` on the state as a value; meaning given by `LegacyNetwork.AddRefused`, `LegacyNetwork.AddLinks` and `LegacyNetwork.AddKeepsInvariant` |
| LegacyNetwork.AddRefused | src/entity/bayesian_network.py:47-51 | an add is refused only when the graph already had a cycle. The name is then no vertex and no edge touches it, while the nodes and the pending index stay |
| LegacyNetwork.AddLinks | src/entity/bayesian_network.py:55-68 | on an acyclic graph the node is filed over any namesake. Parent edges, self included, and child edges are realised, and missing parents deferred. The node's pending entry goes |
| LegacyNetwork.SelfParentLoop | src/entity/bayesian_network.py:57-63 | a node listing itself as a parent gets a self-loop |
| LegacyNetwork.SelfLoopCycle | src/entity/bayesian_network.py:87-97 | a self-loop is a cycle for the cycle test |
| LegacyNetwork.SelfLoopBlocks | src/entity/bayesian_network.py:47-51 | while a self-loop stands, every add of another name is refused |
| LegacyNetwork.AddKeepsInvariant | src/entity/bayesian_network.py:33-68 | adds keep nodes named and edges between vertices |
| LegacyNetwork.AddAllKeepsInvariant | src/entity/bayesian_network.py:22-31 | every network built by the constructor keeps that invariant |
| LegacyNetwork.RemoveSpec | src/entity/bayesian_network.py:70-85 | definition of the older `remove_node` on the state as a value; meaning given by `LegacyNetwork.RemoveOutcome` and `LegacyNetwork.RemoveKeepsInvariant` |
| LegacyNetwork.RemoveOutcome | src/entity/bayesian_network.py:70-85 | removal always takes the name out of the node map. It raises `AttributeError` exactly when the name occurs inside a pending key; otherwise the vertex goes with its edges |
| LegacyNetwork.WaitedForRaises | src/entity/bayesian_network.py:80-82 | removing a parent that children are waiting for always raises |
| LegacyNetwork.RemoveKeepsInvariant | src/entity/bayesian_network.py:70-85 | removal keeps the invariant, whether it returns or raises |
| LegacyNetwork.AddWithParentsPresent | src/entity/bayesian_network.py:55-68 | a node nobody waits for, whose parents are all present, adds exactly its parent edges |
| LegacyNetwork.AddWaitingForOne | src/entity/bayesian_network.py:57-61 | a node nobody waits for, whose one parent is missing, waits for it |
| LegacyNetwork.SampleNetwork | src/entity/unit_test.py:156-159 | the sample `D`, `I`, `G(D,I)`, `K` gives 4 nodes, 4 vertices, 2 edges and no pending key |
| LegacyNetwork.CycleAccepted | src/entity/bayesian_network.py:47-68 | `b[a]`, `c[b]`, `a[c]` are all accepted and leave the cycle `a -> b -> c -> a` in the graph |
| LegacyNetwork.CycleClosed | src/entity/bayesian_network.py:55-68 | the last add realises both `c -> a` and the waiting edge `a -> b` |
| LegacyNetwork.BayesianNetwork.constructor | src/entity/bayesian_network.py:22-31 | the network is the empty one with every initial node added, and keeps the invariant |
| LegacyNetwork.BayesianNetwork.AddNode | src/entity/bayesian_network.py:33-68 | the new state is that of the older `AddSpec` |
| LegacyNetwork.BayesianNetwork.LinkPredecessors | src/entity/bayesian_network.py:57-63 | the first loop adds exactly the parent edges and defers the missing parents |
| LegacyNetwork.BayesianNetwork.LinkWaitingChildren | src/entity/bayesian_network.py:65-68 | the second loop adds exactly the waiting-child edges, and the `del` drops the entry |
| LegacyNetwork.BayesianNetwork.GuaranteeGraphHasNoCycle | src/entity/bayesian_network.py:87-97 | the test reports whether the graph already has a cycle; if so the vertex goes again |
| LegacyNetwork.BayesianNetwork.RemoveNode | src/entity/bayesian_network.py:70-85 | the new state and the outcome are those of the older `RemoveSpec` |

## Left out

- Logging: warnings are counted, in `NetState.warnings`; the messages and debug lines are not modelled.
- `networkx.topological_sort` leaves ties between unrelated vertices open. The topology is
  therefore a parameter of `Joint` and `P`, required to list every node once (`Distinct`).
  `Conditioning` additionally assumes that parents come first and that the rows are
  normalised (`ParentsFirst`, `Normalised`), as hypotheses of its theorems.
- Floating point: probabilities are Dafny reals, so sums and products are exact, and the tolerance
  of `assertAlmostEqual` has no counterpart. `AlarmExample` derives the answers of the second and
  fourth end-to-end tests and the alarm's marginal exactly. The answers of the first and third
  (bayesian_inference/entity/unit_test.py:445-453 and 465-469) are not derived; they are more
  sums of the same products.
- `Inference.IntZero`: table entries are taken to be floats, as the loader's tests write them. A
  JSON entry written as an integer (`1`) is a Python int, and a product of ints stays an int; that
  distinction is not modelled, so only the int `0` of an empty sum is tracked.
- `AlarmExample.AlarmGivenCauses` and `AlarmExample.MaryScreenedOff` are proved for the order
  `AlarmNetwork.Topology` (Burglary before Earthquake). The tests record networkx's order as
  Earthquake first; the results for that order are not derived, although
  `Conditioning.ParentsKnownPosterior` holds for every parents-first order.
- The keys of the per-context table are `str(dict)` texts in the source. Here they are the
  (name, value) pair lists the dictionary is printed from (`Inference.Pairs`).
- Regular expressions: the grammar is recognised by splitting on `|`, `,` and `=`, which cannot
  occur in a word. `\s` and `str.strip` cover the ten ASCII blanks (space, `\t` to `\r`, and `\x1c` to `\x1f`),
  and `\w` ASCII letters, digits and `_`. The non-ASCII members of both classes are not modelled.
- JSON decoding (`json.load`) and file I/O: the loaders start from the decoded object, whose key
  order is kept in `Network.order`.
- `__repr__`, `__str__` (a `tabulate` table) and `__hash__` of the node, and the module-level
  `P` lambda, are presentation only and not modelled.
- `LegacyInputParser.NormaliseInPlace`: the dictionary modelled is that of CPython 3.8 and later.
  `setup.py` also admits 3.7.3, whose items iterator lacks the changed-keys check; there a
  rewrite can make the loop skip an item or end without error. That interpreter is not modelled.
- `LegacyInputParser.NormaliseInPlace`: which stores find the table full depends on its
  allocation history, which a decoded JSON object does not fix. The resize schedule is therefore
  a parameter, and the outcome is proved for every schedule.
- `LegacyInputParser.ValidateAndParseNodeInPlace` and `LegacyInputParser.Parse` require
  `TablesAreDictionaries`: a table is the items of a decoded dictionary, so its keys are distinct.
- `NetworkNode.Probability`: Python binds the context in `probability(**context)` as keyword
  arguments. A node named `self` therefore raises `TypeError`; the model looks the name up
  like any other.
- `Inference.Infer`: a node named `self`, `calculation_order` or `tab_stop` makes the keyword
  binding of `_probability_inference(..., **context)` raise `TypeError`, or binds `tab_stop` to a
  value string that `'\t' * tab_stop` then rejects. Names are plain keys here, so these
  `TypeError`s are not modelled.
- `BayesNet.BayesianNetwork.CalculateJointProbability`: it inherits the `TypeError` for the three
  reserved names from `_probability_inference`, which is not modelled (see `Inference.Infer`).
- `BayesNet.BayesianNetwork.P`: the same `TypeError` for the three reserved names is not modelled.
- The older unit tests expect `add_node` and `remove_node` to return a bool. The older code
  returns nothing, so those assertions do not describe the older code; the model follows the code.
- `InvalidProbabilityFactor`: `_decide_calculation_order` never builds a factor with both a value
  and the sum-out flag. The error branch of `Inference.Infer` is modelled but unreachable from `P`.
- `BayesNet.BayesianNetwork.CalculateJointProbability` and `BayesNet.BayesianNetwork.P` take the
  topological order as a parameter instead of computing it, for the reason above.

## Findings

| source | as written | input that shows it | evidently intended | confidence | as-written member | corrected member |
|---|---|---|---|---|---|---|
| src/entity/bayesian_network.py:43-68 | the cycle test runs after the bare vertex is inserted and before the node's edges exist, so it only fires when the graph already had a cycle | `BayesianNetwork([B(preds A), C(preds B), A(preds C)])` accepts all three and leaves the cycle A→B→C→A | test the graph with the node's edges added, and refuse the node if they close a cycle | high, not executed | LegacyNetwork.CycleAccepted | BayesNet.AddKeepsInvariant |
| src/entity/bayesian_network.py:80-82 | the purge loops over the keys of the pending index, which are strings. `node_name in key` is a substring test, and `key.remove` raises `AttributeError` | `BayesianNetwork([G(preds D, I)])`, then `remove_node("D")` | remove one occurrence of the name from each pending list | high, not executed | LegacyNetwork.WaitedForRaises | BayesNet.RemoveOutcome |
| src/entity/bayesian_network.py:57-63 | a parent equal to the node is already a vertex, so the node gets a self-loop, and every add of another name is refused while the loop stands | `add_node(G(preds G))` on an empty network, then an `add_node` of any other name | no self-edge, and a warning | high, not executed | LegacyNetwork.SelfLoopBlocks | BayesNet.AddLinks |
| src/input_parser/input_parser.py:54-58 | the key normalisation stores and deletes keys of the dictionary it iterates over. A store over a present key shrinks the dictionary; a store of a new key appends an item that the iterator meets after returning as many items as the dictionary had. Either way CPython 3.8 and later raise `RuntimeError` once one key has a blank | a table `{"(1, 0)": 0.3}` | rebuild the table with a comprehension, as the current loader does | high, not executed | LegacyInputParser.SpacedKeyRaises | InputParser.NormaliseKeys |
