/** The older loader. It reads a node and validates it exactly as the
    current one does, but it normalises the table keys by rewriting the
    table while it iterates over it: every key with a blank is stored
    again under its blank-free form and then deleted.

    The loop runs on CPython's dictionary (`PyDict`, CPython 3.8 and
    later). A store over a key that is already there shrinks the
    dictionary, and the next step of the iteration raises `RuntimeError`.
    A store of a new key appends a slot, which the iterator reaches after
    it has returned as many items as the dictionary had, and then it
    raises `RuntimeError` too. So the loop completes only when no key has
    a blank. A table here is the items of a decoded dictionary, so its
    keys are distinct. */
module LegacyInputParser {
  import opened Common
  import opened NetworkNode
  import opened InputParser
  import opened Strings
  import opened PyDict

  /** The entries describe a dictionary: no key occurs twice. */
  predicate DistinctKeys(entries: seq<(string, real)>)
  {
    forall i, j :: 0 <= i < j < |entries| ==> entries[i].0 != entries[j].0
  }

  /** The dictionary that the entries describe. */
  function MapOf(entries: seq<(string, real)>): (r: map<string, real>)
    ensures forall k :: k in r <==> exists i :: 0 <= i < |entries| && entries[i].0 == k
  {
    if |entries| == 0 then map[]
    else
      var init := entries[..|entries| - 1];
      assert forall i :: 0 <= i < |init| ==> init[i] == entries[i];
      MapOf(init)[entries[|entries| - 1].0 := entries[|entries| - 1].1]
  }

  /** In a dictionary every entry keeps its value. */
  lemma {:induction false} MapOfValue(entries: seq<(string, real)>, i: nat)
    requires DistinctKeys(entries)
    requires i < |entries|
    ensures entries[i].0 in MapOf(entries) && MapOf(entries)[entries[i].0] == entries[i].1
    decreases |entries|
  {
    var init := entries[..|entries| - 1];
    if i < |entries| - 1 {
      assert forall j :: 0 <= j < |init| ==> init[j] == entries[j];
      MapOfValue(init, i);
    }
  }

  /** A blank-free text is its own normal form. */
  lemma NormalKeyOfNormal(key: string)
    ensures ' ' !in NormalKey(key)
    ensures ' ' !in key ==> NormalKey(key) == key
    ensures ' ' in key ==> NormalKey(key) != key
  {
  }

  // ---------------------------------------------------------------------
  // The rewriting loop

  /** Some key of the table holds a blank. */
  predicate HasBlankKey(entries: seq<(string, real)>)
  {
    exists i | 0 <= i < |entries| :: ' ' in entries[i].0
  }

  /** No key before position `k` holds a blank. */
  predicate BlankFreeBefore(entries: seq<(string, real)>, k: nat)
  {
    forall j | 0 <= j < k && j < |entries| :: ' ' !in entries[j].0
  }

  lemma BlankFreeNext(entries: seq<(string, real)>, k: nat)
    requires BlankFreeBefore(entries, k) && k < |entries| && ' ' !in entries[k].0
    ensures BlankFreeBefore(entries, k + 1)
  {
  }

  lemma BlankFreeAll(entries: seq<(string, real)>, k: nat)
    requires BlankFreeBefore(entries, k) && k >= |entries|
    ensures !HasBlankKey(entries)
  {
  }

  /** The outcome of the rewriting loop: `RuntimeError` as soon as one key
      has a blank, and otherwise the table untouched. `NormaliseInPlace`
      runs the loop on CPython's dictionary and reaches this outcome for
      every resize schedule. */
  function InPlaceNormalised(entries: seq<(string, real)>): Result<map<string, real>>
  {
    if HasBlankKey(entries) then Err(RuntimeError) else Ok(MapOf(entries))
  }

  /** The entry array of a decoded table: one live slot per entry, in
      order. */
  function Slots(entries: seq<(string, real)>): (s: seq<Slot>)
    ensures |s| == |entries| && AllLive(s)
    ensures forall i | 0 <= i < |s| :: s[i] == Some(entries[i])
  {
    seq(|entries|, i requires 0 <= i < |entries| => Some(entries[i]))
  }

  /** The entry array holds the table's dictionary. */
  lemma SlotsFacts(entries: seq<(string, real)>)
    requires DistinctKeys(entries)
    ensures DistinctLive(Slots(entries)) && Size(Slots(entries)) == |entries|
    ensures Contents(Slots(entries)) == MapOf(entries)
  {
    AllLiveSize(Slots(entries));
    SlotsContents(entries);
  }

  lemma {:induction false} SlotsContents(entries: seq<(string, real)>)
    ensures Contents(Slots(entries)) == MapOf(entries)
    decreases |entries|
  {
    if |entries| > 0 {
      var init := entries[..|entries| - 1];
      assert Slots(entries)[..|entries| - 1] == Slots(init);
      SlotsContents(init);
    }
  }

  /** `for key, value in probabilities.items()`: each key with a blank is
      stored again under its blank-free form and then deleted. `resizes`
      holds the stores, counted from 0, that find the table full and
      resize it first; which ones they are depends on the table's history
      and does not change the outcome. */
  method NormaliseInPlace(entries: seq<(string, real)>, resizes: set<nat>) returns (r: Result<map<string, real>>)
    requires DistinctKeys(entries)
    ensures r == InPlaceNormalised(entries)
  {
    var n := |entries|;
    var probabilities := Slots(entries);
    SlotsFacts(entries);
    var it := Iter(probabilities);
    var stores := 0;
    ghost var rewrote := false;
    while true
      invariant LoopState(entries, probabilities, it, rewrote)
      decreases it.left
    {
      Advance(entries, probabilities, it, rewrote);
      var next := Step(probabilities, it);
      if next.SizeChanged? || next.KeysChanged? {
        return Err(RuntimeError);
      }
      if next.Exhausted? {
        return Ok(Contents(probabilities));
      }
      var (key, value) := probabilities[next.index].value;
      var expectedForm := NormalKey(key);
      NormalKeyOfNormal(key);
      if key != expectedForm {
        var store := stores in resizes;
        Rewritten(entries, probabilities, it, rewrote, key, expectedForm, value, store);
        it := next.after;
        probabilities := SetItem(probabilities, expectedForm, value, store);
        stores := stores + 1;
        probabilities := DelItem(probabilities, key);
        rewrote := true;
      } else {
        Kept(entries, probabilities, it, rewrote);
        it := next.after;
      }
    }
  }

  /** What the loop keeps: before the first rewrite the table is untouched
      and the keys passed hold no blank; after it, some key held one, and
      while the size is back to its start the slots from the cursor on are
      live and the table has grown past its start. */
  ghost predicate LoopState(entries: seq<(string, real)>, s: seq<Slot>, it: Iterator, rewrote: bool)
  {
    var n := |entries|;
    DistinctKeys(entries) && it.used == n && DistinctLive(s) &&
    (!rewrote ==> s == Slots(entries) && it.pos + it.left == n && BlankFreeBefore(entries, it.pos)) &&
    (rewrote ==> HasBlankKey(entries)) &&
    (Size(s) != n ==> rewrote) &&
    (rewrote && Size(s) == n ==> it.pos + it.left <= n && |s| > n && it.pos <= |s| && AllLive(s[it.pos..]))
  }

  /** The loop ends in `RuntimeError` only after a rewrite, ends normally
      only before one, and otherwise yields the slot under the cursor. */
  lemma Advance(entries: seq<(string, real)>, s: seq<Slot>, it: Iterator, rewrote: bool)
    requires LoopState(entries, s, it, rewrote)
    ensures var next := Step(s, it);
            (next.SizeChanged? || next.KeysChanged? ==> HasBlankKey(entries)) &&
            (next.Exhausted? ==> !HasBlankKey(entries) && Contents(s) == MapOf(entries)) &&
            (next.Yield? ==> next.index == it.pos)
  {
    var n, next := |entries|, Step(s, it);
    if Size(s) == n && it.pos < |s| {
      assert s[it.pos].Some? by {
        if rewrote {
          assert s[it.pos..][0] == s[it.pos];
        }
      }
    }
    if next.Exhausted? {
      assert !rewrote && it.pos >= n;
      BlankFreeAll(entries, it.pos);
      SlotsFacts(entries);
    }
  }

  /** A key without a blank leaves the table as it is. */
  lemma Kept(entries: seq<(string, real)>, s: seq<Slot>, it: Iterator, rewrote: bool)
    requires LoopState(entries, s, it, rewrote)
    requires Step(s, it).Yield? && Step(s, it).index == it.pos
    requires ' ' !in s[it.pos].value.0
    ensures LoopState(entries, s, Step(s, it).after, rewrote)
  {
    var n, p := |entries|, it.pos;
    if !rewrote {
      assert s[p] == Some(entries[p]);
      BlankFreeNext(entries, p);
    }
    if rewrote && Size(s) == n {
      LiveTail(s, p);
    }
  }

  /** A key with a blank is stored again under its blank-free form and
      deleted. */
  lemma Rewritten(entries: seq<(string, real)>, s: seq<Slot>, it: Iterator, rewrote: bool,
                  key: string, e: string, v: real, store: bool)
    requires LoopState(entries, s, it, rewrote)
    requires Step(s, it).Yield? && Step(s, it).index == it.pos
    requires s[it.pos] == Some((key, v)) && ' ' in key && e == NormalKey(key) && e != key
    ensures PyDict.IndexOf(SetItem(s, e, v, store), key) < |SetItem(s, e, v, store)|
    ensures LoopState(entries, DelItem(SetItem(s, e, v, store), key), Step(s, it).after, true)
  {
    var n, p, after := |entries|, it.pos, Step(s, it).after;
    if !rewrote {
      assert entries[p].0 == key;
    }
    assert Size(s) == n;
    if rewrote {
      LiveTail(s, p);
    }
    RewriteStep(s, after.pos, after.left, n, key, e, v, store);
  }

  /** Without blanks the loop leaves the table as the comprehension
      builds it. */
  lemma {:induction false} BlankFreeNormalised(entries: seq<(string, real)>)
    requires !HasBlankKey(entries)
    ensures MapOf(entries) == NormaliseKeys(entries)
    decreases |entries|
  {
    if |entries| > 0 {
      var init, last := entries[..|entries| - 1], entries[|entries| - 1];
      assert !HasBlankKey(init) by {
        forall i | 0 <= i < |init| ensures ' ' !in init[i].0 {
          assert init[i] == entries[i];
        }
      }
      BlankFreeNormalised(init);
      NormalKeyOfNormal(last.0);
    }
  }

  /** A table with one key holding a blank stops the older loader with
      `RuntimeError`, while the comprehension stores the value under the
      blank-free key. */
  lemma BlankKeyRaises(key: string, v: real)
    requires ' ' in key
    ensures InPlaceNormalised([(key, v)]) == Err(RuntimeError)
    ensures NormaliseKeys([(key, v)]) == map[NormalKey(key) := v]
  {
    assert [(key, v)][0].0 == key;
  }

  /** The same for the table `{"(1, 0)": 0.3}`. */
  lemma SpacedKeyRaises()
    ensures InPlaceNormalised([("(1, 0)", 0.3)]) == Err(RuntimeError)
    ensures NormaliseKeys([("(1, 0)", 0.3)]) == map["(1,0)" := 0.3]
  {
    var front, blank, back := "(1,", " ", "0)";
    assert ' ' !in front && ' ' !in back;
    DeleteSingle(' ', ' ');
    DeleteConcat(front, blank, ' ');
    DeleteConcat(front + blank, back, ' ');
    var key := front + blank + back;
    assert NormalKey(key) == front + back;
    assert key[3] == ' ';
    BlankKeyRaises(key, 0.3);
    assert key == "(1, 0)" && front + back == "(1,0)";
  }

  /** A table holding a key with a blank next to its blank-free form stops
      the older loader with `RuntimeError`, while the comprehension keeps
      the later value. */
  lemma SharedFormRaises(key: string, v: real, w: real)
    requires ' ' in key
    ensures InPlaceNormalised([(key, v), (NormalKey(key), w)]) == Err(RuntimeError)
    ensures NormaliseKeys([(key, v), (NormalKey(key), w)]) == map[NormalKey(key) := w]
  {
    var entries := [(key, v), (NormalKey(key), w)];
    assert entries[0].0 == key;
    NormalKeyOfNormal(key);
    NormalKeyOfNormal(NormalKey(key));
    NormaliseKeysLaterWins(entries, 1);
    assert NormaliseKeys(entries).Keys == {NormalKey(key)};
  }

  // ---------------------------------------------------------------------
  // The older loader

  /** `validate_and_parse_node(node_name, network)` of the older tree: the
      same reads, then the in-place normalisation, then the same
      validators. */
  function LegacyNode(name: string, network: Network): Result<Node>
  {
    match ReadNode(name, network)
    case Err(e) => Err(e)
    case Ok((d, lists)) =>
      match InPlaceNormalised(d.probabilities.value)
      case Err(e) => Err(e)
      case Ok(probabilities) => BuildNode(name, network, d, lists, probabilities)
  }

  /** The older `validate_and_parse_node`, running the rewriting loop with
      the resize schedule `resizes`. */
  method ValidateAndParseNodeInPlace(name: string, network: Network, resizes: set<nat>) returns (r: Result<Node>)
    requires TablesAreDictionaries(network)
    ensures r == LegacyNode(name, network)
  {
    var read := ReadNode(name, network);
    if read.Err? {
      return Err(read.error);
    }
    var (d, lists) := read.value;
    var probabilities := NormaliseInPlace(d.probabilities.value, resizes);
    if probabilities.Err? {
      return Err(probabilities.error);
    }
    r := BuildNode(name, network, d, lists, probabilities.value);
  }

  /** Every table of the network is a dictionary. */
  predicate TablesAreDictionaries(network: Network)
  {
    forall n | n in network.data && network.data[n].probabilities.Some? ::
      DistinctKeys(network.data[n].probabilities.value)
  }

  /** The two loaders read and validate alike. Once a node reads, the older
      one raises `RuntimeError` exactly when a key of its table holds a
      blank, and otherwise builds the same node. */
  lemma LegacyNodeAgrees(name: string, network: Network)
    ensures ReadNode(name, network).Err? ==> LegacyNode(name, network) == ValidateAndParseNode(name, network)
    ensures ReadNode(name, network).Ok? ==>
              LegacyNode(name, network) ==
                if HasBlankKey(network.data[name].probabilities.value)
                then Err(RuntimeError)
                else ValidateAndParseNode(name, network)
  {
    if ReadNode(name, network).Ok? && !HasBlankKey(network.data[name].probabilities.value) {
      BlankFreeNormalised(network.data[name].probabilities.value);
    }
  }

  /** The outcome of the older `validate_and_parse_node` for every key, in
      key order. */
  function LegacyResults(network: Network): (r: seq<Result<Node>>)
    ensures |r| == |network.order|
    ensures forall i :: 0 <= i < |r| ==> r[i] == LegacyNode(network.order[i], network)
  {
    seq(|network.order|, i requires 0 <= i < |network.order| => LegacyNode(network.order[i], network))
  }

  /** `InputParser.parse` of the older tree, on the decoded network: one
      node per key in key order, stopping at the first failure. The table
      of the key `k` runs on the resize schedule `resizes(k)`. */
  method Parse(network: Network, resizes: string -> set<nat>) returns (r: Result<seq<Node>>)
    requires TablesAreDictionaries(network)
    ensures r == Collect(LegacyResults(network))
  {
    var parsed: seq<Node> := [];
    for i := 0 to |network.order|
      invariant Collect(LegacyResults(network)[..i]) == Ok(parsed)
    {
      var results := LegacyResults(network);
      assert results[..i + 1][..i] == results[..i];
      var node := ValidateAndParseNodeInPlace(network.order[i], network, resizes(network.order[i]));
      assert results[..i + 1][i] == node;
      if node.Err? {
        CollectPrefixErr(results, i + 1);
        return Err(node.error);
      }
      parsed := parsed + [node.value];
    }
    assert LegacyResults(network)[..|network.order|] == LegacyResults(network);
    return Ok(parsed);
  }

  /** Where no table has a key with a blank, the older loader loads what
      the current one loads; and whenever it loads at all, no table of a
      listed node has a key with a blank. */
  lemma LegacyParseAgrees(network: Network)
    ensures (forall n | n in network.data && network.data[n].probabilities.Some? ::
               !HasBlankKey(network.data[n].probabilities.value)) ==>
              Collect(LegacyResults(network)) == Collect(NodeResults(network))
    ensures Collect(LegacyResults(network)).Ok? ==>
              forall i | 0 <= i < |network.order| ::
                network.order[i] in network.data &&
                network.data[network.order[i]].probabilities.Some? &&
                !HasBlankKey(network.data[network.order[i]].probabilities.value)
  {
    forall i | 0 <= i < |network.order|
      ensures LegacyResults(network)[i].Ok? ==>
                ReadNode(network.order[i], network).Ok? &&
                !HasBlankKey(network.data[network.order[i]].probabilities.value)
      ensures (forall n | n in network.data && network.data[n].probabilities.Some? ::
                 !HasBlankKey(network.data[n].probabilities.value)) ==>
                LegacyResults(network)[i] == NodeResults(network)[i]
    {
      LegacyNodeAgrees(network.order[i], network);
    }
    if forall n | n in network.data && network.data[n].probabilities.Some? ::
         !HasBlankKey(network.data[n].probabilities.value) {
      assert LegacyResults(network) == NodeResults(network);
    }
  }
}
