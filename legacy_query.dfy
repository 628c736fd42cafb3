/** The older query parser: the same grammar and the same term extraction
    as the current one, but no validation. The network context it is given
    is never consulted, and repeated names are accepted. */
module LegacyQuery {
  import opened Common
  import opened Query

  /** `query_parser(query, network_context)` of the older tree: `NoMatch`
      for a text outside the grammar, else the terms of both sides. */
  function LegacyQueryParser(query: string, networkContext: Option<map<string, seq<string>>>): (r: Parse)
    ensures r.NoMatch? <==> !FullMatch(query)
    ensures r.Parsed? ==> |r.queries| >= 1 && WellFormedTerms(r.queries, r.evidences)
    ensures r.Parsed? ==> (r.queries, r.evidences) == Extract(query)
  {
    if FullMatch(query) then
      ExtractMatched(query);
      Parsed(Extract(query).0, Extract(query).1)
    else NoMatch
  }

  /** The older parser never fails: where the current parser returns a
      result the two agree, and where the current parser raises, the older
      one still reads the terms. */
  lemma CurrentRefinesLegacy(query: string, symbols: Option<map<string, seq<string>>>)
    ensures QueryParser(query, symbols).Ok? ==>
              QueryParser(query, symbols) == Ok(LegacyQueryParser(query, symbols))
    ensures QueryParser(query, symbols).Err? ==> LegacyQueryParser(query, symbols).Parsed?
    ensures QueryParser(query, symbols).Err? <==>
              LegacyQueryParser(query, symbols).Parsed? &&
              (!DistinctNames(LegacyQueryParser(query, symbols).queries +
                              LegacyQueryParser(query, symbols).evidences) ||
               (symbols.Some? &&
                !(AllInContext(LegacyQueryParser(query, symbols).queries, symbols.value) &&
                  AllInContext(LegacyQueryParser(query, symbols).evidences, symbols.value))))
  {
    var r := QueryParser(query, symbols);
    if r.Ok? && r.value.Parsed? {
      assert (r.value.queries, r.value.evidences) == Extract(query);
    }
  }

  /** The context is never consulted. */
  lemma LegacyIgnoresContext(query: string, c: Option<map<string, seq<string>>>)
    ensures LegacyQueryParser(query, c) == LegacyQueryParser(query, None)
  {
  }

  /** `A|A=a` repeats a name: the older parser reads both terms, the
      current one raises. */
  lemma RepeatedNameAccepted(query: string)
    requires query == Render([QueryVariable("A", None)], [QueryVariable("A", Some("a"))])
    ensures LegacyQueryParser(query, None) ==
              Parsed([QueryVariable("A", None)], [QueryVariable("A", Some("a"))])
    ensures QueryParser(query, None) == Err(NonUniqueRandomVariablesInQuery)
  {
    var qs: seq<QueryVariable>, es: seq<QueryVariable> := [QueryVariable("A", None)], [QueryVariable("A", Some("a"))];
    RenderMatches(qs, es);
    assert (qs + es)[0].name == (qs + es)[1].name;
  }
}
