/** Worked examples of the query parser: texts it rejects, padded terms it
    trims, a repeated name, and symbol-table failures on the query side and
    on the evidence side. The accepted texts are written with `Render`, so
    they are the source's examples with the blanks taken out. */
module QueryExamples {
  import opened Common
  import opened Strings
  import opened Query

  // ---------------------------------------------------------------------
  // Rejected texts

  /** A group of blanks strips to nothing, so it matches neither group. */
  lemma BlankGroup(g: string, valued: bool)
    requires AllSpace(g) && '=' !in g
    ensures !MatchesGroup(g, valued)
  {
    SplitNoSeparator(g, '=');
    var r := Strip(g);
    var i, j :| 0 <= i <= j <= |g| && r == g[i..j] && AllSpace(g[..i]) && AllSpace(g[j..]);
    assert AllSpace(r);
  }

  /** A group without `=` is no evidence term. */
  lemma UnvaluedGroup(g: string)
    requires '=' !in g
    ensures !MatchesGroup(g, true)
  {
    SplitNoSeparator(g, '=');
  }

  lemma EmptyRejected()
    ensures QueryParser("", None) == Ok(NoMatch)
  {
  }

  lemma LoneCommaRejected()
    ensures QueryParser(",", None) == Ok(NoMatch)
  {
    LoneCommaUnmatched();
  }

  lemma LoneCommaUnmatched()
    ensures !FullMatch(",")
  {
    SplitNoSeparator(",", '|');
    SplitOf(",", ',', ["", ""]);
    BlankGroup("", false);
  }

  lemma TrailingCommaRejected()
    ensures QueryParser("A ,", None) == Ok(NoMatch)
  {
    TrailingCommaUnmatched();
  }

  lemma TrailingCommaUnmatched()
    ensures !FullMatch("A ,")
  {
    SplitNoSeparator("A ,", '|');
    SplitOf("A ,", ',', ["A ", ""]);
    BlankGroup("", false);
  }

  lemma LeadingCommaRejected()
    ensures QueryParser(", A", None) == Ok(NoMatch)
  {
    LeadingCommaUnmatched();
  }

  lemma LeadingCommaUnmatched()
    ensures !FullMatch(", A")
  {
    SplitNoSeparator(", A", '|');
    SplitOf(", A", ',', ["", " A"]);
    BlankGroup("", false);
  }

  lemma EmptyEvidenceRejected()
    ensures QueryParser("A | ", None) == Ok(NoMatch)
  {
    EmptyEvidenceUnmatched();
  }

  lemma EmptyEvidenceUnmatched()
    ensures !FullMatch("A | ")
  {
    SplitOf("A | ", '|', ["A ", " "]);
    SplitNoSeparator(" ", ',');
    BlankGroup(" ", true);
  }

  /** An evidence term needs a value. */
  lemma EvidenceWithoutValueRejected()
    ensures QueryParser("A = a | B", None) == Ok(NoMatch)
  {
    EvidenceWithoutValueUnmatched();
  }

  lemma EvidenceWithoutValueUnmatched()
    ensures !FullMatch("A = a | B")
  {
    UnvaluedEvidenceUnmatched("A = a ", " B");
    assert "A = a " + "|" + " B" == "A = a | B";
  }

  /** An evidence side made of one group without `=` does not match. */
  lemma UnvaluedEvidenceUnmatched(left: string, right: string)
    requires '|' !in left && '|' !in right && ',' !in right && '=' !in right
    ensures !FullMatch(left + "|" + right)
  {
    var q := left + "|" + right;
    assert Join([left, right], '|') == q;
    SplitOf(q, '|', [left, right]);
    SplitNoSeparator(right, ',');
    UnvaluedGroup(right);
  }

  /** At most one `|`. */
  lemma TwoBarsRejected()
    ensures QueryParser("A = a, C | B = b | K ", None) == Ok(NoMatch)
  {
    TwoBarsUnmatched();
  }

  lemma TwoBarsUnmatched()
    ensures !FullMatch("A = a, C | B = b | K ")
  {
    SplitOf("A = a, C | B = b | K ", '|', ["A = a, C ", " B = b ", " K "]);
  }

  lemma BlankInsideWord()
    ensures !MatchesWord("A K ")
  {
    InnerBlankNotWord("", "A K", " ", 1);
    assert "" + "A K" + " " == "A K ";
  }

  /** A padded text with a blank inside its stripped part is no word. */
  lemma InnerBlankNotWord(a: string, w: string, b: string, k: nat)
    requires AllSpace(a) && AllSpace(b)
    requires |w| > 0 && !IsSpace(w[0]) && !IsSpace(w[|w| - 1])
    requires k < |w| && w[k] == ' '
    ensures !MatchesWord(a + w + b)
  {
    StripPadded(a, w, b);
  }

  lemma BlankInsideGroup()
    ensures !MatchesGroup("A K = a", false)
  {
    SplitOf("A K = a", '=', ["A K ", " a"]);
    BlankInsideWord();
  }

  lemma BlankInsideSide()
    ensures !MatchesGroups("A K = a, C ", false)
  {
    SplitOf("A K = a, C ", ',', ["A K = a", " C "]);
    BlankInsideGroup();
  }

  /** A name is one word: `A K` is two. */
  lemma BlankInsideNameRejected()
    ensures QueryParser("A K = a, C | B = b", None) == Ok(NoMatch)
  {
    BlankInsideNameUnmatched();
  }

  lemma BlankInsideNameUnmatched()
    ensures !FullMatch("A K = a, C | B = b")
  {
    SplitOf("A K = a, C | B = b", '|', ["A K = a, C ", " B = b"]);
    BlankInsideSide();
  }

  // ---------------------------------------------------------------------
  // A query with blanks everywhere

  lemma PaddedGroupB()
    ensures MatchesGroup("     B  =   b ", true) && MatchesGroup("     B  =   b ", false)
    ensures MapToQueryVariable("     B  =   b ") == QueryVariable("B", Some("b"))
    ensures ',' !in "     B  =   b " && '|' !in "     B  =   b "
  {
    PaddedValuedGroup("     B  =   b ", "     ", "B", "  ", "   ", "b", " ");
  }

  lemma PaddedGroupA()
    ensures MatchesGroup("  A   ", false)
    ensures MapToQueryVariable("  A   ") == QueryVariable("A", None)
    ensures ',' !in "  A   " && '|' !in "  A   "
  {
    PaddedNameGroup("  A   ", "  ", "A", "   ");
  }

  lemma PaddedGroupC()
    ensures MatchesGroup("   C ", false)
    ensures MapToQueryVariable("   C ") == QueryVariable("C", None)
    ensures ',' !in "   C " && '|' !in "   C "
  {
    PaddedNameGroup("   C ", "   ", "C", " ");
  }

  lemma PaddedGroupD()
    ensures MatchesGroup("   D  =  D ", true) && MatchesGroup("   D  =  D ", false)
    ensures MapToQueryVariable("   D  =  D ") == QueryVariable("D", Some("D"))
    ensures ',' !in "   D  =  D " && '|' !in "   D  =  D "
  {
    PaddedValuedGroup("   D  =  D ", "   ", "D", "  ", "  ", "D", " ");
  }

  // ---------------------------------------------------------------------
  // Accepted queries, a repeated name and symbol-table checks

  function A(): QueryVariable { QueryVariable("A", None) }

  function Term(name: string, value: string): QueryVariable { QueryVariable(name, Some(value)) }

  /** `A,B=b,C,D=d|E=e,F=ff,G=g,H=hh` read back term by term. */
  lemma ContextQueryRead()
    ensures FullMatch(Render([A(), Term("B", "b"), QueryVariable("C", None), Term("D", "d")],
                             [Term("E", "e"), Term("F", "ff"), Term("G", "g"), Term("H", "hh")]))
    ensures Extract(Render([A(), Term("B", "b"), QueryVariable("C", None), Term("D", "d")],
                           [Term("E", "e"), Term("F", "ff"), Term("G", "g"), Term("H", "hh")])) ==
              ([A(), Term("B", "b"), QueryVariable("C", None), Term("D", "d")],
               [Term("E", "e"), Term("F", "ff"), Term("G", "g"), Term("H", "hh")])
  {
    RenderMatches([A(), Term("B", "b"), QueryVariable("C", None), Term("D", "d")],
                  [Term("E", "e"), Term("F", "ff"), Term("G", "g"), Term("H", "hh")]);
  }

  /** A symbol table that declares every name and value accepts the query. */
  lemma ContextAccepted()
    ensures QueryParser(Render([A(), Term("B", "b"), QueryVariable("C", None), Term("D", "d")],
                               [Term("E", "e"), Term("F", "ff"), Term("G", "g"), Term("H", "hh")]),
                        Some(map["A" := ["a", "aa"], "B" := ["b", "bb"], "C" := ["c", "cc"],
                                 "D" := ["d", "dd"], "E" := ["e", "ee"], "F" := ["f", "ff"],
                                 "G" := ["g", "gg"], "H" := ["h", "hh"]]))
            == Ok(Parsed([A(), Term("B", "b"), QueryVariable("C", None), Term("D", "d")],
                         [Term("E", "e"), Term("F", "ff"), Term("G", "g"), Term("H", "hh")]))
  {
    var qs: seq<QueryVariable> := [A(), Term("B", "b"), QueryVariable("C", None), Term("D", "d")];
    var es: seq<QueryVariable> := [Term("E", "e"), Term("F", "ff"), Term("G", "g"), Term("H", "hh")];
    assert DistinctNames(qs + es);
    ParseRender(qs, es, Some(map["A" := ["a", "aa"], "B" := ["b", "bb"], "C" := ["c", "cc"],
                                 "D" := ["d", "dd"], "E" := ["e", "ee"], "F" := ["f", "ff"],
                                 "G" := ["g", "gg"], "H" := ["h", "hh"]]));
  }

  /** A name repeated across the two sides is rejected even without a
      symbol table. */
  lemma RepeatedNameRejected()
    ensures QueryParser(Render([A(), QueryVariable("B", None), QueryVariable("C", None)],
                               [Term("A", "a"), Term("G", "g")]), None)
            == Err(NonUniqueRandomVariablesInQuery)
  {
    var qs: seq<QueryVariable> := [A(), QueryVariable("B", None), QueryVariable("C", None)];
    var es: seq<QueryVariable> := [Term("A", "a"), Term("G", "g")];
    RenderMatches(qs, es);
    assert (qs + es)[0].name == (qs + es)[3].name;
  }

  /** The terms of `A,B=b,C,D=d|E=e,F=ff,G=g,H=hh` are well-formed and
      distinct. */
  lemma ContextTerms(qs: seq<QueryVariable>, es: seq<QueryVariable>)
    requires qs == [A(), Term("B", "b"), QueryVariable("C", None), Term("D", "d")]
    requires es == [Term("E", "e"), Term("F", "ff"), Term("G", "g"), Term("H", "hh")]
    ensures |qs| >= 1 && WellFormedTerms(qs, es) && DistinctNames(qs + es)
  {
  }

  /** A query-side value outside the declared values names that variable,
      although an evidence name is undeclared too. */
  lemma QuerySideNotInContext()
    ensures QueryParser(Render([A(), Term("B", "b"), QueryVariable("C", None), Term("D", "d")],
                               [Term("E", "e"), Term("F", "ff"), Term("G", "g"), Term("H", "hh")]),
                        Some(map["A" := ["a", "aa"], "B" := ["bb"], "C" := ["c", "cc"],
                                 "D" := ["d", "dd"], "E" := ["e", "ee"],
                                 "G" := ["g", "gg"], "H" := ["h", "hh"]]))
            == Err(RandomVariableNotInContext("B"))
  {
    var qs: seq<QueryVariable> := [A(), Term("B", "b"), QueryVariable("C", None), Term("D", "d")];
    var es: seq<QueryVariable> := [Term("E", "e"), Term("F", "ff"), Term("G", "g"), Term("H", "hh")];
    var ctx := map["A" := ["a", "aa"], "B" := ["bb"], "C" := ["c", "cc"],
                   "D" := ["d", "dd"], "E" := ["e", "ee"],
                   "G" := ["g", "gg"], "H" := ["h", "hh"]];
    ContextTerms(qs, es);
    FirstNotInContextAt(qs, ctx, 1);
    ValidateRendered(qs, es, ctx);
  }

  /** With every query term declared, the undeclared evidence name is the
      one reported. */
  lemma EvidenceSideNotInContext()
    ensures QueryParser(Render([A(), Term("B", "b"), QueryVariable("C", None), Term("D", "d")],
                               [Term("E", "e"), Term("F", "ff"), Term("G", "g"), Term("H", "hh")]),
                        Some(map["A" := ["a", "aa"], "B" := ["b", "bb"], "C" := ["c", "cc"],
                                 "D" := ["d", "dd"], "E" := ["e", "ee"],
                                 "G" := ["g", "gg"], "H" := ["h", "hh"]]))
            == Err(RandomVariableNotInContext("F"))
  {
    var qs: seq<QueryVariable> := [A(), Term("B", "b"), QueryVariable("C", None), Term("D", "d")];
    var es: seq<QueryVariable> := [Term("E", "e"), Term("F", "ff"), Term("G", "g"), Term("H", "hh")];
    var ctx := map["A" := ["a", "aa"], "B" := ["b", "bb"], "C" := ["c", "cc"],
                   "D" := ["d", "dd"], "E" := ["e", "ee"],
                   "G" := ["g", "gg"], "H" := ["h", "hh"]];
    ContextTerms(qs, es);
    assert AllInContext(qs, ctx);
    FirstNotInContextAt(es, ctx, 1);
    ValidateRendered(qs, es, ctx);
  }
}
