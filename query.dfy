/** The probability-query parser.

    A query reads `X, Y=y | Z=z, W=w`: one or more query terms, each a name
    with an optional `=value`, then optionally one `|` and one or more
    evidence terms, each a name with a required `=value`. Names and values
    are runs of word characters with optional blanks around them. The
    parser first decides whether the whole text matches this grammar, then
    cuts it at `|` and `,` into terms, trims them, and finally checks that
    no name repeats and, when a symbol table is given, that every name is
    declared there and every given value is one of its declared values. */
module Query {
  import opened Common
  import opened Strings

  /** One term of a query; `value` is `None` for a query term without
      `=value`. */
  datatype QueryVariable = QueryVariable(name: string, value: Option<string>)

  /** What a successful run returns: either the text does not match the
      grammar (`(False, None, None)`), or the parsed query and evidence
      terms. */
  datatype Parse = NoMatch | Parsed(queries: seq<QueryVariable>, evidences: seq<QueryVariable>)

  // ---------------------------------------------------------------------
  // Characters and trimming

  /** The regular-expression class `\s`, restricted to ASCII: the blank,
      tab, line feed, vertical tab, form feed and carriage return, and the
      four separators from file to unit. */
  predicate IsSpace(c: char)
  {
    c == ' ' || ('\t' <= c <= '\r') || ('\U{001C}' <= c <= '\U{001F}')
  }

  /** The regular-expression class `\w`, restricted to ASCII. */
  predicate IsWordChar(c: char)
  {
    ('a' <= c <= 'z') || ('A' <= c <= 'Z') || ('0' <= c <= '9') || c == '_'
  }

  /** `\w+`: a non-empty run of word characters. */
  predicate IsWord(s: string)
  {
    |s| > 0 && forall i :: 0 <= i < |s| ==> IsWordChar(s[i])
  }

  predicate AllSpace(s: string)
  {
    forall i :: 0 <= i < |s| ==> IsSpace(s[i])
  }

  /** The number of blanks at the start of `s`. */
  function LeadingBlanks(s: string): (n: nat)
    ensures n <= |s|
    ensures forall i :: 0 <= i < n ==> IsSpace(s[i])
    ensures n < |s| ==> !IsSpace(s[n])
  {
    if |s| > 0 && IsSpace(s[0]) then 1 + LeadingBlanks(s[1..]) else 0
  }

  /** The number of blanks at the end of `s`. */
  function TrailingBlanks(s: string): (n: nat)
    ensures n <= |s|
    ensures forall i :: |s| - n <= i < |s| ==> IsSpace(s[i])
    ensures n < |s| ==> !IsSpace(s[|s| - 1 - n])
  {
    if |s| > 0 && IsSpace(s[|s| - 1]) then 1 + TrailingBlanks(s[..|s| - 1]) else 0
  }

  /** `str.strip()`: the text without its leading and trailing blanks. */
  function Strip(s: string): (r: string)
    ensures exists i, j :: 0 <= i <= j <= |s| && r == s[i..j] && AllSpace(s[..i]) && AllSpace(s[j..])
    ensures |r| > 0 ==> !IsSpace(r[0]) && !IsSpace(r[|r| - 1])
  {
    var i := LeadingBlanks(s);
    var j := i + |s[i..]| - TrailingBlanks(s[i..]);
    StripBounds(s, i, j);
    s[i..j]
  }

  /** Where `Strip` cuts: blanks before `i` and from `j` on, and no blank
      at either end of what lies between. */
  lemma StripBounds(s: string, i: nat, j: int)
    requires i == LeadingBlanks(s)
    requires j == i + |s[i..]| - TrailingBlanks(s[i..])
    ensures i <= j <= |s|
    ensures AllSpace(s[..i]) && AllSpace(s[j..])
    ensures i < j ==> !IsSpace(s[i]) && !IsSpace(s[j - 1])
  {
    var t := s[i..];
    var n := TrailingBlanks(t);
    if i < |s| {
      assert !IsSpace(t[0]);
      assert n < |t|;
      assert s[j - 1] == t[|t| - 1 - n];
    }
    forall k | 0 <= k < |s[j..]| ensures IsSpace(s[j..][k]) {
      assert s[j..][k] == t[|t| - n + k];
    }
  }

  /** A word has no blanks to strip. */
  lemma StripWord(w: string)
    requires IsWord(w)
    ensures Strip(w) == w
  {
    assert !IsSpace(w[0]) && !IsSpace(w[|w| - 1]);
  }

  /** Stripping removes exactly the blanks around a text that neither
      starts nor ends with a blank. */
  lemma StripPadded(a: string, w: string, b: string)
    requires AllSpace(a) && AllSpace(b)
    requires |w| > 0 && !IsSpace(w[0]) && !IsSpace(w[|w| - 1])
    ensures Strip(a + w + b) == w
  {
    var s := a + w + b;
    var i := LeadingBlanks(s);
    assert forall k :: 0 <= k < |a| ==> s[k] == a[k];
    assert s[|a|] == w[0];
    assert i == |a|;
    var t := s[i..];
    assert t == w + b;
    var n := TrailingBlanks(t);
    assert forall k :: 0 <= k < |b| ==> t[|w| + k] == b[k];
    assert t[|w| - 1] == w[|w| - 1];
    assert n == |b|;
    assert s[i..i + |t| - n] == w;
  }

  // ---------------------------------------------------------------------
  // The grammar

  /** `WORD`: optional blanks, a word, optional blanks. */
  predicate MatchesWord(s: string)
  {
    IsWord(Strip(s))
  }

  /** `NON_VALUED_GROUP` (when `valued` is false) or `VALUED_GROUP` (when
      it is true) on a comma-free piece of text. */
  predicate MatchesGroup(s: string, valued: bool)
  {
    var parts := Split(s, '=');
    (|parts| == 1 && !valued && MatchesWord(parts[0])) ||
    (|parts| == 2 && MatchesWord(parts[0]) && MatchesWord(parts[1]))
  }

  /** `QUERY_VARIABLES` or `EVIDENCE_VARIABLES`: groups separated by
      commas, at least one. */
  predicate MatchesGroups(s: string, valued: bool)
  {
    var pieces := Split(s, ',');
    forall i :: 0 <= i < |pieces| ==> MatchesGroup(pieces[i], valued)
  }

  /** A full match of `QUERY`: query groups, then optionally one `|` and
      evidence groups. The blanks around `|` belong to the neighbouring
      words. */
  predicate FullMatch(query: string)
  {
    var sides := Split(query, '|');
    |sides| <= 2 &&
    MatchesGroups(sides[0], false) &&
    (|sides| == 2 ==> MatchesGroups(sides[1], true))
  }

  // ---------------------------------------------------------------------
  // Extraction

  /** `map_to_query_variable`: the trimmed name and, when present, the
      trimmed value of one group. */
  function MapToQueryVariable(group: string): (v: QueryVariable)
    ensures MatchesGroup(group, false) ==> IsWord(v.name)
    ensures MatchesGroup(group, false) && v.value.Some? ==> IsWord(v.value.value)
    ensures MatchesGroup(group, true) ==> v.value.Some?
  {
    var parts := Split(group, '=');
    QueryVariable(Strip(parts[0]), if |parts| >= 2 then Some(Strip(parts[1])) else None)
  }

  /** The groups of one side of a matched query, in left-to-right order. */
  function FindGroups(side: string): (vs: seq<QueryVariable>)
    ensures |vs| == |Split(side, ',')|
    ensures forall i :: 0 <= i < |vs| ==> vs[i] == MapToQueryVariable(Split(side, ',')[i])
  {
    var pieces := Split(side, ',');
    seq(|pieces|, i requires 0 <= i < |pieces| => MapToQueryVariable(pieces[i]))
  }

  /** The query terms (text before `|`) and the evidence terms (text after
      it; none when there is no `|`). */
  function Extract(query: string): (seq<QueryVariable>, seq<QueryVariable>)
  {
    var sides := Split(query, '|');
    (FindGroups(sides[0]), if |sides| > 1 then FindGroups(sides[1]) else [])
  }

  /** Terms are well formed: names are words, values are words, evidence
      terms carry values. */
  predicate WellFormedTerms(qs: seq<QueryVariable>, es: seq<QueryVariable>)
  {
    (forall i :: 0 <= i < |qs| ==> IsWord(qs[i].name) &&
                                   (qs[i].value.Some? ==> IsWord(qs[i].value.value))) &&
    (forall i :: 0 <= i < |es| ==> IsWord(es[i].name) &&
                                   es[i].value.Some? && IsWord(es[i].value.value))
  }

  /** A matched query yields at least one query term, and well-formed
      terms on both sides. */
  lemma ExtractMatched(query: string)
    requires FullMatch(query)
    ensures |Extract(query).0| >= 1
    ensures WellFormedTerms(Extract(query).0, Extract(query).1)
  {
    var sides := Split(query, '|');
    var (qs, es) := Extract(query);
    forall i | 0 <= i < |es| ensures IsWord(es[i].name) && es[i].value.Some? && IsWord(es[i].value.value) {
      assert MatchesGroup(Split(sides[1], ',')[i], true);
    }
    forall i | 0 <= i < |qs| ensures IsWord(qs[i].name) && (qs[i].value.Some? ==> IsWord(qs[i].value.value)) {
      assert MatchesGroup(Split(sides[0], ',')[i], false);
    }
  }

  // ---------------------------------------------------------------------
  // Validation

  function Names(vs: seq<QueryVariable>): (names: set<string>)
    ensures forall i :: 0 <= i < |vs| ==> vs[i].name in names
    ensures forall n | n in names :: exists i :: 0 <= i < |vs| && vs[i].name == n
  {
    set i | 0 <= i < |vs| :: vs[i].name
  }

  predicate DistinctNames(vs: seq<QueryVariable>)
  {
    forall i, j :: 0 <= i < j < |vs| ==> vs[i].name != vs[j].name
  }

  /** The test of `make_all_variables_unique`: the set of all names is as
      large as the two lists together. */
  predicate AllUnique(qs: seq<QueryVariable>, es: seq<QueryVariable>)
  {
    |Names(qs) + Names(es)| == |qs| + |es|
  }

  lemma NamesSnoc(vs: seq<QueryVariable>)
    requires |vs| > 0
    ensures Names(vs) == Names(vs[..|vs| - 1]) + {vs[|vs| - 1].name}
  {
    var init := vs[..|vs| - 1];
    forall n | n in Names(vs) ensures n in Names(init) + {vs[|vs| - 1].name} {
      var i :| 0 <= i < |vs| && vs[i].name == n;
      if i < |vs| - 1 {
        assert init[i] == vs[i];
      }
    }
    forall i | 0 <= i < |init| ensures init[i].name in Names(vs) {
      assert init[i] == vs[i];
    }
  }

  lemma DistinctSnoc(vs: seq<QueryVariable>)
    requires |vs| > 0
    requires vs[|vs| - 1].name !in Names(vs[..|vs| - 1])
    ensures DistinctNames(vs) <==> DistinctNames(vs[..|vs| - 1])
  {
    var init := vs[..|vs| - 1];
    if DistinctNames(init) {
      forall i, j | 0 <= i < j < |vs| ensures vs[i].name != vs[j].name {
        assert init[i] == vs[i];
        if j < |vs| - 1 {
          assert init[j] == vs[j];
        }
      }
    }
    if DistinctNames(vs) {
      forall i, j | 0 <= i < j < |init| ensures init[i].name != init[j].name {
        assert init[i] == vs[i] && init[j] == vs[j];
      }
    }
  }

  lemma {:induction false} NamesCardinality(vs: seq<QueryVariable>)
    ensures |Names(vs)| <= |vs|
    ensures |Names(vs)| == |vs| <==> DistinctNames(vs)
    decreases |vs|
  {
    if |vs| > 0 {
      var init := vs[..|vs| - 1];
      var last := vs[|vs| - 1];
      NamesCardinality(init);
      NamesSnoc(vs);
      if last.name in Names(init) {
        var i :| 0 <= i < |init| && init[i].name == last.name;
        assert vs[i].name == vs[|vs| - 1].name;
        assert Names(vs) == Names(init);
      } else {
        DistinctSnoc(vs);
      }
    }
  }

  /** The uniqueness test holds exactly when no name repeats anywhere
      across the query and the evidence terms. */
  lemma AllUniqueIffDistinct(qs: seq<QueryVariable>, es: seq<QueryVariable>)
    ensures AllUnique(qs, es) <==> DistinctNames(qs + es)
  {
    var all := qs + es;
    assert Names(qs) + Names(es) == Names(all) by {
      forall n | n in Names(all) ensures n in Names(qs) + Names(es) {
        var i :| 0 <= i < |all| && all[i].name == n;
        if i < |qs| {
          assert all[i] == qs[i];
        } else {
          assert all[i] == es[i - |qs|];
        }
      }
      forall i | 0 <= i < |es| ensures es[i].name in Names(all) {
        assert all[|qs| + i] == es[i];
      }
      forall i | 0 <= i < |qs| ensures qs[i].name in Names(all) {
        assert all[i] == qs[i];
      }
    }
    NamesCardinality(all);
  }

  /** The test of `check_all_variables_exist_in_context` for one term. */
  predicate InContext(v: QueryVariable, symbols: map<string, seq<string>>)
  {
    v.name in symbols && (v.value.Some? ==> v.value.value in symbols[v.name])
  }

  predicate AllInContext(vs: seq<QueryVariable>, symbols: map<string, seq<string>>)
  {
    forall i :: 0 <= i < |vs| ==> InContext(vs[i], symbols)
  }

  /** Some term called `name` fails the context test. */
  predicate NamesFailingTerm(vs: seq<QueryVariable>, symbols: map<string, seq<string>>, name: string)
  {
    exists i :: 0 <= i < |vs| && vs[i].name == name && !InContext(vs[i], symbols)
  }

  /** The first term that fails the context test, if any. */
  function FirstNotInContext(vs: seq<QueryVariable>, symbols: map<string, seq<string>>): (r: Option<QueryVariable>)
    ensures r.None? <==> forall i :: 0 <= i < |vs| ==> InContext(vs[i], symbols)
    ensures r.Some? ==> exists i :: 0 <= i < |vs| && vs[i] == r.value &&
                          !InContext(vs[i], symbols) &&
                          forall j :: 0 <= j < i ==> InContext(vs[j], symbols)
  {
    if |vs| == 0 then None
    else if !InContext(vs[0], symbols) then Some(vs[0])
    else
      var r := FirstNotInContext(vs[1..], symbols);
      if r.Some? then
        var i :| 0 <= i < |vs[1..]| && vs[1..][i] == r.value && !InContext(vs[1..][i], symbols) &&
                 forall j :: 0 <= j < i ==> InContext(vs[1..][j], symbols);
        assert vs[i + 1] == r.value;
        assert forall j :: 0 <= j < i + 1 ==> InContext(vs[j], symbols) by {
          forall j | 0 <= j < i + 1 ensures InContext(vs[j], symbols) {
            if j > 0 {
              assert vs[j] == vs[1..][j - 1];
            }
          }
        }
        r
      else
        assert forall j :: 0 <= j < |vs| ==> InContext(vs[j], symbols) by {
          forall j | 0 <= j < |vs| ensures InContext(vs[j], symbols) {
            if j > 0 {
              assert vs[j] == vs[1..][j - 1];
            }
          }
        }
        r
  }

  /** The first failing term is the one at the first failing index. */
  lemma {:induction false} FirstNotInContextAt(vs: seq<QueryVariable>, symbols: map<string, seq<string>>, i: nat)
    requires i < |vs| && !InContext(vs[i], symbols)
    requires forall j :: 0 <= j < i ==> InContext(vs[j], symbols)
    ensures FirstNotInContext(vs, symbols) == Some(vs[i])
    decreases i
  {
    if i > 0 {
      assert InContext(vs[0], symbols);
      assert vs[1..][i - 1] == vs[i];
      assert forall j :: 0 <= j < i - 1 ==> vs[1..][j] == vs[j + 1];
      FirstNotInContextAt(vs[1..], symbols, i - 1);
    }
  }

  // ---------------------------------------------------------------------
  // The parser

  /** `query_parser(query, expected_symbol_and_values)`. A text that does
      not match the grammar gives `NoMatch`; a repeated name is
      `NonUniqueRandomVariablesInQuery` whether or not a symbol table is
      given; with a symbol table the first failing query term, and only
      then the first failing evidence term, is `RandomVariableNotInContext`. */
  function QueryParser(query: string, symbols: Option<map<string, seq<string>>>): (r: Result<Parse>)
    ensures r == Ok(NoMatch) <==> !FullMatch(query)
    ensures r.Ok? && r.value.Parsed? ==>
              (r.value.queries, r.value.evidences) == Extract(query) &&
              |r.value.queries| >= 1 &&
              WellFormedTerms(r.value.queries, r.value.evidences) &&
              DistinctNames(r.value.queries + r.value.evidences) &&
              (symbols.Some? ==> AllInContext(r.value.queries, symbols.value) &&
                                 AllInContext(r.value.evidences, symbols.value))
    ensures r == Err(NonUniqueRandomVariablesInQuery) <==>
              FullMatch(query) && !DistinctNames(Extract(query).0 + Extract(query).1)
    ensures r.Err? && r.error.RandomVariableNotInContext? ==>
              symbols.Some? && FullMatch(query) &&
              DistinctNames(Extract(query).0 + Extract(query).1) &&
              (NamesFailingTerm(Extract(query).0, symbols.value, r.error.variable) ||
               (AllInContext(Extract(query).0, symbols.value) &&
                NamesFailingTerm(Extract(query).1, symbols.value, r.error.variable)))
    ensures FullMatch(query) && DistinctNames(Extract(query).0 + Extract(query).1) &&
            (symbols.Some? ==> AllInContext(Extract(query).0, symbols.value) &&
                               AllInContext(Extract(query).1, symbols.value)) ==>
              r == Ok(Parsed(Extract(query).0, Extract(query).1))
    ensures r.Err? ==> r.error == NonUniqueRandomVariablesInQuery || r.error.RandomVariableNotInContext?
  {
    if !FullMatch(query) then Ok(NoMatch)
    else
      var (qs, es) := Extract(query);
      ExtractMatched(query);
      AllUniqueIffDistinct(qs, es);
      if !AllUnique(qs, es) then Err(NonUniqueRandomVariablesInQuery)
      else if symbols.Some? && FirstNotInContext(qs, symbols.value).Some? then
        Err(RandomVariableNotInContext(FirstNotInContext(qs, symbols.value).value.name))
      else if symbols.Some? && FirstNotInContext(es, symbols.value).Some? then
        Err(RandomVariableNotInContext(FirstNotInContext(es, symbols.value).value.name))
      else
        Ok(Parsed(qs, es))
  }

  // ---------------------------------------------------------------------
  // Rendering, and the round trip through the parser

  /** A term written back as `name` or `name=value`. */
  function RenderVariable(v: QueryVariable): string
  {
    if v.value.Some? then v.name + "=" + v.value.value else v.name
  }

  /** Terms written back, separated by commas. */
  function RenderTerms(vs: seq<QueryVariable>): string
  {
    Join(seq(|vs|, i requires 0 <= i < |vs| => RenderVariable(vs[i])), ',')
  }

  /** A query written back: the query terms, then `|` and the evidence
      terms when there are any. */
  function Render(qs: seq<QueryVariable>, es: seq<QueryVariable>): string
  {
    if |es| == 0 then RenderTerms(qs) else RenderTerms(qs) + "|" + RenderTerms(es)
  }

  lemma WordAvoids(w: string, c: char)
    requires IsWord(w) && !IsWordChar(c)
    ensures c !in w
  {
  }

  lemma {:induction false} JoinAvoids(parts: seq<string>, sep: char, c: char)
    requires c != sep
    requires forall i :: 0 <= i < |parts| ==> c !in parts[i]
    ensures c !in Join(parts, sep)
    decreases |parts|
  {
    if |parts| > 1 {
      JoinAvoids(parts[1..], sep, c);
    }
  }

  lemma SplitValued(n: string, x: string)
    requires IsWord(n) && IsWord(x)
    ensures Split(n + "=" + x, '=') == [n, x]
  {
    WordAvoids(n, '=');
    WordAvoids(x, '=');
    assert Join([n, x], '=') == n + "=" + x;
    SplitJoin([n, x], '=');
  }

  lemma SpaceAvoids(a: string, c: char)
    requires AllSpace(a) && !IsSpace(c)
    ensures c !in a
  {
  }

  /** A word with blanks around it matches `WORD`, strips to the word and
      holds none of the separators. */
  lemma PaddedWord(s: string, a: string, n: string, b: string)
    requires AllSpace(a) && AllSpace(b) && IsWord(n)
    requires s == a + n + b
    ensures Strip(s) == n && MatchesWord(s)
    ensures '=' !in s && ',' !in s && '|' !in s
  {
    StripPadded(a, n, b);
    SpaceAvoids(a, '='); SpaceAvoids(b, '='); WordAvoids(n, '=');
    SpaceAvoids(a, ','); SpaceAvoids(b, ','); WordAvoids(n, ',');
    SpaceAvoids(a, '|'); SpaceAvoids(b, '|'); WordAvoids(n, '|');
  }

  /** A term `name = value` with blanks around both words matches either
      group and reads back as the two trimmed words. */
  lemma PaddedValuedGroup(g: string, a: string, n: string, b: string, c: string, x: string, d: string)
    requires AllSpace(a) && AllSpace(b) && AllSpace(c) && AllSpace(d)
    requires IsWord(n) && IsWord(x)
    requires g == (a + n + b) + "=" + (c + x + d)
    ensures MatchesGroup(g, true) && MatchesGroup(g, false)
    ensures MapToQueryVariable(g) == QueryVariable(n, Some(x))
    ensures ',' !in g && '|' !in g
  {
    var left, right := a + n + b, c + x + d;
    PaddedWord(left, a, n, b);
    PaddedWord(right, c, x, d);
    JoinedGroup(g, left, right);
  }

  /** Two separator-free words joined by `=` form a valued group that reads
      back as the two stripped halves. */
  lemma JoinedGroup(g: string, left: string, right: string)
    requires '=' !in left && '=' !in right
    requires ',' !in left && ',' !in right && '|' !in left && '|' !in right
    requires MatchesWord(left) && MatchesWord(right)
    requires g == left + "=" + right
    ensures MatchesGroup(g, true) && MatchesGroup(g, false)
    ensures MapToQueryVariable(g) == QueryVariable(Strip(left), Some(Strip(right)))
    ensures ',' !in g && '|' !in g
  {
    assert Join([left, right], '=') == g;
    SplitOf(g, '=', [left, right]);
  }

  /** A term `name` with blanks around it matches the query group and
      reads back as the trimmed word without a value. */
  lemma PaddedNameGroup(g: string, a: string, n: string, b: string)
    requires AllSpace(a) && AllSpace(b)
    requires IsWord(n)
    requires g == a + n + b
    ensures MatchesGroup(g, false)
    ensures MapToQueryVariable(g) == QueryVariable(n, None)
    ensures ',' !in g && '|' !in g
  {
    PaddedWord(g, a, n, b);
    SplitNoSeparator(g, '=');
  }

  /** One well-formed term written back and read again. */
  lemma RenderVariableRoundTrip(v: QueryVariable, valued: bool)
    requires IsWord(v.name) && (v.value.Some? ==> IsWord(v.value.value))
    requires valued ==> v.value.Some?
    ensures MatchesGroup(RenderVariable(v), valued)
    ensures MapToQueryVariable(RenderVariable(v)) == v
    ensures ',' !in RenderVariable(v) && '|' !in RenderVariable(v)
  {
    WordAvoids(v.name, ',');
    WordAvoids(v.name, '|');
    StripWord(v.name);
    if v.value.Some? {
      var x := v.value.value;
      WordAvoids(x, ',');
      WordAvoids(x, '|');
      StripWord(x);
      SplitValued(v.name, x);
      var parts := Split(RenderVariable(v), '=');
      assert parts == [v.name, x];
      assert MatchesWord(parts[0]) && MatchesWord(parts[1]);
    } else {
      WordAvoids(v.name, '=');
      SplitNoSeparator(v.name, '=');
    }
  }

  /** A non-empty list of well-formed terms written back and read again. */
  lemma RenderTermsRoundTrip(vs: seq<QueryVariable>, valued: bool)
    requires |vs| >= 1
    requires forall i :: 0 <= i < |vs| ==> IsWord(vs[i].name) &&
                                           (vs[i].value.Some? ==> IsWord(vs[i].value.value)) &&
                                           (valued ==> vs[i].value.Some?)
    ensures MatchesGroups(RenderTerms(vs), valued)
    ensures FindGroups(RenderTerms(vs)) == vs
    ensures '|' !in RenderTerms(vs)
  {
    var pieces := seq(|vs|, i requires 0 <= i < |vs| => RenderVariable(vs[i]));
    forall i | 0 <= i < |vs|
      ensures MatchesGroup(pieces[i], valued) && MapToQueryVariable(pieces[i]) == vs[i]
      ensures ',' !in pieces[i] && '|' !in pieces[i]
    {
      RenderVariableRoundTrip(vs[i], valued);
    }
    SplitJoin(pieces, ',');
    JoinAvoids(pieces, ',', '|');
  }

  /** Parsing a rendered query gives back its terms: a query with at least
      one query term, well-formed terms and no repeated name is read back
      exactly, in order, and passes validation against any symbol table
      that declares its terms. */
  lemma ParseRender(qs: seq<QueryVariable>, es: seq<QueryVariable>, symbols: Option<map<string, seq<string>>>)
    requires |qs| >= 1
    requires WellFormedTerms(qs, es)
    requires DistinctNames(qs + es)
    requires symbols.Some? ==> AllInContext(qs, symbols.value) && AllInContext(es, symbols.value)
    ensures QueryParser(Render(qs, es), symbols) == Ok(Parsed(qs, es))
  {
    RenderMatches(qs, es);
  }

  /** A rendered query with distinct, well-formed terms fails validation
      exactly at its first undeclared query term, or else at its first
      undeclared evidence term. */
  lemma ValidateRendered(qs: seq<QueryVariable>, es: seq<QueryVariable>, symbols: map<string, seq<string>>)
    requires |qs| >= 1
    requires WellFormedTerms(qs, es)
    requires DistinctNames(qs + es)
    ensures QueryParser(Render(qs, es), Some(symbols)) ==
              if FirstNotInContext(qs, symbols).Some? then
                Err(RandomVariableNotInContext(FirstNotInContext(qs, symbols).value.name))
              else if FirstNotInContext(es, symbols).Some? then
                Err(RandomVariableNotInContext(FirstNotInContext(es, symbols).value.name))
              else Ok(Parsed(qs, es))
  {
    RenderMatches(qs, es);
    AllUniqueIffDistinct(qs, es);
  }

  /** A rendered query with at least one query term and well-formed terms
      matches the grammar and reads back as its own terms, whether or not
      they then pass validation. */
  lemma RenderMatches(qs: seq<QueryVariable>, es: seq<QueryVariable>)
    requires |qs| >= 1
    requires WellFormedTerms(qs, es)
    ensures FullMatch(Render(qs, es))
    ensures Extract(Render(qs, es)) == (qs, es)
  {
    RenderTermsRoundTrip(qs, false);
    if |es| > 0 {
      RenderTermsRoundTrip(es, true);
    }
    RenderSides(qs, es);
  }

  /** A rendered query splits at `|` into its two rendered sides, or is one
      side when there is no evidence. */
  lemma RenderSides(qs: seq<QueryVariable>, es: seq<QueryVariable>)
    requires |qs| >= 1
    requires WellFormedTerms(qs, es)
    ensures Split(Render(qs, es), '|') ==
              if |es| == 0 then [RenderTerms(qs)] else [RenderTerms(qs), RenderTerms(es)]
  {
    RenderTermsRoundTrip(qs, false);
    var query := Render(qs, es);
    if |es| == 0 {
      SplitNoSeparator(query, '|');
    } else {
      RenderTermsRoundTrip(es, true);
      assert Join([RenderTerms(qs), RenderTerms(es)], '|') == query;
      SplitJoin([RenderTerms(qs), RenderTerms(es)], '|');
    }
  }
}
