/** `SPARQLQuery`: one candidate query object. Its mutators update its sets
    and maps in place; each is proved to move the object's value (a
    Candidates.Candidate) exactly as the corresponding pure operation does,
    and its renderings are proved to build the text Rendering defines. */
module SparqlQueries {
  import opened Candidates
  import opened Rendering

  class SparqlQuery {
    var constraintTriples: set<string>
    var filter: set<string>
    /** `textMapFromVariableToSingleFuzzyToken` */
    var fuzzyTokens: map<string, set<string>>
    /** `textMapFromVariableToCombinedNNExactMatchToken` */
    var exactTokens: map<string, set<string>>

    /** The candidate this object currently holds. */
    function Value(): Candidate
      reads this
    {
      Candidate(constraintTriples, filter, fuzzyTokens, exactTokens)
    }

    constructor (initialConstraint: string)
      ensures Value() == Candidates.AddConstraint(Blank, initialConstraint)
    {
      constraintTriples := {initialConstraint};
      filter := {};
      fuzzyTokens := map[];
      exactTokens := map[];
    }

    /** The empty query `clone` starts from. */
    constructor Empty()
      ensures Value() == Blank
    {
      constraintTriples := {};
      filter := {};
      fuzzyTokens := map[];
      exactTokens := map[];
    }

    method AddConstraint(constraint: string)
      modifies this
      ensures Value() == Candidates.AddConstraint(old(Value()), constraint)
    {
      constraintTriples := constraintTriples + {constraint};
    }

    method AddFilter(expression: string)
      modifies this
      ensures Value() == Candidates.AddFilter(old(Value()), expression)
    {
      filter := filter + {expression};
    }

    /** A full-text condition on `variable`: its tokens for the fuzzy
        rendering, the whole text for the exact one. */
    method AddFilterOverAbstractsContraint(variable: string, text: string)
      modifies this
      ensures Value() == AddText(old(Value()), variable, text)
    {
      FuzzyToken(variable, text);
      ExactToken(variable, text);
    }

    method ExactToken(variable: string, text: string)
      modifies this
      ensures Value() == AddExactPhrase(old(Value()), variable, text)
    {
      if variable in exactTokens {
        var phrases := exactTokens[variable];
        phrases := phrases + {text};
        exactTokens := exactTokens[variable := phrases];
      } else {
        assert Entry(exactTokens, variable) + {text} == {text};
        exactTokens := exactTokens[variable := {text}];
      }
    }

    method FuzzyToken(variable: string, text: string)
      modifies this
      ensures Value() == AddFuzzyTokens(old(Value()), variable, text)
    {
      var separatedLabel := Split(text);
      if variable in fuzzyTokens {
        var tokens := fuzzyTokens[variable];
        var i := 0;
        while i < |separatedLabel|
          invariant 0 <= i <= |separatedLabel|
          invariant tokens == fuzzyTokens[variable] + Elems(separatedLabel[..i])
        {
          assert separatedLabel[..i + 1] == separatedLabel[..i] + [separatedLabel[i]];
          tokens := tokens + {separatedLabel[i]};
          i := i + 1;
        }
        assert separatedLabel[..i] == separatedLabel;
        fuzzyTokens := fuzzyTokens[variable := tokens];
      } else {
        assert Entry(fuzzyTokens, variable) + Elems(separatedLabel) == Elems(separatedLabel);
        fuzzyTokens := fuzzyTokens[variable := Elems(separatedLabel)];
      }
    }

    /** Whether some constraint triple contains `target`. */
    method ConstraintsContains(target: string) returns (found: bool)
      ensures found <==> ConstraintsContain(Value(), target)
    {
      var rest := constraintTriples;
      while rest != {}
        invariant rest <= constraintTriples
        invariant forall c :: c in constraintTriples && c !in rest ==> !IsSubstring(target, c)
        decreases |rest|
      {
        var c :| c in rest;
        if IsSubstring(target, c) {
          return true;
        }
        rest := rest - {c};
      }
      return false;
    }

    /** `clone`: a new object with copies of the constraints, the filters
        and the fuzzy map; its exact-phrase map is left empty. */
    method Clone() returns (q: SparqlQuery)
      ensures fresh(q)
      ensures q.Value() == Candidates.Clone(Value())
    {
      var constraints := CopySet(constraintTriples);
      var filters := CopySet(filter);
      var fuzzy := CopyMap(fuzzyTokens);
      q := new SparqlQuery.Empty();
      q.constraintTriples := constraints;
      q.filter := filters;
      q.fuzzyTokens := fuzzy;
    }

    /** Both renderings, as a set. */
    method GenerateQueries(order: set<string> -> seq<string>) returns (r: set<string>)
      ensures r == Rendering.GenerateQueries(Value(), order)
    {
      var fuzzyQuery := GenerateQueryStringWithFuzzy(order);
      var exactQuery := GenerateQueryStringWithExactMatch(order);
      r := {fuzzyQuery, exactQuery};
    }

    method GenerateQueryStringWithExactMatch(order: set<string> -> seq<string>) returns (s: string)
      ensures s == ExactQuery(Value(), order)
    {
      var sb := "PREFIX text:    <http://jena.apache.org/text#> \n";
      sb := sb + "SELECT DISTINCT ?proj WHERE {\n ";
      assert sb == Header;
      var clauses := ExactClausesText(order(exactTokens.Keys), exactTokens, order);
      s := AppendConstraintsAndFilters(sb + clauses, order);
    }

    method GenerateQueryStringWithFuzzy(order: set<string> -> seq<string>) returns (s: string)
      ensures s == FuzzyQuery(Value(), order)
    {
      var sb := "PREFIX text:    <http://jena.apache.org/text#> \n";
      sb := sb + "SELECT DISTINCT ?proj WHERE {\n ";
      assert sb == Header;
      var clauses := FuzzyClausesText(order(fuzzyTokens.Keys), fuzzyTokens, order);
      s := AppendConstraintsAndFilters(sb + clauses, order);
    }

    /** The constraint lines, the filter lines and the closing lines both
        renderings append after their text clauses. */
    method AppendConstraintsAndFilters(prefix: string, order: set<string> -> seq<string>) returns (s: string)
      ensures s == prefix + Body(Value(), order)
    {
      var constraints := ConstraintLinesText(order(constraintTriples));
      var filters := FilterLinesText(order(filter));
      s := prefix + constraints + filters;
      s := s + "}\n";
      s := s + "LIMIT 12";
    }
  }

  /** The exact clauses of the variables, in the order listed. */
  method ExactClausesText(variables: seq<string>, exactTokens: map<string, set<string>>, order: set<string> -> seq<string>)
    returns (clauses: string)
    ensures clauses == ExactClauses(variables, exactTokens, order)
  {
    clauses := "";
    var k := 0;
    while k < |variables|
      invariant 0 <= k <= |variables|
      invariant clauses == ExactClauses(variables[..k], exactTokens, order)
    {
      var variable := variables[k];
      var list := order(Entry(exactTokens, variable));
      var clause := ExactClauseText(variable, list);
      ExactClausesSnoc(variables, k, exactTokens, order);
      clauses := clauses + clause;
      k := k + 1;
    }
    assert variables[..k] == variables;
  }

  /** The fuzzy clauses of the variables, in the order listed. */
  method FuzzyClausesText(variables: seq<string>, fuzzyTokens: map<string, set<string>>, order: set<string> -> seq<string>)
    returns (clauses: string)
    ensures clauses == FuzzyClauses(variables, fuzzyTokens, order)
  {
    clauses := "";
    var k := 0;
    while k < |variables|
      invariant 0 <= k <= |variables|
      invariant clauses == FuzzyClauses(variables[..k], fuzzyTokens, order)
    {
      var variable := variables[k];
      var tokens := order(Entry(fuzzyTokens, variable));
      var list := WithoutStopwords(tokens);
      var clause := FuzzyClauseText(variable, list);
      assert clause == FuzzyClause(variable, Entry(fuzzyTokens, variable), order);
      FuzzyClausesSnoc(variables, k, fuzzyTokens, order);
      clauses := clauses + clause;
      k := k + 1;
    }
    assert variables[..k] == variables;
  }

  /** One line per constraint triple, in the order listed. */
  method ConstraintLinesText(constraints: seq<string>) returns (lines: string)
    ensures lines == ConstraintLines(constraints)
  {
    lines := "";
    var i := 0;
    while i < |constraints|
      invariant 0 <= i <= |constraints|
      invariant lines == ConstraintLines(constraints[..i])
    {
      assert constraints[..i + 1][..i] == constraints[..i];
      lines := lines + (constraints[i] + " \n");
      i := i + 1;
    }
    assert constraints[..i] == constraints;
  }

  /** One `FILTER` line per filter expression, in the order listed. */
  method FilterLinesText(filters: seq<string>) returns (lines: string)
    ensures lines == FilterLines(filters)
  {
    lines := "";
    var j := 0;
    while j < |filters|
      invariant 0 <= j <= |filters|
      invariant lines == FilterLines(filters[..j])
    {
      assert filters[..j + 1][..j] == filters[..j];
      lines := lines + ("FILTER (" + filters[j] + ").\n ");
      j := j + 1;
    }
    assert filters[..j] == filters;
  }

  /** The fuzzy `text:query` clause for one variable: each remaining token
      with `~1`, joined by `AND`; nothing when no token remains. */
  method FuzzyClauseText(variable: string, list: seq<string>) returns (clause: string)
    ensures clause == SearchClause(variable, FuzzyTerms(list))
  {
    clause := "";
    if list != [] {
      var fulltext := "";
      var i := 0;
      while i < |list|
        invariant 0 <= i <= |list|
        invariant fulltext == Join(FuzzyTerms(list[..i]), Conjunction)
        invariant i > 0 ==> |fulltext| > 0
      {
        assert list[..i + 1][..i] == list[..i];
        if i > 0 && |fulltext| > 0 {
          fulltext := fulltext + " AND ";
        }
        fulltext := fulltext + (list[i] + "~1");
        i := i + 1;
      }
      assert list[..i] == list;
      clause := variable + " text:query (<http://dbpedia.org/ontology/abstract> '";
      clause := clause + fulltext;
      clause := clause + ("' " + "1000" + "). \n");
    }
  }

  /** The exact `text:query` clause for one variable: each phrase in double
      quotes, joined by `AND`; nothing when there is no phrase. */
  method ExactClauseText(variable: string, list: seq<string>) returns (clause: string)
    ensures clause == SearchClause(variable, ExactTerms(list))
  {
    clause := "";
    if list != [] {
      var fulltext := "";
      var i := 0;
      while i < |list|
        invariant 0 <= i <= |list|
        invariant fulltext == Join(ExactTerms(list[..i]), Conjunction)
        invariant i > 0 ==> |fulltext| > 0
      {
        assert list[..i + 1][..i] == list[..i];
        if i > 0 && |fulltext| > 0 {
          fulltext := fulltext + " AND ";
        }
        fulltext := fulltext + ("\"" + list[i] + "\"");
        i := i + 1;
      }
      assert list[..i] == list;
      clause := variable + " text:query (<http://dbpedia.org/ontology/abstract> '";
      clause := clause + fulltext;
      clause := clause + ("' " + "1000" + "). \n");
    }
  }

  /** The element-by-element copy of a set `clone` makes. */
  method CopySet(s: set<string>) returns (c: set<string>)
    ensures c == s
  {
    c := {};
    var rest := s;
    while rest != {}
      invariant rest <= s
      invariant c == s - rest
      decreases |rest|
    {
      var x :| x in rest;
      c := c + {x};
      rest := rest - {x};
    }
  }

  /** The entry-by-entry copy of the fuzzy map `clone` makes. */
  method CopyMap(m: map<string, set<string>>) returns (c: map<string, set<string>>)
    ensures c == m
  {
    c := map[];
    var rest := m.Keys;
    while rest != {}
      invariant rest <= m.Keys
      invariant c == Restrict(m, m.Keys - rest)
      decreases |rest|
    {
      var key :| key in rest;
      var list := m[key];
      RestrictAdd(m, m.Keys - rest, key);
      assert m.Keys - (rest - {key}) == (m.Keys - rest) + {key};
      c := c[key := list];
      rest := rest - {key};
    }
    assert Restrict(m, m.Keys) == m;
  }

  /** The entries of `m` whose keys are in `keys`. */
  function Restrict(m: map<string, set<string>>, keys: set<string>): (r: map<string, set<string>>)
  {
    map k | k in keys && k in m :: m[k]
  }

  /** Copying one more entry extends the copy by that entry. */
  lemma RestrictAdd(m: map<string, set<string>>, keys: set<string>, k: string)
    requires k in m
    ensures Restrict(m, keys + {k}) == Restrict(m, keys)[k := m[k]]
  {
    var a := Restrict(m, keys + {k});
    var b := Restrict(m, keys)[k := m[k]];
    assert a.Keys == b.Keys;
  }
}
