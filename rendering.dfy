/** The two query texts a candidate is serialised to (`generateQueries`):
    a SPARQL 1.1 `SELECT DISTINCT ?proj` query (sections 15.3 and 15.5 of
    the SPARQL 1.1 Query Language) limited to 12 rows, whose full-text
    conditions use Apache Jena's `text:query` property function over the
    DBpedia abstract. The fuzzy text searches each token; the exact text
    searches each phrase. `HashSet` and `HashMap` iteration order is
    unspecified, so every set is listed through an `order` parameter that
    enumerates it. */
module Rendering {
  import opened Candidates

  /** Tokens never searched by the fuzzy rendering. */
  const Stopwords: set<string> := {"of", "and", "in", "name", "was"}

  const Header: string := "PREFIX text:    <http://jena.apache.org/text#> \n" + "SELECT DISTINCT ?proj WHERE {\n "
  const Footer: string := "}\n" + "LIMIT 12"
  /** Opens a text search; the variable comes first. */
  const SearchOpen: string := " text:query (<http://dbpedia.org/ontology/abstract> '"
  /** Closes a text search, capping the index at 1000 hits. */
  const SearchClose: string := "' 1000). \n"
  const Conjunction: string := " AND "

  /** `xs` lists every element of `s` exactly once. */
  predicate IsEnumeration(xs: seq<string>, s: set<string>)
  {
    && (forall i, j :: 0 <= i < j < |xs| ==> xs[i] != xs[j])
    && (forall x :: x in xs ==> x in s)
    && (forall x :: x in s ==> x in xs)
  }

  /** An enumeration lists every element once, so its length is the size
      of the set. */
  lemma {:induction false} EnumerationSize(xs: seq<string>, s: set<string>)
    requires IsEnumeration(xs, s)
    ensures |xs| == |s|
    decreases |xs|
  {
    if xs == [] {
      assert s == {};
    } else {
      var t := xs[1..];
      assert xs == [xs[0]] + t;
      forall x | x in t
        ensures x in s - {xs[0]}
      {
        var k :| 0 <= k < |t| && t[k] == x;
        assert xs[k + 1] == x;
      }
      forall x | x in s - {xs[0]}
        ensures x in t
      {
        assert x in xs;
      }
      assert IsEnumeration(t, s - {xs[0]});
      EnumerationSize(t, s - {xs[0]});
    }
  }

  /** `order` lists every set in some iteration order. */
  ghost predicate IsOrder(order: set<string> -> seq<string>)
  {
    forall s :: IsEnumeration(order(s), s)
  }

  function Join(xs: seq<string>, sep: string): (r: string)
  {
    if |xs| == 0 then ""
    else if |xs| == 1 then xs[0]
    else Join(xs[..|xs| - 1], sep) + sep + xs[|xs| - 1]
  }

  /** `list.removeAll(stopwords)`: the order of the rest is kept. */
  function WithoutStopwords(xs: seq<string>): (r: seq<string>)
  {
    if xs == [] then []
    else
      var rest := WithoutStopwords(xs[..|xs| - 1]);
      if xs[|xs| - 1] in Stopwords then rest else rest + [xs[|xs| - 1]]
  }

  /** A fuzzy term: the token with edit distance one. */
  function FuzzyTerm(token: string): (r: string)
  {
    token + "~1"
  }

  /** An exact term: the phrase in double quotes. */
  function ExactTerm(phrase: string): (r: string)
  {
    "\"" + phrase + "\""
  }

  function FuzzyTerms(tokens: seq<string>): (r: seq<string>)
    ensures |r| == |tokens|
  {
    if tokens == [] then [] else FuzzyTerms(tokens[..|tokens| - 1]) + [FuzzyTerm(tokens[|tokens| - 1])]
  }

  function ExactTerms(phrases: seq<string>): (r: seq<string>)
    ensures |r| == |phrases|
  {
    if phrases == [] then [] else ExactTerms(phrases[..|phrases| - 1]) + [ExactTerm(phrases[|phrases| - 1])]
  }

  /** One `text:query` clause for `variable`, or nothing without terms. */
  function SearchClause(variable: string, terms: seq<string>): (r: string)
  {
    if terms == [] then "" else variable + SearchOpen + Join(terms, Conjunction) + SearchClose
  }

  /** The fuzzy clause of one variable: its tokens less the stopwords. */
  function FuzzyClause(variable: string, tokens: set<string>, order: set<string> -> seq<string>): (r: string)
  {
    SearchClause(variable, FuzzyTerms(WithoutStopwords(order(tokens))))
  }

  /** The exact clause of one variable: all its phrases. */
  function ExactClause(variable: string, phrases: set<string>, order: set<string> -> seq<string>): (r: string)
  {
    SearchClause(variable, ExactTerms(order(phrases)))
  }

  function FuzzyClauses(variables: seq<string>, fuzzy: map<string, set<string>>, order: set<string> -> seq<string>)
    : (r: string)
  {
    if variables == [] then ""
    else
      var v := variables[|variables| - 1];
      FuzzyClauses(variables[..|variables| - 1], fuzzy, order) + FuzzyClause(v, Entry(fuzzy, v), order)
  }

  function ExactClauses(variables: seq<string>, exact: map<string, set<string>>, order: set<string> -> seq<string>)
    : (r: string)
  {
    if variables == [] then ""
    else
      var v := variables[|variables| - 1];
      ExactClauses(variables[..|variables| - 1], exact, order) + ExactClause(v, Entry(exact, v), order)
  }

  /** The clauses of a prefix of the variables grow by one clause at a time. */
  lemma FuzzyClausesSnoc(vs: seq<string>, k: nat, fuzzy: map<string, set<string>>, order: set<string> -> seq<string>)
    requires k < |vs|
    ensures FuzzyClauses(vs[..k + 1], fuzzy, order) == FuzzyClauses(vs[..k], fuzzy, order) + FuzzyClause(vs[k], Entry(fuzzy, vs[k]), order)
  {
    assert vs[..k + 1][..k] == vs[..k];
  }

  lemma ExactClausesSnoc(vs: seq<string>, k: nat, exact: map<string, set<string>>, order: set<string> -> seq<string>)
    requires k < |vs|
    ensures ExactClauses(vs[..k + 1], exact, order) == ExactClauses(vs[..k], exact, order) + ExactClause(vs[k], Entry(exact, vs[k]), order)
  {
    assert vs[..k + 1][..k] == vs[..k];
  }

  function ConstraintLine(c: string): (r: string)
  {
    c + " \n"
  }

  function FilterLine(f: string): (r: string)
  {
    "FILTER (" + f + ").\n "
  }

  /** One line per constraint triple. */
  function ConstraintLines(cs: seq<string>): (r: string)
  {
    if cs == [] then "" else ConstraintLines(cs[..|cs| - 1]) + ConstraintLine(cs[|cs| - 1])
  }

  /** One `FILTER` line per filter expression. */
  function FilterLines(fs: seq<string>): (r: string)
  {
    if fs == [] then "" else FilterLines(fs[..|fs| - 1]) + FilterLine(fs[|fs| - 1])
  }

  /** The part both renderings share after the text clauses. */
  function Body(q: Candidate, order: set<string> -> seq<string>): (r: string)
  {
    ConstraintLines(order(q.constraints)) + FilterLines(order(q.filters)) + Footer
  }

  /** `generateQueryStringWithFuzzy` */
  function FuzzyQuery(q: Candidate, order: set<string> -> seq<string>): (r: string)
  {
    Header + FuzzyClauses(order(q.fuzzy.Keys), q.fuzzy, order) + Body(q, order)
  }

  /** `generateQueryStringWithExactMatch` */
  function ExactQuery(q: Candidate, order: set<string> -> seq<string>): (r: string)
  {
    Header + ExactClauses(order(q.exact.Keys), q.exact, order) + Body(q, order)
  }

  /** `generateQueries`: a set, so one string when both renderings agree. */
  function GenerateQueries(q: Candidate, order: set<string> -> seq<string>): (r: set<string>)
  {
    {FuzzyQuery(q, order), ExactQuery(q, order)}
  }

  // ---------------------------------------------------------------------
  // Which text clauses are emitted

  /** Removing the stopwords from an enumeration of `s` enumerates the
      rest of `s`. */
  lemma {:induction false} WithoutStopwordsEnumerates(xs: seq<string>, s: set<string>)
    requires IsEnumeration(xs, s)
    ensures IsEnumeration(WithoutStopwords(xs), s - Stopwords)
    decreases |xs|
  {
    if xs != [] {
      var p, x := xs[..|xs| - 1], xs[|xs| - 1];
      assert xs == p + [x];
      assert IsEnumeration(p, s - {x});
      WithoutStopwordsEnumerates(p, s - {x});
      var r := WithoutStopwords(p);
      if x !in Stopwords {
        assert WithoutStopwords(xs) == r + [x];
        forall i, j | 0 <= i < j < |r| + 1
          ensures (r + [x])[i] != (r + [x])[j]
        {
          if j == |r| {
            assert r[i] in r;
          }
        }
      }
    }
  }

  lemma {:induction false} FuzzyTermsAt(xs: seq<string>)
    ensures forall i :: 0 <= i < |xs| ==> FuzzyTerms(xs)[i] == FuzzyTerm(xs[i])
  {
    if xs != [] {
      FuzzyTermsAt(xs[..|xs| - 1]);
    }
  }

  lemma {:induction false} ExactTermsAt(xs: seq<string>)
    ensures forall i :: 0 <= i < |xs| ==> ExactTerms(xs)[i] == ExactTerm(xs[i])
  {
    if xs != [] {
      ExactTermsAt(xs[..|xs| - 1]);
    }
  }

  lemma FuzzyTermInjective(a: string, b: string)
    requires FuzzyTerm(a) == FuzzyTerm(b)
    ensures a == b
  {
    assert |a| == |b|;
    assert a == FuzzyTerm(a)[..|a|];
  }

  lemma ExactTermInjective(a: string, b: string)
    requires ExactTerm(a) == ExactTerm(b)
    ensures a == b
  {
    assert |a| == |b|;
    assert a == ExactTerm(a)[1..|a| + 1];
  }

  /** A variable gets a fuzzy clause exactly when some of its tokens is not
      a stopword; the clause searches each such token, once, with `~1`. */
  lemma FuzzyClauseTerms(v: string, tokens: set<string>, order: set<string> -> seq<string>)
    requires IsOrder(order)
    ensures FuzzyClause(v, tokens, order) != "" <==> tokens - Stopwords != {}
    ensures var terms := FuzzyTerms(WithoutStopwords(order(tokens)));
      && (forall i, j :: 0 <= i < j < |terms| ==> terms[i] != terms[j])
      && (forall t :: t in tokens && t !in Stopwords <==> FuzzyTerm(t) in terms)
  {
    var list := WithoutStopwords(order(tokens));
    var terms := FuzzyTerms(list);
    WithoutStopwordsEnumerates(order(tokens), tokens);
    FuzzyTermsAt(list);
    forall i, j | 0 <= i < j < |terms|
      ensures terms[i] != terms[j]
    {
      if terms[i] == terms[j] {
        FuzzyTermInjective(list[i], list[j]);
      }
    }
    forall t
      ensures t in tokens && t !in Stopwords <==> FuzzyTerm(t) in terms
    {
      if FuzzyTerm(t) in terms {
        var i :| 0 <= i < |terms| && terms[i] == FuzzyTerm(t);
        FuzzyTermInjective(list[i], t);
        assert list[i] in list;
      }
      if t in tokens && t !in Stopwords {
        assert t in tokens - Stopwords;
        assert t in list;
        var i :| 0 <= i < |list| && list[i] == t;
        assert terms[i] == FuzzyTerm(t);
        assert terms[i] in terms;
      }
    }
    if tokens - Stopwords != {} {
      var t :| t in tokens - Stopwords;
      assert t in list;
    }
  }

  /** A variable gets an exact clause exactly when it has a phrase; the
      clause searches each phrase, once, in double quotes, stopwords
      included. */
  lemma ExactClauseTerms(v: string, phrases: set<string>, order: set<string> -> seq<string>)
    requires IsOrder(order)
    ensures ExactClause(v, phrases, order) != "" <==> phrases != {}
    ensures var terms := ExactTerms(order(phrases));
      && (forall i, j :: 0 <= i < j < |terms| ==> terms[i] != terms[j])
      && (forall p :: p in phrases <==> ExactTerm(p) in terms)
  {
    var list := order(phrases);
    var terms := ExactTerms(list);
    assert IsEnumeration(list, phrases);
    ExactTermsAt(list);
    forall i, j | 0 <= i < j < |terms|
      ensures terms[i] != terms[j]
    {
      if terms[i] == terms[j] {
        ExactTermInjective(list[i], list[j]);
      }
    }
    forall p
      ensures p in phrases <==> ExactTerm(p) in terms
    {
      if ExactTerm(p) in terms {
        var i :| 0 <= i < |terms| && terms[i] == ExactTerm(p);
        ExactTermInjective(list[i], p);
      }
      if p in phrases {
        var i :| 0 <= i < |list| && list[i] == p;
        assert terms[i] == ExactTerm(p);
      }
    }
    if phrases != {} {
      var p :| p in phrases;
      assert p in list;
    }
  }

  lemma {:induction false} FuzzyClausesEmpty(vs: seq<string>, fuzzy: map<string, set<string>>, order: set<string> -> seq<string>)
    ensures FuzzyClauses(vs, fuzzy, order) == ""
        <==> forall i :: 0 <= i < |vs| ==> FuzzyClause(vs[i], Entry(fuzzy, vs[i]), order) == ""
  {
    if vs != [] {
      var p := vs[..|vs| - 1];
      FuzzyClausesEmpty(p, fuzzy, order);
      assert forall i :: 0 <= i < |p| ==> p[i] == vs[i];
    }
  }

  lemma {:induction false} ExactClausesEmpty(vs: seq<string>, exact: map<string, set<string>>, order: set<string> -> seq<string>)
    ensures ExactClauses(vs, exact, order) == ""
        <==> forall i :: 0 <= i < |vs| ==> ExactClause(vs[i], Entry(exact, vs[i]), order) == ""
  {
    if vs != [] {
      var p := vs[..|vs| - 1];
      ExactClausesEmpty(p, exact, order);
      assert forall i :: 0 <= i < |p| ==> p[i] == vs[i];
    }
  }

  /** The fuzzy rendering has no text clause exactly when every variable's
      tokens are stopwords. */
  lemma NoFuzzyClauses(fuzzy: map<string, set<string>>, order: set<string> -> seq<string>)
    requires IsOrder(order)
    ensures FuzzyClauses(order(fuzzy.Keys), fuzzy, order) == ""
        <==> forall v :: v in fuzzy ==> fuzzy[v] <= Stopwords
  {
    var vs := order(fuzzy.Keys);
    assert IsEnumeration(vs, fuzzy.Keys);
    FuzzyClausesEmpty(vs, fuzzy, order);
    forall v | v in fuzzy
      ensures FuzzyClause(v, Entry(fuzzy, v), order) == "" <==> fuzzy[v] <= Stopwords
    {
      FuzzyClauseTerms(v, fuzzy[v], order);
    }
    if FuzzyClauses(vs, fuzzy, order) == "" {
      forall v | v in fuzzy
        ensures fuzzy[v] <= Stopwords
      {
        assert v in vs;
        var i :| 0 <= i < |vs| && vs[i] == v;
        assert FuzzyClause(vs[i], Entry(fuzzy, vs[i]), order) == "";
      }
    }
  }

  /** The exact rendering has no text clause exactly when no variable has a
      phrase. */
  lemma NoExactClauses(exact: map<string, set<string>>, order: set<string> -> seq<string>)
    requires IsOrder(order)
    ensures ExactClauses(order(exact.Keys), exact, order) == ""
        <==> forall v :: v in exact ==> exact[v] == {}
  {
    var vs := order(exact.Keys);
    assert IsEnumeration(vs, exact.Keys);
    ExactClausesEmpty(vs, exact, order);
    forall v | v in exact
      ensures ExactClause(v, Entry(exact, v), order) == "" <==> exact[v] == {}
    {
      ExactClauseTerms(v, exact[v], order);
    }
    if ExactClauses(vs, exact, order) == "" {
      forall v | v in exact
        ensures exact[v] == {}
      {
        assert v in vs;
        var i :| 0 <= i < |vs| && vs[i] == v;
        assert ExactClause(vs[i], Entry(exact, vs[i]), order) == "";
      }
    }
  }

  // ---------------------------------------------------------------------
  // How the two renderings relate

  lemma Cancel(h: string, a: string, b: string, t: string)
    ensures h + a + t == h + b + t <==> a == b
  {
    if h + a + t == h + b + t {
      assert |a| == |b|;
      assert a == (h + a + t)[|h|..|h| + |a|];
      assert b == (h + b + t)[|h|..|h| + |b|];
    }
  }

  /** The renderings share header, triples, filters and limit, so they
      differ only in their text clauses; `generateQueries` returns one
      string exactly when the clauses agree. */
  lemma RenderingsDifferInTextOnly(q: Candidate, order: set<string> -> seq<string>)
    ensures FuzzyQuery(q, order) == ExactQuery(q, order)
        <==> FuzzyClauses(order(q.fuzzy.Keys), q.fuzzy, order) == ExactClauses(order(q.exact.Keys), q.exact, order)
    ensures |GenerateQueries(q, order)| == 1 <==> FuzzyQuery(q, order) == ExactQuery(q, order)
  {
    Cancel(Header, FuzzyClauses(order(q.fuzzy.Keys), q.fuzzy, order),
      ExactClauses(order(q.exact.Keys), q.exact, order), Body(q, order));
    if FuzzyQuery(q, order) != ExactQuery(q, order) {
      assert |GenerateQueries(q, order)| == 2;
    }
  }

  /** Without any searchable text the two renderings coincide. */
  lemma OneQueryWithoutText(q: Candidate, order: set<string> -> seq<string>)
    requires IsOrder(order)
    requires forall v :: v in q.fuzzy ==> q.fuzzy[v] <= Stopwords
    requires forall v :: v in q.exact ==> q.exact[v] == {}
    ensures GenerateQueries(q, order) == {FuzzyQuery(q, order)}
  {
    NoFuzzyClauses(q.fuzzy, order);
    NoExactClauses(q.exact, order);
    RenderingsDifferInTextOnly(q, order);
  }

  // ---------------------------------------------------------------------
  // Every constraint and every filter is listed

  lemma IsSubstringOfInfix(t: string, a: string, b: string)
    ensures IsSubstring(t, a + t + b)
    decreases |a|
  {
    if a == [] {
      assert a + t + b == t + b;
    } else {
      assert (a + t + b)[1..] == a[1..] + t + b;
      IsSubstringOfInfix(t, a[1..], b);
    }
  }

  lemma {:induction false} ConstraintLinesAppend(xs: seq<string>, ys: seq<string>)
    ensures ConstraintLines(xs + ys) == ConstraintLines(xs) + ConstraintLines(ys)
    decreases |ys|
  {
    if ys != [] {
      var p := ys[..|ys| - 1];
      assert (xs + ys)[..|xs + ys| - 1] == xs + p;
      ConstraintLinesAppend(xs, p);
    } else {
      assert xs + ys == xs;
    }
  }

  lemma {:induction false} FilterLinesAppend(xs: seq<string>, ys: seq<string>)
    ensures FilterLines(xs + ys) == FilterLines(xs) + FilterLines(ys)
    decreases |ys|
  {
    if ys != [] {
      var p := ys[..|ys| - 1];
      assert (xs + ys)[..|xs + ys| - 1] == xs + p;
      FilterLinesAppend(xs, p);
    } else {
      assert xs + ys == xs;
    }
  }

  lemma IsSubstringExtend(t: string, a: string, s: string)
    requires IsSubstring(t, s)
    ensures IsSubstring(t, a + s)
    decreases |a|
  {
    if a == [] {
      assert a + s == s;
    } else {
      assert (a + s)[1..] == a[1..] + s;
      IsSubstringExtend(t, a[1..], s);
    }
  }

  /** A line of the body is a line of both renderings. */
  lemma InBothRenderings(q: Candidate, order: set<string> -> seq<string>, line: string)
    requires IsSubstring(line, Body(q, order))
    ensures IsSubstring(line, FuzzyQuery(q, order))
    ensures IsSubstring(line, ExactQuery(q, order))
  {
    var fuzzyHead := Header + FuzzyClauses(order(q.fuzzy.Keys), q.fuzzy, order);
    var exactHead := Header + ExactClauses(order(q.exact.Keys), q.exact, order);
    IsSubstringExtend(line, fuzzyHead, Body(q, order));
    IsSubstringExtend(line, exactHead, Body(q, order));
  }

  lemma {:induction false} ConstraintLinesSplit(cs: seq<string>, i: nat)
    requires i < |cs|
    ensures ConstraintLines(cs) == ConstraintLines(cs[..i]) + ConstraintLine(cs[i]) + ConstraintLines(cs[i + 1..])
  {
    assert cs == (cs[..i] + [cs[i]]) + cs[i + 1..];
    ConstraintLinesAppend(cs[..i] + [cs[i]], cs[i + 1..]);
    ConstraintLinesAppend(cs[..i], [cs[i]]);
    assert [cs[i]][..0] == [];
    assert ConstraintLines([cs[i]]) == ConstraintLine(cs[i]);
  }

  lemma {:induction false} FilterLinesSplit(fs: seq<string>, i: nat)
    requires i < |fs|
    ensures FilterLines(fs) == FilterLines(fs[..i]) + FilterLine(fs[i]) + FilterLines(fs[i + 1..])
  {
    assert fs == (fs[..i] + [fs[i]]) + fs[i + 1..];
    FilterLinesAppend(fs[..i] + [fs[i]], fs[i + 1..]);
    FilterLinesAppend(fs[..i], [fs[i]]);
    assert [fs[i]][..0] == [];
    assert FilterLines([fs[i]]) == FilterLine(fs[i]);
  }

  lemma {:induction false} IsSubstringAppend(t: string, s: string, b: string)
    requires IsSubstring(t, s)
    ensures IsSubstring(t, s + b)
    decreases |s|
  {
    if !(t <= s) {
      assert (s + b)[1..] == s[1..] + b;
      IsSubstringAppend(t, s[1..], b);
    }
  }

  /** Each constraint triple is a line of both renderings. */
  lemma ConstraintListed(q: Candidate, order: set<string> -> seq<string>, c: string)
    requires IsOrder(order) && c in q.constraints
    ensures IsSubstring(ConstraintLine(c), FuzzyQuery(q, order))
    ensures IsSubstring(ConstraintLine(c), ExactQuery(q, order))
  {
    var cs := order(q.constraints);
    assert IsEnumeration(cs, q.constraints);
    var i :| 0 <= i < |cs| && cs[i] == c;
    ConstraintLinesSplit(cs, i);
    IsSubstringOfInfix(ConstraintLine(c), ConstraintLines(cs[..i]), ConstraintLines(cs[i + 1..]));
    var rest := FilterLines(order(q.filters)) + Footer;
    IsSubstringAppend(ConstraintLine(c), ConstraintLines(cs), rest);
    assert Body(q, order) == ConstraintLines(cs) + rest;
    InBothRenderings(q, order, ConstraintLine(c));
  }

  /** Each filter expression is a `FILTER` line of both renderings. */
  lemma FilterListed(q: Candidate, order: set<string> -> seq<string>, f: string)
    requires IsOrder(order) && f in q.filters
    ensures IsSubstring(FilterLine(f), FuzzyQuery(q, order))
    ensures IsSubstring(FilterLine(f), ExactQuery(q, order))
  {
    var fs := order(q.filters);
    assert IsEnumeration(fs, q.filters);
    var i :| 0 <= i < |fs| && fs[i] == f;
    FilterLinesSplit(fs, i);
    var line := FilterLine(f);
    IsSubstringOfInfix(line, FilterLines(fs[..i]), FilterLines(fs[i + 1..]));
    var before := ConstraintLines(order(q.constraints));
    IsSubstringExtend(line, before, FilterLines(fs));
    IsSubstringAppend(line, before + FilterLines(fs), Footer);
    InBothRenderings(q, order, line);
  }
}
