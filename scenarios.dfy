/** Worked examples: a two-node question tree walked end to end, and the
    texts of the candidates it and a full-text search produce. */
module Scenarios {
  import opened Trees
  import opened Candidates
  import opened GeneratorSpec
  import opened Rendering

  // ---------------------------------------------------------------------
  // Enumerations of small sets
  // ---------------------------------------------------------------------

  lemma EnumerationOfNone(xs: seq<string>)
    requires IsEnumeration(xs, {})
    ensures xs == []
  {
    EnumerationSize(xs, {});
  }

  lemma EnumerationOfOne(xs: seq<string>, x: string)
    requires IsEnumeration(xs, {x})
    ensures xs == [x]
  {
    EnumerationSize(xs, {x});
    assert xs[0] in xs;
  }

  lemma EnumerationOfTwo(xs: seq<string>, a: string, b: string)
    requires a != b && IsEnumeration(xs, {a, b})
    ensures xs == [a, b] || xs == [b, a]
  {
    EnumerationSize(xs, {a, b});
    assert xs[0] in xs && xs[1] in xs;
  }

  // ---------------------------------------------------------------------
  // "Who founded ...?": a `WP` root whose child is an annotated verb
  // ---------------------------------------------------------------------

  const FounderOf := "http://dbpedia.org/ontology/founder"

  function Founded(): Tree
  {
    Tree("founded", "VBD", Some("found"), [], {FounderOf})
  }

  function WhoFounded(): Tree
  {
    Tree("Who", "WP", None, [Founded()], {})
  }

  /** The `WP` root passes the one empty candidate on, and the verb makes
      its three triples from it: the URI as predicate either way round, and
      a triple with an unbound predicate. */
  lemma WhoFoundedCandidates(labelsOf: string -> set<string>)
    ensures Generate(WhoFounded(), labelsOf) == multiset{
      AddConstraint(Blank, "?proj  <" + FounderOf + "> ?const."),
      AddConstraint(Blank, "?const <" + FounderOf + "> ?proj."),
      AddConstraint(Blank, "?const ?proot ?proj.")}
  {
    var seed := multiset{Blank};
    WhPronounPassesThrough(seed, WhoFounded(), labelsOf);
    OnlyChildWalk(seed, WhoFounded(), labelsOf);
    LeafWalk(seed, Founded(), labelsOf);
    FoundedStep(labelsOf);
  }

  /** The annotated verb turns the empty candidate into the verb rule's
      three triples. */
  lemma FoundedStep(labelsOf: string -> set<string>)
    ensures Step(multiset{Blank}, Founded(), labelsOf) == multiset{
      AddConstraint(Blank, "?proj  <" + FounderOf + "> ?const."),
      AddConstraint(Blank, "?const <" + FounderOf + "> ?proj."),
      AddConstraint(Blank, "?const ?proot ?proj.")}
  {
    SingleAnnotationStep(Blank, Founded(), FounderOf, labelsOf);
    assert PosTags.IsVerb("VBD") by {
      assert "VBD"[2..] == "D";
    }
    assert Clone(Blank) == Blank;
  }

  /** A candidate with one triple and no text search renders as the same
      query either way: the header, the triple's line and the footer. */
  lemma OneTripleQuery(c: string, order: set<string> -> seq<string>)
    requires IsOrder(order)
    ensures GenerateQueries(AddConstraint(Blank, c), order) == {Header + ConstraintLine(c) + Footer}
  {
    var q := AddConstraint(Blank, c);
    EnumerationOfOne(order(q.constraints), c);
    EnumerationOfNone(order(q.filters));
    EnumerationOfNone(order(q.fuzzy.Keys));
    EnumerationOfNone(order(q.exact.Keys));
    assert [c][..0] == [];
    assert ConstraintLines([c]) == ConstraintLine(c);
    assert Body(q, order) == ConstraintLine(c) + Footer;
    assert FuzzyQuery(q, order) == Header + ConstraintLine(c) + Footer;
    assert ExactQuery(q, order) == Header + ConstraintLine(c) + Footer;
  }

  // ---------------------------------------------------------------------
  // A full-text search for "Nobel Prize"
  // ---------------------------------------------------------------------

  /** Two words separated by one space split into those two words. */
  lemma SplitTwoWords(a: string, b: string)
    requires NoSeparator(a) && NoSeparator(b) && b != []
    ensures Split(a + " " + b) == [a, b]
  {
    assert a + " " + b == a + [' '] + b;
    FieldsAfterWord(a, ' ', b);
    FieldsOfWord(b);
  }

  /** A text search added to an empty candidate is its only text. */
  lemma TextOnBlank(v: string, text: string)
    ensures AddText(Blank, v, text).fuzzy == map[v := Elems(Split(text))]
    ensures AddText(Blank, v, text).exact == map[v := {text}]
  {
    var f := AddFuzzyTokens(Blank, v, text);
    assert {} + Elems(Split(text)) == Elems(Split(text));
    assert f.exact == map[];
    assert {} + {text} == {text};
  }

  /** The label is split into two fuzzy tokens and kept whole as one
      exact phrase. */
  lemma NobelPrizeTokens()
    ensures AddText(Blank, Proj, "Nobel Prize").fuzzy == map[Proj := {"Nobel", "Prize"}]
    ensures AddText(Blank, Proj, "Nobel Prize").exact == map[Proj := {"Nobel Prize"}]
  {
    assert NoSeparator("Nobel") && NoSeparator("Prize");
    SplitTwoWords("Nobel", "Prize");
    assert "Nobel" + " " + "Prize" == "Nobel Prize";
    assert Elems(["Nobel", "Prize"]) == {"Nobel", "Prize"};
    TextOnBlank(Proj, "Nobel Prize");
  }

  /** Two tokens that are not stopwords are both searched, with edit
      distance one, in the order the set is listed. */
  lemma TwoTokenClause(v: string, a: string, b: string, order: set<string> -> seq<string>)
    requires IsOrder(order) && a != b && a !in Stopwords && b !in Stopwords
    ensures FuzzyClause(v, {a, b}, order)
         in {v + SearchOpen + (FuzzyTerm(a) + Conjunction + FuzzyTerm(b)) + SearchClose,
             v + SearchOpen + (FuzzyTerm(b) + Conjunction + FuzzyTerm(a)) + SearchClose}
  {
    WithoutStopwordsEnumerates(order({a, b}), {a, b});
    assert {a, b} - Stopwords == {a, b};
    var list := WithoutStopwords(order({a, b}));
    EnumerationOfTwo(list, a, b);
    TwoTermsClause(v, list[0], list[1]);
    assert list == [list[0], list[1]];
  }

  /** The clause over two tokens joins their fuzzy terms with `AND`. */
  lemma TwoTermsClause(v: string, x: string, y: string)
    ensures SearchClause(v, FuzzyTerms([x, y])) == v + SearchOpen + (FuzzyTerm(x) + Conjunction + FuzzyTerm(y)) + SearchClose
  {
    assert [x, y][..1] == [x] && [x][..0] == [];
    assert FuzzyTerms([x]) == [FuzzyTerm(x)];
    var terms := FuzzyTerms([x, y]);
    assert terms == [FuzzyTerm(x), FuzzyTerm(y)];
    assert terms[..1] == [FuzzyTerm(x)];
    assert Join(terms, Conjunction) == FuzzyTerm(x) + Conjunction + FuzzyTerm(y);
  }

  /** One phrase is searched quoted, stopwords or not. */
  lemma OnePhraseClause(v: string, p: string, order: set<string> -> seq<string>)
    requires IsOrder(order)
    ensures ExactClause(v, {p}, order) == v + SearchOpen + ExactTerm(p) + SearchClose
  {
    EnumerationOfOne(order({p}), p);
    assert ExactTerms([p]) == [ExactTerm(p)];
  }

  /** The fuzzy clause searches both tokens with edit distance one, in
      either order. */
  lemma NobelPrizeFuzzyClause(order: set<string> -> seq<string>)
    requires IsOrder(order)
    ensures FuzzyClause(Proj, {"Nobel", "Prize"}, order)
         in {Proj + SearchOpen + ("Nobel~1" + Conjunction + "Prize~1") + SearchClose,
             Proj + SearchOpen + ("Prize~1" + Conjunction + "Nobel~1") + SearchClose}
  {
    assert "Nobel" !in Stopwords && "Prize" !in Stopwords;
    TwoTokenClause(Proj, "Nobel", "Prize", order);
    assert FuzzyTerm("Nobel") == "Nobel~1" && FuzzyTerm("Prize") == "Prize~1";
  }

  /** The exact clause searches the quoted phrase. */
  lemma NobelPrizeExactClause(order: set<string> -> seq<string>)
    requires IsOrder(order)
    ensures ExactClause(Proj, {"Nobel Prize"}, order) == Proj + SearchOpen + "\"Nobel Prize\"" + SearchClose
  {
    OnePhraseClause(Proj, "Nobel Prize", order);
    assert ExactTerm("Nobel Prize") == "\"Nobel Prize\"";
  }

  /** "name of": both tokens are stopwords, so the fuzzy rendering drops
      the search while the exact one keeps the phrase. */
  lemma StopwordsOnly(order: set<string> -> seq<string>)
    requires IsOrder(order)
    ensures FuzzyClause(Const, {"name", "of"}, order) == ""
    ensures ExactClause(Const, {"name of"}, order) == Const + SearchOpen + "\"name of\"" + SearchClose
  {
    FuzzyClauseTerms(Const, {"name", "of"}, order);
    assert {"name", "of"} - Stopwords == {};
    OnePhraseClause(Const, "name of", order);
    assert ExactTerm("name of") == "\"name of\"";
  }
}
