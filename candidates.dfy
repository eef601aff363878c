/** The value held by one query candidate (a `SPARQLQuery` object) and the
    pure operations on it. The class in sparql_query.dfy updates its fields
    in place; its methods are specified by the functions here. */
module Candidates {

  /** The four fields of a candidate: triple patterns, filter expressions,
      and two maps from a query variable to full-text search terms: single
      tokens searched fuzzily, and whole labels searched as exact phrases. */
  datatype Candidate = Candidate(
    constraints: set<string>,
    filters: set<string>,
    fuzzy: map<string, set<string>>,
    exact: map<string, set<string>>)

  /** A candidate with nothing in it, as made by the no-argument constructor. */
  const Blank := Candidate({}, {}, map[], map[])

  /** The set a map holds for `key`, or the empty set when the key is absent. */
  function Entry(m: map<string, set<string>>, key: string): set<string>
  {
    if key in m then m[key] else {}
  }

  function AddConstraint(q: Candidate, triple: string): (r: Candidate)
  {
    q.(constraints := q.constraints + {triple})
  }

  function AddFilter(q: Candidate, expr: string): (r: Candidate)
  {
    q.(filters := q.filters + {expr})
  }

  // ---------------------------------------------------------------------
  // Splitting a label into fuzzy tokens: Java's `label.split("[ \\-]")`.

  predicate IsSeparator(c: char) { c == ' ' || c == '-' }

  predicate NoSeparator(s: string)
  {
    forall i :: 0 <= i < |s| ==> !IsSeparator(s[i])
  }

  /** Every field between separators, empty ones included; a string with
      `k` separators has `k + 1` fields. */
  function Fields(s: string): (r: seq<string>)
    ensures |r| >= 1
  {
    if s == [] then [[]]
    else
      var rest := Fields(s[1..]);
      if IsSeparator(s[0]) then [[]] + rest
      else [[s[0]] + rest[0]] + rest[1..]
  }

  function DropTrailingEmpty(xs: seq<string>): (r: seq<string>)
  {
    if xs == [] || xs[|xs| - 1] != [] then xs
    else DropTrailingEmpty(xs[..|xs| - 1])
  }

  /** Java's `String.split` with a limit of zero: a string in which the
      pattern never matches (in particular the empty string) gives itself;
      otherwise the fields, with trailing empty fields removed. */
  function Split(s: string): (r: seq<string>)
  {
    if s == [] then [s] else DropTrailingEmpty(Fields(s))
  }

  function Elems(xs: seq<string>): set<string>
  {
    set x | x in xs
  }

  /** `fuzzyToken`: the variable's token set gains every token of `label`. */
  function AddFuzzyTokens(q: Candidate, variable: string, text: string): (r: Candidate)
  {
    q.(fuzzy := q.fuzzy[variable := Entry(q.fuzzy, variable) + Elems(Split(text))])
  }

  /** `exactToken`: the variable's phrase set gains `label` itself. */
  function AddExactPhrase(q: Candidate, variable: string, text: string): (r: Candidate)
  {
    q.(exact := q.exact[variable := Entry(q.exact, variable) + {text}])
  }

  /** `addFilterOverAbstractsContraint`: both of the above. */
  function AddText(q: Candidate, variable: string, text: string): (r: Candidate)
  {
    AddExactPhrase(AddFuzzyTokens(q, variable, text), variable, text)
  }

  /** `clone()`: constraints, filters and the fuzzy map are copied; the
      exact-phrase map is not copied, so the clone starts with an empty one. */
  function Clone(q: Candidate): (r: Candidate)
  {
    Candidate(q.constraints, q.filters, q.fuzzy, map[])
  }

  /** Java's `s.contains(t)`. */
  predicate IsSubstring(t: string, s: string)
    decreases |s|
  {
    t <= s || (s != [] && IsSubstring(t, s[1..]))
  }

  /** `constraintsContains(t)` */
  predicate ConstraintsContain(q: Candidate, t: string)
  {
    exists c :: c in q.constraints && IsSubstring(t, c)
  }

  /** The invariant the fuzzy map keeps: no token holds a separator. */
  predicate TokensClean(q: Candidate)
  {
    forall v, t :: v in q.fuzzy && t in q.fuzzy[v] ==> NoSeparator(t)
  }

  /** What a cloned candidate shares with its source and every later
      extension keeps: the constraints, the filters and the fuzzy tokens of
      `q` are all still present in `r`. */
  predicate Extends(r: Candidate, q: Candidate)
  {
    && q.constraints <= r.constraints
    && q.filters <= r.filters
    && (forall v :: v in q.fuzzy ==> v in r.fuzzy && q.fuzzy[v] <= r.fuzzy[v])
  }

  // ---------------------------------------------------------------------
  // Lemmas about splitting

  lemma {:induction false} FieldsClean(s: string)
    ensures forall i :: 0 <= i < |Fields(s)| ==> NoSeparator(Fields(s)[i])
  {
    if s != [] {
      FieldsClean(s[1..]);
    }
  }

  lemma {:induction false} DropTrailingEmptyIsPrefix(xs: seq<string>)
    ensures DropTrailingEmpty(xs) <= xs
    ensures forall i :: |DropTrailingEmpty(xs)| <= i < |xs| ==> xs[i] == []
  {
    if xs != [] && xs[|xs| - 1] == [] {
      DropTrailingEmptyIsPrefix(xs[..|xs| - 1]);
    }
  }

  /** No token produced by `Split` contains a space or a hyphen. */
  lemma SplitTokensClean(s: string)
    ensures forall t :: t in Split(s) ==> NoSeparator(t)
  {
    if s != [] {
      FieldsClean(s);
      DropTrailingEmptyIsPrefix(Fields(s));
    }
  }

  /** The characters of `s` that are not separators, in order. */
  function Strip(s: string): (r: string)
  {
    if s == [] then []
    else if IsSeparator(s[0]) then Strip(s[1..])
    else [s[0]] + Strip(s[1..])
  }

  function Concat(xs: seq<string>): string
  {
    if xs == [] then [] else xs[0] + Concat(xs[1..])
  }

  lemma {:induction false} FieldsConcat(s: string)
    ensures Concat(Fields(s)) == Strip(s)
  {
    if s != [] {
      FieldsConcat(s[1..]);
      var rest := Fields(s[1..]);
      if !IsSeparator(s[0]) {
        calc {
          Concat(Fields(s));
          ([s[0]] + rest[0]) + Concat(rest[1..]);
          [s[0]] + (rest[0] + Concat(rest[1..]));
          [s[0]] + Concat(rest);
        }
      }
    }
  }

  lemma {:induction false} ConcatDropTrailingEmpty(xs: seq<string>)
    ensures Concat(DropTrailingEmpty(xs)) == Concat(xs)
  {
    if xs != [] && xs[|xs| - 1] == [] {
      ConcatDropTrailingEmpty(xs[..|xs| - 1]);
      ConcatSnoc(xs[..|xs| - 1], []);
      assert xs == xs[..|xs| - 1] + [[]];
    }
  }

  lemma {:induction false} ConcatSnoc(xs: seq<string>, x: string)
    ensures Concat(xs + [x]) == Concat(xs) + x
  {
    if xs != [] {
      ConcatSnoc(xs[1..], x);
      assert (xs + [x])[1..] == xs[1..] + [x];
    }
  }

  /** Splitting loses only the separators: the tokens, read in order, spell
      out the text with its spaces and hyphens removed. */
  lemma SplitKeepsText(s: string)
    ensures Concat(Split(s)) == Strip(s)
  {
    if s != [] {
      FieldsConcat(s);
      ConcatDropTrailingEmpty(Fields(s));
    }
  }

  lemma {:induction false} FieldsOfWord(s: string)
    requires NoSeparator(s)
    ensures Fields(s) == [s]
  {
    if s != [] {
      assert forall i :: 0 <= i < |s[1..]| ==> s[1..][i] == s[i + 1];
      FieldsOfWord(s[1..]);
      assert [s[0]] + s[1..] == s;
    }
  }

  /** A text without separators is a single token. */
  lemma SplitWord(s: string)
    requires NoSeparator(s)
    ensures Split(s) == [s]
  {
    if s != [] {
      FieldsOfWord(s);
    }
  }

  /** `Fields(a + [c] + b)` for a separator `c` after a separator-free `a`. */
  lemma {:induction false} FieldsAfterWord(a: string, c: char, b: string)
    requires NoSeparator(a) && IsSeparator(c)
    ensures Fields(a + [c] + b) == [a] + Fields(b)
  {
    if a == [] {
      assert ([c] + b)[1..] == b;
    } else {
      assert (a + [c] + b)[1..] == a[1..] + [c] + b;
      assert forall i :: 0 <= i < |a[1..]| ==> a[1..][i] == a[i + 1];
      FieldsAfterWord(a[1..], c, b);
      assert (a + [c] + b)[0] == a[0];
      assert [a[0]] + a[1..] == a;
    }
  }

  /** Splitting yields nothing at all exactly when the text is non-empty and
      made of separators only (Java drops all the empty fields). */
  lemma SplitEmptyIff(s: string)
    ensures Split(s) == [] <==> s != [] && forall i :: 0 <= i < |s| ==> IsSeparator(s[i])
  {
    if s != [] {
      SplitKeepsText(s);
      if Split(s) == [] {
        DropTrailingEmptyIsPrefix(Fields(s));
        FieldsConcat(s);
        assert Strip(s) == [];
        StripEmpty(s);
      } else if forall i :: 0 <= i < |s| ==> IsSeparator(s[i]) {
        AllSeparatorsFields(s);
        AllEmptyDrop(Fields(s));
      }
    }
  }

  lemma {:induction false} StripEmpty(s: string)
    requires Strip(s) == []
    ensures forall i :: 0 <= i < |s| ==> IsSeparator(s[i])
  {
    if s != [] {
      StripEmpty(s[1..]);
      assert forall i :: 1 <= i < |s| ==> s[i] == s[1..][i - 1];
    }
  }

  lemma {:induction false} AllSeparatorsFields(s: string)
    requires forall i :: 0 <= i < |s| ==> IsSeparator(s[i])
    ensures forall i :: 0 <= i < |Fields(s)| ==> Fields(s)[i] == []
  {
    if s != [] {
      assert forall i :: 0 <= i < |s[1..]| ==> s[1..][i] == s[i + 1];
      AllSeparatorsFields(s[1..]);
    }
  }

  lemma {:induction false} AllEmptyDrop(xs: seq<string>)
    requires forall i :: 0 <= i < |xs| ==> xs[i] == []
    ensures DropTrailingEmpty(xs) == []
  {
    if xs != [] {
      AllEmptyDrop(xs[..|xs| - 1]);
    }
  }

  // ---------------------------------------------------------------------
  // Lemmas about the operations

  /** Adding a text constraint touches only the variable's own entries:
      its token set gains the text's tokens, its phrase set gains the
      text, earlier values stay, and every other entry, the constraints and
      the filters are unchanged. */
  lemma AddTextEffect(q: Candidate, v: string, text: string, w: string)
    ensures AddText(q, v, text).constraints == q.constraints
    ensures AddText(q, v, text).filters == q.filters
    ensures Entry(AddText(q, v, text).fuzzy, v) == Entry(q.fuzzy, v) + Elems(Split(text))
    ensures Entry(AddText(q, v, text).exact, v) == Entry(q.exact, v) + {text}
    ensures w != v ==> Entry(AddText(q, v, text).fuzzy, w) == Entry(q.fuzzy, w)
    ensures w != v ==> Entry(AddText(q, v, text).exact, w) == Entry(q.exact, w)
  {
  }

  /** Every operation keeps the fuzzy tokens free of separators. */
  lemma AddTextKeepsTokensClean(q: Candidate, v: string, text: string)
    requires TokensClean(q)
    ensures TokensClean(AddText(q, v, text))
  {
    SplitTokensClean(text);
  }

  /** Adding a triple or a filter is idempotent and commutes with itself. */
  lemma AddIdempotent(q: Candidate, s: string, t: string)
    ensures AddConstraint(AddConstraint(q, s), s) == AddConstraint(q, s)
    ensures AddFilter(AddFilter(q, s), s) == AddFilter(q, s)
    ensures AddConstraint(AddConstraint(q, s), t) == AddConstraint(AddConstraint(q, t), s)
  {
  }

  /** A clone equals its source exactly when the source has no exact phrases. */
  lemma CloneIdentity(q: Candidate)
    ensures Clone(q) == q <==> q.exact == map[]
    ensures Extends(q, Clone(q)) && Extends(Clone(q), q)
  {
  }
}
