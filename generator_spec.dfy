/** What `RecursiveSparqlQueryBuilder` computes, as functions of a tree
    snapshot. The running collection of candidates is a multiset: the source
    keeps them in a `HashSet` keyed by object identity, so equal candidates
    made from different objects are never merged. */
module GeneratorSpec {
  import opened Trees
  import opened PosTags
  import opened Candidates
  import opened Bags

  const Proj := "?proj"
  const Const := "?const"

  /** The variants one annotation URI of an annotated node makes from one
      candidate. For a verb: the URI as predicate in both directions, plus a
      triple with an unbound predicate. For a noun or `WRB`: the backward
      triple, `?const` and `?proj` typed by the URI, and a plain clone (the
      forward triple is built in the source but never added). For `WP`: the
      two typings and a plain clone. Any other tag: nothing. */
  function AnnotatedVariants(q: Candidate, posTag: string, uri: string): (r: multiset<Candidate>)
  {
    if IsVerb(posTag) then
      multiset{
        AddConstraint(Clone(q), "?proj  <" + uri + "> ?const."),
        AddConstraint(Clone(q), "?const <" + uri + "> ?proj."),
        AddConstraint(Clone(q), "?const ?proot ?proj.")}
    else if IsNounOrWrb(posTag) then
      multiset{
        AddConstraint(Clone(q), "?const <" + uri + "> ?proj."),
        AddConstraint(Clone(q), "?const a <" + uri + ">."),
        AddConstraint(Clone(q), "?proj a <" + uri + ">."),
        Clone(q)}
    else if posTag == "WP" then
      multiset{
        AddConstraint(Clone(q), "?const a <" + uri + ">."),
        AddConstraint(Clone(q), "?proj a <" + uri + ">."),
        Clone(q)}
    else
      multiset{}
  }

  /** A full-text search for `text` over `?proj`, and one over `?const`. */
  function TextVariants(q: Candidate, text: string): (r: multiset<Candidate>)
  {
    multiset{AddText(Clone(q), Proj, text), AddText(Clone(q), Const, text)}
  }

  /** The bridge triple, the `IN` filter and a plain clone that an `ADD`
      node (a resolved entity URI) makes. */
  function EntityVariants(q: Candidate, uri: string): (r: multiset<Candidate>)
  {
    multiset{
      AddConstraint(Clone(q), "?proj ?pbridge <" + uri + ">."),
      AddFilter(Clone(q), "?proj IN (<" + uri + ">)"),
      Clone(q)}
  }

  /** The variants of every annotation URI of a node, for one candidate. */
  ghost function AnnotatedSum(q: Candidate, posTag: string, uris: set<string>): (r: multiset<Candidate>)
  {
    Sum(multiset(uris), a => AnnotatedVariants(q, posTag, a))
  }

  /** The two text variants of every resolved English label of an `ADD`
      node, for one candidate. */
  ghost function LabelSum(q: Candidate, englishLabels: set<string>): (r: multiset<Candidate>)
  {
    Sum(multiset(englishLabels), l => TextVariants(q, l))
  }

  /** The variants an unannotated node makes from one candidate;
      `englishLabels` are the labels resolved for an `ADD` node's URI. */
  ghost function UnannotatedVariants(q: Candidate, surface: string, posTag: string, englishLabels: set<string>)
    : (r: multiset<Candidate>)
  {
    if IsFreeText(posTag) then TextVariants(q, surface)
    else if IsVerb(posTag) then TextVariants(q, surface) + multiset{Clone(q)}
    else if posTag == "ADD" then
      EntityVariants(q, surface) + LabelSum(q, englishLabels)
    else if IsCommonNoun(posTag) then TextVariants(q, surface) + multiset{Clone(q)}
    else if posTag == "WP" then multiset{q}
    else multiset{}
  }

  /** All variants the node `t` makes from the candidate `q`. The label
      lookup for `ADD` nodes (an HTTP query in the source) is the parameter
      `labelsOf`. */
  ghost function Variants(q: Candidate, t: Tree, labelsOf: string -> set<string>): (r: multiset<Candidate>)
  {
    if t.annotations != {} then
      AnnotatedSum(q, t.posTag, t.annotations)
    else
      UnannotatedVariants(q, t.surface, t.posTag, labelsOf(t.surface))
  }

  /** One node's step: the collection is replaced by the variants of all
      its candidates. */
  ghost function Step(m: multiset<Candidate>, t: Tree, labelsOf: string -> set<string>): (r: multiset<Candidate>)
  {
    Sum(m, q => Variants(q, t, labelsOf))
  }

  /** The depth-first walk: a node's step, then each child in order on the
      collection the previous one left. */
  ghost function Walk(m: multiset<Candidate>, t: Tree, labelsOf: string -> set<string>): (r: multiset<Candidate>)
    decreases t, 1
  {
    WalkChildren(Step(m, t, labelsOf), t, 0, labelsOf)
  }

  /** The walk over the children of `t` from the `i`-th on. */
  ghost function WalkChildren(m: multiset<Candidate>, t: Tree, i: nat, labelsOf: string -> set<string>)
    : (r: multiset<Candidate>)
    requires i <= |t.children|
    decreases t, 0, |t.children| - i
  {
    if i == |t.children| then m
    else WalkChildren(Walk(m, t.children[i], labelsOf), t, i + 1, labelsOf)
  }

  /** `start`: the walk from one empty candidate. */
  ghost function Generate(t: Tree, labelsOf: string -> set<string>): (r: multiset<Candidate>)
  {
    Walk(multiset{Blank}, t, labelsOf)
  }

  // ---------------------------------------------------------------------
  // Counting

  /** How many candidates a node makes from each incoming one. */
  function Fanout(t: Tree, labelsOf: string -> set<string>): nat
  {
    if t.annotations != {} then |t.annotations| * PerAnnotation(t.posTag)
    else if IsFreeText(t.posTag) then 2
    else if IsVerb(t.posTag) then 3
    else if t.posTag == "ADD" then 3 + 2 * |labelsOf(t.surface)|
    else if IsCommonNoun(t.posTag) then 3
    else if t.posTag == "WP" then 1
    else 0
  }

  /** The product of the fan-outs of all nodes of a subtree. */
  function Yield(t: Tree, labelsOf: string -> set<string>): nat
    decreases t, 1
  {
    Fanout(t, labelsOf) * YieldChildren(t, 0, labelsOf)
  }

  function YieldChildren(t: Tree, i: nat, labelsOf: string -> set<string>): nat
    requires i <= |t.children|
    decreases t, 0, |t.children| - i
  {
    if i == |t.children| then 1
    else Yield(t.children[i], labelsOf) * YieldChildren(t, i + 1, labelsOf)
  }

  /** How many candidates one annotation URI of an annotated node makes
      from each incoming one. */
  function PerAnnotation(posTag: string): nat
  {
    if IsVerb(posTag) then 3
    else if IsNounOrWrb(posTag) then 4
    else if posTag == "WP" then 3
    else 0
  }

  /** Some node of the subtree matches no rule. */
  predicate HasDeadNode(t: Tree, labelsOf: string -> set<string>)
    decreases t, 1
  {
    Fanout(t, labelsOf) == 0 || HasDeadChild(t, 0, labelsOf)
  }

  predicate HasDeadChild(t: Tree, i: nat, labelsOf: string -> set<string>)
    requires i <= |t.children|
    decreases t, 0, |t.children| - i
  {
    i < |t.children| && (HasDeadNode(t.children[i], labelsOf) || HasDeadChild(t, i + 1, labelsOf))
  }

  lemma AnnotatedCount(q: Candidate, posTag: string, uri: string)
    ensures |AnnotatedVariants(q, posTag, uri)| == PerAnnotation(posTag)
  {
  }

  lemma VariantsCount(q: Candidate, t: Tree, labelsOf: string -> set<string>)
    ensures |Variants(q, t, labelsOf)| == Fanout(t, labelsOf)
  {
    if t.annotations != {} {
      AnnotatedSumCount(q, t.posTag, t.annotations);
    } else {
      UnannotatedCount(q, t.surface, t.posTag, labelsOf(t.surface));
    }
  }

  lemma AnnotatedSumCount(q: Candidate, posTag: string, annotations: set<string>)
    ensures |AnnotatedSum(q, posTag, annotations)|
         == |annotations| * PerAnnotation(posTag)
  {
    var f := a => AnnotatedVariants(q, posTag, a);
    forall a | a in multiset(annotations)
      ensures |f(a)| == PerAnnotation(posTag)
    {
      AnnotatedCount(q, posTag, a);
    }
    SumCount(multiset(annotations), f, PerAnnotation(posTag));
    assert |multiset(annotations)| == |annotations|;
  }

  lemma UnannotatedCount(q: Candidate, surface: string, posTag: string, englishLabels: set<string>)
    ensures |UnannotatedVariants(q, surface, posTag, englishLabels)|
         == if IsFreeText(posTag) then 2
            else if IsVerb(posTag) then 3
            else if posTag == "ADD" then 3 + 2 * |englishLabels|
            else if IsCommonNoun(posTag) then 3
            else if posTag == "WP" then 1
            else 0
  {
    if !IsFreeText(posTag) && !IsVerb(posTag) && posTag == "ADD" {
      var g := l => TextVariants(q, l);
      SumCount(multiset(englishLabels), g, 2);
      assert |multiset(englishLabels)| == |englishLabels|;
    }
  }

  /** Every node multiplies the size of the collection by its fan-out. */
  lemma StepCount(m: multiset<Candidate>, t: Tree, labelsOf: string -> set<string>)
    ensures |Step(m, t, labelsOf)| == Fanout(t, labelsOf) * |m|
  {
    forall q | q in m
      ensures |Variants(q, t, labelsOf)| == Fanout(t, labelsOf)
    {
      VariantsCount(q, t, labelsOf);
    }
    SumCount(m, q => Variants(q, t, labelsOf), Fanout(t, labelsOf));
  }

  /** The walk multiplies the size of the collection by the product of the
      fan-outs of every node in the subtree. */
  lemma {:induction false} WalkCount(m: multiset<Candidate>, t: Tree, labelsOf: string -> set<string>)
    ensures |Walk(m, t, labelsOf)| == |m| * Yield(t, labelsOf)
    decreases t, 1
  {
    var s := Step(m, t, labelsOf);
    StepCount(m, t, labelsOf);
    WalkChildrenCount(s, t, 0, labelsOf);
    calc {
      |Walk(m, t, labelsOf)|;
      |s| * YieldChildren(t, 0, labelsOf);
      (Fanout(t, labelsOf) * |m|) * YieldChildren(t, 0, labelsOf);
      { MulAssoc(|m|, Fanout(t, labelsOf), YieldChildren(t, 0, labelsOf)); }
      |m| * Yield(t, labelsOf);
    }
  }

  lemma {:induction false} WalkChildrenCount(m: multiset<Candidate>, t: Tree, i: nat, labelsOf: string -> set<string>)
    requires i <= |t.children|
    ensures |WalkChildren(m, t, i, labelsOf)| == |m| * YieldChildren(t, i, labelsOf)
    decreases t, 0, |t.children| - i
  {
    if i < |t.children| {
      var w := Walk(m, t.children[i], labelsOf);
      WalkCount(m, t.children[i], labelsOf);
      WalkChildrenCount(w, t, i + 1, labelsOf);
      MulAssoc2(|m|, Yield(t.children[i], labelsOf), YieldChildren(t, i + 1, labelsOf));
    }
  }

  lemma MulAssoc(a: nat, b: nat, c: nat)
    ensures (b * a) * c == a * (b * c)
  {
  }

  lemma MulAssoc2(a: nat, b: nat, c: nat)
    ensures (a * b) * c == a * (b * c)
  {
  }

  /** The product of fan-outs is zero exactly when some node matches no rule. */
  lemma {:induction false} YieldZeroIff(t: Tree, labelsOf: string -> set<string>)
    ensures Yield(t, labelsOf) == 0 <==> HasDeadNode(t, labelsOf)
    decreases t, 1
  {
    YieldChildrenZeroIff(t, 0, labelsOf);
  }

  lemma {:induction false} YieldChildrenZeroIff(t: Tree, i: nat, labelsOf: string -> set<string>)
    requires i <= |t.children|
    ensures YieldChildren(t, i, labelsOf) == 0 <==> HasDeadChild(t, i, labelsOf)
    decreases t, 0, |t.children| - i
  {
    if i < |t.children| {
      YieldZeroIff(t.children[i], labelsOf);
      YieldChildrenZeroIff(t, i + 1, labelsOf);
    }
  }

  /** `start` returns exactly one candidate per combination of choices: the
      product of the fan-outs of all nodes. */
  lemma GenerateCount(t: Tree, labelsOf: string -> set<string>)
    ensures |Generate(t, labelsOf)| == Yield(t, labelsOf)
  {
    var seed := multiset{Blank};
    assert |seed| == 1;
    WalkCount(seed, t, labelsOf);
    assert |Walk(seed, t, labelsOf)| == 1 * Yield(t, labelsOf);
  }

  /** The walk empties the collection exactly when it was empty already or
      some node of the tree matches no rule; in particular, one such node
      anywhere makes `start` return nothing. */
  lemma WalkEmptyIff(m: multiset<Candidate>, t: Tree, labelsOf: string -> set<string>)
    ensures Walk(m, t, labelsOf) == multiset{} <==> m == multiset{} || HasDeadNode(t, labelsOf)
    ensures Generate(t, labelsOf) == multiset{} <==> HasDeadNode(t, labelsOf)
  {
    WalkCount(m, t, labelsOf);
    YieldZeroIff(t, labelsOf);
    ProductZeroIff(|m|, Yield(t, labelsOf));
    assert |Walk(m, t, labelsOf)| == 0 <==> Walk(m, t, labelsOf) == multiset{};
    GenerateCount(t, labelsOf);
  }

  lemma ProductZeroIff(a: nat, b: nat)
    ensures a * b == 0 <==> a == 0 || b == 0
  {
    if a > 0 && b > 0 {
      assert a * b >= b;
    }
  }

  // ---------------------------------------------------------------------
  // What the variants are made of

  /** The nodes whose rule keeps a plain clone of every incoming candidate. */
  predicate KeepsClone(t: Tree)
  {
    if t.annotations != {} then
      !IsVerb(t.posTag) && (IsNounOrWrb(t.posTag) || t.posTag == "WP")
    else
      !IsFreeText(t.posTag) && (IsVerb(t.posTag) || t.posTag == "ADD" || IsCommonNoun(t.posTag))
  }

  /** Rules with a passthrough keep a clone of every incoming candidate; an
      unannotated `WP` node keeps the candidate itself. Because a clone has
      no exact phrases, the incoming candidate survives unchanged only when
      it had none (Candidates.CloneIdentity). */
  lemma Passthrough(m: multiset<Candidate>, t: Tree, labelsOf: string -> set<string>, q: Candidate)
    requires q in m
    ensures KeepsClone(t) ==> Clone(q) in Step(m, t, labelsOf)
    ensures t.annotations == {} && t.posTag == "WP" ==> q in Step(m, t, labelsOf)
  {
    if KeepsClone(t) {
      SumIncludes(m, q => Variants(q, t, labelsOf), q);
      CloneInVariants(q, t, labelsOf);
    }
    if t.annotations == {} && t.posTag == "WP" {
      WhPronounPassesThrough(m, t, labelsOf);
    }
  }

  /** A leaf's walk is its step. */
  lemma LeafWalk(m: multiset<Candidate>, t: Tree, labelsOf: string -> set<string>)
    requires t.children == []
    ensures Walk(m, t, labelsOf) == Step(m, t, labelsOf)
  {
  }

  /** The walk of a node with one child is the child's walk after the
      node's step. */
  lemma OnlyChildWalk(m: multiset<Candidate>, t: Tree, labelsOf: string -> set<string>)
    requires |t.children| == 1
    ensures Walk(m, t, labelsOf) == Walk(Step(m, t, labelsOf), t.children[0], labelsOf)
  {
    assert WalkChildren(Step(m, t, labelsOf), t, 0, labelsOf)
        == WalkChildren(Walk(Step(m, t, labelsOf), t.children[0], labelsOf), t, 1, labelsOf);
  }

  /** One candidate at a node with a single annotation becomes that
      annotation's variants. */
  lemma SingleAnnotationStep(q: Candidate, t: Tree, uri: string, labelsOf: string -> set<string>)
    requires t.annotations == {uri}
    ensures Step(multiset{q}, t, labelsOf) == AnnotatedVariants(q, t.posTag, uri)
  {
    SumSingleton(q, q => Variants(q, t, labelsOf));
    AnnotatedSumRemove(q, t.posTag, {uri}, uri);
    assert {uri} - {uri} == {};
    SumsOfNothing(q, t.posTag);
  }

  /** An unannotated `WP` node hands the collection on unchanged. */
  lemma WhPronounPassesThrough(m: multiset<Candidate>, t: Tree, labelsOf: string -> set<string>)
    requires t.annotations == {} && t.posTag == "WP"
    ensures Step(m, t, labelsOf) == m
  {
    assert !IsFreeText("WP") && !IsVerb("WP") && !IsCommonNoun("WP");
    SumSelf(m, q => Variants(q, t, labelsOf));
  }

  /** A node that matches no rule empties the collection. */
  lemma DeadNodeEmpties(m: multiset<Candidate>, t: Tree, labelsOf: string -> set<string>)
    requires Fanout(t, labelsOf) == 0
    ensures Step(m, t, labelsOf) == multiset{}
  {
    forall q | q in m
      ensures Variants(q, t, labelsOf) == multiset{}
    {
      VariantsCount(q, t, labelsOf);
    }
    SumNone(m, q => Variants(q, t, labelsOf));
  }

  lemma CloneInVariants(q: Candidate, t: Tree, labelsOf: string -> set<string>)
    requires KeepsClone(t)
    ensures Clone(q) in Variants(q, t, labelsOf)
  {
    if t.annotations != {} {
      var a :| a in t.annotations;
      assert Clone(q) in AnnotatedVariants(q, t.posTag, a);
      SumIncludes(multiset(t.annotations), a => AnnotatedVariants(q, t.posTag, a), a);
    } else if t.posTag == "ADD" {
      assert Clone(q) in EntityVariants(q, t.surface);
    }
  }

  lemma ExtendsTransitive(a: Candidate, b: Candidate, c: Candidate)
    requires Extends(a, b) && Extends(b, c)
    ensures Extends(a, c)
  {
  }

  /** A clone with one more triple or filter keeps the original's fuzzy
      tokens, constraints and filters. */
  lemma AnnotatedVariantExtends(q: Candidate, posTag: string, uri: string, v: Candidate)
    requires v in AnnotatedVariants(q, posTag, uri)
    ensures Extends(v, q) && v.fuzzy == q.fuzzy
  {
    var c1, c2, c3 := "?const <" + uri + "> ?proj.", "?const a <" + uri + ">.", "?proj a <" + uri + ">.";
    var d1, d2 := "?proj  <" + uri + "> ?const.", "?const ?proot ?proj.";
    var a1, a2, a3 := AddConstraint(Clone(q), c1), AddConstraint(Clone(q), c2), AddConstraint(Clone(q), c3);
    var b1, b2 := AddConstraint(Clone(q), d1), AddConstraint(Clone(q), d2);
    if IsVerb(posTag) {
      assert AnnotatedVariants(q, posTag, uri) == multiset{b1, a1, b2};
    } else if IsNounOrWrb(posTag) {
      assert AnnotatedVariants(q, posTag, uri) == multiset{a1, a2, a3, Clone(q)};
    } else {
      assert AnnotatedVariants(q, posTag, uri) == multiset{a2, a3, Clone(q)};
    }
    ConstraintVariantExtends(q, c1);
    ConstraintVariantExtends(q, c2);
    ConstraintVariantExtends(q, c3);
    ConstraintVariantExtends(q, d1);
    ConstraintVariantExtends(q, d2);
  }

  lemma ConstraintVariantExtends(q: Candidate, triple: string)
    ensures Extends(AddConstraint(Clone(q), triple), q)
    ensures AddConstraint(Clone(q), triple).fuzzy == q.fuzzy
  {
  }

  lemma EntityVariantExtends(q: Candidate, uri: string, v: Candidate)
    requires v in EntityVariants(q, uri)
    ensures Extends(v, q) && v.fuzzy == q.fuzzy
  {
  }

  /** The exact-phrase map of a text variant holds the new phrase alone. */
  lemma TextVariantExact(q: Candidate, x: string, s: string)
    ensures AddText(Clone(q), x, s).exact == map[x := {s}]
  {
    var f := AddFuzzyTokens(Clone(q), x, s);
    assert f.exact == map[];
    assert Entry(f.exact, x) == {};
    var e := AddText(Clone(q), x, s).exact;
    assert e == f.exact[x := {} + {s}];
    assert {} + {s} == {s};
    assert e.Keys == {x};
    assert e[x] == {s};
  }

  /** A text variant keeps the original's constraints, filters and fuzzy
      tokens, adds clean tokens, and holds one exact phrase. */
  lemma TextVariantExtends(q: Candidate, s: string, v: Candidate)
    requires v in TextVariants(q, s)
    ensures Extends(v, q)
    ensures TokensClean(q) ==> TokensClean(v)
    ensures v.exact == map[Proj := {s}] || v.exact == map[Const := {s}]
  {
    var x := if v == AddText(Clone(q), Proj, s) then Proj else Const;
    assert v == AddText(Clone(q), x, s);
    forall w | w in q.fuzzy
      ensures w in v.fuzzy && q.fuzzy[w] <= v.fuzzy[w]
    {
      AddTextEffect(Clone(q), x, s, w);
    }
    AddTextEffect(Clone(q), x, s, x);
    if TokensClean(q) {
      assert TokensClean(Clone(q));
      AddTextKeepsTokensClean(Clone(q), x, s);
    }
    TextVariantExact(q, x, s);
  }

  lemma LabelVariantExtends(q: Candidate, englishLabels: set<string>, v: Candidate)
    requires v in LabelSum(q, englishLabels)
    ensures Extends(v, q)
    ensures TokensClean(q) ==> TokensClean(v)
  {
    SumOrigin(multiset(englishLabels), l => TextVariants(q, l), v);
    var l :| l in multiset(englishLabels) && v in TextVariants(q, l);
    TextVariantExtends(q, l, v);
  }

  /** Every variant of a candidate keeps its constraints, filters and fuzzy
      tokens, and adds only separator-free tokens. */
  lemma VariantsExtend(q: Candidate, t: Tree, labelsOf: string -> set<string>, v: Candidate)
    requires v in Variants(q, t, labelsOf)
    ensures Extends(v, q)
    ensures TokensClean(q) ==> TokensClean(v)
  {
    if t.annotations != {} {
      var f := a => AnnotatedVariants(q, t.posTag, a);
      SumOrigin(multiset(t.annotations), f, v);
      var a :| a in multiset(t.annotations) && v in f(a);
      AnnotatedVariantExtends(q, t.posTag, a, v);
    } else {
      UnannotatedExtends(q, t.surface, t.posTag, labelsOf(t.surface), v);
    }
  }

  lemma UnannotatedExtends(q: Candidate, surface: string, posTag: string, englishLabels: set<string>, v: Candidate)
    requires v in UnannotatedVariants(q, surface, posTag, englishLabels)
    ensures Extends(v, q)
    ensures TokensClean(q) ==> TokensClean(v)
  {
    if IsFreeText(posTag) {
      TextVariantExtends(q, surface, v);
    } else if IsVerb(posTag) || (posTag != "ADD" && IsCommonNoun(posTag)) {
      if v != Clone(q) {
        TextVariantExtends(q, surface, v);
      }
    } else if posTag == "ADD" {
      if v in EntityVariants(q, surface) {
        EntityVariantExtends(q, surface, v);
      } else {
        LabelVariantExtends(q, englishLabels, v);
      }
    }
  }

  /** Every candidate a step produces carries all the constraints, filters
      and fuzzy tokens of the candidate it was made from: a step only adds. */
  lemma StepExtends(m: multiset<Candidate>, t: Tree, labelsOf: string -> set<string>, v: Candidate)
    requires v in Step(m, t, labelsOf)
    ensures exists q :: q in m && Extends(v, q)
  {
    SumOrigin(m, q => Variants(q, t, labelsOf), v);
    var q :| q in m && v in Variants(q, t, labelsOf);
    VariantsExtend(q, t, labelsOf, v);
  }

  /** The same holds for a whole walk: every result extends some candidate
      the walk started from. */
  lemma {:induction false} WalkExtends(m: multiset<Candidate>, t: Tree, labelsOf: string -> set<string>, v: Candidate)
    requires v in Walk(m, t, labelsOf)
    ensures exists q :: q in m && Extends(v, q)
    decreases t, 1
  {
    var s := Step(m, t, labelsOf);
    WalkChildrenExtends(s, t, 0, labelsOf, v);
    var p :| p in s && Extends(v, p);
    StepExtends(m, t, labelsOf, p);
    var q :| q in m && Extends(p, q);
    ExtendsTransitive(v, p, q);
  }

  lemma {:induction false} WalkChildrenExtends(m: multiset<Candidate>, t: Tree, i: nat, labelsOf: string -> set<string>, v: Candidate)
    requires i <= |t.children|
    requires v in WalkChildren(m, t, i, labelsOf)
    ensures exists q :: q in m && Extends(v, q)
    decreases t, 0, |t.children| - i
  {
    if i == |t.children| {
      assert v in m && Extends(v, v);
    } else {
      var w := Walk(m, t.children[i], labelsOf);
      WalkChildrenExtends(w, t, i + 1, labelsOf, v);
      var p :| p in w && Extends(v, p);
      WalkExtends(m, t.children[i], labelsOf, p);
      var q :| q in m && Extends(p, q);
      ExtendsTransitive(v, p, q);
    }
  }

  /** Every candidate a free-text node produces has exactly one exact phrase,
      the node's own label: phrases added by earlier nodes are lost, because
      `clone` does not copy the exact-phrase map. The fuzzy tokens of earlier
      nodes are kept (StepExtends). */
  lemma FreeTextForgetsEarlierPhrases(m: multiset<Candidate>, t: Tree, labelsOf: string -> set<string>, v: Candidate)
    requires t.annotations == {} && IsFreeText(t.posTag)
    requires v in Step(m, t, labelsOf)
    ensures v.exact == map[Proj := {t.surface}] || v.exact == map[Const := {t.surface}]
  {
    SumOrigin(m, q => Variants(q, t, labelsOf), v);
    var q :| q in m && v in Variants(q, t, labelsOf);
    assert Variants(q, t, labelsOf) == TextVariants(q, t.surface);
    TextVariantExtends(q, t.surface, v);
  }

  // ---------------------------------------------------------------------
  // The fuzzy-token invariant holds of every generated candidate

  /** No candidate produced by the walk has a fuzzy token containing a space
      or a hyphen, provided none of the starting candidates had one. */
  lemma {:induction false} WalkClean(m: multiset<Candidate>, t: Tree, labelsOf: string -> set<string>)
    requires forall q :: q in m ==> TokensClean(q)
    ensures forall v :: v in Walk(m, t, labelsOf) ==> TokensClean(v)
    decreases t, 1
  {
    var s := Step(m, t, labelsOf);
    forall v | v in s
      ensures TokensClean(v)
    {
      SumOrigin(m, q => Variants(q, t, labelsOf), v);
      var q :| q in m && v in Variants(q, t, labelsOf);
      VariantsExtend(q, t, labelsOf, v);
    }
    WalkChildrenClean(s, t, 0, labelsOf);
  }

  lemma {:induction false} WalkChildrenClean(m: multiset<Candidate>, t: Tree, i: nat, labelsOf: string -> set<string>)
    requires i <= |t.children|
    requires forall q :: q in m ==> TokensClean(q)
    ensures forall v :: v in WalkChildren(m, t, i, labelsOf) ==> TokensClean(v)
    decreases t, 0, |t.children| - i
  {
    if i < |t.children| {
      WalkClean(m, t.children[i], labelsOf);
      WalkChildrenClean(Walk(m, t.children[i], labelsOf), t, i + 1, labelsOf);
    }
  }

  // ---------------------------------------------------------------------
  // One element at a time: the loops of the builder take elements out of a
  // collection in any order

  lemma StepRemove(m: multiset<Candidate>, t: Tree, labelsOf: string -> set<string>, q: Candidate)
    requires q in m
    ensures Step(m, t, labelsOf) == Variants(q, t, labelsOf) + Step(m - multiset{q}, t, labelsOf)
  {
    SumRemove(m, q => Variants(q, t, labelsOf), q);
  }

  lemma SetRemove(s: set<string>, x: string)
    requires x in s
    ensures multiset(s - {x}) == multiset(s) - multiset{x}
  {
  }

  lemma AnnotatedSumRemove(q: Candidate, posTag: string, uris: set<string>, a: string)
    requires a in uris
    ensures AnnotatedSum(q, posTag, uris) == AnnotatedVariants(q, posTag, a) + AnnotatedSum(q, posTag, uris - {a})
  {
    SumRemove(multiset(uris), a => AnnotatedVariants(q, posTag, a), a);
    SetRemove(uris, a);
  }

  lemma LabelSumRemove(q: Candidate, englishLabels: set<string>, l: string)
    requires l in englishLabels
    ensures LabelSum(q, englishLabels) == TextVariants(q, l) + LabelSum(q, englishLabels - {l})
  {
    SumRemove(multiset(englishLabels), l => TextVariants(q, l), l);
    SetRemove(englishLabels, l);
  }

  lemma SumsOfNothing(q: Candidate, posTag: string)
    ensures AnnotatedSum(q, posTag, {}) == multiset{}
    ensures LabelSum(q, {}) == multiset{}
  {
    var e: set<string> := {};
    assert multiset(e) == multiset{};
  }

  lemma LabelStep(q: Candidate, englishLabels: set<string>, l: string, acc: multiset<Candidate>)
    requires l in englishLabels
    ensures (acc + TextVariants(q, l)) + LabelSum(q, englishLabels - {l}) == acc + LabelSum(q, englishLabels)
  {
    LabelSumRemove(q, englishLabels, l);
  }
}
