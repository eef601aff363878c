# HAWK query building, modelled in Dafny

HAWK answers natural-language questions over DBpedia. In the query-building
stage, the system first annotates a part-of-speech tagged parse tree of the
question with DBpedia-ontology URIs (`Annotater`). It then walks the tree
depth first and grows a collection of candidate SPARQL queries. Each node
multiplies every candidate into a fixed number of variants
(`RecursiveSparqlQueryBuilder`). Each candidate (`SPARQLQuery`) holds:

- triple patterns;
- filters;
- per-variable full-text tokens;
- per-variable exact phrases.

A candidate renders as two SPARQL strings: a fuzzy full-text search and an
exact-phrase one.

The project follows the source's own form:

- **`pos_tags.dfy`** (`PosTags`): the whole-string regular expressions the
  source matches tags against, such as `VB(.)*`, `NN(.)*` and `WRB|WP`.
- **`trees.dfy`** (`Trees`): the mutable parse tree as a class `TreeNode`.
  Each node has a fixed structure and a mutable set of annotations. A ghost
  `Snapshot` gives the tree as a value.
- **`annotater.dfy`** (`Annotation`): the three annotation passes as methods
  that work in place. Each uses an explicit stack, as the source does.
  - Per-node rule functions: `NounUpdate`, `VerbUpdate`, `ProjectionUpdate`.
  - Ghost walk invariants prove that the stack walk visits exactly the
    nodes it should. For the noun pass, these are the nodes not below a
    blacklisted one.
- **`candidates.dfy`** (`Candidates`): a candidate as a value, and its
  operations as functions. `Split` reproduces Java's `String.split("[ \\-]")`.
- **`generator_spec.dfy`** (`GeneratorSpec`): the variant rules, one node's
  step and the recursive walk, as functions on a tree snapshot. It also
  holds lemmas about counting, emptiness, clone-before-add and token
  cleanliness.
- **`generator.dfy`** (`QueryBuilder`): `start` and `recursion` as methods.
  They thread one shared collection (`QuerySet`) through the walk, clearing
  and refilling it at every node. They are proved to compute
  `GeneratorSpec.Walk`.
- **`sparql_query.dfy`** (`SparqlQueries`): `SPARQLQuery` as a class with
  mutable sets and maps. Each mutator is proved to move the object's
  `Value()` as the matching `Candidates` function does. Each renderer, a
  loop over the object's maps and sets, is proved to produce the string
  `Rendering` defines.
- **`rendering.dfy`** (`Rendering`): the two query texts as functions. The
  iteration order of a `HashSet` or `HashMap` is a parameter
  `order: set<string> -> seq<string>`. `IsOrder(order)` says it lists every
  element exactly once.
- **`bag_sum.dfy`** (`Bags`): the sum of a multiset-valued function over a
  multiset. It is the `for (SPARQLQuery query : returnSet)` of the generator.
- **`scenarios.dfy`** (`Scenarios`): worked examples, stated as lemmas over
  all inputs.

## Behaviour that may surprise

The model keeps each of these as the code has it.

- **Candidate identity.** `SPARQLQuery` overrides neither `equals` nor
  `hashCode`, so the generator's `HashSet` keeps equal candidates built from
  different objects. The running collection is therefore a multiset, and
  `GeneratorSpec.GenerateCount` counts it exactly.
- **Clone.** `clone` copies the triples, the filters and the fuzzy-token map,
  but leaves the exact-phrase map empty. It does not share that map.
  `Candidates.CloneIdentity` states the consequence: a clone equals its
  original exactly when the original has no exact phrases.
  `GeneratorSpec.FreeTextForgetsEarlierPhrases` shows the effect: after a
  text rule, a candidate carries only the newest phrase.
- **Blacklist.** Only the noun and projection passes consult the blacklist.
  The verb pass does not.
- **Noun retry without a lemma.** When the first noun lookup finds nothing,
  the retry looks up the lemma. When there is no lemma, it looks up the
  label again, so it never adds anything (`Annotation.NounRetryWithoutLemma`).
- **Unused forward triple.** For an annotated `NN(.)*|WRB` node, the forward
  triple `?proj  <uri> ?const.` is built but not added. The verb rule adds
  it, with two spaces after `?proj`, exactly as written.

## Model

| member | source | states |
|---|---|---|
| Annotation.Annotater.constructor | src/main/java/org/aksw/hawk/querybuilding/Annotater.java:20-25 | the annotator consults the three given indexes, and its blacklist is exactly {"people"} |
| Annotation.Hits | src/main/java/org/aksw/hawk/querybuilding/Annotater.java:58-62 | the URIs one search adds; empty exactly when the search returns nothing |
| Annotation.WhHint | src/main/java/org/aksw/hawk/querybuilding/Annotater.java:156-163 | "Where" gives exactly Place, "Who" exactly Agent, any other label nothing |
| Annotation.Annotater.NounChain | src/main/java/org/aksw/hawk/querybuilding/Annotater.java:58-73 | the first noun lookup is the classes hits when there are some, else the properties hits when there are some, else the DBO hits; it is empty only when all three are |
| Annotation.Annotater.NounHits | src/main/java/org/aksw/hawk/querybuilding/Annotater.java:57-91 | with the lemma retry, a noun gets only hits of its label or lemma; it gets nothing exactly when neither has hits; when the label has hits, the fallback chain on the label decides |
| Annotation.Annotater.NounUpdate | src/main/java/org/aksw/hawk/querybuilding/Annotater.java:55-91 | the noun rule never removes a URI and leaves annotated nodes alone; it changes a node exactly when the node is unblacklisted, is a noun, is unannotated, and has hits |
| Annotation.Annotater.VerbHits | src/main/java/org/aksw/hawk/querybuilding/Annotater.java:120-126 | a verb gets the property hits of its label when there are some; otherwise, with a lemma, exactly the property hits of the lemma (never the fallback index), and without one, exactly the DBO hits of the label; it gets nothing exactly when the chain it follows is empty |
| Annotation.Annotater.VerbUpdate | src/main/java/org/aksw/hawk/querybuilding/Annotater.java:120-129 | the verb rule adds to annotations a verb already has, and leaves any other node unchanged |
| Annotation.Annotater.ProjectionKey | src/main/java/org/aksw/hawk/querybuilding/Annotater.java:166-170 | the projection pass looks up the lemma instead of the label exactly for an `NNS` node that has a lemma |
| Annotation.Annotater.ProjectionHits | src/main/java/org/aksw/hawk/querybuilding/Annotater.java:154-232 | a blacklisted node gets nothing, and neither does a node that is neither a noun nor a question word; a noun leaf gets its classes; every URI comes from the indexes or the type hint |
| Annotation.Annotater.LeafNounHits | src/main/java/org/aksw/hawk/querybuilding/Annotater.java:171-178 | a noun leaf gets exactly its class hits |
| Annotation.Annotater.InnerNounHits | src/main/java/org/aksw/hawk/querybuilding/Annotater.java:195-221 | an inner noun gets classes and properties hits together when either has hits, else exactly its DBO hits; it gets nothing exactly when all three indexes miss |
| Annotation.Annotater.ProjectionUpdate | src/main/java/org/aksw/hawk/querybuilding/Annotater.java:146-147 | the projection pass adds only, and only to the left-most child of the root |
| Annotation.Annotater.Annotated | src/main/java/org/aksw/hawk/querybuilding/Annotater.java:27-32 | the annotations after all three passes include those before them |
| Annotation.Annotater.AnnotateTree | src/main/java/org/aksw/hawk/querybuilding/Annotater.java:27-32 | afterwards, every node holds the result of the projection, verb and noun rules, in that order, on its earlier annotations |
| Annotation.Annotater.AddAll | src/main/java/org/aksw/hawk/querybuilding/Annotater.java:60-62 | the loop adds exactly the URIs of one search |
| Annotation.Annotater.AnnotateNouns | src/main/java/org/aksw/hawk/querybuilding/Annotater.java:48-100 | the stack walk applies the noun rule to exactly the nodes it reaches without passing through a blacklisted node, and leaves every other node unchanged |
| Annotation.Annotater.AnnotateNoun | src/main/java/org/aksw/hawk/querybuilding/Annotater.java:57-91 | the body of the noun pass on one node computes the noun rule |
| Annotation.Annotater.AnnotateVerbs | src/main/java/org/aksw/hawk/querybuilding/Annotater.java:113-136 | the stack walk applies the verb rule to every node of the tree |
| Annotation.Annotater.AnnotateVerb | src/main/java/org/aksw/hawk/querybuilding/Annotater.java:117-129 | the body of the verb pass on one node computes the verb rule |
| Annotation.Annotater.AnnotateProjectionLeftTree | src/main/java/org/aksw/hawk/querybuilding/Annotater.java:144-237 | with a non-null root, every node afterwards holds the projection rule on its earlier annotations |
| Annotation.Annotater.AnnotateProjectionLeaf | src/main/java/org/aksw/hawk/querybuilding/Annotater.java:155-181 | a non-blacklisted leaf gains exactly its projection hits |
| Annotation.Annotater.AnnotateProjectionInner | src/main/java/org/aksw/hawk/querybuilding/Annotater.java:182-232 | a non-blacklisted inner node gains exactly its projection hits |
| Annotation.Annotater.AnnotateLeafNoun | src/main/java/org/aksw/hawk/querybuilding/Annotater.java:171-178 | the guarded lookup adds exactly the class hits of the word |
| Annotation.Annotater.AnnotateInnerNoun | src/main/java/org/aksw/hawk/querybuilding/Annotater.java:195-221 | the two-level lookup adds exactly the inner-noun hits of the word |
| Annotation.AnnotateWhHint | src/main/java/org/aksw/hawk/querybuilding/Annotater.java:156-163 | a question word gains exactly its type hint |
| Annotation.PushChildren | src/main/java/org/aksw/hawk/querybuilding/Annotater.java:95-97 | the children are pushed in order on top of the stack |
| Annotation.PopStep | src/main/java/org/aksw/hawk/querybuilding/Annotater.java:51-98 | one iteration keeps the walk invariant: the stack and the popped nodes together account for exactly the nodes the walk reaches, and the number of unpopped nodes falls |
| Annotation.WalkEnd | src/main/java/org/aksw/hawk/querybuilding/Annotater.java:51 | when the stack is empty, every reachable node has been popped |
| Annotation.ReachedAll | src/main/java/org/aksw/hawk/querybuilding/Annotater.java:113-136 | a walk with no blacklist (the verb pass) reaches every node |
| Annotation.BlacklistSkipsSubtree | src/main/java/org/aksw/hawk/querybuilding/Annotater.java:55-98 | no node strictly below a blacklisted node is ever reached by the noun pass |
| Annotation.NounUpdateIdempotent | src/main/java/org/aksw/hawk/querybuilding/Annotater.java:57 | running the noun rule twice is the same as running it once |
| Annotation.NounRetryWithoutLemma | src/main/java/org/aksw/hawk/querybuilding/Annotater.java:75-91 | without a lemma, the retry finds nothing the first lookup missed |
| Annotation.LakeExample | src/main/java/org/aksw/hawk/querybuilding/Annotater.java:68-73 | an `NN` "lake" with no class or property hits gets exactly its fallback-index hits |
| Annotation.BordersExample | src/main/java/org/aksw/hawk/querybuilding/Annotater.java:121-126 | "borders" with lemma "border" and no property hits for either stays unannotated |
| QueryBuilder.QuerySet.constructor | src/main/java/org/aksw/hawk/querybuilding/RecursiveSparqlQueryBuilder.java:20 | the collection starts with the single seed candidate |
| QueryBuilder.QuerySet.Clear | src/main/java/org/aksw/hawk/querybuilding/RecursiveSparqlQueryBuilder.java:173 | the collection becomes empty |
| QueryBuilder.QuerySet.AddAll | src/main/java/org/aksw/hawk/querybuilding/RecursiveSparqlQueryBuilder.java:174 | the collection gains exactly the given candidates |
| QueryBuilder.Start | src/main/java/org/aksw/hawk/querybuilding/RecursiveSparqlQueryBuilder.java:19-31 | the result is the walk from one empty candidate; its size is the product of the nodes' fan-outs; it is empty exactly when some node matches no rule |
| QueryBuilder.Recursion | src/main/java/org/aksw/hawk/querybuilding/RecursiveSparqlQueryBuilder.java:33-180 | the shared collection ends as the walk of the subtree applied to its contents on entry |
| QueryBuilder.Branch | src/main/java/org/aksw/hawk/querybuilding/RecursiveSparqlQueryBuilder.java:34-172 | the local set `sb` holds the variants of every candidate in the collection, whatever order the collection is iterated in |
| QueryBuilder.NodeVariants | src/main/java/org/aksw/hawk/querybuilding/RecursiveSparqlQueryBuilder.java:37-171 | one candidate's variants at a node are the node's rule |
| QueryBuilder.AnnotatedNodeVariants | src/main/java/org/aksw/hawk/querybuilding/RecursiveSparqlQueryBuilder.java:39-91 | the loop over the annotation URIs adds the variants of every URI |
| QueryBuilder.UnannotatedNodeVariants | src/main/java/org/aksw/hawk/querybuilding/RecursiveSparqlQueryBuilder.java:94-171 | an unannotated node applies the rule its tag selects, tested in the source's order |
| QueryBuilder.EntityNodeVariants | src/main/java/org/aksw/hawk/querybuilding/RecursiveSparqlQueryBuilder.java:124-151 | an `ADD` node adds the bridge triple, the `IN` filter, a clone, and two text variants per resolved label |
| QueryBuilder.LabelVariants | src/main/java/org/aksw/hawk/querybuilding/RecursiveSparqlQueryBuilder.java:142-150 | the loop over resolved labels adds both text variants of each label |
| GeneratorSpec.AnnotatedCount | src/main/java/org/aksw/hawk/querybuilding/RecursiveSparqlQueryBuilder.java:40-90 | one annotation URI makes 3 variants for a verb, 4 for `NN(.)*` or `WRB`, 3 for `WP`, and none otherwise |
| GeneratorSpec.UnannotatedCount | src/main/java/org/aksw/hawk/querybuilding/RecursiveSparqlQueryBuilder.java:94-171 | an unannotated node makes 2 variants for free text, 3 for a verb, 3 plus 2 per label for `ADD`, 3 for `NN`/`NNS`, 1 for `WP`, and none otherwise |
| GeneratorSpec.StepCount | src/main/java/org/aksw/hawk/querybuilding/RecursiveSparqlQueryBuilder.java:34-174 | one node's step multiplies the collection's size by the node's fan-out |
| GeneratorSpec.WalkCount | src/main/java/org/aksw/hawk/querybuilding/RecursiveSparqlQueryBuilder.java:33-180 | a walk multiplies the collection's size by the product of the fan-outs of the subtree's nodes |
| GeneratorSpec.GenerateCount | src/main/java/org/aksw/hawk/querybuilding/RecursiveSparqlQueryBuilder.java:19-31 | `start` yields exactly the product of all fan-outs |
| GeneratorSpec.YieldZeroIff | src/main/java/org/aksw/hawk/querybuilding/RecursiveSparqlQueryBuilder.java:88-90 | the product of fan-outs is zero exactly when some node matches no rule |
| GeneratorSpec.WalkEmptyIff | src/main/java/org/aksw/hawk/querybuilding/RecursiveSparqlQueryBuilder.java:169-174 | a walk ends empty exactly when it starts empty or some node of the subtree matches no rule; once empty, the collection stays empty |
| GeneratorSpec.DeadNodeEmpties | src/main/java/org/aksw/hawk/querybuilding/RecursiveSparqlQueryBuilder.java:169-174 | a node matching no rule empties the collection |
| GeneratorSpec.Passthrough | src/main/java/org/aksw/hawk/querybuilding/RecursiveSparqlQueryBuilder.java:69-168 | a node whose rule keeps a plain clone keeps an unmodified copy of every candidate; an unannotated `WP` node keeps every candidate itself |
| GeneratorSpec.WhPronounPassesThrough | src/main/java/org/aksw/hawk/querybuilding/RecursiveSparqlQueryBuilder.java:166-168 | an unannotated `WP` node leaves the collection exactly as it was |
| GeneratorSpec.CloneInVariants | src/main/java/org/aksw/hawk/querybuilding/RecursiveSparqlQueryBuilder.java:69-160 | a node whose rule keeps a plain clone lists that clone among its variants |
| GeneratorSpec.VariantsExtend | src/main/java/org/aksw/hawk/querybuilding/RecursiveSparqlQueryBuilder.java:37-171 | every variant is built on a clone: it keeps all the original's triples, filters and fuzzy tokens, and keeps fuzzy tokens free of separators |
| GeneratorSpec.StepExtends | src/main/java/org/aksw/hawk/querybuilding/RecursiveSparqlQueryBuilder.java:34-174 | every candidate after a step extends some candidate before it |
| GeneratorSpec.WalkExtends | src/main/java/org/aksw/hawk/querybuilding/RecursiveSparqlQueryBuilder.java:33-180 | every candidate after a walk extends some candidate before it |
| GeneratorSpec.FreeTextForgetsEarlierPhrases | src/main/java/org/aksw/hawk/querybuilding/RecursiveSparqlQueryBuilder.java:99-107 | after a free-text node, a candidate's exact-phrase map holds only that node's label, on `?proj` or on `?const` |
| GeneratorSpec.WalkClean | src/main/java/org/aksw/hawk/querybuilding/RecursiveSparqlQueryBuilder.java:33-180 | if no fuzzy token contains a space or hyphen before a walk, none does after it |
| GeneratorSpec.SingleAnnotationStep | src/main/java/org/aksw/hawk/querybuilding/RecursiveSparqlQueryBuilder.java:38-91 | a node with one annotation turns one candidate into exactly that URI's variants |
| GeneratorSpec.OnlyChildWalk | src/main/java/org/aksw/hawk/querybuilding/RecursiveSparqlQueryBuilder.java:173-178 | a node with one child hands its step's result to that child |
| Candidates.SplitTokensClean | src/main/java/org/aksw/hawk/querybuilding/SPARQLQuery.java:60 | no piece of the split contains a space or hyphen |
| Candidates.SplitKeepsText | src/main/java/org/aksw/hawk/querybuilding/SPARQLQuery.java:60 | the pieces of the split, concatenated, are the label without its separators |
| Candidates.SplitWord | src/main/java/org/aksw/hawk/querybuilding/SPARQLQuery.java:60 | a label without separators splits into itself alone |
| Candidates.SplitEmptyIff | src/main/java/org/aksw/hawk/querybuilding/SPARQLQuery.java:60 | the split has no pieces exactly when the label is non-empty and made of separators only |
| Candidates.AddTextEffect | src/main/java/org/aksw/hawk/querybuilding/SPARQLQuery.java:36-71 | a text condition adds the label's pieces to the variable's fuzzy tokens and the whole label to its exact phrases; nothing else changes |
| Candidates.AddTextKeepsTokensClean | src/main/java/org/aksw/hawk/querybuilding/SPARQLQuery.java:56-71 | adding a text condition keeps every fuzzy token free of separators |
| Candidates.AddIdempotent | src/main/java/org/aksw/hawk/querybuilding/SPARQLQuery.java:32-34 | adding a triple or a filter twice is the same as adding it once, and two triples can be added in either order |
| Candidates.CloneIdentity | src/main/java/org/aksw/hawk/querybuilding/SPARQLQuery.java:88-104 | a clone equals its original exactly when there are no exact phrases; the clone and the original extend each other |
| PosTags.FreeTextExcludesCommonNoun | src/main/java/org/aksw/hawk/querybuilding/RecursiveSparqlQueryBuilder.java:94-152 | the free-text tags and `NN|NNS` never both match; a proper-noun tag is a noun tag |
| PosTags.WhWordIsNoNoun | src/main/java/org/aksw/hawk/querybuilding/Annotater.java:156-164 | `WRB|WP` is neither a noun nor a verb tag |
| Rendering.EnumerationSize | src/main/java/org/aksw/hawk/querybuilding/SPARQLQuery.java:125 | listing a set once per element gives a list as long as the set |
| Rendering.WithoutStopwordsEnumerates | src/main/java/org/aksw/hawk/querybuilding/SPARQLQuery.java:161-163 | removing the stopwords from a listing of a set lists that set minus the stopwords |
| Rendering.FuzzyTerms | src/main/java/org/aksw/hawk/querybuilding/SPARQLQuery.java:167-174 | there is one fuzzy term per token |
| Rendering.ExactTerms | src/main/java/org/aksw/hawk/querybuilding/SPARQLQuery.java:129-136 | there is one quoted term per phrase |
| Rendering.FuzzyClauseTerms | src/main/java/org/aksw/hawk/querybuilding/SPARQLQuery.java:158-179 | a variable gets a fuzzy clause exactly when one of its tokens is not a stopword; the clause's terms are those tokens, each once |
| Rendering.ExactClauseTerms | src/main/java/org/aksw/hawk/querybuilding/SPARQLQuery.java:122-141 | a variable gets an exact clause exactly when it has a phrase; the clause's terms are its phrases, each once |
| Rendering.NoFuzzyClauses | src/main/java/org/aksw/hawk/querybuilding/SPARQLQuery.java:158-180 | when every variable has only stopwords, the fuzzy rendering has no text clause |
| Rendering.NoExactClauses | src/main/java/org/aksw/hawk/querybuilding/SPARQLQuery.java:122-142 | when every variable has no phrase, the exact rendering has no text clause |
| Rendering.RenderingsDifferInTextOnly | src/main/java/org/aksw/hawk/querybuilding/SPARQLQuery.java:111-116 | the two renderings are equal exactly when their text clauses are, and `generateQueries` then returns one string |
| Rendering.OneQueryWithoutText | src/main/java/org/aksw/hawk/querybuilding/SPARQLQuery.java:111-116 | a candidate without effective text search renders as a single query |
| Rendering.ConstraintListed | src/main/java/org/aksw/hawk/querybuilding/SPARQLQuery.java:143-145 | every triple of the candidate appears as a line of both renderings |
| Rendering.FilterListed | src/main/java/org/aksw/hawk/querybuilding/SPARQLQuery.java:146-148 | every filter of the candidate appears as a `FILTER` line of both renderings |
| SparqlQueries.SparqlQuery.constructor | src/main/java/org/aksw/hawk/querybuilding/SPARQLQuery.java:22-24 | a new query holds the initial triple and nothing else |
| SparqlQueries.SparqlQuery.Empty | src/main/java/org/aksw/hawk/querybuilding/SPARQLQuery.java:29-30 | the protected constructor makes an empty query |
| SparqlQueries.SparqlQuery.AddConstraint | src/main/java/org/aksw/hawk/querybuilding/SPARQLQuery.java:32-34 | the query gains the triple; nothing else changes |
| SparqlQueries.SparqlQuery.AddFilter | src/main/java/org/aksw/hawk/querybuilding/SPARQLQuery.java:82-85 | the query gains the filter; nothing else changes |
| SparqlQueries.SparqlQuery.AddFilterOverAbstractsContraint | src/main/java/org/aksw/hawk/querybuilding/SPARQLQuery.java:36-40 | the query gains the label's fuzzy tokens and its exact phrase on the variable |
| SparqlQueries.SparqlQuery.ExactToken | src/main/java/org/aksw/hawk/querybuilding/SPARQLQuery.java:42-54 | the variable's exact phrases gain the label, whether or not the variable had an entry |
| SparqlQueries.SparqlQuery.FuzzyToken | src/main/java/org/aksw/hawk/querybuilding/SPARQLQuery.java:56-71 | the variable's fuzzy tokens gain every piece of the split label, whether or not the variable had an entry |
| SparqlQueries.SparqlQuery.ConstraintsContains | src/main/java/org/aksw/hawk/querybuilding/SPARQLQuery.java:73-80 | true exactly when some triple contains the target as a substring |
| SparqlQueries.SparqlQuery.Clone | src/main/java/org/aksw/hawk/querybuilding/SPARQLQuery.java:88-104 | a fresh object with the same triples, filters and fuzzy tokens, and no exact phrases |
| SparqlQueries.SparqlQuery.GenerateQueries | src/main/java/org/aksw/hawk/querybuilding/SPARQLQuery.java:111-116 | the set of the fuzzy and the exact rendering |
| SparqlQueries.SparqlQuery.GenerateQueryStringWithExactMatch | src/main/java/org/aksw/hawk/querybuilding/SPARQLQuery.java:118-152 | the string built is the exact-match query of the query's value |
| SparqlQueries.SparqlQuery.GenerateQueryStringWithFuzzy | src/main/java/org/aksw/hawk/querybuilding/SPARQLQuery.java:154-190 | the string built is the fuzzy query of the query's value |
| SparqlQueries.SparqlQuery.AppendConstraintsAndFilters | src/main/java/org/aksw/hawk/querybuilding/SPARQLQuery.java:181-189 | the builder gains the triple lines, the filter lines and the footer |
| SparqlQueries.ExactClausesText | src/main/java/org/aksw/hawk/querybuilding/SPARQLQuery.java:122-142 | the loop over variables appends each variable's exact clause, in iteration order |
| SparqlQueries.FuzzyClausesText | src/main/java/org/aksw/hawk/querybuilding/SPARQLQuery.java:158-180 | the loop over variables appends each variable's fuzzy clause, in iteration order |
| SparqlQueries.ConstraintLinesText | src/main/java/org/aksw/hawk/querybuilding/SPARQLQuery.java:143-145 | one line per triple, in iteration order |
| SparqlQueries.FilterLinesText | src/main/java/org/aksw/hawk/querybuilding/SPARQLQuery.java:146-148 | one `FILTER` line per filter, in iteration order |
| SparqlQueries.FuzzyClauseText | src/main/java/org/aksw/hawk/querybuilding/SPARQLQuery.java:165-178 | the `AND`-joined fuzzy terms, between the clause's opening and closing text |
| SparqlQueries.ExactClauseText | src/main/java/org/aksw/hawk/querybuilding/SPARQLQuery.java:127-140 | the `AND`-joined quoted phrases, between the clause's opening and closing text |
| SparqlQueries.CopySet | src/main/java/org/aksw/hawk/querybuilding/SPARQLQuery.java:90-97 | the element-by-element copy has the same elements |
| SparqlQueries.CopyMap | src/main/java/org/aksw/hawk/querybuilding/SPARQLQuery.java:98-102 | the entry-by-entry copy of the fuzzy map has the same entries |
| Scenarios.WhoFoundedCandidates | src/main/java/org/aksw/hawk/querybuilding/RecursiveSparqlQueryBuilder.java:40-53 | for "Who founded …?" (an unannotated `WP` root over a verb annotated with `dbo:founder`), `start` yields exactly the three verb triples |
| Scenarios.FoundedStep | src/main/java/org/aksw/hawk/querybuilding/RecursiveSparqlQueryBuilder.java:40-53 | the annotated verb turns the empty candidate into its three triples |
| Scenarios.OneTripleQuery | src/main/java/org/aksw/hawk/querybuilding/SPARQLQuery.java:111-190 | a candidate with one triple and no text renders as one query: header, triple line, footer |
| Scenarios.SplitTwoWords | src/main/java/org/aksw/hawk/querybuilding/SPARQLQuery.java:60 | two words joined by a space split into the two words |
| Scenarios.NobelPrizeTokens | src/main/java/org/aksw/hawk/querybuilding/SPARQLQuery.java:36-71 | "Nobel Prize" becomes the fuzzy tokens "Nobel" and "Prize" and the exact phrase "Nobel Prize" |
| Scenarios.TwoTokenClause | src/main/java/org/aksw/hawk/querybuilding/SPARQLQuery.java:161-178 | two non-stopword tokens are both searched with edit distance one, joined by `AND`, in either order |
| Scenarios.NobelPrizeFuzzyClause | src/main/java/org/aksw/hawk/querybuilding/SPARQLQuery.java:161-178 | the fuzzy clause for "Nobel Prize" searches `Nobel~1 AND Prize~1`, in either order |
| Scenarios.NobelPrizeExactClause | src/main/java/org/aksw/hawk/querybuilding/SPARQLQuery.java:125-140 | the exact clause for "Nobel Prize" searches the quoted phrase |
| Scenarios.StopwordsOnly | src/main/java/org/aksw/hawk/querybuilding/SPARQLQuery.java:16 | "name of" gives no fuzzy clause, since both tokens are stopwords, but is still an exact phrase |
| Scenarios.EnumerationOfTwo | src/main/java/org/aksw/hawk/querybuilding/SPARQLQuery.java:161 | a two-element set is listed in one of its two orders |

## Left out

- `getOrigLabel` (RecursiveSparqlQueryBuilder.java:182-199) sends an HTTP SPARQL query to DBpedia. It becomes the parameter `labelsOf`. On an exception the source returns the labels read before it, possibly none; `labelsOf` may return any set.
- The three lexical indexes (`IndexDBO_classes`, `IndexDBO_properties`, `DBOIndex`) search external full-text indexes. They become function constants of type `string -> seq<string>`, given to the constructor.
- `MutableTree` and `MutableTreeNode` are not part of this model's source. They are modelled as `Trees.TreeNode`: a label, a tag, an optional lemma, an ordered list of children that does not change, and a mutable annotation set. The class does not model nodes shared between trees.
- The iteration order of `HashSet` and `HashMap` is the `order` parameter in the renderers. In the generator it is a nondeterministic choice (`:|`). The results are proved whatever the order.
- Object identity of `SPARQLQuery` in the generator is modelled by multiset counting. The generator computes on candidate values, not on `SparqlQuery` objects, so the model does not capture aliasing of sets or maps between clones. Only the exact map could be aliased, and `clone` drops it.
- QueryBuilder.Start: requires a non-null, well-formed tree. A null root in the source throws a `NullPointerException`, which is not caught.
- Annotation.Annotater.AnnotateTree: requires a non-null, well-formed tree. Only the projection pass tests the root for null. Given a null root, the other two passes push `null` and fail.
- Annotation.Annotater.AnnotateProjectionLeftTree: the `while` loop that always breaks after its first iteration is modelled as an `if`. Its `getChildren() != null` test is covered, because a node's list of children is never null here.
- The following are not modelled: logging, the `variableSet` argument (never read), the `CloneNotSupportedException` handling (never thrown) and `toString`.
- `TableMaker`, `START` and the Wikidata dataset test are not part of the query-building core and are not modelled.
