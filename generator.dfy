/** `RecursiveSparqlQueryBuilder`: the depth-first walk that turns an
    annotated tree into candidate queries, as the source runs it: one shared
    collection, cleared and refilled at every node, then handed to each
    child in turn. Each method is proved to compute the walk defined in
    GeneratorSpec. */
module QueryBuilder {
  import opened Trees
  import opened PosTags
  import opened Candidates
  import opened Bags
  import opened GeneratorSpec

  /** The `Set<SPARQLQuery>` the walk threads through every call. Query
      objects are compared by identity, so the collection is a multiset of
      candidate values. */
  class QuerySet {
    var items: multiset<Candidate>

    constructor (seed: Candidate)
      ensures items == multiset{seed}
    {
      items := multiset{seed};
    }

    method Clear()
      modifies this
      ensures items == multiset{}
    {
      items := multiset{};
    }

    method AddAll(more: multiset<Candidate>)
      modifies this
      ensures items == old(items) + more
    {
      items := items + more;
    }
  }

  /** `start`: one empty candidate, walked from the root. The result has
      one candidate per combination of choices along the tree, and is empty
      exactly when some node matches no rule. */
  method Start(root: TreeNode, labelsOf: string -> set<string>) returns (result: multiset<Candidate>)
    requires root.Valid()
    ensures result == Generate(root.Snapshot(), labelsOf)
    ensures |result| == Yield(root.Snapshot(), labelsOf)
    ensures result == multiset{} <==> HasDeadNode(root.Snapshot(), labelsOf)
  {
    var returnSet := new QuerySet(Blank);
    Recursion(returnSet, root, labelsOf);
    result := returnSet.items;
    GenerateCount(root.Snapshot(), labelsOf);
    WalkEmptyIff(multiset{Blank}, root.Snapshot(), labelsOf);
  }

  /** `recursion`: branch the shared collection at `tmp`, replace its
      contents by the branched collection, then walk each child, left to
      right, on that same collection. */
  method Recursion(returnSet: QuerySet, tmp: TreeNode, labelsOf: string -> set<string>)
    requires tmp.Valid()
    modifies returnSet
    ensures returnSet.items == Walk(old(returnSet.items), tmp.Snapshot(), labelsOf)
    decreases tmp.height
  {
    ghost var t := tmp.Snapshot();
    ghost var start := returnSet.items;
    var sb := Branch(returnSet.items, tmp, labelsOf);
    assert sb == Step(start, t, labelsOf);
    returnSet.Clear();
    returnSet.AddAll(sb);
    assert returnSet.items == sb;
    assert WalkChildren(sb, t, 0, labelsOf) == Walk(start, t, labelsOf);
    var i := 0;
    while i < |tmp.children|
      invariant 0 <= i <= |tmp.children| == |t.children|
      invariant tmp.Snapshot() == t
      invariant WalkChildren(returnSet.items, t, i, labelsOf) == Walk(start, t, labelsOf)
    {
      var child := tmp.children[i];
      ChildOf(tmp, i);
      ghost var before := returnSet.items;
      Recursion(returnSet, child, labelsOf);
      assert WalkChildren(before, t, i, labelsOf) == WalkChildren(returnSet.items, t, i + 1, labelsOf);
      i := i + 1;
    }
  }

  /** The `i`-th child of a valid node roots a valid, lower subtree whose
      snapshot is the node snapshot's `i`-th child. */
  lemma ChildOf(tmp: TreeNode, i: nat)
    requires tmp.Valid() && i < |tmp.children|
    ensures tmp.children[i].Valid() && tmp.children[i].height < tmp.height
    ensures tmp.Snapshot().children[i] == tmp.children[i].Snapshot()
  {
    tmp.ChildSnapshotAt(|tmp.children|, i);
  }

  /** The local set `sb` of `recursion`: the variants of every candidate of
      `returnSet`, in whatever order the set is iterated. */
  method Branch(returnSet: multiset<Candidate>, tmp: TreeNode, labelsOf: string -> set<string>)
    returns (sb: multiset<Candidate>)
    requires tmp.Valid()
    ensures sb == Step(returnSet, tmp.Snapshot(), labelsOf)
  {
    ghost var t := tmp.Snapshot();
    sb := multiset{};
    var rest := returnSet;
    while rest != multiset{}
      invariant sb + Step(rest, t, labelsOf) == Step(returnSet, t, labelsOf)
      decreases |rest|
    {
      var query :| query in rest;
      StepRemove(rest, t, labelsOf, query);
      var variants := NodeVariants(query, tmp, labelsOf);
      sb := sb + variants;
      rest := rest - multiset{query};
    }
    assert Step(rest, t, labelsOf) == multiset{};
  }

  /** The variants one node makes from one candidate: the dispatch of
      GeneratorSpec.Variants, run on the node object. */
  method NodeVariants(query: Candidate, tmp: TreeNode, labelsOf: string -> set<string>)
    returns (vs: multiset<Candidate>)
    requires tmp.Valid()
    ensures vs == Variants(query, tmp.Snapshot(), labelsOf)
  {
    ghost var t := tmp.Snapshot();
    assert t.surface == tmp.surface && t.posTag == tmp.posTag && t.annotations == tmp.annotations;
    if tmp.annotations != {} {
      vs := AnnotatedNodeVariants(query, tmp.posTag, tmp.annotations);
    } else {
      vs := UnannotatedNodeVariants(query, tmp.surface, tmp.posTag, labelsOf);
    }
  }

  /** An annotated node: the variants of each annotation URI in turn. */
  method AnnotatedNodeVariants(query: Candidate, posTag: string, annotations: set<string>)
    returns (vs: multiset<Candidate>)
    ensures vs == AnnotatedSum(query, posTag, annotations)
  {
    vs := multiset{};
    var todo := annotations;
    while todo != {}
      invariant vs + AnnotatedSum(query, posTag, todo) == AnnotatedSum(query, posTag, annotations)
      decreases |todo|
    {
      var anno :| anno in todo;
      AnnotatedSumRemove(query, posTag, todo, anno);
      vs := vs + AnnotatedVariants(query, posTag, anno);
      todo := todo - {anno};
    }
    SumsOfNothing(query, posTag);
  }

  /** An unannotated node: the rule its tag selects, with one pass over the
      resolved labels of an `ADD` node; the tag tests of
      GeneratorSpec.UnannotatedVariants, in the same order. */
  method UnannotatedNodeVariants(query: Candidate, surface: string, posTag: string, labelsOf: string -> set<string>)
    returns (vs: multiset<Candidate>)
    ensures vs == UnannotatedVariants(query, surface, posTag, labelsOf(surface))
  {
    if IsFreeText(posTag) {
      vs := TextVariants(query, surface);
    } else if IsVerb(posTag) {
      vs := TextVariants(query, surface) + multiset{Clone(query)};
    } else if posTag == "ADD" {
      vs := EntityNodeVariants(query, surface, labelsOf(surface));
    } else if IsCommonNoun(posTag) {
      vs := TextVariants(query, surface) + multiset{Clone(query)};
    } else if posTag == "WP" {
      vs := multiset{query};
    } else {
      vs := multiset{};
    }
  }

  /** An unannotated `ADD` node: the bridge triple, the `IN` filter and a
      clone, then two text variants per resolved label. */
  method EntityNodeVariants(query: Candidate, surface: string, origLabels: set<string>)
    returns (vs: multiset<Candidate>)
    ensures vs == EntityVariants(query, surface) + LabelSum(query, origLabels)
  {
    var labelVariants := LabelVariants(query, origLabels);
    vs := EntityVariants(query, surface) + labelVariants;
  }

  /** The loop over the resolved labels of an `ADD` node. */
  method LabelVariants(query: Candidate, origLabels: set<string>) returns (vs: multiset<Candidate>)
    ensures vs == LabelSum(query, origLabels)
  {
    vs := multiset{};
    var todo := origLabels;
    while todo != {}
      invariant vs + LabelSum(query, todo) == LabelSum(query, origLabels)
      decreases |todo|
    {
      var origLabel :| origLabel in todo;
      LabelStep(query, todo, origLabel, vs);
      vs := vs + TextVariants(query, origLabel);
      todo := todo - {origLabel};
    }
    SumsOfNothing(query, "ADD");
  }
}
