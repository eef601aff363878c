/** `Annotater`: the three passes that attach DBpedia-ontology URIs to the
    nodes of a parse tree before candidate queries are built. Each pass walks
    the tree with an explicit stack and adds URIs to nodes in place; each is
    proved to leave every node with exactly the annotations a per-node rule
    gives, and the rules are proved against the lookups they consult. */
module Annotation {
  import opened Trees
  import opened PosTags
  import opened Candidates

  /** One of the three DBpedia-ontology indexes (classes, properties, all of
      DBO): the URIs a search for a word returns, in order. */
  type Index = string -> seq<string>

  const Place: string := "http://dbpedia.org/ontology/Place"
  const Agent: string := "http://dbpedia.org/ontology/Agent"

  /** The set of URIs one search returns. */
  function Hits(index: Index, key: string): (r: set<string>)
    ensures r == {} <==> index(key) == []
  {
    var r := Elems(index(key));
    assert index(key) != [] ==> index(key)[0] in r;
    r
  }

  /** The type hint a question word gives the projection variable. */
  function WhHint(surface: string): (r: set<string>)
    ensures |r| <= 1
    ensures r != {} <==> surface == "Where" || surface == "Who"
    ensures surface == "Where" ==> r == {Place}
    ensures surface == "Who" ==> r == {Agent}
  {
    if surface == "Where" then {Place}
    else if surface == "Who" then {Agent}
    else {}
  }

  // ---------------------------------------------------------------------
  // Which nodes a pass visits
  // ---------------------------------------------------------------------

  /** The nodes of `n`'s subtree the noun pass pops: every node it reaches
      without passing through a node whose label is blacklisted; a
      blacklisted node is popped, but its children are never pushed. */
  ghost function Reached(n: TreeNode, blacklist: set<string>): (r: set<TreeNode>)
    requires n.Valid()
    decreases n.height, 1
  {
    if n.surface in blacklist then {n} else {n} + ReachedBelow(n, |n.children|, blacklist)
  }

  /** The nodes reached below the first `k` children of `n`. */
  ghost function ReachedBelow(n: TreeNode, k: nat, blacklist: set<string>): (r: set<TreeNode>)
    requires n.Valid() && k <= |n.children|
    decreases n.height, 0, k
  {
    if k == 0 then {} else ReachedBelow(n, k - 1, blacklist) + Reached(n.children[k - 1], blacklist)
  }

  /** The nodes still to be reached from the subtrees on a stack. */
  ghost function StackReached(stack: seq<TreeNode>, blacklist: set<string>): (r: set<TreeNode>)
    requires forall i :: 0 <= i < |stack| ==> stack[i].Valid()
  {
    if stack == [] then {}
    else StackReached(stack[..|stack| - 1], blacklist) + Reached(stack[|stack| - 1], blacklist)
  }

  /** A work-list stack of a walk over `root`: valid subtrees of `root`,
      pairwise disjoint, none holding a node already popped. */
  ghost predicate StackOk(stack: seq<TreeNode>, root: TreeNode, done: set<TreeNode>)
  {
    && (forall i :: 0 <= i < |stack| ==> stack[i].Valid() && stack[i].Repr <= root.Repr && stack[i].Repr !! done)
    && (forall i, j :: 0 <= i < j < |stack| ==> stack[i].Repr !! stack[j].Repr)
  }

  lemma {:induction false} ReachedWithin(n: TreeNode, blacklist: set<string>)
    requires n.Valid()
    ensures n in Reached(n, blacklist) && Reached(n, blacklist) <= n.Repr
    decreases n.height, 1
  {
    if n.surface !in blacklist {
      ReachedBelowWithin(n, |n.children|, blacklist);
    }
  }

  lemma {:induction false} ReachedBelowWithin(n: TreeNode, k: nat, blacklist: set<string>)
    requires n.Valid() && k <= |n.children|
    ensures ReachedBelow(n, k, blacklist) <= n.Repr
    decreases n.height, 0, k
  {
    if k > 0 {
      ReachedBelowWithin(n, k - 1, blacklist);
      ReachedWithin(n.children[k - 1], blacklist);
    }
  }

  /** Without a blacklist a walk reaches every node of the tree. */
  lemma {:induction false} ReachedAll(n: TreeNode)
    requires n.Valid()
    ensures Reached(n, {}) == n.Repr
    decreases n.height, 1
  {
    ReachedBelowAll(n, |n.children|);
    assert n.children[..|n.children|] == n.children;
  }

  lemma {:induction false} ReachedBelowAll(n: TreeNode, k: nat)
    requires n.Valid() && k <= |n.children|
    ensures ReachedBelow(n, k, {}) == ChildrenRepr(n.children[..k])
    decreases n.height, 0, k
  {
    if k > 0 {
      ReachedBelowAll(n, k - 1);
      ReachedAll(n.children[k - 1]);
      assert n.children[..k][..k - 1] == n.children[..k - 1];
    }
  }

  lemma {:induction false} StackReachedAppend(xs: seq<TreeNode>, ys: seq<TreeNode>, blacklist: set<string>)
    requires forall i :: 0 <= i < |xs| ==> xs[i].Valid()
    requires forall i :: 0 <= i < |ys| ==> ys[i].Valid()
    ensures StackReached(xs + ys, blacklist) == StackReached(xs, blacklist) + StackReached(ys, blacklist)
    decreases |ys|
  {
    if ys != [] {
      var zs := ys[..|ys| - 1];
      StackReachedAppend(xs, zs, blacklist);
      assert (xs + ys)[..|xs + ys| - 1] == xs + zs;
      assert (xs + ys)[|xs + ys| - 1] == ys[|ys| - 1];
      assert StackReached(xs + ys, blacklist) == StackReached(xs + zs, blacklist) + Reached(ys[|ys| - 1], blacklist);
    } else {
      assert xs + ys == xs;
    }
  }

  lemma {:induction false} StackReachedChildren(n: TreeNode, k: nat, blacklist: set<string>)
    requires n.Valid() && k <= |n.children|
    ensures StackReached(n.children[..k], blacklist) == ReachedBelow(n, k, blacklist)
    decreases k
  {
    if k > 0 {
      StackReachedChildren(n, k - 1, blacklist);
      StackReachedChildStep(n, k, blacklist);
    }
  }

  lemma StackReachedChildStep(n: TreeNode, k: nat, blacklist: set<string>)
    requires n.Valid() && 0 < k <= |n.children|
    requires StackReached(n.children[..k - 1], blacklist) == ReachedBelow(n, k - 1, blacklist)
    ensures StackReached(n.children[..k], blacklist) == ReachedBelow(n, k, blacklist)
  {
    assert n.children[..k] == n.children[..k - 1] + [n.children[k - 1]];
    StackReachedSnoc(n.children[..k - 1], n.children[k - 1], blacklist);
  }

  lemma StackReachedSnoc(xs: seq<TreeNode>, x: TreeNode, blacklist: set<string>)
    requires forall i :: 0 <= i < |xs| ==> xs[i].Valid()
    requires x.Valid()
    ensures StackReached(xs + [x], blacklist) == StackReached(xs, blacklist) + Reached(x, blacklist)
  {
    assert (xs + [x])[..|xs|] == xs;
  }

  /** The stack after one step of a walk: the top popped, and its
      children pushed unless it is blacklisted. */
  function NextStack(stack: seq<TreeNode>, blacklist: set<string>): (r: seq<TreeNode>)
    requires stack != []
  {
    var top := stack[|stack| - 1];
    if top.surface in blacklist then stack[..|stack| - 1] else stack[..|stack| - 1] + top.children
  }

  /** The state of a walk over `root` with `stack` still to do and the
      nodes of `done` already popped: between them they account for exactly
      the nodes the walk reaches. */
  ghost predicate Walking(stack: seq<TreeNode>, root: TreeNode, done: set<TreeNode>, blacklist: set<string>)
    requires root.Valid()
  {
    && StackOk(stack, root, done)
    && done <= root.Repr
    && Reached(root, blacklist) == done + StackReached(stack, blacklist)
  }

  /** A walk starts with the root alone on the stack. */
  lemma WalkStart(root: TreeNode, blacklist: set<string>)
    requires root.Valid()
    ensures Walking([root], root, {}, blacklist)
  {
    assert [root][..0] == [];
  }

  /** Replacing the top of a well-formed stack by its children keeps it
      well formed, with the top counted as done. */
  lemma PushOk(stack: seq<TreeNode>, root: TreeNode, done: set<TreeNode>)
    requires stack != [] && StackOk(stack, root, done)
    ensures StackOk(stack[..|stack| - 1] + stack[|stack| - 1].children, root, done + {stack[|stack| - 1]})
  {
    var top := stack[|stack| - 1];
    var rest := stack[..|stack| - 1];
    var next := rest + top.children;
    forall i | 0 <= i < |next|
      ensures next[i].Valid() && next[i].Repr <= root.Repr && next[i].Repr !! done + {top}
    {
      if i < |rest| {
        assert next[i] == stack[i];
      } else {
        assert next[i] == top.children[i - |rest|];
      }
    }
    forall i, j | 0 <= i < j < |next|
      ensures next[i].Repr !! next[j].Repr
    {
      if j < |rest| {
        assert next[i] == stack[i] && next[j] == stack[j];
      } else if i < |rest| {
        assert next[i] == stack[i] && next[j] == top.children[j - |rest|];
        assert stack[i].Repr !! top.Repr;
      } else {
        assert next[i] == top.children[i - |rest|] && next[j] == top.children[j - |rest|];
      }
    }
  }

  /** What a stack still reaches is its top plus what the stack reaches
      once the top is replaced by its children. */
  lemma PushReached(stack: seq<TreeNode>, blacklist: set<string>)
    requires stack != [] && forall i :: 0 <= i < |stack| ==> stack[i].Valid()
    requires stack[|stack| - 1].surface !in blacklist
    ensures StackReached(stack, blacklist)
         == {stack[|stack| - 1]} + StackReached(stack[..|stack| - 1] + stack[|stack| - 1].children, blacklist)
  {
    var top := stack[|stack| - 1];
    var rest := stack[..|stack| - 1];
    StackReachedAppend(rest, top.children, blacklist);
    StackReachedChildren(top, |top.children|, blacklist);
    assert top.children[..|top.children|] == top.children;
  }

  /** One step of a walk: popping the top node and pushing its children
      (unless it is blacklisted) keeps the walk's state, with the popped
      node moved from "to be reached" to "done". */
  lemma PopStep(stack: seq<TreeNode>, root: TreeNode, done: set<TreeNode>, blacklist: set<string>)
    requires root.Valid() && stack != [] && Walking(stack, root, done, blacklist)
    ensures stack[|stack| - 1] !in done && stack[|stack| - 1] in root.Repr
    ensures |root.Repr - (done + {stack[|stack| - 1]})| < |root.Repr - done|
    ensures Walking(NextStack(stack, blacklist), root, done + {stack[|stack| - 1]}, blacklist)
  {
    PopTop(stack, root, done);
    if stack[|stack| - 1].surface in blacklist {
      PopSkip(stack, root, done, blacklist);
    } else {
      PopPush(stack, root, done, blacklist);
    }
  }

  /** The top of a well-formed stack is a node of the tree not yet done. */
  lemma PopTop(stack: seq<TreeNode>, root: TreeNode, done: set<TreeNode>)
    requires stack != [] && StackOk(stack, root, done)
    ensures stack[|stack| - 1] !in done && stack[|stack| - 1] in root.Repr
    ensures |root.Repr - (done + {stack[|stack| - 1]})| < |root.Repr - done|
  {
    var top := stack[|stack| - 1];
    assert top in top.Repr;
    assert top in root.Repr - done;
    assert root.Repr - (done + {top}) == (root.Repr - done) - {top};
  }

  /** Popping a blacklisted node pushes nothing. */
  lemma PopSkip(stack: seq<TreeNode>, root: TreeNode, done: set<TreeNode>, blacklist: set<string>)
    requires root.Valid() && stack != [] && Walking(stack, root, done, blacklist)
    requires stack[|stack| - 1].surface in blacklist
    ensures Walking(stack[..|stack| - 1], root, done + {stack[|stack| - 1]}, blacklist)
  {
    var top := stack[|stack| - 1];
    var rest := stack[..|stack| - 1];
    assert top in top.Repr;
    forall i | 0 <= i < |rest|
      ensures rest[i].Valid() && rest[i].Repr <= root.Repr && rest[i].Repr !! done + {top}
    {
      assert rest[i] == stack[i];
    }
    assert StackReached(stack, blacklist) == StackReached(rest, blacklist) + {top};
  }

  /** Popping any other node pushes its children. */
  lemma PopPush(stack: seq<TreeNode>, root: TreeNode, done: set<TreeNode>, blacklist: set<string>)
    requires root.Valid() && stack != [] && Walking(stack, root, done, blacklist)
    requires stack[|stack| - 1].surface !in blacklist
    ensures Walking(stack[..|stack| - 1] + stack[|stack| - 1].children, root, done + {stack[|stack| - 1]}, blacklist)
  {
    PopTop(stack, root, done);
    PushOk(stack, root, done);
    PushReached(stack, blacklist);
  }

  /** A walk whose stack is empty has popped every node it reaches. */
  lemma WalkEnd(root: TreeNode, done: set<TreeNode>, blacklist: set<string>)
    requires root.Valid() && Walking([], root, done, blacklist)
    ensures done == Reached(root, blacklist)
  {
  }

  /** Every node of a valid tree roots a valid subtree inside it. */
  lemma {:induction false} ReprClosed(n: TreeNode)
    requires n.Valid()
    ensures forall x :: x in n.Repr ==> x.Valid() && x.Repr <= n.Repr
    decreases n.height
  {
    ChildrenReprMembers(n.children);
    forall x | x in n.Repr
      ensures x.Valid() && x.Repr <= n.Repr
    {
      if x != n {
        var i :| 0 <= i < |n.children| && x in n.children[i].Repr;
        ReprClosed(n.children[i]);
      }
    }
  }

  /** Below a blacklisted node nothing is reached: the pass never pushes
      its children, and in a tree there is no other way down to them. */
  lemma {:induction false} BlacklistSkipsSubtree(n: TreeNode, b: TreeNode, m: TreeNode, blacklist: set<string>)
    requires n.Valid() && b in n.Repr && b.surface in blacklist
    requires m in b.Repr && m != b
    ensures m !in Reached(n, blacklist)
    decreases n.height
  {
    ReprClosed(n);
    if n != b {
      ChildrenReprMembers(n.children);
      var j :| 0 <= j < |n.children| && b in n.children[j].Repr;
      ReprClosed(n.children[j]);
      assert m in n.children[j].Repr;
      if n.surface !in blacklist {
        forall i | 0 <= i < |n.children|
          ensures m !in Reached(n.children[i], blacklist)
        {
          ReachedWithin(n.children[i], blacklist);
          if i == j {
            BlacklistSkipsSubtree(n.children[i], b, m, blacklist);
          } else {
            assert n.children[i].Repr !! n.children[j].Repr;
          }
        }
        NotReachedBelow(n, |n.children|, m, blacklist);
      }
    }
  }

  lemma {:induction false} NotReachedBelow(n: TreeNode, k: nat, m: TreeNode, blacklist: set<string>)
    requires n.Valid() && k <= |n.children|
    requires forall i :: 0 <= i < k ==> m !in Reached(n.children[i], blacklist)
    ensures m !in ReachedBelow(n, k, blacklist)
    decreases k
  {
    if k > 0 {
      NotReachedBelow(n, k - 1, m, blacklist);
    }
  }

  // ---------------------------------------------------------------------
  // The annotator
  // ---------------------------------------------------------------------

  class Annotater {
    const classesIndex: Index
    const propertiesIndex: Index
    const dboIndex: Index
    /** Labels too ambiguous to annotate as nouns or as the projection. */
    const blacklist: set<string>

    constructor (classesIndex: Index, propertiesIndex: Index, dboIndex: Index)
      ensures this.classesIndex == classesIndex && this.propertiesIndex == propertiesIndex
      ensures this.dboIndex == dboIndex && blacklist == {"people"}
    {
      this.classesIndex := classesIndex;
      this.propertiesIndex := propertiesIndex;
      this.dboIndex := dboIndex;
      blacklist := {"people"};
    }

    /** Everything any of the three indexes returns for `key`. */
    function AllHits(key: string): (r: set<string>)
    {
      Hits(classesIndex, key) + Hits(propertiesIndex, key) + Hits(dboIndex, key)
    }

    /** The noun pass's first lookup: classes, else properties, else DBO. */
    function NounChain(key: string): (r: set<string>)
      ensures r <= AllHits(key)
      ensures r == {} <==> AllHits(key) == {}
      ensures classesIndex(key) != [] ==> r == Hits(classesIndex, key)
      ensures classesIndex(key) == [] && propertiesIndex(key) != [] ==> r == Hits(propertiesIndex, key)
      ensures classesIndex(key) == [] && propertiesIndex(key) == [] ==> r == Hits(dboIndex, key)
    {
      if classesIndex(key) != [] then Hits(classesIndex, key)
      else if propertiesIndex(key) != [] then Hits(propertiesIndex, key)
      else Hits(dboIndex, key)
    }

    /** The URIs the noun pass gives an unannotated noun: the first lookup,
        or when it finds nothing, everything the three indexes return for
        the lemma (for the label itself when there is no lemma). */
    function NounHits(surface: string, baseForm: Option<string>): (r: set<string>)
      ensures r <= AllHits(surface) + (if baseForm.Some? then AllHits(baseForm.value) else {})
      ensures r == {} <==> AllHits(surface) == {} && (baseForm.Some? ==> AllHits(baseForm.value) == {})
      ensures AllHits(surface) != {} ==> r == NounChain(surface)
    {
      var first := NounChain(surface);
      if first != {} then first
      else AllHits(if baseForm.Some? then baseForm.value else surface)
    }

    /** The noun pass on one node with annotations `a`: only an
        unannotated, non-blacklisted noun changes. */
    function NounUpdate(n: TreeNode, a: set<string>): (r: set<string>)
      ensures a <= r
      ensures a != {} ==> r == a
      ensures r != a <==> n.surface !in blacklist && IsNoun(n.posTag) && a == {}
                          && NounHits(n.surface, n.baseForm) != {}
    {
      if n.surface !in blacklist && IsNoun(n.posTag) && a == {} then NounHits(n.surface, n.baseForm) else a
    }

    /** The URIs the verb pass gives a verb: properties of the label; when
        none, properties of the lemma if there is one, otherwise all of DBO
        for the label. */
    function VerbHits(surface: string, baseForm: Option<string>): (r: set<string>)
      ensures r <= Hits(propertiesIndex, surface) + Hits(dboIndex, surface)
                   + (if baseForm.Some? then Hits(propertiesIndex, baseForm.value) else {})
      ensures propertiesIndex(surface) != [] ==> r == Hits(propertiesIndex, surface)
      ensures propertiesIndex(surface) == [] && baseForm.Some? ==> r == Hits(propertiesIndex, baseForm.value)
      ensures propertiesIndex(surface) == [] && baseForm.None? ==> r == Hits(dboIndex, surface)
      ensures baseForm.Some? ==> r <= Hits(propertiesIndex, surface) + Hits(propertiesIndex, baseForm.value)
      ensures r == {} <==> (propertiesIndex(surface) == [] &&
                           if baseForm.Some? then propertiesIndex(baseForm.value) == [] else dboIndex(surface) == [])
    {
      if propertiesIndex(surface) != [] then Hits(propertiesIndex, surface)
      else if baseForm.Some? then Hits(propertiesIndex, baseForm.value)
      else Hits(dboIndex, surface)
    }

    /** The verb pass on one node with annotations `a`: a verb gains its
        hits, whatever it already had; other nodes are unchanged. */
    function VerbUpdate(n: TreeNode, a: set<string>): (r: set<string>)
      ensures a <= r
      ensures !IsVerb(n.posTag) ==> r == a
      ensures IsVerb(n.posTag) ==> VerbHits(n.surface, n.baseForm) <= r
    {
      if IsVerb(n.posTag) then a + VerbHits(n.surface, n.baseForm) else a
    }

    /** The word the projection pass looks up: the lemma of a plural noun
        when there is one, else the label. */
    function ProjectionKey(n: TreeNode): (r: string)
      ensures r != n.surface ==> n.posTag == "NNS" && n.baseForm == Some(r)
      ensures n.posTag == "NNS" && n.baseForm.Some? ==> r == n.baseForm.value
    {
      if n.posTag == "NNS" && n.baseForm.Some? then n.baseForm.value else n.surface
    }

    /** The URIs the projection pass gives the left-most child of the root:
        nothing for a blacklisted label; for a leaf, the type hint of a
        question word or the classes of a noun; for an inner node, classes
        and properties of a noun, else its DBO hits, or the type hint of a
        question word. */
    function ProjectionHits(n: TreeNode): (r: set<string>)
      ensures n.surface in blacklist ==> r == {}
      ensures r <= AllHits(ProjectionKey(n)) + WhHint(n.surface)
      ensures n.surface !in blacklist && |n.children| == 0 && IsNoun(n.posTag) ==> r == Hits(classesIndex, ProjectionKey(n))
      ensures !IsNoun(n.posTag) && !IsWhWord(n.posTag) ==> r == {}
    {
      WhWordIsNoNoun(n.posTag);
      var key := ProjectionKey(n);
      if n.surface in blacklist then {}
      else if |n.children| == 0 then
        if IsWhWord(n.posTag) then WhHint(n.surface)
        else if IsNoun(n.posTag) then LeafNounHits(key)
        else {}
      else if IsNoun(n.posTag) then InnerNounHits(key)
      else if IsWhWord(n.posTag) then WhHint(n.surface)
      else {}
    }

    /** A noun leaf: its classes, looked up only when there are some. */
    function LeafNounHits(key: string): (r: set<string>)
      ensures r == Hits(classesIndex, key)
    {
      if |classesIndex(key)| > 0 then Hits(classesIndex, key) else {}
    }

    /** A noun with children: its classes and properties, else its DBO
        hits; empty only when all three lookups are. */
    function InnerNounHits(key: string): (r: set<string>)
      ensures r <= AllHits(key)
      ensures r == {} <==> AllHits(key) == {}
      ensures classesIndex(key) != [] ==> Hits(classesIndex, key) <= r
      ensures classesIndex(key) != [] || propertiesIndex(key) != [] ==> r == Hits(classesIndex, key) + Hits(propertiesIndex, key)
      ensures classesIndex(key) == [] && propertiesIndex(key) == [] ==> r == Hits(dboIndex, key)
    {
      if |classesIndex(key)| > 0 || |propertiesIndex(key)| > 0 then Hits(classesIndex, key) + Hits(propertiesIndex, key)
      else if |dboIndex(key)| > 0 then Hits(dboIndex, key)
      else {}
    }

    /** The projection pass on node `m` of the tree under `root`: only the
        left-most child of the root gains anything. */
    function ProjectionUpdate(root: TreeNode, m: TreeNode, a: set<string>): (r: set<string>)
      ensures a <= r
      ensures r != a ==> |root.children| > 0 && m == root.children[0]
    {
      if |root.children| > 0 && m == root.children[0] then a + ProjectionHits(m) else a
    }

    /** The annotations of node `m` of the tree under `root` after all
        three passes, from its annotations `a` before them. */
    ghost function Annotated(root: TreeNode, m: TreeNode, a: set<string>): (r: set<string>)
      requires root.Valid()
      ensures a <= r
    {
      var afterVerbs := VerbUpdate(m, ProjectionUpdate(root, m, a));
      if m in Reached(root, blacklist) then NounUpdate(m, afterVerbs) else afterVerbs
    }

    // -------------------------------------------------------------------
    // The passes
    // -------------------------------------------------------------------

    /** `annotateTree`: the projection pass, then the verb pass, then the
        noun pass. */
    method AnnotateTree(root: TreeNode)
      requires root.Valid()
      modifies root.Repr
      ensures forall m :: m in root.Repr ==> m.annotations == Annotated(root, m, old(m.annotations))
    {
      AnnotateProjectionLeftTree(root);
      ghost var afterProjection := map m | m in root.Repr :: m.annotations;
      AnnotateVerbs(root);
      assert forall m :: m in root.Repr ==> m.annotations == VerbUpdate(m, afterProjection[m]);
      AnnotateNouns(root);
    }

    /** The URIs of one search, added one by one. */
    method AddAll(node: TreeNode, uris: seq<string>)
      modifies node
      ensures node.annotations == old(node.annotations) + Elems(uris)
    {
      var i := 0;
      while i < |uris|
        invariant 0 <= i <= |uris|
        invariant node.annotations == old(node.annotations) + Elems(uris[..i])
      {
        assert Elems(uris[..i + 1]) == Elems(uris[..i]) + {uris[i]} by {
          assert uris[..i + 1] == uris[..i] + [uris[i]];
        }
        node.AddAnnotation(uris[i]);
        i := i + 1;
      }
      assert uris[..i] == uris;
    }

    /** `annotateNouns`: a depth-first walk that skips the subtree below a
        blacklisted node. */
    method AnnotateNouns(root: TreeNode)
      requires root.Valid()
      modifies root.Repr
      ensures forall m :: m in root.Repr ==>
        m.annotations == if m in Reached(root, blacklist) then NounUpdate(m, old(m.annotations)) else old(m.annotations)
    {
      var stack := [root];
      ghost var done: set<TreeNode> := {};
      ghost var initial := map m | m in root.Repr :: m.annotations;
      WalkStart(root, blacklist);
      while stack != []
        invariant Walking(stack, root, done, blacklist)
        invariant NounsMarked(root.Repr, done, initial)
        decreases |root.Repr - done|
      {
        PopStep(stack, root, done, blacklist);
        ghost var next := NextStack(stack, blacklist);
        var tmp := stack[|stack| - 1];
        stack := stack[..|stack| - 1];
        VisitNoun(tmp, root.Repr, done, initial);
        if tmp.surface !in blacklist {
          stack := PushChildren(stack, tmp);
        }
        assert stack == next;
        done := done + {tmp};
      }
      WalkEnd(root, done, blacklist);
    }

    /** Every node of `nodes` holds its annotations of `initial`, updated
        by the noun pass exactly when it is in `done`. */
    ghost predicate NounsMarked(nodes: set<TreeNode>, done: set<TreeNode>, initial: map<TreeNode, set<string>>)
      reads nodes
    {
      forall m :: m in nodes ==>
        m in initial && m.annotations == if m in done then NounUpdate(m, initial[m]) else initial[m]
    }

    /** One pop of the noun pass: the node gets the noun rule unless it is
        blacklisted. */
    method VisitNoun(tmp: TreeNode, ghost nodes: set<TreeNode>, ghost done: set<TreeNode>,
                     ghost initial: map<TreeNode, set<string>>)
      requires tmp in nodes && tmp !in done && NounsMarked(nodes, done, initial)
      modifies tmp
      ensures NounsMarked(nodes, done + {tmp}, initial)
    {
      if tmp.surface !in blacklist {
        AnnotateNoun(tmp);
      }
    }

    /** The body of the noun pass for one node that is not blacklisted. */
    method AnnotateNoun(tmp: TreeNode)
      requires tmp.surface !in blacklist
      modifies tmp
      ensures tmp.annotations == NounUpdate(tmp, old(tmp.annotations))
    {
      var word := tmp.surface;
      if IsNoun(tmp.posTag) && tmp.annotations == {} {
        var search := classesIndex(word);
        if search != [] {
          AddAll(tmp, search);
        } else if propertiesIndex(word) != [] {
          search := propertiesIndex(word);
          AddAll(tmp, search);
        } else {
          search := dboIndex(word);
          AddAll(tmp, search);
        }
        assert tmp.annotations == NounChain(word);
        if tmp.annotations == {} {
          if tmp.baseForm.Some? {
            word := tmp.baseForm.value;
          }
          search := classesIndex(word);
          AddAll(tmp, search);
          search := propertiesIndex(word);
          AddAll(tmp, search);
          search := dboIndex(word);
          AddAll(tmp, search);
        }
      }
    }

    /** `annotateVerbs`: a depth-first walk over every node. */
    method AnnotateVerbs(root: TreeNode)
      requires root.Valid()
      modifies root.Repr
      ensures forall m :: m in root.Repr ==> m.annotations == VerbUpdate(m, old(m.annotations))
    {
      var stack := [root];
      ghost var done: set<TreeNode> := {};
      ghost var initial := map m | m in root.Repr :: m.annotations;
      WalkStart(root, {});
      while stack != []
        invariant Walking(stack, root, done, {})
        invariant VerbsMarked(root.Repr, done, initial)
        decreases |root.Repr - done|
      {
        PopStep(stack, root, done, {});
        ghost var next := NextStack(stack, {});
        var tmp := stack[|stack| - 1];
        stack := stack[..|stack| - 1];
        VisitVerb(tmp, root.Repr, done, initial);
        stack := PushChildren(stack, tmp);
        assert stack == next;
        done := done + {tmp};
      }
      WalkEnd(root, done, {});
      ReachedAll(root);
    }

    /** Every node of `nodes` holds its annotations of `initial`, updated
        by the verb pass exactly when it is in `done`. */
    ghost predicate VerbsMarked(nodes: set<TreeNode>, done: set<TreeNode>, initial: map<TreeNode, set<string>>)
      reads nodes
    {
      forall m :: m in nodes ==>
        m in initial && m.annotations == if m in done then VerbUpdate(m, initial[m]) else initial[m]
    }

    /** One pop of the verb pass. */
    method VisitVerb(tmp: TreeNode, ghost nodes: set<TreeNode>, ghost done: set<TreeNode>,
                     ghost initial: map<TreeNode, set<string>>)
      requires tmp in nodes && tmp !in done && VerbsMarked(nodes, done, initial)
      modifies tmp
      ensures VerbsMarked(nodes, done + {tmp}, initial)
    {
      AnnotateVerb(tmp);
    }

    /** The body of the verb pass for one node. */
    method AnnotateVerb(tmp: TreeNode)
      modifies tmp
      ensures tmp.annotations == VerbUpdate(tmp, old(tmp.annotations))
    {
      var word := tmp.surface;
      if IsVerb(tmp.posTag) {
        var search := propertiesIndex(word);
        if search == [] && tmp.baseForm.Some? {
          search := propertiesIndex(tmp.baseForm.value);
        } else if search == [] {
          search := dboIndex(word);
        }
        AddAll(tmp, search);
      }
    }

    /** `annotateProjectionLeftTree`: only the left-most child of the root
        is looked at. (The source pushes it on a stack and leaves its loop
        after the first pop, so the loop body runs at most once.) */
    method AnnotateProjectionLeftTree(root: TreeNode?)
      requires root != null ==> root.Valid()
      modifies if root != null then root.Repr else {}
      ensures root != null ==>
        forall m :: m in root.Repr ==> m.annotations == ProjectionUpdate(root, m, old(m.annotations))
    {
      if root != null && |root.children| > 0 {
        var tmp := root.children[0];
        assert tmp in tmp.Repr && root !in tmp.Repr;
        if tmp.surface !in blacklist {
          if |tmp.children| == 0 {
            AnnotateProjectionLeaf(tmp);
          } else {
            AnnotateProjectionInner(tmp);
          }
        }
      }
    }

    /** The projection pass on a leaf: a question word gives a type hint, a
        noun its classes. */
    method AnnotateProjectionLeaf(tmp: TreeNode)
      requires tmp.surface !in blacklist && |tmp.children| == 0
      modifies tmp
      ensures tmp.annotations == old(tmp.annotations) + ProjectionHits(tmp)
    {
      var word := tmp.surface;
      var posTag := tmp.posTag;
      if IsWhWord(posTag) {
        AnnotateWhHint(tmp);
      } else if IsNoun(posTag) {
        if posTag == "NNS" && tmp.baseForm.Some? {
          word := tmp.baseForm.value;
        }
        assert word == ProjectionKey(tmp);
        AnnotateLeafNoun(tmp, word);
      }
    }

    /** The projection pass on an inner node: a noun gets its classes and
        properties, else its DBO hits; a question word a type hint. */
    method AnnotateProjectionInner(tmp: TreeNode)
      requires tmp.surface !in blacklist && |tmp.children| > 0
      modifies tmp
      ensures tmp.annotations == old(tmp.annotations) + ProjectionHits(tmp)
    {
      var word := tmp.surface;
      var posTag := tmp.posTag;
      WhWordIsNoNoun(posTag);
      if IsNoun(posTag) {
        if posTag == "NNS" && tmp.baseForm.Some? {
          word := tmp.baseForm.value;
        }
        assert word == ProjectionKey(tmp);
        AnnotateInnerNoun(tmp, word);
      } else if IsWhWord(posTag) {
        AnnotateWhHint(tmp);
      }
    }

    method AnnotateLeafNoun(tmp: TreeNode, word: string)
      modifies tmp
      ensures tmp.annotations == old(tmp.annotations) + LeafNounHits(word)
    {
      if |classesIndex(word)| > 0 {
        var uris := classesIndex(word);
        AddAll(tmp, uris);
      }
    }

    method AnnotateInnerNoun(tmp: TreeNode, word: string)
      modifies tmp
      ensures tmp.annotations == old(tmp.annotations) + InnerNounHits(word)
    {
      if |classesIndex(word)| > 0 || |propertiesIndex(word)| > 0 {
        var uris := classesIndex(word);
        AddAll(tmp, uris);
        uris := propertiesIndex(word);
        AddAll(tmp, uris);
      } else if |dboIndex(word)| > 0 {
        var uris := dboIndex(word);
        AddAll(tmp, uris);
      }
    }
  }

  /** The type hint for a question word: "Where" a place, "Who" an agent. */
  method AnnotateWhHint(tmp: TreeNode)
    modifies tmp
    ensures tmp.annotations == old(tmp.annotations) + WhHint(tmp.surface)
  {
    var word := tmp.surface;
    if word == "Where" {
      tmp.AddAnnotation(Place);
    } else if word == "Who" {
      tmp.AddAnnotation(Agent);
    }
  }

  /** `for (child : tmp.getChildren()) stack.push(child)` */
  method PushChildren(stack: seq<TreeNode>, tmp: TreeNode) returns (pushed: seq<TreeNode>)
    ensures pushed == stack + tmp.children
  {
    pushed := stack;
    var i := 0;
    while i < |tmp.children|
      invariant 0 <= i <= |tmp.children|
      invariant pushed == stack + tmp.children[..i]
    {
      assert tmp.children[..i + 1] == tmp.children[..i] + [tmp.children[i]];
      pushed := pushed + [tmp.children[i]];
      i := i + 1;
    }
    assert tmp.children[..i] == tmp.children;
  }

  // ---------------------------------------------------------------------
  // Properties of the per-node rules
  // ---------------------------------------------------------------------

  /** Running the noun rule again changes nothing: a node it annotated is
      no longer empty, and one it left empty found nothing. */
  lemma NounUpdateIdempotent(a: Annotater, n: TreeNode, s: set<string>)
    ensures a.NounUpdate(n, a.NounUpdate(n, s)) == a.NounUpdate(n, s)
  {
  }

  /** When there is no lemma the retry repeats the first lookup's word, so
      it never finds anything the first lookup missed. */
  lemma NounRetryWithoutLemma(a: Annotater, surface: string)
    ensures a.NounHits(surface, None) == a.NounChain(surface)
  {
  }

  /** The fallback chain on the surface form: an unannotated `NN` leaf
      labelled "lake" with no class or property hits gets exactly what the
      fallback index returns. */
  lemma LakeExample(a: Annotater, n: TreeNode)
    requires a.blacklist == {"people"}
    requires n.surface == "lake" && n.posTag == "NN"
    requires a.classesIndex("lake") == [] && a.propertiesIndex("lake") == []
    requires a.dboIndex("lake") == ["uri:X"]
    ensures a.NounUpdate(n, {}) == {"uri:X"}
  {
    assert IsNoun("NN");
    assert "lake" != "people";
    assert Elems(["uri:X"]) == {"uri:X"};
  }

  /** The verb quirk: a lemma with no property hits stops the chain, so
      "borders" with lemma "border" stays unannotated even when the fallback
      index knows the word. */
  lemma BordersExample(a: Annotater, n: TreeNode)
    requires n.surface == "borders" && n.posTag == "VBZ" && n.baseForm == Some("border")
    requires a.propertiesIndex("borders") == [] && a.propertiesIndex("border") == []
    ensures a.VerbUpdate(n, {}) == {}
  {
    assert IsVerb("VBZ") by {
      assert "VBZ"[2..] == "Z";
    }
  }
}
