/** The POS-tagged parse tree (`MutableTree`/`MutableTreeNode`). A node's
    surface label, tag, lemma and children never change after parsing; only
    its annotation set is updated in place, by the annotator. */
module Trees {

  datatype Option<T> = None | Some(value: T)

  /** An immutable picture of a subtree and its annotations at one moment. */
  datatype Tree = Tree(
    surface: string,
    posTag: string,
    baseForm: Option<string>,
    children: seq<Tree>,
    annotations: set<string>)

  class TreeNode {
    const surface: string
    const posTag: string
    /** The lemma (dictionary form), when the parser supplied one. */
    const baseForm: Option<string>
    const children: seq<TreeNode>
    var annotations: set<string>

    /** This node and all its descendants. */
    ghost const Repr: set<TreeNode>
    ghost const height: nat

    /** The subtree is a tree: children are strictly lower, own disjoint
        parts of the node set, and never contain their parent. */
    ghost predicate Valid()
      decreases height
    {
      && this in Repr
      && (forall i :: 0 <= i < |children| ==>
            && children[i].height < height
            && children[i] in Repr
            && children[i].Repr <= Repr
            && this !in children[i].Repr
            && children[i].Valid())
      && (forall i, j :: 0 <= i < j < |children| ==> children[i].Repr !! children[j].Repr)
      && Repr == {this} + ChildrenRepr(children)
    }

    constructor (surface: string, posTag: string, baseForm: Option<string>, children: seq<TreeNode>)
      requires forall i :: 0 <= i < |children| ==> children[i].Valid()
      requires forall i, j :: 0 <= i < j < |children| ==> children[i].Repr !! children[j].Repr
      ensures Valid()
      ensures this.surface == surface && this.posTag == posTag && this.baseForm == baseForm
      ensures this.children == children && annotations == {}
      ensures Repr == {this} + ChildrenRepr(children)
    {
      this.surface := surface;
      this.posTag := posTag;
      this.baseForm := baseForm;
      this.children := children;
      annotations := {};
      Repr := {this} + ChildrenRepr(children);
      height := 1 + MaxHeight(children);
      new;
      ChildrenReprCovers(children);
    }

    /** `addAnnotation` */
    method AddAnnotation(uri: string)
      modifies this
      ensures annotations == old(annotations) + {uri}
    {
      annotations := annotations + {uri};
    }

    ghost function Snapshot(): (t: Tree)
      requires Valid()
      reads Repr
      decreases height, 1
    {
      Tree(surface, posTag, baseForm, ChildSnapshots(|children|), annotations)
    }

    /** Snapshots of the first `k` children. */
    ghost function ChildSnapshots(k: nat): (ts: seq<Tree>)
      requires Valid() && k <= |children|
      reads Repr
      ensures |ts| == k
      decreases height, 0, k
    {
      if k == 0 then [] else ChildSnapshots(k - 1) + [children[k - 1].Snapshot()]
    }

    lemma {:induction false} ChildSnapshotAt(k: nat, j: nat)
      requires Valid() && j < k <= |children|
      ensures ChildSnapshots(k)[j] == children[j].Snapshot()
      decreases k
    {
      ChildSnapshotsSnoc(k);
      if j < k - 1 {
        ChildSnapshotAt(k - 1, j);
      }
    }

    /** The snapshots of the first `k` children extend those of the first
        `k - 1` by the snapshot of child `k - 1`. */
    lemma ChildSnapshotsSnoc(k: nat)
      requires Valid() && 0 < k <= |children|
      ensures ChildSnapshots(k)[..k - 1] == ChildSnapshots(k - 1)
      ensures ChildSnapshots(k)[k - 1] == children[k - 1].Snapshot()
    {
      var prefix := ChildSnapshots(k - 1);
      assert ChildSnapshots(k) == prefix + [children[k - 1].Snapshot()];
    }
  }

  ghost function ChildrenRepr(ns: seq<TreeNode>): set<TreeNode>
  {
    if ns == [] then {} else ChildrenRepr(ns[..|ns| - 1]) + ns[|ns| - 1].Repr
  }

  /** Every child's nodes are among the children's nodes. */
  lemma {:induction false} ChildrenReprCovers(ns: seq<TreeNode>)
    ensures forall i :: 0 <= i < |ns| ==> ns[i].Repr <= ChildrenRepr(ns)
  {
    if ns != [] {
      ChildrenReprCovers(ns[..|ns| - 1]);
      forall i | 0 <= i < |ns| - 1
        ensures ns[i].Repr <= ChildrenRepr(ns)
      {
        assert ns[i] == ns[..|ns| - 1][i];
      }
    }
  }

  /** The children's nodes are those of some child. */
  lemma {:induction false} ChildrenReprMembers(ns: seq<TreeNode>)
    ensures forall i :: 0 <= i < |ns| ==> ns[i].Repr <= ChildrenRepr(ns)
    ensures forall m :: m in ChildrenRepr(ns) ==> exists i :: 0 <= i < |ns| && m in ns[i].Repr
  {
    ChildrenReprCovers(ns);
    if ns != [] {
      ChildrenReprMembers(ns[..|ns| - 1]);
      forall m | m in ChildrenRepr(ns)
        ensures exists i :: 0 <= i < |ns| && m in ns[i].Repr
      {
        if m !in ns[|ns| - 1].Repr {
          var i :| 0 <= i < |ns| - 1 && m in ns[..|ns| - 1][i].Repr;
          assert m in ns[i].Repr;
        }
      }
    }
  }

  ghost function MaxHeight(ns: seq<TreeNode>): (h: nat)
    ensures forall i :: 0 <= i < |ns| ==> ns[i].height <= h
  {
    if ns == [] then 0
    else
      var h := MaxHeight(ns[..|ns| - 1]);
      var last := ns[|ns| - 1].height;
      if h < last then last else h
  }
}
