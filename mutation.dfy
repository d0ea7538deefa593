/** In-place mutation: an owned tree that `to_branch_with` rewrites through a
    mutable reference to one of its nodes. The reference is the path from
    the root to that node (the empty path is the root itself), as
    `find_mut` returns it. */
module Mutation {
  import opened Wrappers
  import opened Trees
  import opened Search
  import opened Visit

  /** An owned, mutable tree (`let mut t: Tree<T>`). */
  class MutTree<T(!new)> {
    var tree: Tree<T>

    constructor (t: Tree<T>)
      ensures tree == t
    {
      tree := t;
    }

    /** `to_branch_with(other)` on the node at `at`: a leaf is split into a
        branch of its value and `other`, ordered by `le`, and the call
        succeeds; on a branch the call fails before anything is written. */
    method ToBranchWith(at: Path, other: T, le: (T, T) -> bool) returns (r: Result<(), ()>)
      requires ValidPath(tree, at)
      modifies this
      ensures r.Ok? <==> Subtree(old(tree), at).Leaf?
      ensures r.Err? ==> tree == old(tree)
      ensures r.Ok? ==> tree == ReplaceAt(old(tree), at, Trees.ToBranchWith(Subtree(old(tree), at), other, le).value)
      ensures r.Ok? ==>
                var i := LeafIndex(old(tree), at);
                && Leaves(tree) == Leaves(old(tree))[..i]
                                   + Leaves(Trees.ToBranchWith(Subtree(old(tree), at), other, le).value)
                                   + Leaves(old(tree))[i + 1..]
                && |Leaves(tree)| == |Leaves(old(tree))| + 1
      ensures ValidPath(tree, at)
    {
      var node := Subtree(tree, at);
      match node
      case Branch(_, _) =>
        return Err(());
      case Leaf(v) =>
        ToBranchWithAtLeaves(tree, at, other, le);
        ReplaceAtSubtree(tree, at, if le(v, other) then MakeBranch(v, other) else MakeBranch(other, v));
        if le(v, other) {
          tree := ReplaceAt(tree, at, MakeBranch(v, other));
        } else {
          tree := ReplaceAt(tree, at, MakeBranch(other, v));
        }
        return Ok(());
    }
  }

  /** The order on the integers the tests use. */
  function IntLe(a: int, b: int): bool {
    a <= b
  }

  /** The predicates the `find_mut` test searches with. */
  function Above15(x: int): bool {
    x > 15
  }

  function AtMost30(x: int): bool {
    x <= 30
  }

  /** Each step of the `find_mut` test, computed on values: the search hits
      the position given, the split gives the tree given. */
  lemma FirstStep()
    ensures FindMut(MakeLeaf(42), Above15) == Some([])
    ensures ReplaceAt(MakeLeaf(42), [], Trees.ToBranchWith(MakeLeaf(42), 15, IntLe).value)
            == Branch(Leaf(15), Leaf(42))
  {
  }

  lemma SecondStep()
    ensures FindMut(Branch(Leaf(15), Leaf(42)), AtMost30) == Some([Left])
    ensures ReplaceAt(Branch(Leaf(15), Leaf(42)), [Left], Trees.ToBranchWith(Leaf(15), 30, IntLe).value)
            == Branch(Branch(Leaf(15), Leaf(30)), Leaf(42))
  {
    assert [Left] + [] == [Left];
  }

  lemma FinalTree()
    ensures Descend(Branch(Branch(Leaf(15), Leaf(30)), Leaf(42)), Record, []) == [15, 30, 42]
    ensures Find(Branch(Branch(Leaf(15), Leaf(30)), Leaf(42)), Above15) == Some(Leaf(30))
  {
  }

  /** The `find_mut` test: start from the leaf 42; find a value above 15
      and split it with 15; find a value at most 30 and split it with 30;
      the in-order visit then records 15, 30, 42. Every `unwrap` is shown
      not to fail. Searching the result for a value above 15 then finds
      the leaf 30, the first such value in order, not 42. */
  method FindMutScenario() returns (visited: seq<int>, found: Option<Tree<int>>)
    ensures visited == [15, 30, 42]
    ensures found == Some(Leaf(30))
  {
    FirstStep();
    SecondStep();
    FinalTree();
    var t := new MutTree(MakeLeaf(42));

    var n := FindMut(t.tree, Above15);
    var r := t.ToBranchWith(n.value, 15, IntLe);
    assert r.Ok?;

    n := FindMut(t.tree, AtMost30);
    r := t.ToBranchWith(n.value, 30, IntLe);
    assert r.Ok?;

    visited := Descend(t.tree, Record, []);
    found := Find(t.tree, Above15);
  }

  /** The `find` test: on the leaf 42, searching for 42 finds that leaf. */
  lemma FindLeafScenario()
    ensures Find(MakeLeaf(42), x => x == 42) == Some(Leaf(42))
  {
  }

  /** `to_branch_with` on a branch fails and leaves the whole tree as it
      was; a second call on the root of a split leaf is such a call. */
  method SplitBranchFails() returns (r: Result<(), ()>, after: Tree<int>)
    ensures r.Err? && after == Branch(Leaf(1), Leaf(2))
  {
    var t := new MutTree(MakeLeaf(1));
    r := t.ToBranchWith([], 2, IntLe);
    assert r.Ok?;
    r := t.ToBranchWith([], 3, IntLe);
    after := t.tree;
  }
}
