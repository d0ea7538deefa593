/** The sum-type binary tree: values live only in leaves, and a branch owns
    exactly two subtrees. A position inside a tree is a path of left/right
    choices from the root; it stands for a mutable reference to that node. */
module Trees {
  import opened Wrappers

  datatype Tree<T> = Leaf(value: T) | Branch(left: Tree<T>, right: Tree<T>)

  /** The in-order (left to right) sequence of leaf values. Every tree holds
      at least one value, since a branch always has two children. */
  function Leaves<T>(t: Tree<T>): (s: seq<T>)
    ensures |s| >= 1
  {
    match t
    case Leaf(v) => [v]
    case Branch(l, r) => Leaves(l) + Leaves(r)
  }

  /** `Tree::leaf`: a single leaf holding `v`. */
  function MakeLeaf<T>(v: T): (t: Tree<T>)
    ensures t.Leaf? && Leaves(t) == [v]
  {
    Leaf(v)
  }

  /** `Tree::branch`: a branch of two leaves, in the positions given; no
      order between the two values is imposed. */
  function MakeBranch<T>(l: T, r: T): (t: Tree<T>)
    ensures t.Branch? && t.left.Leaf? && t.right.Leaf?
    ensures Leaves(t) == [l, r]
  {
    Branch(MakeLeaf(l), MakeLeaf(r))
  }

  /** `le` is total: any two values compare one way or the other (true of
      integers; not of every partial order). */
  ghost predicate Total<T(!new)>(le: (T, T) -> bool) {
    forall a, b :: le(a, b) || le(b, a)
  }

  /** `to_branch_with` as a node rewrite: a leaf `v` becomes a branch of the
      two leaves `v` and `other`, the one with `v <= other` going left when
      that holds and `other` going left otherwise; a branch is refused. */
  function ToBranchWith<T(!new)>(t: Tree<T>, other: T, le: (T, T) -> bool): (r: Result<Tree<T>, ()>)
    ensures r.Err? <==> t.Branch?
    ensures r.Ok? ==> r.value.Branch? && r.value.left.Leaf? && r.value.right.Leaf?
    ensures r.Ok? ==> |Leaves(r.value)| == |Leaves(t)| + 1
    ensures r.Ok? ==> multiset(Leaves(r.value)) == multiset{t.value, other}
    ensures r.Ok? ==> (Leaves(r.value)[0] == t.value <== le(t.value, other))
    ensures r.Ok? ==> (Leaves(r.value)[0] == other <== !le(t.value, other))
    ensures r.Ok? && Total(le) ==> le(Leaves(r.value)[0], Leaves(r.value)[1])
  {
    match t
    case Branch(_, _) => Err(())
    case Leaf(v) =>
      if le(v, other) then Ok(MakeBranch(v, other)) else Ok(MakeBranch(other, v))
  }

  // ---------------------------------------------------------------------
  // Positions: paths from the root

  datatype Dir = Left | Right

  type Path = seq<Dir>

  /** The child of a branch in direction `d`. */
  function Child<T>(t: Tree<T>, d: Dir): Tree<T>
    requires t.Branch?
  {
    if d == Left then t.left else t.right
  }

  /** `p` leads from the root of `t` to a node of `t`. */
  predicate ValidPath<T>(t: Tree<T>, p: Path)
    decreases |p|
  {
    p == [] || (t.Branch? && ValidPath(Child(t, p[0]), p[1..]))
  }

  /** The node that `p` leads to. */
  function Subtree<T>(t: Tree<T>, p: Path): Tree<T>
    requires ValidPath(t, p)
    decreases |p|
  {
    if p == [] then t else Subtree(Child(t, p[0]), p[1..])
  }

  /** The tree after the node at `p` is overwritten with `s`, the effect of
      `*self = ...` through a mutable reference to that node. */
  function ReplaceAt<T>(t: Tree<T>, p: Path, s: Tree<T>): Tree<T>
    requires ValidPath(t, p)
    decreases |p|
  {
    if p == [] then s
    else if p[0] == Left then Branch(ReplaceAt(t.left, p[1..], s), t.right)
    else Branch(t.left, ReplaceAt(t.right, p[1..], s))
  }

  /** How many leaves lie, in order, before the node at `p`; the node's own
      leaves follow them and fit inside the tree's leaf sequence. */
  function LeafIndex<T>(t: Tree<T>, p: Path): (i: nat)
    requires ValidPath(t, p)
    ensures i + |Leaves(Subtree(t, p))| <= |Leaves(t)|
    decreases |p|
  {
    if p == [] then 0
    else if p[0] == Left then LeafIndex(t.left, p[1..])
    else |Leaves(t.left)| + LeafIndex(t.right, p[1..])
  }

  /** The node at `p` contributes exactly the slice of the tree's leaves
      that starts at its leaf index. */
  lemma {:induction false} SubtreeLeaves<T>(t: Tree<T>, p: Path)
    requires ValidPath(t, p)
    ensures var i := LeafIndex(t, p);
            Leaves(t)[i..i + |Leaves(Subtree(t, p))|] == Leaves(Subtree(t, p))
    decreases |p|
  {
    if p != [] {
      var c, q := Child(t, p[0]), p[1..];
      SubtreeLeaves(c, q);
      var i, k, sub := LeafIndex(c, q), |Leaves(Subtree(c, q))|, Leaves(Subtree(c, q));
      assert Subtree(t, p) == Subtree(c, q);
      var ll, lr := Leaves(t.left), Leaves(t.right);
      assert Leaves(t) == ll + lr;
      if p[0] == Left {
        assert LeafIndex(t, p) == i;
        ConcatSliceLeft(ll, lr, i, i + k);
      } else {
        assert LeafIndex(t, p) == |ll| + i;
        ConcatSliceRight(ll, lr, i, i + k);
      }
    }
  }

  /** Overwriting the node at `p` changes the leaf sequence only in that
      node's slice, which becomes the new node's leaves. */
  lemma {:induction false} ReplaceAtLeaves<T>(t: Tree<T>, p: Path, s: Tree<T>)
    requires ValidPath(t, p)
    ensures var i := LeafIndex(t, p);
            var k := |Leaves(Subtree(t, p))|;
            Leaves(ReplaceAt(t, p, s)) == Leaves(t)[..i] + Leaves(s) + Leaves(t)[i + k..]
    decreases |p|
  {
    if p != [] {
      var c, q := Child(t, p[0]), p[1..];
      ReplaceAtLeaves(c, q, s);
      var i, k := LeafIndex(c, q), |Leaves(Subtree(c, q))|;
      assert Subtree(t, p) == Subtree(c, q);
      var ll, lr := Leaves(t.left), Leaves(t.right);
      assert Leaves(t) == ll + lr;
      if p[0] == Left {
        assert LeafIndex(t, p) == i;
        assert Leaves(ReplaceAt(t, p, s)) == Leaves(ReplaceAt(c, q, s)) + lr;
        ConcatPrefixLeft(ll, lr, i);
        ConcatSuffixLeft(ll, lr, i + k);
      } else {
        assert LeafIndex(t, p) == |ll| + i;
        assert Leaves(ReplaceAt(t, p, s)) == ll + Leaves(ReplaceAt(c, q, s));
        ConcatPrefixRight(ll, lr, i);
        ConcatSuffixRight(ll, lr, i + k);
      }
    }
  }

  // Slices of a concatenation that fall inside one of its two parts.

  lemma ConcatSliceLeft<T>(a: seq<T>, b: seq<T>, i: nat, j: nat)
    requires i <= j <= |a|
    ensures (a + b)[i..j] == a[i..j]
  {
    assert forall m :: 0 <= m < j - i ==> (a + b)[i..j][m] == a[i..j][m];
  }

  lemma ConcatPrefixLeft<T>(a: seq<T>, b: seq<T>, i: nat)
    requires i <= |a|
    ensures (a + b)[..i] == a[..i]
  {
    ConcatSliceLeft(a, b, 0, i);
  }

  lemma ConcatSuffixLeft<T>(a: seq<T>, b: seq<T>, j: nat)
    requires j <= |a|
    ensures (a + b)[j..] == a[j..] + b
  {
    assert forall m :: 0 <= m < |a| + |b| - j ==> (a + b)[j..][m] == (a[j..] + b)[m];
  }

  lemma ConcatPrefixRight<T>(a: seq<T>, b: seq<T>, i: nat)
    requires i <= |b|
    ensures (a + b)[..|a| + i] == a + b[..i]
  {
    assert forall m :: 0 <= m < |a| + i ==> (a + b)[..|a| + i][m] == (a + b[..i])[m];
  }

  lemma ConcatSuffixRight<T>(a: seq<T>, b: seq<T>, j: nat)
    requires j <= |b|
    ensures (a + b)[|a| + j..] == b[j..]
  {
    assert forall m :: 0 <= m < |b| - j ==> (a + b)[|a| + j..][m] == b[j..][m];
  }

  lemma ConcatSliceRight<T>(a: seq<T>, b: seq<T>, i: nat, j: nat)
    requires i <= j <= |b|
    ensures (a + b)[|a| + i..|a| + j] == b[i..j]
  {
    assert forall m :: 0 <= m < j - i ==> (a + b)[|a| + i..|a| + j][m] == b[i..j][m];
  }

  /** After overwriting, the path still leads to a node, and that node is
      the one written. */
  lemma {:induction false} ReplaceAtSubtree<T>(t: Tree<T>, p: Path, s: Tree<T>)
    requires ValidPath(t, p)
    ensures ValidPath(ReplaceAt(t, p, s), p) && Subtree(ReplaceAt(t, p, s), p) == s
    decreases |p|
  {
    if p != [] {
      ReplaceAtSubtree(Child(t, p[0]), p[1..], s);
    }
  }

  /** Writing back the node already at `p` leaves the tree as it was. */
  lemma {:induction false} ReplaceAtSame<T>(t: Tree<T>, p: Path)
    requires ValidPath(t, p)
    ensures ReplaceAt(t, p, Subtree(t, p)) == t
    decreases |p|
  {
    if p != [] {
      ReplaceAtSame(Child(t, p[0]), p[1..]);
    }
  }

  /** Splitting the leaf at `at` with `to_branch_with(other)` replaces that
      one leaf value, at its index, by the two values of the new branch;
      every other leaf keeps its place, and the leaf count grows by one. */
  lemma {:induction false} ToBranchWithAtLeaves<T(!new)>(t: Tree<T>, at: Path, other: T, le: (T, T) -> bool)
    requires ValidPath(t, at) && Subtree(t, at).Leaf?
    ensures var i := LeafIndex(t, at);
            var n := ToBranchWith(Subtree(t, at), other, le).value;
            var s := Leaves(ReplaceAt(t, at, n));
            && Leaves(t)[i] == Subtree(t, at).value
            && s == Leaves(t)[..i] + Leaves(n) + Leaves(t)[i + 1..]
            && |s| == |Leaves(t)| + 1
  {
    var n := ToBranchWith(Subtree(t, at), other, le).value;
    SubtreeLeaves(t, at);
    ReplaceAtLeaves(t, at, n);
  }
}
