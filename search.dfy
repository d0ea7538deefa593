/** First-match search over the leaves, in left-to-right order: `find`
    returns the matching node itself, `find_mut` the position of the node
    (a path, which stands for the mutable reference into the tree). */
module Search {
  import opened Wrappers
  import opened Trees

  /** `i` indexes the first element of `s` that satisfies `p`. */
  predicate IsFirstMatch<T>(s: seq<T>, p: T -> bool, i: int) {
    0 <= i < |s| && p(s[i]) && forall j :: 0 <= j < i ==> !p(s[j])
  }

  /** No element of `s` satisfies `p`. */
  predicate NoMatch<T>(s: seq<T>, p: T -> bool) {
    forall j :: 0 <= j < |s| ==> !p(s[j])
  }

  /** `find`: a leaf answers for itself; a branch answers with its left
      subtree's match if there is one and searches its right subtree
      otherwise. Only leaves are ever returned. */
  function Find<T>(t: Tree<T>, p: T -> bool): (r: Option<Tree<T>>)
    ensures r.Some? ==> r.value.Leaf? && p(r.value.value)
  {
    match t
    case Leaf(v) => if p(v) then Some(t) else None
    case Branch(l, rt) =>
      var n := Find(l, p);
      if n.Some? then n else Find(rt, p)
  }

  /** `find_mut`: the same search, returning where the match is. A leaf that
      fails the predicate yields nothing; one that passes is the match; a
      branch tries its left subtree first and its right subtree only when
      the left one has no match. */
  function FindMut<T>(t: Tree<T>, p: T -> bool): (r: Option<Path>)
    ensures r.Some? ==> ValidPath(t, r.value)
    ensures r.Some? ==> Subtree(t, r.value).Leaf? && p(Subtree(t, r.value).value)
  {
    match t
    case Leaf(v) => if !p(v) then None else Some([])
    case Branch(l, rt) =>
      match FindMut(l, p)
      case Some(path) => Some([Left] + path)
      case None =>
        match FindMut(rt, p)
        case Some(path) => Some([Right] + path)
        case None => None
  }

  /** `find` finds nothing exactly when no leaf value satisfies `p`. */
  lemma {:induction false} FindNoneIff<T>(t: Tree<T>, p: T -> bool)
    ensures Find(t, p).None? <==> NoMatch(Leaves(t), p)
  {
    match t
    case Leaf(v) =>
      assert Leaves(t)[0] == v;
    case Branch(l, r) =>
      FindNoneIff(l, p);
      FindNoneIff(r, p);
      ConcatNoMatch(Leaves(l), Leaves(r), p);
  }

  /** `find_mut` finds nothing exactly when no leaf value satisfies `p`;
      otherwise its path leads to the leaf holding the first satisfying
      value of the in-order leaf sequence. */
  lemma {:induction false} FindMutFirst<T>(t: Tree<T>, p: T -> bool)
    ensures FindMut(t, p).None? <==> NoMatch(Leaves(t), p)
    ensures FindMut(t, p).Some? ==>
              var path := FindMut(t, p).value;
              && IsFirstMatch(Leaves(t), p, LeafIndex(t, path))
              && Leaves(t)[LeafIndex(t, path)] == Subtree(t, path).value
  {
    match t
    case Leaf(v) =>
      assert Leaves(t)[0] == v;
    case Branch(l, r) =>
      FindMutFirst(l, p);
      FindMutFirst(r, p);
      var ll, lr := Leaves(l), Leaves(r);
      ConcatNoMatch(ll, lr, p);
      match FindMut(l, p)
      case Some(q) =>
        var path := [Left] + q;
        assert path[1..] == q;
        assert LeafIndex(t, path) == LeafIndex(l, q);
        assert Subtree(t, path) == Subtree(l, q);
        FirstMatchInLeft(ll, lr, p, LeafIndex(l, q));
      case None =>
        match FindMut(r, p)
        case Some(q) =>
          var path := [Right] + q;
          assert path[1..] == q;
          assert LeafIndex(t, path) == |ll| + LeafIndex(r, q);
          assert Subtree(t, path) == Subtree(r, q);
          FirstMatchInRight(ll, lr, p, LeafIndex(r, q));
        case None =>
  }

  /** The immutable and the mutable search agree: both find something or
      both find nothing, and `find` returns the very node at the position
      `find_mut` selects. */
  lemma {:induction false} FindMutAgreesWithFind<T>(t: Tree<T>, p: T -> bool)
    ensures Find(t, p).Some? <==> FindMut(t, p).Some?
    ensures Find(t, p).Some? ==> Find(t, p).value == Subtree(t, FindMut(t, p).value)
  {
    match t
    case Leaf(_) =>
    case Branch(l, r) =>
      FindMutAgreesWithFind(l, p);
      FindMutAgreesWithFind(r, p);
      match FindMut(l, p)
      case Some(q) =>
        assert ([Left] + q)[1..] == q;
      case None =>
        match FindMut(r, p)
        case Some(q) =>
          assert ([Right] + q)[1..] == q;
        case None =>
  }

  /** What `find` returns, stated on the leaf sequence alone: nothing when
      no value matches, and otherwise the leaf holding the first matching
      value. */
  lemma FindFirst<T>(t: Tree<T>, p: T -> bool)
    ensures Find(t, p).None? <==> NoMatch(Leaves(t), p)
    ensures Find(t, p).Some? ==>
              exists i :: IsFirstMatch(Leaves(t), p, i) && Find(t, p).value == Leaf(Leaves(t)[i])
  {
    FindNoneIff(t, p);
    FindMutAgreesWithFind(t, p);
    FindMutFirst(t, p);
    if Find(t, p).Some? {
      var path := FindMut(t, p).value;
      var i := LeafIndex(t, path);
      assert IsFirstMatch(Leaves(t), p, i) && Find(t, p).value == Leaf(Leaves(t)[i]);
    }
  }

  // Facts about matches in a concatenation of two leaf sequences.

  lemma ConcatNoMatch<T>(a: seq<T>, b: seq<T>, p: T -> bool)
    ensures NoMatch(a + b, p) <==> NoMatch(a, p) && NoMatch(b, p)
  {
    if NoMatch(a, p) && NoMatch(b, p) {
      forall j | 0 <= j < |a + b| ensures !p((a + b)[j]) {
        if j >= |a| { assert (a + b)[j] == b[j - |a|]; }
      }
    }
    if NoMatch(a + b, p) {
      forall j | 0 <= j < |a| ensures !p(a[j]) {
        assert (a + b)[j] == a[j];
      }
      forall j | 0 <= j < |b| ensures !p(b[j]) {
        assert (a + b)[|a| + j] == b[j];
      }
    }
  }

  lemma FirstMatchInLeft<T>(a: seq<T>, b: seq<T>, p: T -> bool, i: int)
    requires IsFirstMatch(a, p, i)
    ensures IsFirstMatch(a + b, p, i)
  {
  }

  lemma FirstMatchInRight<T>(a: seq<T>, b: seq<T>, p: T -> bool, i: int)
    requires NoMatch(a, p) && IsFirstMatch(b, p, i)
    ensures IsFirstMatch(a + b, p, |a| + i)
  {
    forall j | 0 <= j < |a| + i ensures !p((a + b)[j]) {
      if j >= |a| { assert (a + b)[j] == b[j - |a|]; }
    }
  }
}
