/** `descend`: the in-order visitor. The callback's own state, which the
    source keeps in the closure it mutates, is threaded through explicitly:
    a callback is a function from the state before a visit and the visited
    value to the state after it. */
module Visit {
  import opened Trees

  /** `descend`: a leaf invokes the callback once; a branch visits its
      left subtree, then its right subtree. */
  function Descend<T, A>(t: Tree<T>, f: (A, T) -> A, acc: A): A {
    match t
    case Leaf(v) => f(acc, v)
    case Branch(l, r) => Descend(r, f, Descend(l, f, acc))
  }

  /** Invoking `f` once on each element of `s`, first to last. */
  function Fold<T, A>(f: (A, T) -> A, acc: A, s: seq<T>): A
    decreases |s|
  {
    if s == [] then acc else Fold(f, f(acc, s[0]), s[1..])
  }

  lemma {:induction false} FoldAppend<T, A>(f: (A, T) -> A, acc: A, a: seq<T>, b: seq<T>)
    ensures Fold(f, acc, a + b) == Fold(f, Fold(f, acc, a), b)
    decreases |a|
  {
    if a == [] {
      assert a + b == b;
    } else {
      assert (a + b)[1..] == a[1..] + b;
      FoldAppend(f, f(acc, a[0]), a[1..], b);
    }
  }

  /** `descend` invokes the callback exactly once per leaf, in the order of
      the in-order leaf sequence, and on nothing else. */
  lemma {:induction false} DescendVisitsLeaves<T, A>(t: Tree<T>, f: (A, T) -> A, acc: A)
    ensures Descend(t, f, acc) == Fold(f, acc, Leaves(t))
  {
    match t
    case Leaf(v) =>
      assert Leaves(t)[1..] == [];
    case Branch(l, r) =>
      DescendVisitsLeaves(l, f, acc);
      DescendVisitsLeaves(r, f, Descend(l, f, acc));
      FoldAppend(f, acc, Leaves(l), Leaves(r));
  }

  /** A callback that counts its invocations (`n += 1`). */
  function Count<T>(n: int, x: T): int {
    n + 1
  }

  /** A callback that records each value it is given (`v.push(value)`). */
  function Record<T>(s: seq<T>, x: T): seq<T> {
    s + [x]
  }

  lemma {:induction false} FoldCount<T>(n: int, s: seq<T>)
    ensures Fold(Count, n, s) == n + |s|
    decreases |s|
  {
    if s != [] {
      FoldCount(n + 1, s[1..]);
    }
  }

  lemma {:induction false} FoldRecord<T>(acc: seq<T>, s: seq<T>)
    ensures Fold(Record, acc, s) == acc + s
    decreases |s|
  {
    if s != [] {
      FoldRecord(acc + [s[0]], s[1..]);
      assert acc + [s[0]] + s[1..] == acc + s;
    }
  }

  /** A counting callback sees one invocation per leaf. */
  lemma DescendCounts<T>(t: Tree<T>)
    ensures Descend(t, Count, 0) == |Leaves(t)|
  {
    DescendVisitsLeaves(t, Count, 0);
    FoldCount(0, Leaves(t));
  }

  /** A recording callback collects exactly the in-order leaf sequence. */
  lemma DescendRecords<T>(t: Tree<T>)
    ensures Descend(t, Record, []) == Leaves(t)
  {
    DescendVisitsLeaves(t, Record, []);
    FoldRecord([], Leaves(t));
  }

  /** On a fresh leaf, `descend` invokes the callback exactly once, with the
      constructor's argument; so a counter reaches 1. */
  lemma LeafVisitedOnce<T, A>(v: T, f: (A, T) -> A, acc: A)
    ensures Descend(MakeLeaf(v), f, acc) == f(acc, v)
    ensures Descend(MakeLeaf(v), Count, 0) == 1
  {
  }
}
