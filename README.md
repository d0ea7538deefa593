# rust-btree, sum-type tree: a Dafny model

This project models `src/lib.rs` of rust-btree. That file holds a binary tree
written as a sum type, `Leaf(T) | Branch(Box<Tree>, Box<Tree>)`. Values sit
only in leaves. The file provides:

- the constructors `leaf` and `branch`;
- `to_branch_with`, which splits a leaf in place into a branch of two leaves,
  ordered by `<=`, and fails without writing anything when called on a branch;
- the first-match searches `find` and `find_mut`, left to right;
- the in-order visitor `descend`;
- tests that run these operations together.

Every property is stated in terms of the in-order leaf sequence, `Leaves`.

Layout:

- `wrappers.dfy`: `Option` and `Result`.
- `trees.dfy` (module `Trees`): the datatype, `Leaves`, the constructors,
  and `to_branch_with` as a node rewrite (`ToBranchWith`). A mutable reference
  to a node is modelled as a path of left/right choices from the root. The
  module has the functions for following a path (`Subtree`), writing through
  it (`ReplaceAt`) and locating its leaves (`LeafIndex`), with lemmas relating
  them.
- `search.dfy` (module `Search`): `find` (`Find`, which returns the matched
  node) and `find_mut` (`FindMut`, which returns the matched node's path), and
  the lemmas that both return the first match in leaf order and that they
  agree.
- `visit.dfy` (module `Visit`): `descend` (`Descend`). The callback's
  closure state is passed explicitly: a callback maps the state before a visit
  and the visited value to the state after it. The lemmas show that `descend`
  is a left fold over `Leaves`, and give the counting callback and the
  collecting callback used in the tests.
- `mutation.dfy` (module `Mutation`): the class `MutTree`, which holds an
  owned tree (`let mut t`). Its method `ToBranchWith` is `to_branch_with`
  called through the reference at a path. The module also has the tests as
  a verified client method and lemmas.

The order is a parameter `le: (T, T) -> bool` that stands for `PartialOrd`'s
`<=`. It may be any relation. An incomparable pair (`le` false both ways)
therefore puts `other` on the left, as `src/lib.rs:35` does. The two values
come out sorted only when `le` is total (`Total(le)`).

## Model

| member | source | states |
|---|---|---|
| `Trees.Leaves` | src/lib.rs:2-5 | Every tree holds at least one value, because a branch always has two subtrees. |
| `Trees.MakeLeaf` | src/lib.rs:8-10 | `leaf(v)` is a leaf whose in-order sequence is exactly `[v]`. |
| `Trees.MakeBranch` | src/lib.rs:12-17 | `branch(l, r)` is a branch of two leaves whose in-order sequence is `[l, r]`, in the given positions, with no order imposed. |
| `Trees.ToBranchWith` | src/lib.rs:23-43 | The rewrite fails exactly on a branch. On a leaf `v` it gives a branch of two leaves holding `v` and `other`, a permutation with one more leaf. `v` goes first when `v <= other` and `other` goes first otherwise. When the order is total, the pair is sorted. |
| `Trees.LeafIndex` | src/lib.rs:117-123 | The node at a path has its leaves at consecutive positions inside the tree's in-order sequence. |
| `Trees.SubtreeLeaves` | src/lib.rs:117-123 | Those consecutive positions, starting at the node's leaf index, hold exactly that node's own leaves. |
| `Trees.ReplaceAtLeaves` | src/lib.rs:36-39 | Overwriting the node at a path changes the in-order sequence only in that node's slice, which becomes the new node's leaves. |
| `Trees.ReplaceAtSubtree` | src/lib.rs:36-39 | After the write, the path still leads to a node, and that node is the one written. |
| `Trees.ReplaceAtSame` | src/lib.rs:36-39 | Writing back the node already at a path leaves the tree unchanged. |
| `Trees.ToBranchWithAtLeaves` | src/lib.rs:23-43 | Splitting the leaf at a path replaces its one value, at its index, by the new branch's two values. Every other leaf keeps its place, and the leaf count grows by exactly one. |
| `Search.Find` | src/lib.rs:84-104 | Any node `find` returns is a leaf whose value satisfies the predicate; a branch is never returned. |
| `Search.FindMut` | src/lib.rs:53-73 | Any path `find_mut` returns leads to a node of the tree, and that node is a leaf whose value satisfies the predicate. |
| `Search.FindNoneIff` | src/lib.rs:84-104 | `find` returns `None` if and only if no in-order leaf value satisfies the predicate. |
| `Search.FindMutFirst` | src/lib.rs:53-73 | `find_mut` returns `None` if and only if nothing matches. Otherwise its path leads to the leaf holding the first matching value in leaf order. |
| `Search.FindMutAgreesWithFind` | src/lib.rs:53-104 | `find` and `find_mut` either both find a match or both find none. `find` returns exactly the node at the position `find_mut` selects. |
| `Search.FindFirst` | src/lib.rs:84-104 | `find` returns nothing when no value matches, and otherwise the leaf holding the first matching value in leaf order. |
| `Visit.DescendVisitsLeaves` | src/lib.rs:114-126 | `descend` invokes the callback once per leaf, in in-order sequence, and on nothing else: it is the left fold of the callback over `Leaves`. |
| `Visit.DescendCounts` | src/lib.rs:142-146 | A counting callback ends at the number of leaves. |
| `Visit.DescendRecords` | src/lib.rs:173-174 | A recording callback collects exactly the in-order leaf sequence. |
| `Visit.LeafVisitedOnce` | src/lib.rs:139-147 | On a fresh leaf, the callback is invoked exactly once, with the constructor's argument, so a counter reaches 1. |
| `Mutation.MutTree.constructor` | src/lib.rs:161 | The holder starts with the given tree. |
| `Mutation.MutTree.ToBranchWith` | src/lib.rs:23-43 | The call succeeds exactly when the referenced node is a leaf. On failure the whole tree is unchanged. On success the node is rewritten as `Trees.ToBranchWith` says, and the tree's leaf sequence changes only at that leaf's index, growing by one. |
| `Mutation.FirstStep` | src/lib.rs:163-166 | On `Leaf(42)`, searching for a value above 15 selects the root; splitting it with 15 gives `Branch(Leaf(15), Leaf(42))`. |
| `Mutation.SecondStep` | src/lib.rs:168-171 | On that tree, searching for a value at most 30 selects the left leaf; splitting it with 30 gives `Branch(Branch(Leaf(15), Leaf(30)), Leaf(42))`. |
| `Mutation.FinalTree` | src/lib.rs:173-176 | The final tree's in-order visit records `[15, 30, 42]`. Searching it for a value above 15 finds the leaf 30, not 42. |
| `Mutation.FindMutScenario` | src/lib.rs:160-177 | The whole `find_mut` test on a mutable tree: every `unwrap` succeeds, and the visit records `[15, 30, 42]`. |
| `Mutation.FindLeafScenario` | src/lib.rs:150-157 | On `Leaf(42)`, searching for 42 returns that leaf. |
| `Mutation.SplitBranchFails` | src/lib.rs:27-32 | Calling `to_branch_with` on a node that is already a branch fails, and the tree stays as it was. |

## Left out

- Lifetimes, `Box` and the borrow rules for `&mut` (src/lib.rs:47-76) are not modelled. A mutable reference into the tree is a path from the root, and writing through it is `ReplaceAt`. Aliasing does not arise in a value model, so the model does not state that only one root-to-node path is borrowed at a time.
- The `T::default()` placeholder that `std::mem::replace` leaves in the leaf (src/lib.rs:28) is not modelled. It is overwritten before the call returns and cannot be observed.
- The predicates of `find` and `find_mut` are modelled as pure functions. A `FnMut` predicate that changes its own state between calls is not modelled.
- The `descend` callback's state is passed explicitly, as a value threaded through the visit, instead of being kept in a mutable closure.
- The `PartialOrd` bound on `find` and `find_mut` goes unused in the source, so it is dropped. The `Default` bound exists only for the placeholder above.
- `Search.Find`: returns the matched leaf as a value, so which node of the tree it refers to is stated only through `FindMutAgreesWithFind`, by way of `find_mut`'s path.
- The test-only derives of `Debug` and `PartialEq` (src/lib.rs:1) are not modelled. Dafny's datatype equality plays the part of `PartialEq` in the tests.
- A node tree with optional children, ordered `push` and a stack-based iterator are not in src/lib.rs and are not part of this model.
