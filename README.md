# zpy union-find, trees and their collaborators, in Dafny

This project models the disjoint-set forest of the zpy library
(`zpy/classes/collections/graph/union_find.py`), the `Tree` interface and its
two traversals (`zpy/classes/bases/tree.py`), the array-backed complete binary
tree (`zpy/classes/collections/graph/complete_binary_tree.py`), and the two
collaborators they are built on: `Array` (`zpy/classes/collections/array.py`)
and `Maybe` (`zpy/classes/logical/maybe.py`).

Modules, one per source file, plus two support modules:

- `Results` (results.dfy) holds the exceptions the modelled code raises, as values.
- `Maybes` (maybes.dfy) covers `Just`/`Nothing`: `map`, `apply`, `pure`, `unwrap`, `unwrap_or`, iteration and truthiness. It proves the two functor laws and the four applicative laws (identity, homomorphism, interchange and composition).
- `Arrays` (arrays.dfy) covers `Array`: `pure`, `of`, `map`, `reduce`, `flat_map`, `product` and `apply`, each against a reference definition. `get` is modelled with Python's negative indices. `swap` is a method on a Dafny `array` that exchanges two slots in place.
- `Trees` (trees.dfy) holds the `TraverseState` record and the `BoxPart` glyph table.
  - The `Tree` interface is a record of functions (`TreeView`).
  - `dfs` is a recursive function.
  - `bfs` is a method whose two queues are proved equal to a breadth-first specification function.
  - A traversal's callback is a pure function. What the callback observes is returned as the sequence of states it was handed.
- `TreeLaws` (treelaws.dfy) proves, for every well-formed tree:
  - `dfs` is pre-order;
  - `bfs` visits level by level;
  - both stop for good at the first false return;
  - never stopped, both visit the same states;
  - with unique parents, both visit every node exactly once.
- `CompleteBinaryTrees` (complete_binary_tree.dfy) covers the slot arithmetic of the complete binary tree, its `Tree` view, and the fact that `bfs` over it visits the slots in index order, each at its level.
- `UnionFinds` (union_find.dfy) models `UnionFind` as a class over two arrays, `uf` and `ranks`, plus the `roots` set.
  - `Valid()` is the invariant: the links lead every index to a root, each root's negative link counts its set, and the sizes add up to `n`.
  - `__init__`, `unite` and `flatten` keep it.
  - The facts about the links are proved on sequences and used by the methods.
  - `_UnionFindTree` is a class that records the children of every index when it is built. Each set's tree is proved to be visited, member by member, exactly once by either traversal.

## Model

| member | source | states |
|---|---|---|
| Maybes.Iter | zpy/classes/logical/maybe.py:49-50 | iterating `Just(m)` yields `m` once; iterating `Nothing` yields nothing |
| Maybes.Truthy | zpy/classes/logical/maybe.py:102-103 | only `Nothing` is falsy; truthy means iteration yields exactly one value |
| Maybes.Pure | zpy/classes/logical/maybe.py:28-34 | `pure`/`of` give a truthy `Maybe` that yields exactly the argument |
| Maybes.NothingPure | zpy/classes/logical/maybe.py:83-85 | `Nothing.pure` (and `Nothing.of`, which calls it) drops its argument: the result is falsy and yields nothing |
| Maybes.Map | zpy/classes/logical/maybe.py:52-54 | `map` keeps truthiness; the value it yields is `f` of the value yielded before |
| Maybes.Apply | zpy/classes/logical/maybe.py:56-58 | `apply` is truthy iff both the function and the argument are; then it holds the function applied to the value |
| Maybes.Unwrap | zpy/classes/logical/maybe.py:96-97 | corrected `unwrap`: `ForceUnwrapError` exactly for `Nothing`, otherwise the single value iteration yields |
| Maybes.UnwrapOr | zpy/classes/logical/maybe.py:99-100 | corrected `unwrap_or`: the default for `Nothing`, otherwise the wrapped value |
| Maybes.UnwrapAsWritten | zpy/classes/logical/maybe.py:60-61 | `unwrap` as written: raises exactly for `Nothing`, and hands back the `Just` object itself |
| Maybes.UnwrapOrAsWritten | zpy/classes/logical/maybe.py:63-64 | `unwrap_or` as written: the default for `Nothing`, the `Just` object itself otherwise |
| Maybes.JustUnwrapReturnsWrapper | zpy/classes/logical/maybe.py:60-64 | for every `Just(v)`, neither as-written call gives `v`, while the corrected ones do |
| Maybes.UnwrapOrMap | zpy/classes/logical/maybe.py:52-54 | defaulting commutes with `map`: `map(f).unwrap_or(f(e)) == f(unwrap_or(e))` |
| Maybes.MapIdentity | zpy/classes/logical/maybe.py:52-54 | functor identity law for `map` |
| Maybes.MapComposition | zpy/classes/logical/maybe.py:90-91 | functor composition law for `map`, over both `Just` and `Nothing` |
| Maybes.ApplyIdentity | zpy/classes/logical/maybe.py:56-58 | applicative identity: `pure(id).apply(x) == x` |
| Maybes.ApplyHomomorphism | zpy/classes/logical/maybe.py:41-58 | applicative homomorphism: `pure(f).apply(pure(v)) == pure(f(v))` |
| Maybes.ApplyInterchange | zpy/classes/logical/maybe.py:93-94 | applicative interchange, over both `Just` and `Nothing` |
| Maybes.ApplyComposition | zpy/classes/logical/maybe.py:56-58 | applicative composition: applying `pure(compose)` to `u`, then `v`, then `w` is `u` applied to `v` applied to `w`, for every combination of `Just` and `Nothing` |
| Arrays.Pure | zpy/classes/collections/array.py:16-18 | `pure(m)` has one element, `m` |
| Arrays.Of | zpy/classes/collections/array.py:20-22 | `of(*args)` holds the arguments, in order |
| Arrays.PureIsOfOne | zpy/classes/collections/array.py:16-22 | `pure(m) == of(m)` |
| Arrays.Map | zpy/classes/collections/array.py:24-26 | `map` keeps the length; element `k` is `f` of element `k` |
| Arrays.Reduce | zpy/classes/collections/array.py:36-37 | `reduce(i, f)` is the left fold `FoldLeft`, defined from the end: the last item is combined last, with the reduction of the items before it |
| Arrays.FoldLeftCons | zpy/classes/collections/array.py:36-37 | folding `[x] + s` from `i` is folding `s` from `f(i, x)`, so the front-first walk of `reduce` computes the left fold |
| Arrays.ChainStep | zpy/classes/collections/array.py:28-30 | one step of the `chain` fold keeps the accumulator as a prefix and puts the item's image right after it |
| Arrays.ConcatAppend | zpy/classes/collections/array.py:28-30 | the reference concatenation distributes over `+` |
| Arrays.ReduceChain | zpy/classes/collections/array.py:28-30 | the `reduce`/`chain` loop of `flat_map` appends the concatenated images to its accumulator |
| Arrays.FlatMap | zpy/classes/collections/array.py:28-30 | `flat_map(f)` is the concatenation of the `f`-images, in order |
| Arrays.FlatMapAppend | zpy/classes/collections/array.py:28-30 | `flat_map` distributes over concatenation |
| Arrays.MapAppend | zpy/classes/collections/array.py:24-26 | `map` distributes over concatenation |
| Arrays.Product | zpy/classes/collections/array.py:32-34 | `product` has `len(a) * len(b)` pairs |
| Arrays.ProductIndex | zpy/classes/collections/array.py:32-34 | pair `(a[i], b[j])` sits at position `i * len(b) + j` (row-major, as `itertools.product`) |
| Arrays.Apply | zpy/classes/collections/array.py:39-40 | `apply` is the product of functions and arguments with each function called on its argument |
| Arrays.ApplyIndex | zpy/classes/collections/array.py:39-40 | `apply` has `len(fs) * len(ft)` results; result `i * len(ft) + j` is `fs[i](ft[j])` |
| Arrays.ApplyIsMappedProduct | zpy/classes/collections/array.py:39-40 | the `reduce`/`chain` loop written in `apply` equals the mapped product |
| Arrays.ConcatMapProduct | zpy/classes/collections/array.py:32-40 | concatenating each function mapped over the arguments is the mapped product |
| Arrays.At | zpy/classes/collections/array.py:50-51 | `self[idx]` indexes from the front for `idx >= 0` and from the end for negative `idx` |
| Arrays.Get | zpy/classes/collections/array.py:45-48 | `get` is `Nothing` exactly from `len` upward, otherwise `Just` of the (possibly negative-indexed) item |
| Arrays.Slot | zpy/classes/collections/array.py:50-51 | a Python index in range names a slot below the length |
| Arrays.Swapped | zpy/classes/collections/array.py:53-54 | exchanging two slots swaps their items, keeps every other one, and is a permutation |
| Arrays.SwappedTwice | zpy/classes/collections/array.py:53-54 | swapping the same two slots twice restores the contents |
| Arrays.Swap | zpy/classes/collections/array.py:53-54 | `swap(x, y)` changes the array in place to the swapped contents of the slots `x` and `y` name |
| Trees.BoxTableRoundTrip | zpy/classes/bases/tree.py:29-51 | all 16 flag combinations have a glyph, and reading the glyph back gives the flags |
| Trees.BoxGlyph | zpy/classes/bases/tree.py:53-54 | `str(part)` is a glyph that reads back as `part`; only the empty mask is a blank |
| Trees.BoxGlyphInjective | zpy/classes/bases/tree.py:29-54 | different flag sets are drawn with different glyphs |
| Trees.ChildIsNode | zpy/classes/bases/tree.py:102-106 | a child `get` accepts, of a visitable node, is itself visitable and lower in the measure |
| Trees.Indices | zpy/classes/bases/tree.py:16-20 | the indices of a visit log, position by position |
| Trees.Dfs | zpy/classes/bases/tree.py:112-119 | `traverse(idx, depth)` first hands the action the state of `idx` |
| Trees.DfsEach | zpy/classes/bases/tree.py:116-119 | the children loop of `traverse` visits at the children's depth, and when the first child is accepted by `get` it visits that child first |
| Trees.AlwaysContinues | zpy/operators.py:67-69 | the default action `const(True)` lets every visit continue |
| Trees.DfsTree | zpy/classes/bases/tree.py:108-121 | `dfs` visits nothing exactly when `root()` is falsy; otherwise it starts at `root_idx()` at depth 0 |
| Trees.Enqueued | zpy/classes/bases/tree.py:102-106 | the inner loop of `bfs` queues only children `get` accepts, one level deeper |
| Trees.EnqueuedNodes | zpy/classes/bases/tree.py:102-106 | queued children are visitable |
| Trees.EnqueuedSnoc | zpy/classes/bases/tree.py:102-106 | one more child is appended to the queue exactly when `get` accepts it |
| Trees.ForestAppend | zpy/classes/bases/tree.py:108-121 | the complete depth-first visits from two queues concatenate |
| Trees.DfsEachIsForest | zpy/classes/bases/tree.py:116-119 | never stopped, the children loop of `traverse` is the depth-first forest of the queued children |
| Trees.NextQueue | zpy/classes/bases/tree.py:96-106 | one step of `bfs` leaves a queue of visitable entries |
| Trees.NextQueueAt | zpy/classes/bases/tree.py:96-106 | one step of `bfs` drops the front entry and appends its accepted children |
| Trees.ForestFront | zpy/classes/bases/tree.py:112-119 | the depth-first visits from a queue start with the front entry, then its subtree, then the rest |
| Trees.DfsFront | zpy/classes/bases/tree.py:112-119 | never stopped, `traverse(idx, depth)` visits `idx` and then the complete visits of its accepted children, one level down |
| Trees.BfsStep | zpy/classes/bases/tree.py:96-106 | each `bfs` step removes exactly one state from the remaining work |
| Trees.ForestRotate | zpy/classes/bases/tree.py:96-106 | a `bfs` step moves the front entry's subtrees from the front of the remaining work to its back |
| Trees.ForestShrinks | zpy/classes/bases/tree.py:96-106 | the remaining work of `bfs` shrinks with every step, so the `while queue` loop ends |
| Trees.BfsFrom | zpy/classes/bases/tree.py:96-106 | from a non-empty queue, `bfs` first visits the front entry at its depth |
| Trees.BfsUnfold | zpy/classes/bases/tree.py:96-106 | a `bfs` step visits the front entry, then stops if the action is false, otherwise goes on from the next queue |
| Trees.BfsTree | zpy/classes/bases/tree.py:90-95 | `bfs` visits nothing exactly when `root()` is falsy; otherwise its first visit is the root at depth 0 |
| Trees.Zip | zpy/classes/bases/tree.py:94-95 | the index queue and the depth queue side by side |
| Trees.ZipSnoc | zpy/classes/bases/tree.py:105-106 | appending to both queues appends one entry |
| Trees.EnqueueChildren | zpy/classes/bases/tree.py:102-106 | the children loop appends to both queues exactly the accepted children, one level deeper |
| Trees.Bfs | zpy/classes/bases/tree.py:90-106 | the two-queue loop of `bfs` produces exactly the breadth-first specification's visits |
| TreeLaws.VisitsAppend | zpy/classes/bases/tree.py:108-121 | visits of nodes at or below a depth stay so when concatenated |
| TreeLaws.DfsVisitsNodes | zpy/classes/bases/tree.py:112-119 | `traverse` visits only indices `get` accepts, with their items, never above its starting depth |
| TreeLaws.DfsEachVisitsNodes | zpy/classes/bases/tree.py:116-119 | likewise for the children loop |
| TreeLaws.ParentFirstCons | zpy/classes/bases/tree.py:112-119 | a visit followed by pre-order visits below its children is in pre-order |
| TreeLaws.ParentFirstConcat | zpy/classes/bases/tree.py:116-119 | pre-order visits from the first child, then below the rest, are pre-order below all children |
| TreeLaws.DfsParentFirst | zpy/classes/bases/tree.py:112-119 | `traverse` is pre-order: each visit but the first follows its parent's visit, one level down |
| TreeLaws.DfsEachParentFirst | zpy/classes/bases/tree.py:116-119 | the children loop is pre-order below the children |
| TreeLaws.DfsPrunesOnlySubtree | zpy/classes/bases/tree.py:113-119 | a false return prunes only that node's subtree; after a true return every accepted child is visited |
| TreeLaws.DfsEachVisitsChildren | zpy/classes/bases/tree.py:116-119 | every child `get` accepts is visited by the children loop, whatever the action says about its siblings |
| TreeLaws.BfsVisitsNodes | zpy/classes/bases/tree.py:96-106 | `bfs` visits only indices `get` accepts, with the items stored there |
| TreeLaws.NextQueueLevels | zpy/classes/bases/tree.py:102-106 | the `bfs` queue holds at most two consecutive levels, and a step never queues above the front's depth |
| TreeLaws.LevelsCons | zpy/classes/bases/tree.py:96-106 | a visit at depth `d` before depth-ordered visits at or below `d` keeps depth order |
| TreeLaws.BfsLevels | zpy/classes/bases/tree.py:96-106 | `bfs` depths never decrease and start at the front entry's depth |
| TreeLaws.StoppedAfterTrue | zpy/classes/bases/tree.py:100-101 | a true return keeps a run on the path of the unstopped run |
| TreeLaws.BfsStopsAtFirstFalse | zpy/classes/bases/tree.py:100-101 | `bfs` visits a prefix of the unstopped visits and ends exactly after the first false return |
| TreeLaws.CoverStep | zpy/classes/bases/tree.py:96-106 | rotating the remaining work keeps the multiset of states and of indices |
| TreeLaws.BfsCoversForest | zpy/classes/bases/tree.py:96-106 | never stopped, `bfs` from a queue visits exactly the multiset of depth-first states |
| TreeLaws.BfsTreeOrder | zpy/classes/bases/tree.py:90-106 | `bfs` visits only nodes, level by level, and stops at the first false return |
| TreeLaws.DfsTreeOrder | zpy/classes/bases/tree.py:108-121 | `dfs` visits only nodes and is pre-order |
| TreeLaws.ForestOfOne | zpy/classes/bases/tree.py:112-121 | the depth-first visits from a one-entry queue are `traverse` of that entry |
| TreeLaws.BfsMatchesDfs | zpy/classes/bases/tree.py:90-121 | never stopped, `bfs` and `dfs` visit the same states and the same indices, as often |
| TreeLaws.DfsIndicesBelow | zpy/classes/bases/tree.py:112-119 | never stopped, `traverse(a)` reaches exactly the nodes below `a` |
| TreeLaws.DfsEachIndicesBelow | zpy/classes/bases/tree.py:116-119 | likewise for the children loop |
| TreeLaws.BelowMeasure | zpy/classes/bases/tree.py:116-119 | what is below `a` is a node, lower in the measure unless it is `a` |
| TreeLaws.BelowEachMeasure | zpy/classes/bases/tree.py:116-119 | what is below some child of `p` is lower in the measure than `p` |
| TreeLaws.BelowEachWitness | zpy/classes/bases/tree.py:116-119 | what is below some of the children is below one of them |
| TreeLaws.BelowEachContains | zpy/classes/bases/tree.py:116-119 | what is below one accepted child is below the children |
| TreeLaws.BelowTransitive | zpy/classes/bases/tree.py:116-119 | being below is transitive |
| TreeLaws.ParentBelow | zpy/classes/bases/tree.py:116-119 | anything strictly below `a` has a parent below `a` |
| TreeLaws.OnOnePath | zpy/classes/bases/tree.py:116-119 | with unique parents, two nodes with a common descendant are on one path |
| TreeLaws.SiblingsApart | zpy/classes/bases/tree.py:116-119 | with unique parents, distinct siblings have disjoint subtrees |
| TreeLaws.NotBelowSibling | zpy/classes/bases/tree.py:116-119 | a child is not below one of its siblings |
| TreeLaws.BelowOnce | zpy/classes/bases/tree.py:116-119 | with unique parents, nothing is below a node twice |
| TreeLaws.BelowEachOnce | zpy/classes/bases/tree.py:116-119 | with unique parents and distinct children, nothing is below the children twice |
| TreeLaws.EachNodeOnce | zpy/classes/bases/tree.py:90-121 | with unique parents, never stopped, `dfs` visits exactly the nodes below the root, and `dfs` and `bfs` each visit every index once |
| CompleteBinaryTrees.ParentIdx | zpy/classes/collections/graph/complete_binary_tree.py:15-18 | raises `IndexError("no parent for root")` exactly at the root; for a positive slot, a smaller non-negative slot |
| CompleteBinaryTrees.ChildrenIdx | zpy/classes/collections/graph/complete_binary_tree.py:20-24 | the children of `i` are `2i+1`, then `2i+2` |
| CompleteBinaryTrees.ParentOfChild | zpy/classes/collections/graph/complete_binary_tree.py:15-24 | the parent of each child of `i` is `i` (except for slot -1) |
| CompleteBinaryTrees.ChildOfParent | zpy/classes/collections/graph/complete_binary_tree.py:15-24 | every slot but the root is a child of its parent |
| CompleteBinaryTrees.Lookup | zpy/classes/collections/graph/complete_binary_tree.py:26-35 | the tree's `get` is `Array.get`; for a non-negative slot it is `Just` exactly below the length |
| CompleteBinaryTrees.Root | zpy/classes/collections/graph/complete_binary_tree.py:26-27 | `root()` is `Nothing` exactly for the empty array, otherwise the first item |
| CompleteBinaryTrees.Parent | zpy/classes/collections/graph/complete_binary_tree.py:29-32 | `parent` is `Nothing` at the root, otherwise the item at the parent slot |
| CompleteBinaryTrees.Children | zpy/classes/collections/graph/complete_binary_tree.py:34-35 | `children` holds the items of the child slots below the length, left before right |
| CompleteBinaryTrees.Sibling | zpy/classes/collections/graph/complete_binary_tree.py:37-44 | `sibling`: `Nothing` at the root, the left neighbour of an even slot, `Nothing` for an odd last slot, otherwise the right neighbour |
| CompleteBinaryTrees.SiblingSharesParent | zpy/classes/collections/graph/complete_binary_tree.py:37-44 | a sibling in range is the other child of the same parent |
| CompleteBinaryTrees.View | zpy/classes/collections/graph/complete_binary_tree.py:11-35 | the array as a `Tree`, with the root, root index and children of the methods above |
| CompleteBinaryTrees.ViewNodes | zpy/classes/collections/graph/complete_binary_tree.py:26-35 | the visitable slots are those of the array, and `self[i]` there is the item `get` finds |
| CompleteBinaryTrees.ViewWellFormed | zpy/classes/collections/graph/complete_binary_tree.py:20-35 | the array is a tree the traversals accept |
| CompleteBinaryTrees.ViewUniqueParents | zpy/classes/collections/graph/complete_binary_tree.py:20-24 | no slot has two parents or is listed twice as a child |
| CompleteBinaryTrees.LevelBounds | zpy/classes/collections/graph/complete_binary_tree.py:15-18 | the level of slot `i` is the floor of `log2(i + 1)` |
| CompleteBinaryTrees.LevelOfChild | zpy/classes/collections/graph/complete_binary_tree.py:20-24 | both children are one level below their parent |
| CompleteBinaryTrees.ViewIsSlotTree | zpy/classes/collections/graph/complete_binary_tree.py:20-35 | the array's tree visits exactly the slots `0` to `len - 1` |
| CompleteBinaryTrees.Window | zpy/classes/bases/tree.py:94-106 | while slot `k` is in front, the `bfs` queue starts with `k` at its level |
| CompleteBinaryTrees.EnqueuedSlots | zpy/classes/collections/graph/complete_binary_tree.py:20-24 | `bfs` queues for slot `k` the child slots that exist, one level below |
| CompleteBinaryTrees.NextWindow | zpy/classes/bases/tree.py:96-106 | on a complete binary tree, a `bfs` step moves the queue one slot along |
| CompleteBinaryTrees.WindowStep | zpy/classes/bases/tree.py:96-106 | dropping slot `k` and appending its children gives the queue of slot `k + 1` |
| CompleteBinaryTrees.SlotOrderCons | zpy/classes/bases/tree.py:96-106 | slot order from `k` is slot `k`, then slot order from `k + 1` |
| CompleteBinaryTrees.BfsFromWindow | zpy/classes/bases/tree.py:96-106 | from the queue of slot `k`, `bfs` visits the slots from `k` on, in order |
| CompleteBinaryTrees.InSlotOrder | zpy/classes/collections/graph/complete_binary_tree.py:11-13 | the slots in index order, each at its level |
| CompleteBinaryTrees.BfsIsSlotOrder | zpy/classes/bases/tree.py:90-106 | never stopped, `bfs` over a complete binary tree visits the array in index order, each slot at its level |
| UnionFinds.Find | zpy/classes/collections/graph/union_find.py:63-66 | `root(x)` ends at an index whose link is negative and outranks `x` unless it is `x`; it is `x` exactly when `x` is a root |
| UnionFinds.FindIgnoresRanks | zpy/classes/collections/graph/union_find.py:63-66 | `root` depends on the links only, not on the ranks that bound it |
| UnionFinds.RootSet | zpy/classes/collections/graph/union_find.py:55-61 | the indices whose link is negative |
| UnionFinds.Singletons | zpy/classes/collections/graph/union_find.py:55-57 | the links `__init__(n)` makes: `n` of them (none for `n <= 0`), each `-1`, a root counting one member |
| UnionFinds.UnitRanks | zpy/classes/collections/graph/union_find.py:55-58 | the ranks `__init__(n)` makes: `n` of them, each 1 |
| UnionFinds.InitPartition | zpy/classes/collections/graph/union_find.py:55-61 | `__init__(n)` makes a valid partition of `n` one-member sets whose roots are `0` to `n - 1` |
| UnionFinds.Range | zpy/classes/collections/graph/union_find.py:61 | `set(range(n))` holds exactly `0` to `n - 1` |
| UnionFinds.SurvivorRanks | zpy/classes/collections/graph/union_find.py:89-103 | the survivor is the higher-ranked root (`x`'s on a tie); only it changes rank, by one exactly on a tie |
| UnionFinds.Survivor | zpy/classes/collections/graph/union_find.py:89-92 | the root that stays a root is one of the two, of the higher rank, and `x`'s on a tie |
| UnionFinds.Absorbed | zpy/classes/collections/graph/union_find.py:89-92 | the root hung below the other is the survivor's partner, of the lower rank |
| UnionFinds.LinkLinks | zpy/classes/collections/graph/union_find.py:93-94 | after the link, the survivor's negative link counts both sets, the absorbed root links to the survivor, and no other link changes |
| UnionFinds.LinkRanks | zpy/classes/collections/graph/union_find.py:102-103 | after the link, only the survivor's rank may change, by at most one, and it then outranks the absorbed root |
| UnionFinds.LinkFind | zpy/classes/collections/graph/union_find.py:93-94 | after hanging root `l` below root `w`, `l`'s members have root `w` and every other root is unchanged |
| UnionFinds.LinkLinked | zpy/classes/collections/graph/union_find.py:93-103 | hanging the lower-ranked root below the other keeps the links acyclic |
| UnionFinds.LinkMembers | zpy/classes/collections/graph/union_find.py:93-94 | after the link, `w`'s set is the union of both sets, `l` has none, and other sets are unchanged |
| UnionFinds.LinkSizes | zpy/classes/collections/graph/union_find.py:93-94 | after the link, every root's negative link still counts its set |
| UnionFinds.LinkTotal | zpy/classes/collections/graph/union_find.py:93-94 | after the link, the sizes still add up to `n` |
| UnionFinds.LinkPartition | zpy/classes/collections/graph/union_find.py:93-95 | the link keeps the partition; `w`'s size is the sum of the two; `l` leaves the roots |
| UnionFinds.UnitedLinks | zpy/classes/collections/graph/union_find.py:85-94 | the links after `unite(x, y)`: only links of roots change |
| UnionFinds.UnitedRanks | zpy/classes/collections/graph/union_find.py:85-103 | the ranks after `unite(x, y)`: only ranks of roots change |
| UnionFinds.UniteKeepsPartition | zpy/classes/collections/graph/union_find.py:85-103 | `unite(x, y)` keeps the partition and gives `x` and `y` one root. That root's size is the sum of the two sizes, or unchanged if they were already one set, in which case nothing changes. Otherwise the absorbed root leaves the roots |
| UnionFinds.RedirectFind | zpy/classes/collections/graph/union_find.py:69-72 | pointing one non-root straight at its root keeps every index's root |
| UnionFinds.SamePartition | zpy/classes/collections/graph/union_find.py:68-74 | links with the same roots, sizes and root for every index make the same partition |
| UnionFinds.Flattened | zpy/classes/collections/graph/union_find.py:68-72 | the links after `flatten`, one per index; `FlattenedFind` states what each one is |
| UnionFinds.FlattenedLinked | zpy/classes/collections/graph/union_find.py:68-72 | the links `flatten` writes keep the ranks consistent |
| UnionFinds.FlattenedFind | zpy/classes/collections/graph/union_find.py:68-72 | after `flatten`, every index has its old root, roots keep their links, and every other index links straight to its root |
| UnionFinds.FlattenedPartition | zpy/classes/collections/graph/union_find.py:68-72 | `flatten` keeps the partition, the roots and every set |
| UnionFinds.FlattenIdempotent | zpy/classes/collections/graph/union_find.py:68-72 | a second `flatten` changes nothing |
| UnionFinds.ChildrenIn | zpy/classes/collections/graph/union_find.py:23-26 | `children(idx)` reads the recorded children, and an empty array for an index with none recorded |
| UnionFinds.ChildrenOf | zpy/classes/collections/graph/union_find.py:48-53 | the recorded children of `k` are exactly the indices linking to `k`, in ascending order |
| UnionFinds.ChildrenOfExtend | zpy/classes/collections/graph/union_find.py:51-53 | walking one more link appends its index to that link's children |
| UnionFinds.GroupByLink | zpy/classes/collections/graph/union_find.py:50-53 | the `children_dict` loop records, for every `k`, exactly the children of `k` |
| UnionFinds.TreeOf | zpy/classes/collections/graph/union_find.py:13-46 | one set as a tree: root `r`; `get` is `Just(i)` exactly for the forest's indices |
| UnionFinds.TreeOfIsTree | zpy/classes/collections/graph/union_find.py:13-53 | each set's tree is well formed, and no index has two parents |
| UnionFinds.BelowHasRoot | zpy/classes/collections/graph/union_find.py:23-26 | whatever the tree of root `r` reaches has root `r` |
| UnionFinds.MemberIsBelow | zpy/classes/collections/graph/union_find.py:23-26 | every member of `r`'s set is reached by the tree of `r` |
| UnionFinds.TreeVisitsSet | zpy/classes/collections/graph/union_find.py:105-110 | never stopped, `dfs` of a set's tree visits exactly its members, each once, making `size(r)` visits; `bfs` visits the same indices |
| UnionFinds.UnionFind.constructor | zpy/classes/collections/graph/union_find.py:55-61 | `__init__(n)` builds a valid forest of `n` singletons, all ranks 1, roots `0` to `n - 1` |
| UnionFinds.UnionFind.Root | zpy/classes/collections/graph/union_find.py:63-66 | `root(x)` is in `roots`; it is `x` exactly when `x` is a root; `x` is a member of its set |
| UnionFinds.UnionFind.Rank | zpy/classes/collections/graph/union_find.py:76-77 | `rank(x)` is the rank of the root of `x`'s set, which is at least 1 and at least `x`'s own rank |
| UnionFinds.UnionFind.Size | zpy/classes/collections/graph/union_find.py:79-80 | `size(x)` is the number of members of `x`'s set, at least 1 |
| UnionFinds.UnionFind.Same | zpy/classes/collections/graph/union_find.py:82-83 | `same(x, y)` holds exactly when `x` is in `y`'s set |
| UnionFinds.UnionFind.Unite | zpy/classes/collections/graph/union_find.py:85-103 | `unite` keeps the invariant, leaves the links and ranks of the union-by-rank step, and afterwards `same(x, y)` |
| UnionFinds.UnionFind.Link | zpy/classes/collections/graph/union_find.py:93-103 | the writes of `unite`: the survivor counts both sets, the absorbed root links to it, rank up by one on a tie |
| UnionFinds.UnionFind.Flatten | zpy/classes/collections/graph/union_find.py:68-74 | `flatten` keeps the invariant and leaves the flattened links |
| UnionFinds.FlattenLinks | zpy/classes/collections/graph/union_find.py:69-72 | the loop of `flatten` rewrites each non-root link to the root, in place |
| UnionFinds.Redirect | zpy/classes/collections/graph/union_find.py:70-72 | one loop step of `flatten` keeps the links consistent and every root |
| UnionFinds.UnionFind.Trees | zpy/classes/collections/graph/union_find.py:105-110 | `trees()` gives one tree per root, in ascending order of roots, each describing the current forest |
| UnionFinds.Ascending | zpy/classes/collections/graph/union_find.py:105-110 | the roots in ascending order: exactly the members of the set, strictly increasing |
| UnionFinds.UnionFindTree.constructor | zpy/classes/collections/graph/union_find.py:48-53 | building a tree for a root records the children of the current links |
| UnionFinds.UnionFindTree.Root | zpy/classes/collections/graph/union_find.py:14-15 | `root()` is `Just` of a root of the forest |
| UnionFinds.UnionFindTree.Parent | zpy/classes/collections/graph/union_find.py:17-21 | `parent(idx)` is `Nothing` exactly for a root; otherwise `Just` of `idx`'s link, an index in the same set of higher rank |
| UnionFinds.UnionFindTree.ParentIdx | zpy/classes/collections/graph/union_find.py:31-35 | `parent_idx` raises `IndexError("No parent")` exactly for a root; otherwise it is the parent, of which `idx` is a child |
| UnionFinds.UnionFindTree.Children | zpy/classes/collections/graph/union_find.py:23-26 | `children(idx)` is the indices linking to `idx`, in ascending order, an empty array for none |
| UnionFinds.UnionFindTree.Get | zpy/classes/collections/graph/union_find.py:40-43 | `get(idx)` is `Just(idx)` exactly for `0 <= idx < n` |
| UnionFinds.UnionFindTree.Item | zpy/classes/collections/graph/union_find.py:45-46 | `self[idx]` is the item `get` carries |
| UnionFinds.UnionFindTree.View | zpy/classes/collections/graph/union_find.py:13-46 | the tree as the traversals see it agrees with `root`, `children_idx` and `get` |

## Left out

- The cache of `UnionFind` (`_cached`, `_trees`) is left out, and `trees()` builds a fresh tree for every root. In Python a cached tree can go stale. A `unite` evicts only its two roots (union_find.py:96-101), so a later `trees()` hands back the old tree of any other root. Its `children_dict` still holds the links from when it was built. Example: `n = 3`, `trees()`, `unite(0, 1)`, `trees()`. The tree of root 2 then answers `children(0) == []` and `children_idx(-1) == [0, 1, 2]`. The traversals from that tree's own root are unaffected, because its own set did not change. Lookups of indices outside its set are affected.
- UnionFinds.UnionFind.Trees: its `Current()` promises that every tree describes the forest as it is. Python gives that only for the trees it rebuilds. For a cached tree it holds inside the tree's own set, not for indices outside it.
- UnionFinds.UnionFind.Trees: Python iterates `roots` in an order the language does not fix. The model takes ascending order, which is what CPython gives for a set of small non-negative integers.
- `__pretty__` (tree.py:123-188) is left out: it is printing and column layout. The glyph table it draws from is modelled (`BoxTable`, `BoxGlyph`).
- The `__repr__` methods are left out: they are string formatting for display only.
- The callbacks of `bfs` and `dfs` are pure functions. Their side effects are modelled as the sequence of states they are handed.
- Indices out of range are left out. `UnionFind`'s `root`, `rank`, `size`, `same` and `unite` and the tree's `parent` and `parent_idx` require indices in `0..n-1`. In Python, a negative index wraps around and one at `n` or above raises `IndexError`.
- Arrays.Get and Arrays.At require `idx >= -len`: below that Python's list indexing raises `IndexError`, which is not modelled.
- CompleteBinaryTrees.Lookup answers `Nothing` below `-len` where Python raises `IndexError`. No traversal asks for such an index.
- A negative `n` builds an empty forest: `repeat(-1, times=n)` yields nothing and no error is raised (union_find.py:55-61).
- The children of an index are in ascending index order, the order in which the `enumerate` loop records them (union_find.py:50-53).
- `unite`'s size and root-set facts are proved by `UniteKeepsPartition`, not stated in the method's `ensures`. The method's `ensures` ties the new links and ranks to the functions that lemma is about.
- UnionFinds.UnionFind.Link splits out the writes of `unite`'s body. It has no counterpart of its own in the source.
- `function.py`, `operators.py`, `heap.py` and `zpy.py` are not part of this model. Of `operators.py`, only `const(True)`, the default action, is modelled.
- array.py:6 imports `builtin_map`, `builtin_product` and `builtin_reduce` from `zpy.operators`. The `operators.py` at hand defines no such names, only `_map`, `_reduce` and `_product` (operators.py:15-19). As written, that import fails. The model takes the three to be Python's `map`, `functools.reduce` and `itertools.product`, which those underscore names alias.
- `Maybe` is covariant and untyped in Python. The as-written `unwrap` results are modelled with a separate `Unwrapped` type.

## Findings

| source | as written | input that shows it | evidently intended | confidence | as-written member | corrected member |
|---|---|---|---|---|---|---|
| zpy/classes/logical/maybe.py:60-64 | `Just.unwrap` returns `self`; `Just.unwrap_or` returns `self.unwrap()`, so both give back the `Just` object | `Just(3).unwrap_or(0)` gives `Just(3)`, not `3` | both return the wrapped value `m`, as `Nothing.unwrap_or` returns a plain value | high (not executed) | Maybes.UnwrapAsWritten | Maybes.Unwrap |
