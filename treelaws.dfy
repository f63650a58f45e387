/** What the traversals of zpy/classes/bases/tree.py promise, proved once for
    every tree that satisfies `WellFormed`: which indices they visit, at what
    depth, in what order, and when they stop. */
module TreeLaws {
  import opened Maybes
  import opened Trees
  import Arrays

  lemma VisitsAppend<T>(t: TreeView<T>, a: seq<TraverseState<T>>, b: seq<TraverseState<T>>, d: nat)
    requires VisitsNodes(t, a, d) && VisitsNodes(t, b, d)
    ensures VisitsNodes(t, a + b, d)
  {
    forall k | 0 <= k < |a + b|
      ensures Node(t, (a + b)[k].index) && (a + b)[k].item == Item(t, (a + b)[k].index) && (a + b)[k].depth >= d
    {
      if k >= |a| {
        assert (a + b)[k] == b[k - |a|];
      }
    }
  }

  // ---------------------------------------------------------------------------
  // Depth-first traversal

  /** `dfs` visits only indices `get` accepts, never above the depth it starts at. */
  lemma {:induction false} DfsVisitsNodes<T>(t: TreeView<T>, action: TraverseState<T> -> bool, i: int, d: nat)
    requires WellFormed(t) && Node(t, i)
    ensures VisitsNodes(t, Dfs(t, action, i, d), d)
    decreases t.measure(i), 1, 0
  {
    var s := State(t, i, d);
    if action(s) {
      DfsEachVisitsNodes(t, action, i, t.childrenIdx(i), d + 1);
      VisitsAppend(t, [s], DfsEach(t, action, i, t.childrenIdx(i), d + 1), d);
    }
  }

  lemma {:induction false} DfsEachVisitsNodes<T>(t: TreeView<T>, action: TraverseState<T> -> bool, p: int, cs: seq<int>, d: nat)
    requires WellFormed(t) && Node(t, p)
    requires forall c :: c in cs ==> c in t.childrenIdx(p)
    ensures VisitsNodes(t, DfsEach(t, action, p, cs, d), d)
    decreases t.measure(p), 0, |cs|
  {
    if cs != [] {
      DfsEachVisitsNodes(t, action, p, cs[1..], d);
      if Truthy(t.get(cs[0])) {
        ChildIsNode(t, p, cs[0]);
        DfsVisitsNodes(t, action, cs[0], d);
        VisitsAppend(t, Dfs(t, action, cs[0], d), DfsEach(t, action, p, cs[1..], d), d);
      }
    }
  }

  /** The visit at position `k` comes after a visit of its parent, one level up. */
  ghost predicate HasParentBefore<T>(t: TreeView<T>, v: seq<TraverseState<T>>, k: int)
    requires 0 <= k < |v|
  {
    exists j :: 0 <= j < k && v[j].depth + 1 == v[k].depth && v[k].index in t.childrenIdx(v[j].index)
  }

  /** Pre-order: every visit but the first follows a visit of its parent. */
  ghost predicate ParentFirst<T>(t: TreeView<T>, v: seq<TraverseState<T>>)
  {
    forall k :: 0 < k < |v| ==> HasParentBefore(t, v, k)
  }

  /** Pre-order below a node's children `cs` at depth `d`: every visit is of
      one of them at depth `d`, or follows a visit of its parent. */
  ghost predicate ParentFirstBelow<T>(t: TreeView<T>, v: seq<TraverseState<T>>, cs: seq<int>, d: nat)
  {
    forall k :: 0 <= k < |v| ==> (v[k].depth == d && v[k].index in cs) || HasParentBefore(t, v, k)
  }

  lemma ParentBeforeShift<T>(t: TreeView<T>, a: seq<TraverseState<T>>, b: seq<TraverseState<T>>, k: int)
    requires 0 <= k < |b| && HasParentBefore(t, b, k)
    ensures HasParentBefore(t, a + b, |a| + k)
  {
    var j :| 0 <= j < k && b[j].depth + 1 == b[k].depth && b[k].index in t.childrenIdx(b[j].index);
    assert (a + b)[|a| + j] == b[j] && (a + b)[|a| + k] == b[k];
  }

  lemma ParentBeforePrefix<T>(t: TreeView<T>, a: seq<TraverseState<T>>, b: seq<TraverseState<T>>, k: int)
    requires 0 <= k < |a| && HasParentBefore(t, a, k)
    ensures HasParentBefore(t, a + b, k)
  {
    var j :| 0 <= j < k && a[j].depth + 1 == a[k].depth && a[k].index in t.childrenIdx(a[j].index);
    assert (a + b)[j] == a[j] && (a + b)[k] == a[k];
  }

  /** A visit followed by visits in pre-order below its children is in pre-order. */
  lemma ParentFirstCons<T>(t: TreeView<T>, s: TraverseState<T>, below: seq<TraverseState<T>>)
    requires ParentFirstBelow(t, below, t.childrenIdx(s.index), s.depth + 1)
    ensures ParentFirst(t, [s] + below)
  {
    var v := [s] + below;
    forall k | 0 < k < |v|
      ensures HasParentBefore(t, v, k)
    {
      ConsParentAt(t, s, below, k - 1);
    }
  }

  lemma ConsParentAt<T>(t: TreeView<T>, s: TraverseState<T>, below: seq<TraverseState<T>>, k: int)
    requires 0 <= k < |below|
    requires (below[k].depth == s.depth + 1 && below[k].index in t.childrenIdx(s.index)) || HasParentBefore(t, below, k)
    ensures HasParentBefore(t, [s] + below, k + 1)
  {
    var v := [s] + below;
    assert v[k + 1] == below[k];
    if below[k].depth == s.depth + 1 && below[k].index in t.childrenIdx(s.index) {
      assert v[0] == s;
      assert v[0].depth + 1 == v[k + 1].depth && v[k + 1].index in t.childrenIdx(v[0].index);
    } else {
      ParentBeforeShift(t, [s], below, k);
    }
  }

  /** Pre-order visits from the first child, then pre-order visits below the
      other children, are in pre-order below all of them. */
  lemma ParentFirstConcat<T>(t: TreeView<T>, first: seq<TraverseState<T>>, rest: seq<TraverseState<T>>, cs: seq<int>, d: nat)
    requires cs != [] && first != [] && first[0].depth == d && first[0].index == cs[0]
    requires ParentFirst(t, first) && ParentFirstBelow(t, rest, cs[1..], d)
    ensures ParentFirstBelow(t, first + rest, cs, d)
  {
    var v := first + rest;
    forall k | 0 <= k < |v|
      ensures (v[k].depth == d && v[k].index in cs) || HasParentBefore(t, v, k)
    {
      if k == 0 {
        assert v[0] == first[0];
      } else if k < |first| {
        assert v[k] == first[k];
        ParentBeforePrefix(t, first, rest, k);
      } else {
        assert v[k] == rest[k - |first|];
        if !(rest[k - |first|].depth == d && rest[k - |first|].index in cs[1..]) {
          ParentBeforeShift(t, first, rest, k - |first|);
        }
      }
    }
  }

  /** `dfs` is pre-order: a node is visited before anything below it, and a
      child one level deeper than its parent. */
  lemma {:induction false} DfsParentFirst<T>(t: TreeView<T>, action: TraverseState<T> -> bool, i: int, d: nat)
    requires WellFormed(t) && Node(t, i)
    ensures ParentFirst(t, Dfs(t, action, i, d))
    decreases t.measure(i), 1, 0
  {
    var s := State(t, i, d);
    if action(s) {
      DfsEachParentFirst(t, action, i, t.childrenIdx(i), d + 1);
      ParentFirstCons(t, s, DfsEach(t, action, i, t.childrenIdx(i), d + 1));
    }
  }

  lemma {:induction false} DfsEachParentFirst<T>(t: TreeView<T>, action: TraverseState<T> -> bool, p: int, cs: seq<int>, d: nat)
    requires WellFormed(t) && Node(t, p)
    requires forall c :: c in cs ==> c in t.childrenIdx(p)
    ensures ParentFirstBelow(t, DfsEach(t, action, p, cs, d), cs, d)
    decreases t.measure(p), 0, |cs|
  {
    if cs != [] {
      var rest := DfsEach(t, action, p, cs[1..], d);
      DfsEachParentFirst(t, action, p, cs[1..], d);
      if Truthy(t.get(cs[0])) {
        ChildIsNode(t, p, cs[0]);
        DfsParentFirst(t, action, cs[0], d);
        ParentFirstConcat(t, Dfs(t, action, cs[0], d), rest, cs, d);
      } else {
        assert forall k :: 0 <= k < |rest| && rest[k].index in cs[1..] ==> rest[k].index in cs;
      }
    }
  }

  /** A false return prunes only the node it was given: that node is the
      whole visit; after a true return, every child `get` accepts is visited
      one level deeper, whatever the action says about its siblings. */
  lemma DfsPrunesOnlySubtree<T>(t: TreeView<T>, action: TraverseState<T> -> bool, i: int, d: nat)
    requires WellFormed(t) && Node(t, i)
    ensures !action(State(t, i, d)) ==> Dfs(t, action, i, d) == [State(t, i, d)]
    ensures action(State(t, i, d)) ==>
      forall c :: c in t.childrenIdx(i) && t.get(c).Just? ==> TraverseState(c, t.get(c).m, d + 1) in Dfs(t, action, i, d)
  {
    if action(State(t, i, d)) {
      DfsEachVisitsChildren(t, action, i, t.childrenIdx(i), d + 1);
    }
  }

  lemma {:induction false} DfsEachVisitsChildren<T>(t: TreeView<T>, action: TraverseState<T> -> bool, p: int, cs: seq<int>, d: nat)
    requires WellFormed(t) && Node(t, p)
    requires forall c :: c in cs ==> c in t.childrenIdx(p)
    ensures forall c :: c in cs && t.get(c).Just? ==> TraverseState(c, t.get(c).m, d) in DfsEach(t, action, p, cs, d)
  {
    if cs != [] {
      DfsEachVisitsChildren(t, action, p, cs[1..], d);
      if Truthy(t.get(cs[0])) {
        ChildIsNode(t, p, cs[0]);
        assert Dfs(t, action, cs[0], d)[0] == TraverseState(cs[0], t.get(cs[0]).m, d);
      }
    }
  }

  // ---------------------------------------------------------------------------
  // Breadth-first traversal

  /** `bfs` visits only indices `get` accepts, with the items stored there. */
  lemma {:induction false} BfsVisitsNodes<T>(t: TreeView<T>, action: TraverseState<T> -> bool, q: seq<(int, nat)>)
    requires WellFormed(t) && AllNodes(t, q)
    ensures VisitsNodes(t, BfsFrom(t, action, q), 0)
    decreases |Forest(t, q)|
  {
    if q != [] {
      var s := State(t, q[0].0, q[0].1);
      BfsUnfold(t, action, q);
      if action(s) {
        ForestShrinks(t, q);
        BfsVisitsNodes(t, action, NextQueue(t, q));
        VisitsAppend(t, [s], BfsFrom(t, action, NextQueue(t, q)), 0);
      }
    }
  }

  /** The queue of `bfs` holds at most two consecutive levels, the shallower first. */
  ghost predicate Levels(q: seq<(int, nat)>)
  {
    forall j, k :: 0 <= j < k < |q| ==> q[j].1 <= q[k].1 <= q[j].1 + 1
  }

  /** Visited depths never decrease. */
  ghost predicate DepthOrdered<T>(v: seq<TraverseState<T>>)
  {
    forall j, k :: 0 <= j < k < |v| ==> v[j].depth <= v[k].depth
  }

  /** Appending children one level below the front entry keeps the queue in levels. */
  lemma NextQueueLevels<T>(t: TreeView<T>, q: seq<(int, nat)>)
    requires WellFormed(t) && AllNodes(t, q) && q != [] && Levels(q)
    ensures Levels(NextQueue(t, q))
    ensures forall k :: 0 <= k < |NextQueue(t, q)| ==> q[0].1 <= NextQueue(t, q)[k].1
  {
    var kids := Enqueued(t, t.childrenIdx(q[0].0), q[0].1 + 1);
    var n := NextQueue(t, q);
    var m := |q| - 1;
    assert n == q[1..] + kids;
    forall k | 0 <= k < |n|
      ensures q[0].1 <= n[k].1
    {
      if k < m {
        assert n[k] == q[k + 1];
      } else {
        assert n[k] == kids[k - m];
      }
    }
    forall j, k | 0 <= j < k < |n|
      ensures n[j].1 <= n[k].1 <= n[j].1 + 1
    {
      if k < m {
        assert n[j] == q[j + 1] && n[k] == q[k + 1];
      } else if j < m {
        assert n[j] == q[j + 1] && n[k] == kids[k - m];
        assert q[0].1 <= q[j + 1].1 <= q[0].1 + 1;
      } else {
        assert n[j] == kids[j - m] && n[k] == kids[k - m];
      }
    }
  }

  /** No visit is above depth `d`. */
  ghost predicate NotAbove<T>(v: seq<TraverseState<T>>, d: nat)
  {
    forall k :: 0 <= k < |v| ==> d <= v[k].depth
  }

  lemma LevelsCons<T>(s: TraverseState<T>, w: seq<TraverseState<T>>)
    requires DepthOrdered(w) && NotAbove(w, s.depth)
    ensures DepthOrdered([s] + w) && NotAbove([s] + w, s.depth)
  {
    var v := [s] + w;
    forall j, k | 0 <= j < k < |v|
      ensures v[j].depth <= v[k].depth
    {
      assert v[k] == w[k - 1];
      if j > 0 {
        assert v[j] == w[j - 1];
      }
    }
    forall k | 0 < k < |v|
      ensures s.depth <= v[k].depth
    {
      assert v[k] == w[k - 1];
    }
  }

  /** `bfs` visits level by level: depths never decrease, starting from the
      depth of the front entry. */
  lemma {:induction false} BfsLevels<T>(t: TreeView<T>, action: TraverseState<T> -> bool, q: seq<(int, nat)>)
    requires WellFormed(t) && AllNodes(t, q) && Levels(q)
    ensures DepthOrdered(BfsFrom(t, action, q))
    ensures q != [] ==> NotAbove(BfsFrom(t, action, q), q[0].1)
    decreases |Forest(t, q)|
  {
    if q != [] {
      var s := State(t, q[0].0, q[0].1);
      BfsUnfold(t, action, q);
      if action(s) {
        ForestShrinks(t, q);
        var n := NextQueue(t, q);
        NextQueueLevels(t, q);
        BfsLevels(t, action, n);
        LevelsCons(s, BfsFrom(t, action, n));
      }
    }
  }

  /** `v` is where a run stopped that would otherwise have produced `full`:
      a prefix of it, every visit but the last returned true, and if the run
      ended early the last visit returned false. */
  ghost predicate StoppedAtFirstFalse<T>(action: TraverseState<T> -> bool, v: seq<TraverseState<T>>, full: seq<TraverseState<T>>)
  {
    v <= full &&
    (forall k :: 0 <= k < |v| - 1 ==> action(v[k])) &&
    (0 < |v| < |full| ==> !action(v[|v| - 1]))
  }

  lemma StoppedAfterTrue<T>(action: TraverseState<T> -> bool, s: TraverseState<T>, w: seq<TraverseState<T>>, full: seq<TraverseState<T>>)
    requires action(s) && StoppedAtFirstFalse(action, w, full) && (w == [] ==> full == [])
    ensures StoppedAtFirstFalse(action, [s] + w, [s] + full)
  {
    var v := [s] + w;
    forall k | 0 <= k < |v| - 1
      ensures action(v[k])
    {
      if k > 0 {
        assert v[k] == w[k - 1];
      }
    }
    if 0 < |w| {
      assert v[|v| - 1] == w[|w| - 1];
    }
  }

  /** `bfs` stops for good at the first false return. */
  lemma {:induction false} BfsStopsAtFirstFalse<T>(t: TreeView<T>, action: TraverseState<T> -> bool, q: seq<(int, nat)>)
    requires WellFormed(t) && AllNodes(t, q)
    ensures StoppedAtFirstFalse(action, BfsFrom(t, action, q), BfsFrom(t, Always(), q))
    decreases |Forest(t, q)|
  {
    if q != [] {
      var s := State(t, q[0].0, q[0].1);
      BfsUnfold(t, action, q);
      BfsUnfold(t, Always(), q);
      assert Always()(s);
      if action(s) {
        ForestShrinks(t, q);
        var n := NextQueue(t, q);
        BfsStopsAtFirstFalse(t, action, n);
        StoppedAfterTrue(action, s, BfsFrom(t, action, n), BfsFrom(t, Always(), n));
      }
    }
  }

  lemma IndicesAppend<T>(a: seq<TraverseState<T>>, b: seq<TraverseState<T>>)
    ensures Indices(a + b) == Indices(a) + Indices(b)
  {
    var l, r := Indices(a + b), Indices(a) + Indices(b);
    forall k | 0 <= k < |l|
      ensures l[k] == r[k]
    {
      if k >= |a| {
        assert (a + b)[k] == b[k - |a|];
      }
    }
  }

  lemma CoverStep<T>(s: TraverseState<T>, w: seq<TraverseState<T>>, below: seq<TraverseState<T>>, others: seq<TraverseState<T>>)
    requires multiset(w) == multiset(others + below)
    requires multiset(Indices(w)) == multiset(Indices(others + below))
    ensures multiset([s] + w) == multiset([s] + below + others)
    ensures multiset(Indices([s] + w)) == multiset(Indices([s] + below + others))
  {
    IndicesAppend([s], w);
    IndicesAppend([s], below);
    IndicesAppend([s] + below, others);
    IndicesAppend(others, below);
  }

  /** Never stopping, `bfs` from a queue visits exactly what the complete
      depth-first visits from its entries do, in another order. */
  lemma {:induction false} BfsCoversForest<T>(t: TreeView<T>, q: seq<(int, nat)>)
    requires WellFormed(t) && AllNodes(t, q)
    ensures multiset(BfsFrom(t, Always(), q)) == multiset(Forest(t, q))
    ensures multiset(Indices(BfsFrom(t, Always(), q))) == multiset(Indices(Forest(t, q)))
    decreases |Forest(t, q)|
  {
    if q != [] {
      var s := State(t, q[0].0, q[0].1);
      BfsUnfold(t, Always(), q);
      assert Always()(s);
      ForestShrinks(t, q);
      var n := NextQueue(t, q);
      BfsCoversForest(t, n);
      var w := BfsFrom(t, Always(), n);
      assert BfsFrom(t, Always(), q) == [s] + w;
      var below, others := ForestRotate(t, q);
      CoverStep(s, w, below, others);
    }
  }

  // ---------------------------------------------------------------------------
  // Both traversals of a whole tree

  /** `bfs` visits only nodes, root first at depth 0, level by level, and
      stops for good at the first false return. */
  lemma BfsTreeOrder<T>(t: TreeView<T>, action: TraverseState<T> -> bool)
    requires WellFormed(t)
    ensures VisitsNodes(t, BfsTree(t, action), 0)
    ensures DepthOrdered(BfsTree(t, action))
    ensures StoppedAtFirstFalse(action, BfsTree(t, action), BfsTree(t, Always()))
  {
    if Truthy(t.root) {
      var q := [(t.rootIdx, 0)];
      BfsVisitsNodes(t, action, q);
      BfsLevels(t, action, q);
      BfsStopsAtFirstFalse(t, action, q);
    }
  }

  /** `dfs` visits only nodes, root first at depth 0, each after its parent
      and one level below it. */
  lemma DfsTreeOrder<T>(t: TreeView<T>, action: TraverseState<T> -> bool)
    requires WellFormed(t)
    ensures VisitsNodes(t, DfsTree(t, action), 0)
    ensures ParentFirst(t, DfsTree(t, action))
  {
    if Truthy(t.root) {
      DfsVisitsNodes(t, action, t.rootIdx, 0);
      DfsParentFirst(t, action, t.rootIdx, 0);
    }
  }

  lemma ForestOfOne<T>(t: TreeView<T>, i: int, d: nat)
    requires WellFormed(t) && Node(t, i)
    ensures AllNodes(t, [(i, d)]) && Forest(t, [(i, d)]) == Dfs(t, Always(), i, d)
  {
    var q := [(i, d)];
    assert q[1..] == [];
  }

  /** With an action that never stops, `bfs` and `dfs` visit the same states,
      and so the same indices, as many times each. */
  lemma BfsMatchesDfs<T>(t: TreeView<T>)
    requires WellFormed(t)
    ensures multiset(BfsTree(t, Always())) == multiset(DfsTree(t, Always()))
    ensures multiset(Indices(BfsTree(t, Always()))) == multiset(Indices(DfsTree(t, Always())))
  {
    if Truthy(t.root) {
      var q := [(t.rootIdx, 0)];
      BfsCoversForest(t, q);
      ForestOfOne(t, t.rootIdx, 0);
    }
  }

  // ---------------------------------------------------------------------------
  // Each node once

  /** No index appears twice. */
  predicate Distinct(s: seq<int>)
  {
    forall j, k :: 0 <= j < k < |s| ==> s[j] != s[k]
  }

  /** Every node lists its children once, and an index `get` accepts is the
      child of at most one node: the shape of a tree, not of a graph. */
  ghost predicate UniqueParents<T>(t: TreeView<T>)
  {
    (forall i :: Node(t, i) ==> Distinct(t.childrenIdx(i))) &&
    (forall i, j, c :: Node(t, i) && Node(t, j) && t.get(c).Just? && c in t.childrenIdx(i) && c in t.childrenIdx(j) ==> i == j)
  }

  /** Every index of the multiset is there once. */
  ghost predicate Once(m: multiset<int>)
  {
    forall x :: m[x] <= 1
  }

  /** The indices at and below `a`, as often as a traversal that never stops
      reaches them. */
  ghost function Below<T>(t: TreeView<T>, a: int): multiset<int>
    requires WellFormed(t) && Node(t, a)
    decreases t.measure(a), 1, 0
  {
    multiset{a} + BelowEach(t, a, t.childrenIdx(a))
  }

  ghost function BelowEach<T>(t: TreeView<T>, p: int, cs: seq<int>): multiset<int>
    requires WellFormed(t) && Node(t, p)
    requires forall c :: c in cs ==> c in t.childrenIdx(p)
    decreases t.measure(p), 0, |cs|
  {
    if cs == [] then multiset{}
    else if t.get(cs[0]).Just? then
      ChildIsNode(t, p, cs[0]);
      Below(t, cs[0]) + BelowEach(t, p, cs[1..])
    else BelowEach(t, p, cs[1..])
  }

  /** A depth-first traversal that never stops reaches exactly `Below`. */
  lemma {:induction false} DfsIndicesBelow<T>(t: TreeView<T>, a: int, d: nat)
    requires WellFormed(t) && Node(t, a)
    ensures multiset(Indices(Dfs(t, Always(), a, d))) == Below(t, a)
    decreases t.measure(a), 1, 0
  {
    var s := State(t, a, d);
    assert Always()(s);
    var below := DfsEach(t, Always(), a, t.childrenIdx(a), d + 1);
    DfsEachIndicesBelow(t, a, t.childrenIdx(a), d + 1);
    IndicesAppend([s], below);
    assert Indices([s]) == [a];
  }

  lemma {:induction false} DfsEachIndicesBelow<T>(t: TreeView<T>, p: int, cs: seq<int>, d: nat)
    requires WellFormed(t) && Node(t, p)
    requires forall c :: c in cs ==> c in t.childrenIdx(p)
    ensures multiset(Indices(DfsEach(t, Always(), p, cs, d))) == BelowEach(t, p, cs)
    decreases t.measure(p), 0, |cs|
  {
    if cs != [] {
      DfsEachIndicesBelow(t, p, cs[1..], d);
      if t.get(cs[0]).Just? {
        ChildIsNode(t, p, cs[0]);
        DfsIndicesBelow(t, cs[0], d);
        IndicesAppend(Dfs(t, Always(), cs[0], d), DfsEach(t, Always(), p, cs[1..], d));
      }
    }
  }

  /** What is below `a` is a node, and lower in the measure unless it is `a`. */
  lemma {:induction false} BelowMeasure<T>(t: TreeView<T>, a: int, x: int)
    requires WellFormed(t) && Node(t, a) && x in Below(t, a)
    ensures Node(t, x) && (x == a || t.measure(x) < t.measure(a))
    decreases t.measure(a), 1, 0
  {
    if x != a {
      BelowEachMeasure(t, a, t.childrenIdx(a), x);
    }
  }

  lemma {:induction false} BelowEachMeasure<T>(t: TreeView<T>, p: int, cs: seq<int>, x: int)
    requires WellFormed(t) && Node(t, p)
    requires forall c :: c in cs ==> c in t.childrenIdx(p)
    requires x in BelowEach(t, p, cs)
    ensures Node(t, x) && t.measure(x) < t.measure(p)
    decreases t.measure(p), 0, |cs|
  {
    if t.get(cs[0]).Just? {
      ChildIsNode(t, p, cs[0]);
      if x in Below(t, cs[0]) {
        BelowMeasure(t, cs[0], x);
      } else {
        BelowEachMeasure(t, p, cs[1..], x);
      }
    } else {
      BelowEachMeasure(t, p, cs[1..], x);
    }
  }

  /** What is below some of the children `cs` is below one of them. */
  lemma {:induction false} BelowEachWitness<T>(t: TreeView<T>, p: int, cs: seq<int>, x: int) returns (c: int)
    requires WellFormed(t) && Node(t, p)
    requires forall c :: c in cs ==> c in t.childrenIdx(p)
    requires x in BelowEach(t, p, cs)
    ensures c in cs && Node(t, c) && x in Below(t, c)
  {
    if t.get(cs[0]).Just? {
      ChildIsNode(t, p, cs[0]);
      if x in Below(t, cs[0]) {
        return cs[0];
      }
    }
    c := BelowEachWitness(t, p, cs[1..], x);
  }

  /** What is below one of the children `cs` is below all of them. */
  lemma {:induction false} BelowEachContains<T>(t: TreeView<T>, p: int, cs: seq<int>, c: int)
    requires WellFormed(t) && Node(t, p)
    requires forall c :: c in cs ==> c in t.childrenIdx(p)
    requires c in cs && t.get(c).Just?
    ensures Node(t, c) && Below(t, c) <= BelowEach(t, p, cs)
  {
    ChildIsNode(t, p, c);
    if cs[0] != c {
      BelowEachContains(t, p, cs[1..], c);
    }
  }

  /** What is below a node that is below `a` is below `a` too. */
  lemma {:induction false} BelowTransitive<T>(t: TreeView<T>, a: int, p: int, x: int)
    requires WellFormed(t) && Node(t, a) && p in Below(t, a)
    ensures Node(t, p)
    ensures x in Below(t, p) ==> x in Below(t, a)
    decreases t.measure(a)
  {
    BelowMeasure(t, a, p);
    if p != a {
      var cs := t.childrenIdx(a);
      var c := BelowEachWitness(t, a, cs, p);
      BelowEachContains(t, a, cs, c);
      ChildIsNode(t, a, c);
      BelowTransitive(t, c, p, x);
    }
  }

  /** Anything strictly below `a` has a parent below `a`. */
  lemma {:induction false} ParentBelow<T>(t: TreeView<T>, a: int, x: int) returns (q: int)
    requires WellFormed(t) && Node(t, a) && x in Below(t, a) && x != a
    ensures Node(t, q) && q in Below(t, a) && x in t.childrenIdx(q)
    decreases t.measure(a)
  {
    var cs := t.childrenIdx(a);
    assert x in BelowEach(t, a, cs);
    var c := BelowEachWitness(t, a, cs, x);
    BelowEachContains(t, a, cs, c);
    if x == c {
      q := a;
    } else {
      ChildIsNode(t, a, c);
      q := ParentBelow(t, c, x);
    }
  }

  /** With unique parents, two nodes that have something below both are on
      one path: one is below the other. */
  lemma {:induction false} OnOnePath<T>(t: TreeView<T>, a: int, b: int, x: int)
    requires WellFormed(t) && UniqueParents(t) && Node(t, a) && Node(t, b)
    requires x in Below(t, a) && x in Below(t, b)
    ensures a in Below(t, b) || b in Below(t, a)
    decreases t.measure(a) + t.measure(b) - 2 * t.measure(x)
  {
    BelowMeasure(t, a, x);
    BelowMeasure(t, b, x);
    if x != a && x != b {
      var qa := ParentBelow(t, a, x);
      var qb := ParentBelow(t, b, x);
      assert qa == qb;
      ChildIsNode(t, qa, x);
      BelowMeasure(t, a, qa);
      BelowMeasure(t, b, qa);
      OnOnePath(t, a, b, qa);
    }
  }

  lemma OnceUnion(m: multiset<int>, n: multiset<int>)
    requires Once(m) && Once(n) && forall x :: x in m ==> x !in n
    ensures Once(m + n)
  {
    forall x
      ensures (m + n)[x] <= 1
    {
      if x in m {
        assert n[x] == 0;
      }
    }
  }

  /** Two distinct children of one node have nothing below them in common. */
  lemma SiblingsApart<T>(t: TreeView<T>, p: int, c: int, c': int, x: int)
    requires WellFormed(t) && UniqueParents(t) && Node(t, p)
    requires c in t.childrenIdx(p) && c' in t.childrenIdx(p) && c != c'
    requires Node(t, c) && Node(t, c') && x in Below(t, c)
    ensures x !in Below(t, c')
  {
    if x in Below(t, c') {
      OnOnePath(t, c, c', x);
      if c in Below(t, c') {
        NotBelowSibling(t, p, c', c);
      } else {
        NotBelowSibling(t, p, c, c');
      }
    }
  }

  /** A child of `p` is not strictly below another child of `p`. */
  lemma NotBelowSibling<T>(t: TreeView<T>, p: int, c: int, c': int)
    requires WellFormed(t) && UniqueParents(t) && Node(t, p)
    requires c in t.childrenIdx(p) && c' in t.childrenIdx(p) && c != c'
    requires Node(t, c) && Node(t, c')
    ensures c' !in Below(t, c)
  {
    if c' in Below(t, c) {
      var q := ParentBelow(t, c, c');
      ChildIsNode(t, p, c);
      BelowMeasure(t, c, q);
      assert false;
    }
  }

  /** With unique parents, nothing is below a node twice. */
  lemma {:induction false} BelowOnce<T>(t: TreeView<T>, a: int)
    requires WellFormed(t) && UniqueParents(t) && Node(t, a)
    ensures Once(Below(t, a))
    decreases t.measure(a), 1, 0
  {
    var cs := t.childrenIdx(a);
    BelowEachOnce(t, a, cs);
    forall x | x in BelowEach(t, a, cs)
      ensures x !in multiset{a}
    {
      BelowEachMeasure(t, a, cs, x);
    }
    OnceUnion(BelowEach(t, a, cs), multiset{a});
    assert Below(t, a) == BelowEach(t, a, cs) + multiset{a};
  }

  lemma {:induction false} BelowEachOnce<T>(t: TreeView<T>, p: int, cs: seq<int>)
    requires WellFormed(t) && UniqueParents(t) && Node(t, p)
    requires forall c :: c in cs ==> c in t.childrenIdx(p)
    requires Distinct(cs)
    ensures Once(BelowEach(t, p, cs))
    decreases t.measure(p), 0, |cs|
  {
    if cs != [] {
      var rest := cs[1..];
      assert Distinct(rest);
      BelowEachOnce(t, p, rest);
      if t.get(cs[0]).Just? {
        var c := cs[0];
        ChildIsNode(t, p, c);
        BelowOnce(t, c);
        forall x | x in Below(t, c)
          ensures x !in BelowEach(t, p, rest)
        {
          if x in BelowEach(t, p, rest) {
            var c' := BelowEachWitness(t, p, rest, x);
            assert c' != c;
            SiblingsApart(t, p, c, c', x);
          }
        }
        OnceUnion(Below(t, c), BelowEach(t, p, rest));
      }
    }
  }

  /** With unique parents and an action that never stops, `dfs` and `bfs`
      each visit every node below the root, and each exactly once. */
  lemma EachNodeOnce<T>(t: TreeView<T>)
    requires WellFormed(t) && UniqueParents(t)
    ensures Truthy(t.root) ==> multiset(Indices(DfsTree(t, Always()))) == Below(t, t.rootIdx)
    ensures Once(multiset(Indices(DfsTree(t, Always()))))
    ensures Once(multiset(Indices(BfsTree(t, Always()))))
  {
    BfsMatchesDfs(t);
    if Truthy(t.root) {
      DfsIndicesBelow(t, t.rootIdx, 0);
      BelowOnce(t, t.rootIdx);
    } else {
      assert Indices(DfsTree(t, Always())) == [];
    }
  }
}
