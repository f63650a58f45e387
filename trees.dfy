/** The tree layer of zpy/classes/bases/tree.py: the record a traversal hands
    to its callback, the box-drawing glyph table, the `Tree` interface, and the
    breadth-first and depth-first traversals written once against it. */
module Trees {
  import opened Maybes
  import Arrays

  /** One visit: the index, the item stored there and the distance from the root. */
  datatype TraverseState<T> = TraverseState(index: int, item: T, depth: nat)

  /** The four `BoxPart` flags, one bit each; a glyph is chosen by a set of
      flags, a 4-bit mask. The flags are distinct bits, so the `|` that
      combines them in `box_map` is written `+` here. */
  type BoxMask = m: int | 0 <= m < 16
  const TOP: BoxMask := 1
  const BOTTOM: BoxMask := 2
  const LEFT: BoxMask := 4
  const RIGHT: BoxMask := 8

  /** `BoxPart.box_map`: the connector glyph for each combination of flags. */
  const BoxTable: map<BoxMask, char> := map[
    TOP := '\U{2575}',                        // ╵
    BOTTOM := '\U{2577}',                     // ╷
    LEFT := '\U{2574}',                       // ╴
    RIGHT := '\U{2576}',                      // ╶
    TOP + LEFT := '\U{2518}',                 // ┘
    TOP + RIGHT := '\U{2514}',                // └
    BOTTOM + LEFT := '\U{2510}',              // ┐
    BOTTOM + RIGHT := '\U{250C}',             // ┌
    LEFT + RIGHT + BOTTOM := '\U{252C}',      // ┬
    TOP + LEFT + RIGHT := '\U{2534}',         // ┴
    TOP + RIGHT + BOTTOM := '\U{251C}',       // ├
    TOP + LEFT + BOTTOM := '\U{2524}',        // ┤
    TOP + BOTTOM := '\U{2502}',               // │
    LEFT + RIGHT := '\U{2500}',               // ─
    TOP + LEFT + RIGHT + BOTTOM := '\U{253C}', // ┼
    0 := ' '
  ]

  /** Reading a glyph back as the flags it draws; `Nothing` for any other character. */
  function MaskOf(c: char): (r: Maybe<BoxMask>)
  {
    if c == ' ' then Just(0)
    else if c == '\U{2575}' then Just(1)
    else if c == '\U{2577}' then Just(2)
    else if c == '\U{2502}' then Just(3)
    else if c == '\U{2574}' then Just(4)
    else if c == '\U{2518}' then Just(5)
    else if c == '\U{2510}' then Just(6)
    else if c == '\U{2524}' then Just(7)
    else if c == '\U{2576}' then Just(8)
    else if c == '\U{2514}' then Just(9)
    else if c == '\U{250C}' then Just(10)
    else if c == '\U{251C}' then Just(11)
    else if c == '\U{2500}' then Just(12)
    else if c == '\U{2534}' then Just(13)
    else if c == '\U{252C}' then Just(14)
    else if c == '\U{253C}' then Just(15)
    else Nothing
  }

  /** Every one of the 16 masks has a glyph, and the glyph gives the mask back. */
  lemma BoxTableRoundTrip(part: BoxMask)
    ensures part in BoxTable && MaskOf(BoxTable[part]) == Just(part)
  {
    assert part in {0, 1, 2, 3, 4, 5, 6, 7, 8, 9, 10, 11, 12, 13, 14, 15};
  }

  /** `str(part)`: the glyph `box_map` gives a mask; the empty mask is a blank,
      and distinct masks get distinct glyphs. */
  function BoxGlyph(part: BoxMask): (c: char)
    ensures MaskOf(c) == Just(part)
    ensures part == 0 <==> c == ' '
  {
    BoxTableRoundTrip(part);
    BoxTable[part]
  }

  lemma BoxGlyphInjective(p: BoxMask, q: BoxMask)
    requires p != q
    ensures BoxGlyph(p) != BoxGlyph(q)
  {
  }

  /** The `Tree` interface as the traversals see it: `root()`, `root_idx()`,
      `children_idx(idx)` and `get(idx)`. `measure` is not part of the
      interface: it is the witness, supplied by each implementation, that
      following valid children always ends (see `WellFormed`). */
  datatype TreeView<T> = TreeView(
    root: Maybe<T>,
    rootIdx: int,
    childrenIdx: int -> seq<int>,
    get: int -> Maybe<T>,
    measure: int -> nat)

  /** An index a traversal may visit: non-negative, and `get` finds an item there. */
  predicate Node<T>(t: TreeView<T>, i: int)
  {
    0 <= i && t.get(i).Just?
  }

  /** What the traversals rely on: a present root is an item at `root_idx()`,
      and a child that `get` accepts is an index whose measure is smaller than
      its parent's (so the tree is finite and acyclic below the root). */
  ghost predicate WellFormed<T>(t: TreeView<T>)
  {
    (t.root.Just? ==> 0 <= t.rootIdx && t.get(t.rootIdx) == t.root) &&
    forall i, k :: Node(t, i) && 0 <= k < |t.childrenIdx(i)| && t.get(t.childrenIdx(i)[k]).Just? ==>
      0 <= t.childrenIdx(i)[k] && t.measure(t.childrenIdx(i)[k]) < t.measure(i)
  }

  /** A child that `get` accepts, of an index a traversal may visit, may be
      visited too, and is lower in the measure. */
  lemma ChildIsNode<T>(t: TreeView<T>, p: int, c: int)
    requires WellFormed(t) && Node(t, p) && c in t.childrenIdx(p) && t.get(c).Just?
    ensures Node(t, c) && t.measure(c) < t.measure(p)
  {
    var k :| 0 <= k < |t.childrenIdx(p)| && t.childrenIdx(p)[k] == c;
  }

  /** `self[idx]` at a visited index: the item that `get(idx)` returns. */
  function Item<T>(t: TreeView<T>, i: int): T
    requires Node(t, i)
  {
    t.get(i).m
  }

  function State<T>(t: TreeView<T>, i: int, d: nat): (s: TraverseState<T>)
    requires Node(t, i)
  {
    TraverseState(i, Item(t, i), d)
  }

  /** The default action, `const(True)`: never stops a traversal. */
  function Always<T>(): TraverseState<T> -> bool
  {
    (s: TraverseState<T>) => true
  }

  /** `const(True)` lets every visit continue. */
  lemma AlwaysContinues<T>(s: TraverseState<T>)
    ensures Always()(s)
  {
  }

  /** The indices of a sequence of visits, in visit order. */
  function Indices<T>(visits: seq<TraverseState<T>>): (r: seq<int>)
    ensures |r| == |visits| && forall k :: 0 <= k < |r| ==> r[k] == visits[k].index
  {
    Arrays.Map(visits, (s: TraverseState<T>) => s.index)
  }

  /** Every visit is of an index `get` accepts, with the item stored there,
      at depth `d` or deeper. */
  ghost predicate VisitsNodes<T>(t: TreeView<T>, visits: seq<TraverseState<T>>, d: nat)
  {
    forall k :: 0 <= k < |visits| ==>
      Node(t, visits[k].index) && visits[k].item == Item(t, visits[k].index) && visits[k].depth >= d
  }

  // ---------------------------------------------------------------------------
  // Depth-first traversal

  /** `traverse(idx, depth)` inside `dfs`: visit `idx`; unless the action says
      stop, go through its children in order, skipping those `get` rejects. */
  function Dfs<T>(t: TreeView<T>, action: TraverseState<T> -> bool, i: int, d: nat): (visits: seq<TraverseState<T>>)
    requires WellFormed(t) && Node(t, i)
    ensures visits != [] && visits[0] == State(t, i, d)
    decreases t.measure(i), 1, 0
  {
    var s := State(t, i, d);
    if !action(s) then [s] else [s] + DfsEach(t, action, i, t.childrenIdx(i), d + 1)
  }

  /** The `for child in self.children_idx(idx)` loop of `traverse`, over the
      children `cs` still to go. */
  function DfsEach<T>(t: TreeView<T>, action: TraverseState<T> -> bool, p: int, cs: seq<int>, d: nat): (visits: seq<TraverseState<T>>)
    requires WellFormed(t) && Node(t, p)
    requires forall c :: c in cs ==> c in t.childrenIdx(p)
    ensures visits != [] ==> visits[0].depth == d
    ensures cs != [] && Truthy(t.get(cs[0])) ==> visits != [] && visits[0].index == cs[0]
    decreases t.measure(p), 0, |cs|
  {
    if cs == [] then []
    else if !Truthy(t.get(cs[0])) then DfsEach(t, action, p, cs[1..], d)
    else
      ChildIsNode(t, p, cs[0]);
      Dfs(t, action, cs[0], d) + DfsEach(t, action, p, cs[1..], d)
  }

  /** `dfs(action)`: nothing when `root()` is `Nothing`, otherwise `traverse`
      from `root_idx()` at depth 0. The result is the sequence of states the
      action is called with. */
  function DfsTree<T>(t: TreeView<T>, action: TraverseState<T> -> bool): (visits: seq<TraverseState<T>>)
    requires WellFormed(t)
    ensures !Truthy(t.root) <==> visits == []
    ensures visits != [] ==> visits[0].index == t.rootIdx && visits[0].depth == 0
  {
    if !Truthy(t.root) then [] else Dfs(t, action, t.rootIdx, 0)
  }

  // ---------------------------------------------------------------------------
  // Breadth-first traversal

  /** Every queued entry is an index a traversal may visit. */
  ghost predicate AllNodes<T>(t: TreeView<T>, q: seq<(int, nat)>)
  {
    forall k :: 0 <= k < |q| ==> Node(t, q[k].0)
  }

  /** What the inner loop of `bfs` appends for the children `cs` of a node:
      each child `get` accepts, with depth `d`, in `children_idx` order. */
  function Enqueued<T>(t: TreeView<T>, cs: seq<int>, d: nat): (q: seq<(int, nat)>)
    ensures forall k :: 0 <= k < |q| ==> q[k].1 == d && q[k].0 in cs && t.get(q[k].0).Just?
  {
    if cs == [] then []
    else if Truthy(t.get(cs[0])) then [(cs[0], d)] + Enqueued(t, cs[1..], d)
    else Enqueued(t, cs[1..], d)
  }

  /** The queued children of a node are nodes themselves. */
  lemma EnqueuedNodes<T>(t: TreeView<T>, p: int, cs: seq<int>, d: nat)
    requires WellFormed(t) && Node(t, p)
    requires forall c :: c in cs ==> c in t.childrenIdx(p)
    ensures AllNodes(t, Enqueued(t, cs, d))
  {
    var q := Enqueued(t, cs, d);
    forall k | 0 <= k < |q|
      ensures Node(t, q[k].0)
    {
      ChildIsNode(t, p, q[k].0);
    }
  }

  lemma {:induction false} EnqueuedSnoc<T>(t: TreeView<T>, cs: seq<int>, c: int, d: nat)
    ensures Enqueued(t, cs + [c], d) == Enqueued(t, cs, d) + (if Truthy(t.get(c)) then [(c, d)] else [])
  {
    if cs != [] {
      assert (cs + [c])[1..] == cs[1..] + [c];
      EnqueuedSnoc(t, cs[1..], c, d);
    }
  }

  /** The complete depth-first visits below each queued entry, one after the
      other. Its length is what is left for a breadth-first traversal to do. */
  function Forest<T>(t: TreeView<T>, q: seq<(int, nat)>): seq<TraverseState<T>>
    requires WellFormed(t) && AllNodes(t, q)
  {
    if q == [] then [] else Dfs(t, Always(), q[0].0, q[0].1) + Forest(t, q[1..])
  }

  lemma {:induction false} ForestAppend<T>(t: TreeView<T>, a: seq<(int, nat)>, b: seq<(int, nat)>)
    requires WellFormed(t) && AllNodes(t, a) && AllNodes(t, b)
    ensures AllNodes(t, a + b)
    ensures Forest(t, a + b) == Forest(t, a) + Forest(t, b)
  {
    if a != [] {
      assert (a + b)[1..] == a[1..] + b;
      ForestAppend(t, a[1..], b);
    } else {
      assert a + b == b;
    }
  }

  /** Never stopping, the children loop of `traverse` does what the queued
      children of the same node would. */
  lemma {:induction false} DfsEachIsForest<T>(t: TreeView<T>, p: int, cs: seq<int>, d: nat)
    requires WellFormed(t) && Node(t, p)
    requires forall c :: c in cs ==> c in t.childrenIdx(p)
    ensures AllNodes(t, Enqueued(t, cs, d))
    ensures DfsEach(t, Always(), p, cs, d) == Forest(t, Enqueued(t, cs, d))
  {
    EnqueuedNodes(t, p, cs, d);
    if cs != [] {
      DfsEachIsForest(t, p, cs[1..], d);
      if Truthy(t.get(cs[0])) {
        ChildIsNode(t, p, cs[0]);
        ForestAppend(t, [(cs[0], d)], Enqueued(t, cs[1..], d));
      }
    }
  }

  /** The queue after one step of `bfs` that did not stop: the front entry
      gone, its accepted children at the back one level deeper. */
  function NextQueue<T>(t: TreeView<T>, q: seq<(int, nat)>): (next: seq<(int, nat)>)
    requires WellFormed(t) && AllNodes(t, q) && q != []
    ensures AllNodes(t, next)
  {
    var kids := Enqueued(t, t.childrenIdx(q[0].0), q[0].1 + 1);
    EnqueuedNodes(t, q[0].0, t.childrenIdx(q[0].0), q[0].1 + 1);
    assert AllNodes(t, q[1..]);
    ForestAppend(t, q[1..], kids);
    q[1..] + kids
  }

  lemma NextQueueAt<T>(t: TreeView<T>, q: seq<(int, nat)>, i: int, d: nat)
    requires WellFormed(t) && AllNodes(t, q) && q != [] && q[0] == (i, d)
    ensures Node(t, i)
    ensures NextQueue(t, q) == q[1..] + Enqueued(t, t.childrenIdx(i), d + 1)
  {
  }

  /** The complete depth-first visits below the front entry are that entry
      followed by those below its accepted children. */
  lemma ForestFront<T>(t: TreeView<T>, q: seq<(int, nat)>)
    requires WellFormed(t) && AllNodes(t, q) && q != []
    ensures AllNodes(t, Enqueued(t, t.childrenIdx(q[0].0), q[0].1 + 1))
    ensures Forest(t, q) == [State(t, q[0].0, q[0].1)] + Forest(t, Enqueued(t, t.childrenIdx(q[0].0), q[0].1 + 1)) + Forest(t, q[1..])
  {
    DfsFront(t, q[0].0, q[0].1);
  }

  /** Never stopped, `traverse` visits its index and then the complete
      depth-first visits of its accepted children. */
  lemma DfsFront<T>(t: TreeView<T>, i: int, d: nat)
    requires WellFormed(t) && Node(t, i)
    ensures AllNodes(t, Enqueued(t, t.childrenIdx(i), d + 1))
    ensures Dfs(t, Always(), i, d) == [State(t, i, d)] + Forest(t, Enqueued(t, t.childrenIdx(i), d + 1))
  {
    DfsEachIsForest(t, i, t.childrenIdx(i), d + 1);
    assert Always()(State(t, i, d));
  }

  /** One step of `bfs` does one unit of the remaining work: the front entry
      is visited and the rest is what its children and the other entries
      still hold. */
  lemma BfsStep<T>(t: TreeView<T>, q: seq<(int, nat)>)
    requires WellFormed(t) && AllNodes(t, q) && q != []
    ensures multiset(Forest(t, q)) == multiset{State(t, q[0].0, q[0].1)} + multiset(Forest(t, NextQueue(t, q)))
    ensures |Forest(t, q)| == 1 + |Forest(t, NextQueue(t, q))|
  {
    var s := State(t, q[0].0, q[0].1);
    var below, others := ForestRotate(t, q);
    calc {
      multiset(Forest(t, q));
      multiset([s]) + multiset(below) + multiset(others);
      multiset{s} + multiset(others + below);
    }
  }

  /** One step of `bfs` moves the front entry's subtrees from the front of
      the remaining work to its back. */
  lemma ForestRotate<T>(t: TreeView<T>, q: seq<(int, nat)>) returns (below: seq<TraverseState<T>>, others: seq<TraverseState<T>>)
    requires WellFormed(t) && AllNodes(t, q) && q != []
    ensures Forest(t, q) == [State(t, q[0].0, q[0].1)] + below + others
    ensures Forest(t, NextQueue(t, q)) == others + below
  {
    var kids := Enqueued(t, t.childrenIdx(q[0].0), q[0].1 + 1);
    var rest := q[1..];
    assert AllNodes(t, rest);
    ForestFront(t, q);
    below, others := Forest(t, kids), Forest(t, rest);
    ForestAppend(t, rest, kids);
  }

  /** What a breadth-first traversal has left to do shrinks with every step. */
  lemma ForestShrinks<T>(t: TreeView<T>, q: seq<(int, nat)>)
    requires WellFormed(t) && AllNodes(t, q) && q != []
    ensures |Forest(t, NextQueue(t, q))| < |Forest(t, q)|
  {
    BfsStep(t, q);
  }

  /** The `while queue` loop of `bfs`, from the queue `q` of (index, depth)
      entries: visit the front entry; stop if the action says so, otherwise
      queue its accepted children one level deeper and go on. */
  function BfsFrom<T>(t: TreeView<T>, action: TraverseState<T> -> bool, q: seq<(int, nat)>): (visits: seq<TraverseState<T>>)
    requires WellFormed(t) && AllNodes(t, q)
    ensures q != [] ==> visits != [] && visits[0] == State(t, q[0].0, q[0].1)
    decreases |Forest(t, q)|
  {
    if q == [] then []
    else
      var s := State(t, q[0].0, q[0].1);
      if !action(s) then [s]
      else
        BfsStep(t, q);
        [s] + BfsFrom(t, action, NextQueue(t, q))
  }

  lemma BfsUnfold<T>(t: TreeView<T>, action: TraverseState<T> -> bool, q: seq<(int, nat)>)
    requires WellFormed(t) && AllNodes(t, q) && q != []
    ensures BfsFrom(t, action, q)
         == if action(State(t, q[0].0, q[0].1)) then [State(t, q[0].0, q[0].1)] + BfsFrom(t, action, NextQueue(t, q))
            else [State(t, q[0].0, q[0].1)]
  {
  }

  /** `bfs(action)`: nothing when `root()` is `Nothing`, otherwise the queue
      loop from `root_idx()` at depth 0. */
  function BfsTree<T>(t: TreeView<T>, action: TraverseState<T> -> bool): (visits: seq<TraverseState<T>>)
    requires WellFormed(t)
    ensures !Truthy(t.root) <==> visits == []
    ensures visits != [] ==> visits[0] == State(t, t.rootIdx, 0)
  {
    if !Truthy(t.root) then [] else BfsFrom(t, action, [(t.rootIdx, 0)])
  }

  /** The queue and the depth queue side by side, as (index, depth) entries. */
  function Zip(queue: seq<int>, depths: seq<nat>): (q: seq<(int, nat)>)
    requires |queue| == |depths|
    ensures |q| == |queue|
  {
    if queue == [] then [] else [(queue[0], depths[0])] + Zip(queue[1..], depths[1..])
  }

  lemma {:induction false} ZipSnoc(queue: seq<int>, depths: seq<nat>, i: int, d: nat)
    requires |queue| == |depths|
    ensures Zip(queue + [i], depths + [d]) == Zip(queue, depths) + [(i, d)]
  {
    if queue != [] {
      assert (queue + [i])[1..] == queue[1..] + [i];
      assert (depths + [d])[1..] == depths[1..] + [d];
      ZipSnoc(queue[1..], depths[1..], i, d);
    }
  }

  /** The `for child in self.children_idx(current)` loop of `bfs`: each child
      that `get` accepts goes to the back of the queue, one level deeper. */
  method EnqueueChildren<T>(t: TreeView<T>, current: int, depth: nat, queue: seq<int>, depthQueue: seq<nat>)
      returns (queue': seq<int>, depthQueue': seq<nat>)
    requires |queue| == |depthQueue|
    ensures |queue'| == |depthQueue'|
    ensures Zip(queue', depthQueue') == Zip(queue, depthQueue) + Enqueued(t, t.childrenIdx(current), depth + 1)
  {
    queue', depthQueue' := queue, depthQueue;
    var children := t.childrenIdx(current);
    for k := 0 to |children|
      invariant |queue'| == |depthQueue'|
      invariant Zip(queue', depthQueue') == Zip(queue, depthQueue) + Enqueued(t, children[..k], depth + 1)
    {
      var child := children[k];
      assert children[..k + 1] == children[..k] + [child];
      EnqueuedSnoc(t, children[..k], child, depth + 1);
      if !Truthy(t.get(child)) {
        continue;
      }
      ZipSnoc(queue', depthQueue', child, depth + 1);
      queue' := queue' + [child];
      depthQueue' := depthQueue' + [depth + 1];
    }
    assert children[..|children|] == children;
  }

  lemma AppendAssociative<X>(a: seq<X>, b: seq<X>, c: seq<X>)
    ensures (a + b) + c == a + (b + c)
  {
  }

  /** `bfs` itself, over its two queues; the result is the sequence of states
      the action was called with. */
  method Bfs<T>(t: TreeView<T>, action: TraverseState<T> -> bool) returns (visits: seq<TraverseState<T>>)
    requires WellFormed(t)
    ensures visits == BfsTree(t, action)
  {
    visits := [];
    if !Truthy(t.root) {
      return;
    }
    var root := t.rootIdx;
    var queue := [root];
    var depthQueue: seq<nat> := [0];
    assert Zip(queue, depthQueue) == [(t.rootIdx, 0)];
    while queue != []
      invariant |queue| == |depthQueue| && AllNodes(t, Zip(queue, depthQueue))
      invariant visits + BfsFrom(t, action, Zip(queue, depthQueue)) == BfsTree(t, action)
      decreases |Forest(t, Zip(queue, depthQueue))|
    {
      ghost var q, before := Zip(queue, depthQueue), visits;
      var current := queue[0];
      queue := queue[1..];
      var depth := depthQueue[0];
      depthQueue := depthQueue[1..];
      assert Zip(queue, depthQueue) == q[1..] && q[0] == (current, depth);
      NextQueueAt(t, q, current, depth);
      var state := TraverseState(current, Item(t, current), depth);
      visits := visits + [state];
      BfsUnfold(t, action, q);
      if !action(state) {
        break;
      }
      queue, depthQueue := EnqueueChildren(t, current, depth, queue, depthQueue);
      BfsStep(t, q);
      AppendAssociative(before, [state], BfsFrom(t, action, NextQueue(t, q)));
    }
  }
}
