/** zpy/classes/collections/graph/complete_binary_tree.py: an `Array` read as
    a complete binary tree, the children of slot `i` in slots `2i+1` and
    `2i+2`. Every method is index arithmetic over the underlying sequence. */
module CompleteBinaryTrees {
  import opened Results
  import opened Maybes
  import Arrays
  import opened Trees
  import TreeLaws

  /** `root_idx()`: the root is slot 0. */
  const RootIdx: int := 0

  /** `parent_idx(idx)`: raises for the root, otherwise `(idx + 1) // 2 - 1`
      (Python's floor division, which Dafny's `/` agrees with for a positive
      divisor). */
  function ParentIdx(idx: int): (r: Result<int>)
    ensures r.Raise? <==> idx == RootIdx
    ensures r.Raise? ==> r.error == IndexError("no parent for root")
    ensures 0 < idx ==> r.Ok? && 0 <= r.value < idx
  {
    if idx == RootIdx then Raise(IndexError("no parent for root")) else Ok((idx + 1) / 2 - 1)
  }

  /** `children_idx(idx)`: the left child, then the right one. */
  function ChildrenIdx(idx: int): (r: seq<int>)
    ensures r == [2 * idx + 1, 2 * idx + 2]
  {
    Arrays.Of([2 * idx + 1, 2 * idx + 2])
  }

  /** The parent of each child is the node it came from. The one exception
      is slot -1, whose right child index is the root's, 0. */
  lemma ParentOfChild(idx: int, c: int)
    requires idx != -1 && c in ChildrenIdx(idx)
    ensures ParentIdx(c) == Ok(idx)
  {
  }

  /** Conversely, every slot but the root is a child of its parent. */
  lemma ChildOfParent(c: int)
    requires c != RootIdx
    ensures ParentIdx(c).Ok? && c in ChildrenIdx(ParentIdx(c).value)
  {
  }

  /** The lookup the tree traversals use: `get(idx)`. Python raises
      IndexError below `-len(self)`; no traversal reaches such an index, and
      the lookup answers `Nothing` there. */
  function Lookup<T>(s: seq<T>, idx: int): (r: Maybe<T>)
    ensures idx >= -|s| ==> r == Arrays.Get(s, idx)
    ensures 0 <= idx ==> (r.Just? <==> idx < |s|)
  {
    if idx < -|s| then Nothing else Arrays.Get(s, idx)
  }

  /** `root()`: `Nothing` exactly when the array is empty, otherwise the first item. */
  function Root<T>(s: seq<T>): (r: Maybe<T>)
    ensures r == Nothing <==> s == []
    ensures s != [] ==> r == Just(s[0])
  {
    Arrays.Get(s, RootIdx)
  }

  /** `parent(idx)`: `Nothing` for the root, otherwise `get` at the parent
      slot. */
  function Parent<T>(s: seq<T>, idx: int): (r: Maybe<T>)
    requires idx == RootIdx || -|s| <= ParentIdx(idx).value
    ensures idx == RootIdx ==> r == Nothing
    ensures 0 < idx < |s| ==> r == Just(s[(idx + 1) / 2 - 1])
  {
    if idx == RootIdx then Nothing else Arrays.Get(s, ParentIdx(idx).value)
  }

  /** `children(idx)`: the items at the child slots that are below `len`,
      left before right. */
  function Children<T>(s: seq<T>, idx: int): (r: seq<T>)
    requires -|s| <= 2 * idx + 1
    ensures 0 <= idx ==> r == (if 2 * idx + 1 < |s| then [s[2 * idx + 1]] else [])
                              + (if 2 * idx + 2 < |s| then [s[2 * idx + 2]] else [])
  {
    var f := (c: int) => Iter(Lookup(s, c));
    var cs := ChildrenIdx(idx);
    var r := Arrays.FlatMap(cs, f);
    var m := Arrays.Map(cs, f);
    assert m == [f(cs[0])] + [f(cs[1])];
    assert m[1..] == [f(cs[1])] && m[1..][1..] == [];
    assert Arrays.Concat(m[1..]) == f(cs[1]) + Arrays.Concat([]);
    assert Arrays.Concat(m) == f(cs[0]) + f(cs[1]);
    r
  }

  /** `sibling(idx)`: `Nothing` for the root; the left neighbour of a right
      child (an even slot); `Nothing` for a left child in the last slot;
      otherwise the right neighbour. */
  function Sibling<T>(s: seq<T>, idx: int): (r: Maybe<T>)
    requires idx == RootIdx ||
             ((idx % 2 == 0 ==> -|s| <= idx - 1 < |s|) &&
              (idx % 2 == 1 && idx != |s| - 1 ==> -|s| <= idx + 1 < |s|))
    ensures idx == RootIdx ==> r == Nothing
    ensures 0 < idx && idx % 2 == 0 ==> r == Just(s[idx - 1])
    ensures idx % 2 == 1 && idx == |s| - 1 ==> r == Nothing
    ensures 0 <= idx && idx % 2 == 1 && idx != |s| - 1 ==> r == Just(s[idx + 1])
  {
    if idx == RootIdx then Nothing
    else if idx % 2 == 0 then Just(Arrays.At(s, idx - 1))
    else if idx == |s| - 1 then Nothing
    else Just(Arrays.At(s, idx + 1))
  }

  /** A sibling is the other child of the same parent. */
  lemma SiblingSharesParent<T>(s: seq<T>, idx: int)
    requires 0 < idx < |s| && (idx % 2 == 0 || idx + 1 < |s|)
    ensures Sibling(s, idx).Just?
    ensures var j := if idx % 2 == 0 then idx - 1 else idx + 1;
            j != idx && ParentIdx(j) == ParentIdx(idx) && Sibling(s, idx) == Just(s[j])
  {
  }

  /** The array as a `Tree`: `measure` is the distance to the end. */
  function View<T>(s: seq<T>): (t: TreeView<T>)
    ensures t.root == Root(s) && t.rootIdx == RootIdx && t.childrenIdx == ChildrenIdx
  {
    TreeView(Root(s), RootIdx, ChildrenIdx, (i: int) => Lookup(s, i),
             (i: int) => if 0 <= i <= |s| then |s| - i else 0)
  }

  /** The slots a traversal may visit are those of the array, and `self[idx]`
      there is the item `get` finds. */
  lemma ViewNodes<T>(s: seq<T>, i: int)
    ensures Node(View(s), i) <==> 0 <= i < |s|
    ensures 0 <= i < |s| ==> Item(View(s), i) == s[i]
  {
  }

  /** The array is a tree the traversals accept: every child the lookup
      accepts is further along. */
  lemma ViewWellFormed<T>(s: seq<T>)
    ensures WellFormed(View(s))
  {
    var t := View(s);
    forall i, k | Node(t, i) && 0 <= k < |t.childrenIdx(i)| && t.get(t.childrenIdx(i)[k]).Just?
      ensures 0 <= t.childrenIdx(i)[k] && t.measure(t.childrenIdx(i)[k]) < t.measure(i)
    {
    }
  }

  /** No slot has two parents, and no slot is listed twice as a child. */
  lemma ViewUniqueParents<T>(s: seq<T>)
    ensures TreeLaws.UniqueParents(View(s))
  {
    var t := View(s);
    forall i, j, c | Node(t, i) && Node(t, j) && t.get(c).Just? && c in t.childrenIdx(i) && c in t.childrenIdx(j)
      ensures i == j
    {
      ParentOfChild(i, c);
      ParentOfChild(j, c);
    }
  }

  // ---------------------------------------------------------------------------
  // Breadth-first order is slot order

  function Pow2(n: nat): (r: nat)
    ensures 1 <= r
  {
    if n == 0 then 1 else 2 * Pow2(n - 1)
  }

  /** The level of slot `i`: how many `parent_idx` steps lead up to the root. */
  function Level(i: nat): nat
  {
    if i == 0 then 0 else Level((i + 1) / 2 - 1) + 1
  }

  /** Level `l` holds the `2^l` slots from `2^l - 1` on: the level of a slot
      is the floor of `log2(i + 1)`. */
  lemma {:induction false} LevelBounds(i: nat)
    ensures Pow2(Level(i)) <= i + 1 < Pow2(Level(i) + 1)
  {
    if i > 0 {
      var p := (i + 1) / 2 - 1;
      LevelBounds(p);
    }
  }

  lemma LevelOfChild(i: nat)
    ensures Level(2 * i + 1) == Level(i) + 1 && Level(2 * i + 2) == Level(i) + 1
  {
    assert (2 * i + 1 + 1) / 2 - 1 == i;
    assert (2 * i + 2 + 1) / 2 - 1 == i;
  }

  /** A `bfs` queue holding the slots from `lo` up to `hi`, each at its level. */
  function Slots(lo: nat, hi: nat): (q: seq<(int, nat)>)
    ensures |q| == if lo <= hi then hi - lo else 0
  {
    if hi <= lo then [] else seq(hi - lo, (j: nat) => (lo + j, Level(lo + j)))
  }

  lemma SlotsAppend(lo: nat, mid: nat, hi: nat)
    requires lo <= mid <= hi
    ensures Slots(lo, mid) + Slots(mid, hi) == Slots(lo, hi)
  {
    var a, b, c := Slots(lo, mid), Slots(mid, hi), Slots(lo, hi);
    forall j | 0 <= j < |c|
      ensures (a + b)[j] == c[j]
    {
      if j >= |a| {
        assert (a + b)[j] == b[j - |a|];
      }
    }
  }

  function Min(a: int, b: int): int
  {
    if a <= b then a else b
  }

  /** What breadth-first order over slots needs of a tree: it is well formed,
      its children are those of `children_idx`, and the indices a traversal
      may visit are exactly the slots `0` to `n - 1`. */
  ghost predicate SlotTree<T>(t: TreeView<T>, n: nat)
  {
    WellFormed(t) && t.childrenIdx == ChildrenIdx && forall i :: Node(t, i) <==> 0 <= i < n
  }

  /** The array's view is such a tree, with `n` its length. */
  lemma ViewIsSlotTree<T>(s: seq<T>)
    ensures SlotTree(View(s), |s|)
  {
    ViewWellFormed(s);
    forall i
      ensures Node(View(s), i) <==> 0 <= i < |s|
    {
      ViewNodes(s, i);
    }
  }

  /** The `bfs` queue while slot `k` is at its front: the slots from `k` up
      to `2k + 1` (the children of the slots before `k`), each at its level. */
  function Window(n: nat, k: nat): (q: seq<(int, nat)>)
    ensures k < n ==> q != [] && q[0] == (k, Level(k))
  {
    Slots(k, Min(2 * k + 1, n))
  }

  lemma WindowNodes<T>(t: TreeView<T>, n: nat, k: nat)
    requires SlotTree(t, n)
    ensures AllNodes(t, Window(n, k))
  {
    var q := Window(n, k);
    forall j | 0 <= j < |q|
      ensures Node(t, q[j].0)
    {
      assert q[j].0 == k + j;
    }
  }

  lemma TwoSlots(l: nat, n: nat)
    ensures Slots(l, Min(l + 2, n))
         == (if l < n then [(l as int, Level(l))] else []) + (if l + 1 < n then [(l + 1, Level(l + 1))] else [])
  {
    if l + 1 < n {
      assert Slots(l, l + 2) == [(l as int, Level(l))] + Slots(l + 1, l + 2);
    }
  }

  /** The children `bfs` queues for slot `k` are the slots `2k + 1` and
      `2k + 2` that exist, one level below `k`. */
  lemma EnqueuedSlots<T>(t: TreeView<T>, n: nat, k: nat)
    requires SlotTree(t, n)
    ensures Enqueued(t, ChildrenIdx(k), Level(k) + 1) == Slots(2 * k + 1, Min(2 * k + 3, n))
  {
    var l, r, d := 2 * k + 1, 2 * k + 2, Level(k) + 1;
    LevelOfChild(k);
    var cs := ChildrenIdx(k);
    assert cs == [l, r] && cs[1..] == [r] && cs[1..][1..] == [];
    assert Node(t, l) <==> l < n;
    assert Node(t, r) <==> r < n;
    var right := Enqueued(t, [r], d);
    assert right == (if r < n then [(r, d)] else []) + Enqueued(t, [], d);
    var e := Enqueued(t, cs, d);
    assert e == (if l < n then [(l, d)] else []) + right;
    TwoSlots(l, n);
    var want := Slots(l, Min(l + 2, n));
    assert l + 2 == 2 * k + 3 && Level(l) == d && Level(l + 1) == d;
    if n <= l {
      assert e == [] && want == [];
    } else if n == r {
      assert e == [(l, d)] && want == [(l, d)];
    } else {
      assert e == [(l, d), (r, d)] && want == [(l, d), (r, d)];
    }
  }

  /** One step of `bfs` moves the window of queued slots one slot along. */
  lemma NextWindow<T>(t: TreeView<T>, n: nat, k: nat)
    requires SlotTree(t, n) && k < n
    ensures AllNodes(t, Window(n, k))
    ensures NextQueue(t, Window(n, k)) == Window(n, k + 1)
  {
    WindowNodes(t, n, k);
    NextQueueAt(t, Window(n, k), k, Level(k));
    EnqueuedSlots(t, n, k);
    WindowStep(n, k);
  }

  /** Dropping slot `k` from the window and appending its child slots gives
      the window of `k + 1`. */
  lemma WindowStep(n: nat, k: nat)
    requires k < n
    ensures Window(n, k)[1..] + Slots(2 * k + 1, Min(2 * k + 3, n)) == Window(n, k + 1)
  {
    var hi, top := Min(2 * k + 1, n), Min(2 * k + 3, n);
    var rest, kids := Slots(k + 1, hi), Slots(2 * k + 1, top);
    SlotsTail(k, hi);
    if 2 * k + 1 <= n {
      SlotsAppend(k + 1, 2 * k + 1, top);
    } else {
      assert kids == [] && hi == top;
      assert rest + kids == rest;
    }
  }

  lemma SlotsTail(lo: nat, hi: nat)
    requires lo < hi
    ensures Slots(lo, hi)[1..] == Slots(lo + 1, hi)
  {
    var a, b := Slots(lo, hi)[1..], Slots(lo + 1, hi);
    forall j | 0 <= j < |b|
      ensures a[j] == b[j]
    {
      assert a[j] == Slots(lo, hi)[j + 1];
    }
  }

  /** The visits of the slots from `lo` on, in slot order, each at its level. */
  ghost function SlotOrder<T>(t: TreeView<T>, n: nat, lo: nat): (v: seq<TraverseState<T>>)
    requires SlotTree(t, n)
    ensures |v| == if lo <= n then n - lo else 0
  {
    if n <= lo then []
    else seq(n - lo, (j: int) requires 0 <= j < n - lo => State(t, lo + j, Level(lo + j)))
  }

  lemma SlotOrderCons<T>(t: TreeView<T>, n: nat, k: nat)
    requires SlotTree(t, n) && k < n
    ensures SlotOrder(t, n, k) == [State(t, k, Level(k))] + SlotOrder(t, n, k + 1)
  {
    var v, w := SlotOrder(t, n, k), [State(t, k, Level(k))] + SlotOrder(t, n, k + 1);
    forall j | 0 <= j < |v|
      ensures v[j] == w[j]
    {
      if j > 0 {
        assert w[j] == SlotOrder(t, n, k + 1)[j - 1];
      }
    }
  }

  /** From the window at `k`, `bfs` visits every slot from `k` on, in slot order. */
  lemma {:induction false} BfsFromWindow<T>(t: TreeView<T>, n: nat, k: nat)
    requires SlotTree(t, n) && k <= n
    ensures AllNodes(t, Window(n, k))
    ensures BfsFrom(t, Always(), Window(n, k)) == SlotOrder(t, n, k)
    decreases n - k
  {
    WindowNodes(t, n, k);
    if k < n {
      var q, head := Window(n, k), [State(t, k, Level(k))];
      NextWindow(t, n, k);
      BfsUnfold(t, Always(), q);
      BfsFromWindow(t, n, k + 1);
      SlotOrderCons(t, n, k);
      calc {
        BfsFrom(t, Always(), q);
        head + BfsFrom(t, Always(), Window(n, k + 1));
        head + SlotOrder(t, n, k + 1);
      }
    } else {
      assert Window(n, k) == [];
    }
  }

  /** The visits of the array's slots in slot order, each at its level. */
  function InSlotOrder<T>(s: seq<T>): (v: seq<TraverseState<T>>)
    ensures |v| == |s|
  {
    seq(|s|, (i: int) requires 0 <= i < |s| => TraverseState(i, s[i], Level(i)))
  }

  /** `bfs` over a complete binary tree, never stopped, visits the slots of
      the array in order, `0` to `len - 1`, each at its level. */
  lemma BfsIsSlotOrder<T>(s: seq<T>)
    ensures WellFormed(View(s))
    ensures BfsTree(View(s), Always()) == InSlotOrder(s)
  {
    var t, n := View(s), |s|;
    ViewIsSlotTree(s);
    if s != [] {
      BfsFromWindow(t, n, 0);
      assert Window(n, 0) == [(RootIdx, 0)];
      var v, w := SlotOrder(t, n, 0), InSlotOrder(s);
      forall i | 0 <= i < n
        ensures v[i] == w[i]
      {
        ViewNodes(s, i);
        assert v[i] == State(t, i, Level(i));
      }
    }
  }
}
