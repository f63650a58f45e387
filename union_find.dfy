/** A model of `zpy/classes/collections/graph/union_find.py`: a disjoint-set
    forest over the indices `0` to `n - 1`, kept in two arrays. `uf[i]` is
    either negative, marking `i` as a root whose set has `-uf[i]` members, or
    the index of `i`'s parent; `ranks[i]` is the union-by-rank weight. The
    forest also keeps the set `roots` of the indices whose link is negative.
    `trees()` exposes each set as a tree whose children are the indices
    linking to a node. */
module UnionFinds {
  import opened Results
  import opened Maybes
  import opened Trees
  import TreeLaws

  // ---------------------------------------------------------------------------
  // The links as values

  function MaxOf(s: seq<int>): (m: int)
    ensures forall i :: 0 <= i < |s| ==> s[i] <= m
  {
    if s == [] then 0
    else
      var m := MaxOf(s[1..]);
      if s[0] < m then m else s[0]
  }

  /** The shape `root` relies on: every link is a root marker or an index,
      every rank is at least 1, and a parent outranks its child, so that
      following the links always ends at a root. */
  ghost predicate Linked(uf: seq<int>, ranks: seq<int>)
  {
    |uf| == |ranks| &&
    (forall i :: 0 <= i < |uf| ==> uf[i] < |uf|) &&
    (forall i :: 0 <= i < |ranks| ==> 1 <= ranks[i]) &&
    (forall i :: 0 <= i < |uf| && 0 <= uf[i] ==> ranks[i] < ranks[uf[i]])
  }

  /** `root(x)`: follow the links from `x` until one is negative. It ends at
      an index whose link marks a root, outranking every index on the way;
      it stays at `x` exactly when `x` is a root. */
  function Find(uf: seq<int>, ranks: seq<int>, x: int): (r: int)
    requires Linked(uf, ranks) && 0 <= x < |uf|
    ensures 0 <= r < |uf| && uf[r] < 0
    ensures 0 <= uf[x] ==> ranks[x] < ranks[r]
    ensures r == x <==> uf[x] < 0
    decreases MaxOf(ranks) - ranks[x]
  {
    if uf[x] < 0 then x else Find(uf, ranks, uf[x])
  }

  /** The ranks only bound the walk: two rankings that both fit the links
      lead `root` to the same place. */
  lemma {:induction false} FindIgnoresRanks(uf: seq<int>, ranks: seq<int>, ranks': seq<int>, x: int)
    requires Linked(uf, ranks) && Linked(uf, ranks') && 0 <= x < |uf|
    ensures Find(uf, ranks, x) == Find(uf, ranks', x)
    decreases MaxOf(ranks) - ranks[x]
  {
    if 0 <= uf[x] {
      FindIgnoresRanks(uf, ranks, ranks', uf[x]);
    }
  }

  /** The indices whose root is `r`: the set that `r` stands for. */
  ghost function Members(uf: seq<int>, ranks: seq<int>, r: int): set<int>
    requires Linked(uf, ranks)
  {
    set j | 0 <= j < |uf| && Find(uf, ranks, j) == r
  }

  /** The indices whose link marks a root. */
  function RootSet(uf: seq<int>): (roots: set<int>)
    ensures forall r :: r in roots <==> 0 <= r < |uf| && uf[r] < 0
  {
    set r | 0 <= r < |uf| && uf[r] < 0
  }

  /** What a root contributes to the sum of the sizes. */
  function Weight(link: int): nat
  {
    if link < 0 then -link else 0
  }

  /** The sum of `-uf[r]` over the roots `r` from position `k` on. */
  function Total(uf: seq<int>, k: nat := 0): nat
    decreases |uf| - k
  {
    if |uf| <= k then 0 else Weight(uf[k]) + Total(uf, k + 1)
  }

  /** Changing one link changes the sum by the change in its weight. */
  lemma {:induction false} TotalUpdate(uf: seq<int>, uf': seq<int>, i: int, k: nat)
    requires |uf'| == |uf| && 0 <= i < |uf| && k <= i
    requires forall j :: 0 <= j < |uf| && j != i ==> uf'[j] == uf[j]
    ensures Total(uf', k) == Total(uf, k) - Weight(uf[i]) + Weight(uf'[i])
    decreases |uf| - k
  {
    if k < i {
      TotalUpdate(uf, uf', i, k + 1);
    } else if k + 1 < |uf| {
      TotalSame(uf, uf', k + 1);
    }
  }

  lemma {:induction false} TotalSame(uf: seq<int>, uf': seq<int>, k: nat)
    requires |uf'| == |uf| && forall j :: k <= j < |uf| ==> Weight(uf'[j]) == Weight(uf[j])
    ensures Total(uf', k) == Total(uf, k)
    decreases |uf| - k
  {
    if k < |uf| {
      TotalSame(uf, uf', k + 1);
    }
  }

  /** What `UnionFind` keeps true: the links have the shape `root` needs,
      each root's negative link counts exactly the members of its set, and
      the sizes of all the sets add up to `n`. */
  ghost predicate Partition(uf: seq<int>, ranks: seq<int>)
  {
    Linked(uf, ranks) &&
    (forall r {:trigger Members(uf, ranks, r)} :: r in RootSet(uf) ==> -uf[r] == |Members(uf, ranks, r)|) &&
    Total(uf) == |uf|
  }

  // ---------------------------------------------------------------------------
  // __init__

  /** The links and ranks `__init__(n)` makes: `n` roots of size 1 and rank 1
      (none when `n` is not positive, as `repeat` then yields nothing). */
  function Singletons(n: int): (uf: seq<int>)
    ensures |uf| == if n < 0 then 0 else n
    ensures forall i :: 0 <= i < |uf| ==> uf[i] == -1
  {
    if n <= 0 then [] else seq(n, _ => -1)
  }

  function UnitRanks(n: int): (ranks: seq<int>)
    ensures |ranks| == if n < 0 then 0 else n
    ensures forall i :: 0 <= i < |ranks| ==> ranks[i] == 1
  {
    if n <= 0 then [] else seq(n, _ => 1)
  }

  lemma {:induction false} TotalOfSingletons(uf: seq<int>, k: nat)
    requires k <= |uf| && forall i :: 0 <= i < |uf| ==> uf[i] == -1
    ensures Total(uf, k) == |uf| - k
    decreases |uf| - k
  {
    if k < |uf| {
      TotalOfSingletons(uf, k + 1);
    }
  }

  /** After `__init__(n)` every index is a root of its own one-member set,
      with rank 1, and the roots are `0` to `n - 1`. */
  lemma InitPartition(n: int)
    ensures Partition(Singletons(n), UnitRanks(n))
    ensures forall i :: 0 <= i < |Singletons(n)| ==>
      Find(Singletons(n), UnitRanks(n), i) == i && Members(Singletons(n), UnitRanks(n), i) == {i}
    ensures forall i :: i in RootSet(Singletons(n)) <==> 0 <= i < n
  {
    var uf, ranks := Singletons(n), UnitRanks(n);
    assert Linked(uf, ranks);
    forall i | 0 <= i < |uf|
      ensures Members(uf, ranks, i) == {i}
    {
    }
    TotalOfSingletons(uf, 0);
  }

  /** `set(range(n))`. */
  function Range(n: int): (r: set<int>)
    ensures forall i :: i in r <==> 0 <= i < n
    decreases if n < 0 then 0 else n
  {
    if n <= 0 then {} else Range(n - 1) + {n - 1}
  }

  // ---------------------------------------------------------------------------
  // unite

  /** The root that survives `unite` of the roots `x` and `y`. */
  function Survivor(ranks: seq<int>, x: int, y: int): (w: int)
    requires 0 <= x < |ranks| && 0 <= y < |ranks|
    ensures (w == x || w == y) && ranks[x] <= ranks[w] && ranks[y] <= ranks[w]
    ensures ranks[x] == ranks[y] ==> w == x
  {
    if ranks[x] < ranks[y] then y else x
  }

  /** The root that `unite` of the roots `x` and `y` hangs below the other. */
  function Absorbed(ranks: seq<int>, x: int, y: int): (l: int)
    requires 0 <= x < |ranks| && 0 <= y < |ranks|
    ensures {l, Survivor(ranks, x, y)} == {x, y}
    ensures ranks[l] <= ranks[x] && ranks[l] <= ranks[y]
  {
    if ranks[x] < ranks[y] then x else y
  }

  /** The links after `unite` has hung root `l` below root `w`: `w` counts
      both sets and `l` points to `w`. */
  function LinkLinks(uf: seq<int>, w: int, l: int): (r: seq<int>)
    requires 0 <= w < |uf| && 0 <= l < |uf|
    ensures |r| == |uf| && r[l] == w
    ensures w != l ==> -r[w] == -uf[w] + -uf[l]
    ensures forall k :: 0 <= k < |uf| && k != w && k != l ==> r[k] == uf[k]
  {
    uf[w := uf[w] + uf[l]][l := w]
  }

  /** The ranks after `unite` has hung root `l` below root `w`. */
  function LinkRanks(ranks: seq<int>, w: int, l: int): (r: seq<int>)
    requires 0 <= w < |ranks| && 0 <= l < |ranks|
    ensures |r| == |ranks| && ranks[w] <= r[w] <= ranks[w] + 1
    ensures ranks[l] <= ranks[w] ==> ranks[l] < r[w]
    ensures forall k :: 0 <= k < |ranks| && k != w ==> r[k] == ranks[k]
  {
    if ranks[w] == ranks[l] then ranks[w := ranks[w] + 1] else ranks
  }

  /** The survivor is the root of the higher rank, `x`'s root on a tie; its
      rank goes up by exactly one on a tie and not otherwise, and no other
      rank changes. */
  lemma SurvivorRanks(ranks: seq<int>, x: int, y: int)
    requires 0 <= x < |ranks| && 0 <= y < |ranks|
    ensures var w, l := Survivor(ranks, x, y), Absorbed(ranks, x, y);
      {w, l} == {x, y} && ranks[l] <= ranks[w] && (ranks[x] == ranks[y] ==> w == x) &&
      LinkRanks(ranks, w, l)[w] == (if ranks[x] == ranks[y] then ranks[w] + 1 else ranks[w]) &&
      forall i :: 0 <= i < |ranks| && i != w ==> LinkRanks(ranks, w, l)[i] == ranks[i]
  {
  }

  /** Hanging root `l` below root `w` of no lower rank keeps the links in
      shape, and sends everything `l` reached to `w`, leaving every other
      index's root alone. */
  lemma {:induction false} LinkFind(uf: seq<int>, ranks: seq<int>, w: int, l: int, j: int)
    requires Linked(uf, ranks) && 0 <= w < |uf| && 0 <= l < |uf| && w != l
    requires uf[w] < 0 && uf[l] < 0 && ranks[l] <= ranks[w]
    requires 0 <= j < |uf|
    ensures Linked(LinkLinks(uf, w, l), LinkRanks(ranks, w, l))
    ensures Find(LinkLinks(uf, w, l), LinkRanks(ranks, w, l), j)
         == if Find(uf, ranks, j) == l then w else Find(uf, ranks, j)
    decreases MaxOf(ranks) - ranks[j]
  {
    LinkLinked(uf, ranks, w, l);
    var uf', ranks' := LinkLinks(uf, w, l), LinkRanks(ranks, w, l);
    if 0 <= uf[j] {
      assert uf'[j] == uf[j];
      LinkFind(uf, ranks, w, l, uf[j]);
    } else if j == l {
      assert uf'[l] == w && uf'[w] < 0;
    } else {
      assert uf'[j] < 0;
    }
  }

  lemma LinkLinked(uf: seq<int>, ranks: seq<int>, w: int, l: int)
    requires Linked(uf, ranks) && 0 <= w < |uf| && 0 <= l < |uf| && w != l
    requires uf[w] < 0 && uf[l] < 0 && ranks[l] <= ranks[w]
    ensures Linked(LinkLinks(uf, w, l), LinkRanks(ranks, w, l))
  {
    var uf', ranks' := LinkLinks(uf, w, l), LinkRanks(ranks, w, l);
    forall i | 0 <= i < |uf'| && 0 <= uf'[i]
      ensures ranks'[i] < ranks'[uf'[i]]
    {
      if i != l {
        assert uf'[i] == uf[i] && ranks'[i] == ranks[i];
      }
    }
  }

  /** After the link, `w`'s set is the union of the two old sets, and every
      other root keeps its set. */
  lemma LinkMembers(uf: seq<int>, ranks: seq<int>, w: int, l: int, r: int)
    requires Linked(uf, ranks) && 0 <= w < |uf| && 0 <= l < |uf| && w != l
    requires uf[w] < 0 && uf[l] < 0 && ranks[l] <= ranks[w]
    ensures Linked(LinkLinks(uf, w, l), LinkRanks(ranks, w, l))
    ensures Members(LinkLinks(uf, w, l), LinkRanks(ranks, w, l), r)
         == if r == w then Members(uf, ranks, w) + Members(uf, ranks, l)
            else if r == l then {}
            else Members(uf, ranks, r)
  {
    LinkLinked(uf, ranks, w, l);
    var uf', ranks' := LinkLinks(uf, w, l), LinkRanks(ranks, w, l);
    forall j | 0 <= j < |uf|
      ensures Find(uf', ranks', j) == if Find(uf, ranks, j) == l then w else Find(uf, ranks, j)
    {
      LinkFind(uf, ranks, w, l, j);
    }
  }

  /** After the link every root's negative link still counts its set. */
  lemma LinkSizes(uf: seq<int>, ranks: seq<int>, w: int, l: int)
    requires Partition(uf, ranks) && 0 <= w < |uf| && 0 <= l < |uf| && w != l
    requires uf[w] < 0 && uf[l] < 0 && ranks[l] <= ranks[w]
    ensures Linked(LinkLinks(uf, w, l), LinkRanks(ranks, w, l))
    ensures forall r :: 0 <= r < |uf| && LinkLinks(uf, w, l)[r] < 0 ==>
      -LinkLinks(uf, w, l)[r] == |Members(LinkLinks(uf, w, l), LinkRanks(ranks, w, l), r)|
  {
    var uf', ranks' := LinkLinks(uf, w, l), LinkRanks(ranks, w, l);
    LinkLinked(uf, ranks, w, l);
    forall r | 0 <= r < |uf'| && uf'[r] < 0
      ensures -uf'[r] == |Members(uf', ranks', r)|
    {
      LinkMembers(uf, ranks, w, l, r);
      if r == w {
        var a, b := Members(uf, ranks, w), Members(uf, ranks, l);
        assert a * b == {};
        assert -uf'[w] == |a| + |b|;
      } else {
        assert uf'[r] == uf[r];
      }
    }
  }

  /** After the link the sizes still add up to `n`. */
  lemma LinkTotal(uf: seq<int>, w: int, l: int)
    requires 0 <= w < |uf| && 0 <= l < |uf| && w != l && uf[w] < 0 && uf[l] < 0
    ensures Total(LinkLinks(uf, w, l)) == Total(uf)
  {
    var mid := uf[w := uf[w] + uf[l]];
    TotalUpdate(uf, mid, w, 0);
    TotalUpdate(mid, LinkLinks(uf, w, l), l, 0);
  }

  /** `unite` of two different roots keeps the partition: the survivor's
      size grows by the absorbed size, the absorbed root stops being a root,
      and the sizes still add up to `n`. */
  lemma LinkPartition(uf: seq<int>, ranks: seq<int>, w: int, l: int)
    requires Partition(uf, ranks) && 0 <= w < |uf| && 0 <= l < |uf| && w != l
    requires uf[w] < 0 && uf[l] < 0 && ranks[l] <= ranks[w]
    ensures Partition(LinkLinks(uf, w, l), LinkRanks(ranks, w, l))
    ensures -LinkLinks(uf, w, l)[w] == -uf[w] - uf[l]
    ensures RootSet(LinkLinks(uf, w, l)) == RootSet(uf) - {l}
  {
    LinkSizes(uf, ranks, w, l);
    LinkTotal(uf, w, l);
    var uf' := LinkLinks(uf, w, l);
    forall r
      ensures r in RootSet(uf') <==> r in RootSet(uf) - {l}
    {
      if 0 <= r < |uf| && r != l && r != w {
        assert uf'[r] == uf[r];
      }
    }
  }

  /** The links after `unite(x, y)`: unchanged when `x` and `y` share a
      root, otherwise the absorbed root hung below the survivor. */
  function UnitedLinks(uf: seq<int>, ranks: seq<int>, x: int, y: int): (r: seq<int>)
    requires Linked(uf, ranks) && 0 <= x < |uf| && 0 <= y < |uf|
    ensures |r| == |uf|
    ensures forall k :: 0 <= k < |uf| && 0 <= uf[k] ==> r[k] == uf[k]
  {
    var rx, ry := Find(uf, ranks, x), Find(uf, ranks, y);
    if rx == ry then uf else LinkLinks(uf, Survivor(ranks, rx, ry), Absorbed(ranks, rx, ry))
  }

  /** The ranks after `unite(x, y)`. */
  function UnitedRanks(uf: seq<int>, ranks: seq<int>, x: int, y: int): (r: seq<int>)
    requires Linked(uf, ranks) && 0 <= x < |uf| && 0 <= y < |uf|
    ensures |r| == |ranks|
    ensures forall k :: 0 <= k < |uf| && 0 <= uf[k] ==> r[k] == ranks[k]
  {
    var rx, ry := Find(uf, ranks, x), Find(uf, ranks, y);
    if rx == ry then ranks else LinkRanks(ranks, Survivor(ranks, rx, ry), Absorbed(ranks, rx, ry))
  }

  /** `unite(x, y)` keeps the partition and leaves `x` and `y` with one root,
      whose set counts the members of both old sets (once, if they were
      already one set); when they were already one set nothing changes, and
      otherwise the absorbed root is no longer a root. */
  lemma UniteKeepsPartition(uf: seq<int>, ranks: seq<int>, x: int, y: int)
    requires Partition(uf, ranks) && 0 <= x < |uf| && 0 <= y < |uf|
    ensures Partition(UnitedLinks(uf, ranks, x, y), UnitedRanks(uf, ranks, x, y))
    ensures Find(UnitedLinks(uf, ranks, x, y), UnitedRanks(uf, ranks, x, y), x)
         == Find(UnitedLinks(uf, ranks, x, y), UnitedRanks(uf, ranks, x, y), y)
    ensures -UnitedLinks(uf, ranks, x, y)[Find(UnitedLinks(uf, ranks, x, y), UnitedRanks(uf, ranks, x, y), x)]
         == if Find(uf, ranks, x) == Find(uf, ranks, y) then -uf[Find(uf, ranks, x)]
            else -uf[Find(uf, ranks, x)] - uf[Find(uf, ranks, y)]
    ensures Find(uf, ranks, x) == Find(uf, ranks, y) ==>
      UnitedLinks(uf, ranks, x, y) == uf && UnitedRanks(uf, ranks, x, y) == ranks
    ensures Find(uf, ranks, x) != Find(uf, ranks, y) ==>
      RootSet(UnitedLinks(uf, ranks, x, y))
      == RootSet(uf) - {Absorbed(ranks, Find(uf, ranks, x), Find(uf, ranks, y))}
  {
    var rx, ry := Find(uf, ranks, x), Find(uf, ranks, y);
    if rx != ry {
      var w, l := Survivor(ranks, rx, ry), Absorbed(ranks, rx, ry);
      var uf', ranks' := LinkLinks(uf, w, l), LinkRanks(ranks, w, l);
      assert UnitedLinks(uf, ranks, x, y) == uf' && UnitedRanks(uf, ranks, x, y) == ranks';
      assert {w, l} == {rx, ry} && ranks[l] <= ranks[w];
      LinkPartition(uf, ranks, w, l);
      LinkFind(uf, ranks, w, l, x);
      LinkFind(uf, ranks, w, l, y);
      assert Find(uf', ranks', x) == w == Find(uf', ranks', y);
      assert -uf'[w] == -uf[rx] - uf[ry];
    }
  }

  // ---------------------------------------------------------------------------
  // flatten

  /** The links after `flatten`: every index that is not a root links
      straight to its root; the roots keep their links. */
  function Flattened(uf: seq<int>, ranks: seq<int>): (flat: seq<int>)
    requires Linked(uf, ranks)
    ensures |flat| == |uf|
  {
    seq(|uf|, (i: int) requires 0 <= i < |uf| => if uf[i] < 0 then uf[i] else Find(uf, ranks, i))
  }

  /** One step of `flatten`: pointing a non-root `i` straight at its root
      keeps the links in shape and every index's root where it was. */
  lemma {:induction false} RedirectFind(uf: seq<int>, ranks: seq<int>, i: int, j: int)
    requires Linked(uf, ranks) && 0 <= i < |uf| && 0 <= uf[i] && 0 <= j < |uf|
    ensures Linked(uf[i := Find(uf, ranks, i)], ranks)
    ensures Find(uf[i := Find(uf, ranks, i)], ranks, j) == Find(uf, ranks, j)
    decreases MaxOf(ranks) - ranks[j]
  {
    var uf' := uf[i := Find(uf, ranks, i)];
    assert Linked(uf', ranks);
    if 0 <= uf[j] {
      RedirectFind(uf, ranks, i, uf[j]);
      if j == i {
        RedirectFind(uf, ranks, i, Find(uf, ranks, i));
      }
    }
  }

  /** Two link arrays with the same roots and the same root for every index
      make the same partition. */
  lemma SamePartition(uf: seq<int>, uf': seq<int>, ranks: seq<int>)
    requires Partition(uf, ranks) && Linked(uf', ranks) && |uf'| == |uf|
    requires forall j :: 0 <= j < |uf| ==> Weight(uf'[j]) == Weight(uf[j]) && (uf'[j] < 0 <==> uf[j] < 0)
    requires forall j :: 0 <= j < |uf| ==> Find(uf', ranks, j) == Find(uf, ranks, j)
    ensures Partition(uf', ranks) && RootSet(uf') == RootSet(uf)
    ensures forall r :: Members(uf', ranks, r) == Members(uf, ranks, r)
  {
    TotalSame(uf, uf', 0);
    forall r | 0 <= r < |uf'| && uf'[r] < 0
      ensures -uf'[r] == |Members(uf', ranks, r)|
    {
      assert Members(uf', ranks, r) == Members(uf, ranks, r);
    }
  }

  /** Every non-root link `flatten` writes points at an index of higher rank. */
  lemma FlattenedLinked(uf: seq<int>, ranks: seq<int>)
    requires Linked(uf, ranks)
    ensures Linked(Flattened(uf, ranks), ranks)
  {
  }

  /** After `flatten` every index has the root it had, the roots keep their
      sizes, and every index that is not a root links directly to its root. */
  lemma FlattenedFind(uf: seq<int>, ranks: seq<int>, j: int)
    requires Linked(uf, ranks) && 0 <= j < |uf|
    ensures Linked(Flattened(uf, ranks), ranks)
    ensures Find(Flattened(uf, ranks), ranks, j) == Find(uf, ranks, j)
    ensures Flattened(uf, ranks)[j] < 0 <==> uf[j] < 0
    ensures uf[j] < 0 ==> Flattened(uf, ranks)[j] == uf[j]
    ensures 0 <= Flattened(uf, ranks)[j] ==> Flattened(uf, ranks)[j] == Find(Flattened(uf, ranks), ranks, j)
  {
    var flat := Flattened(uf, ranks);
    FlattenedLinked(uf, ranks);
    if 0 <= uf[j] {
      var r := Find(uf, ranks, j);
      assert flat[r] == uf[r];
    }
  }

  /** `flatten` keeps the partition: the same roots, with the same sizes and
      the same sets. */
  lemma FlattenedPartition(uf: seq<int>, ranks: seq<int>)
    requires Partition(uf, ranks)
    ensures Partition(Flattened(uf, ranks), ranks) && RootSet(Flattened(uf, ranks)) == RootSet(uf)
    ensures forall r :: Members(Flattened(uf, ranks), ranks, r) == Members(uf, ranks, r)
  {
    var flat := Flattened(uf, ranks);
    forall j | 0 <= j < |uf|
      ensures Linked(flat, ranks) && Find(flat, ranks, j) == Find(uf, ranks, j)
      ensures Weight(flat[j]) == Weight(uf[j]) && (flat[j] < 0 <==> uf[j] < 0)
    {
      FlattenedFind(uf, ranks, j);
    }
    FlattenedLinked(uf, ranks);
    SamePartition(uf, flat, ranks);
  }

  /** A second `flatten` changes nothing. */
  lemma FlattenIdempotent(uf: seq<int>, ranks: seq<int>)
    requires Linked(uf, ranks)
    ensures Linked(Flattened(uf, ranks), ranks)
    ensures Flattened(Flattened(uf, ranks), ranks) == Flattened(uf, ranks)
  {
    var flat := Flattened(uf, ranks);
    FlattenedLinked(uf, ranks);
    forall j | 0 <= j < |uf|
      ensures Flattened(flat, ranks)[j] == flat[j]
    {
      FlattenedFind(uf, ranks, j);
    }
  }

  // ---------------------------------------------------------------------------
  // _UnionFindTree

  /** The children `_UnionFindTree.__init__` records for `k`: the indices
      whose link is `k`, in ascending order. */
  function ChildrenOf(links: seq<int>, k: int): (cs: seq<int>)
    ensures forall j :: j in cs <==> 0 <= j < |links| && links[j] == k
    ensures forall a, b :: 0 <= a < b < |cs| ==> cs[a] < cs[b]
  {
    if links == [] then []
    else
      var last := |links| - 1;
      var before := ChildrenOf(links[..last], k);
      assert forall a :: 0 <= a < |before| ==> before[a] in before && before[a] < last;
      before + (if links[last] == k then [last] else [])
  }

  /** `children_dict[k]`, or the empty array when `k` was never a link. */
  function ChildrenIn(dict: map<int, seq<int>>, k: int): (r: seq<int>)
    ensures k in dict ==> r == dict[k]
    ensures k !in dict ==> r == []
  {
    if k in dict then dict[k] else []
  }

  /** Walking one more link appends its index to that link's children. */
  lemma ChildrenOfExtend(links: seq<int>, idx: int, k: int)
    requires 0 <= idx < |links|
    ensures ChildrenOf(links[..idx + 1], k) == ChildrenOf(links[..idx], k) + (if links[idx] == k then [idx] else [])
  {
    var prefix := links[..idx + 1];
    assert prefix[..idx] == links[..idx];
  }

  /** The loop of `_UnionFindTree.__init__`: walking the links in index
      order, append each index to the entry of its link. */
  method GroupByLink(links: array<int>) returns (dict: map<int, seq<int>>)
    ensures forall k :: ChildrenIn(dict, k) == ChildrenOf(links[..], k)
  {
    dict := map[];
    for idx := 0 to links.Length
      invariant forall k :: ChildrenIn(dict, k) == ChildrenOf(links[..idx], k)
    {
      var link := links[idx];
      ghost var before := dict;
      dict := dict[link := ChildrenIn(dict, link) + [idx]];
      forall k
        ensures ChildrenIn(dict, k) == ChildrenOf(links[..idx + 1], k)
      {
        ChildrenOfExtend(links[..], idx, k);
        assert ChildrenIn(dict, k) == ChildrenIn(before, k) + (if link == k then [idx] else []);
      }
    }
    assert links[..links.Length] == links[..];
  }

  /** A set of the forest as a tree: the root is `r`, the children of a node
      are the indices linking to it, `get` accepts exactly the indices of the
      forest, `self[idx]` is `idx` itself, and the rank is the measure that
      falls from parent to child. */
  function TreeOf(links: seq<int>, ranks: seq<int>, r: int): (t: TreeView<int>)
    ensures t.root == Just(r) && t.rootIdx == r
    ensures forall i :: t.get(i) == if 0 <= i < |links| then Just(i) else Nothing
  {
    TreeView(Just(r), r, (i: int) => ChildrenOf(links, i),
             (i: int) => if 0 <= i < |links| then Just(i) else Nothing,
             (i: int) => if 0 <= i < |ranks| && 0 <= ranks[i] then ranks[i] else 0)
  }

  /** Each set of the forest is a tree the traversals accept: a finite,
      acyclic tree in which no index has two parents. */
  lemma TreeOfIsTree(links: seq<int>, ranks: seq<int>, r: int)
    requires Linked(links, ranks) && 0 <= r < |links|
    ensures WellFormed(TreeOf(links, ranks, r))
    ensures TreeLaws.UniqueParents(TreeOf(links, ranks, r))
  {
    var t := TreeOf(links, ranks, r);
    forall i, k | Node(t, i) && 0 <= k < |t.childrenIdx(i)| && t.get(t.childrenIdx(i)[k]).Just?
      ensures 0 <= t.childrenIdx(i)[k] && t.measure(t.childrenIdx(i)[k]) < t.measure(i)
    {
      var c := t.childrenIdx(i)[k];
      assert c in ChildrenOf(links, i);
    }
    forall i | Node(t, i)
      ensures TreeLaws.Distinct(t.childrenIdx(i))
    {
    }
  }

  /** Whatever the tree of root `r` reaches belongs to `r`'s set. */
  lemma {:induction false} BelowHasRoot(links: seq<int>, ranks: seq<int>, r: int, x: int)
    requires Linked(links, ranks) && 0 <= r < |links| && links[r] < 0
    requires WellFormed(TreeOf(links, ranks, r))
    requires x in TreeLaws.Below(TreeOf(links, ranks, r), r)
    ensures 0 <= x < |links| && Find(links, ranks, x) == r
    decreases MaxOf(ranks) - if 0 <= x < |ranks| then ranks[x] else 0
  {
    var t := TreeOf(links, ranks, r);
    TreeLaws.BelowMeasure(t, r, x);
    if x != r {
      var q := TreeLaws.ParentBelow(t, r, x);
      assert links[x] == q;
      BelowHasRoot(links, ranks, r, q);
    }
  }

  /** Every member of `r`'s set is reached by the tree of root `r`. */
  lemma {:induction false} MemberIsBelow(links: seq<int>, ranks: seq<int>, r: int, x: int)
    requires Linked(links, ranks) && 0 <= r < |links| && links[r] < 0
    requires WellFormed(TreeOf(links, ranks, r))
    requires 0 <= x < |links| && Find(links, ranks, x) == r
    ensures x in TreeLaws.Below(TreeOf(links, ranks, r), r)
    decreases MaxOf(ranks) - ranks[x]
  {
    var t := TreeOf(links, ranks, r);
    if x != r {
      var p := links[x];
      MemberIsBelow(links, ranks, r, p);
      assert x in t.childrenIdx(p);
      TreeLaws.BelowTransitive(t, r, p, x);
      assert x in TreeLaws.Below(t, p) by {
        TreeLaws.BelowEachContains(t, p, t.childrenIdx(p), x);
      }
    }
  }

  /** A multiset holding each element of a set once, and nothing else, has
      as many elements as the set. */
  lemma OnceCount(m: multiset<int>, s: set<int>)
    requires forall x :: m[x] == if x in s then 1 else 0
    ensures |m| == |s|
  {
    assert forall x :: m[x] == multiset(s)[x];
    assert m == multiset(s);
  }

  /** The tree of a root `r`, traversed by `dfs` or `bfs` without stopping,
      visits exactly the members of `r`'s set, each once, so it makes
      `size(r)` visits. */
  lemma TreeVisitsSet(links: seq<int>, ranks: seq<int>, r: int)
    requires Partition(links, ranks) && 0 <= r < |links| && links[r] < 0
    ensures WellFormed(TreeOf(links, ranks, r))
    ensures forall x :: x in Indices(DfsTree(TreeOf(links, ranks, r), Always())) <==> x in Members(links, ranks, r)
    ensures TreeLaws.Once(multiset(Indices(DfsTree(TreeOf(links, ranks, r), Always()))))
    ensures |DfsTree(TreeOf(links, ranks, r), Always())| == -links[r]
    ensures multiset(Indices(BfsTree(TreeOf(links, ranks, r), Always())))
         == multiset(Indices(DfsTree(TreeOf(links, ranks, r), Always())))
  {
    var t := TreeOf(links, ranks, r);
    TreeOfIsTree(links, ranks, r);
    TreeLaws.EachNodeOnce(t);
    TreeLaws.BfsMatchesDfs(t);
    var v := DfsTree(t, Always());
    var m := multiset(Indices(v));
    assert m == TreeLaws.Below(t, r);
    forall x
      ensures m[x] == if x in Members(links, ranks, r) then 1 else 0
    {
      if x in m {
        BelowHasRoot(links, ranks, r, x);
      }
      if x in Members(links, ranks, r) {
        MemberIsBelow(links, ranks, r, x);
      }
    }
    OnceCount(m, Members(links, ranks, r));
    assert |m| == |Indices(v)| == |v|;
  }

  // ---------------------------------------------------------------------------
  // The classes

  /** `UnionFind(n)`: the links, the ranks and the set of roots. */
  class UnionFind {
    const n: int
    const uf: array<int>
    const ranks: array<int>
    var roots: set<int>

    ghost predicate Valid()
      reads this, uf, ranks
    {
      uf != ranks && uf.Length == ranks.Length == (if n < 0 then 0 else n) &&
      Partition(uf[..], ranks[..]) && roots == RootSet(uf[..])
    }

    /** `__init__`: `n` roots of size 1 and rank 1. */
    constructor (n: int)
      ensures Valid() && this.n == n
      ensures uf[..] == Singletons(n) && ranks[..] == UnitRanks(n)
      ensures forall i :: i in roots <==> 0 <= i < n
    {
      var len := if n < 0 then 0 else n;
      this.n := n;
      uf := new int[len](_ => -1);
      ranks := new int[len](_ => 1);
      roots := Range(n);
      new;
      assert uf[..] == Singletons(n) && ranks[..] == UnitRanks(n);
      InitPartition(n);
    }

    /** `root(x)`: the root of `x`'s set, which is `x` exactly when `x` is in
        `roots`. */
    function Root(x: int): (r: int)
      reads this, uf, ranks
      requires Valid() && 0 <= x < n
      ensures r in roots && (r == x <==> x in roots)
      ensures x in Members(uf[..], ranks[..], r)
    {
      Find(uf[..], ranks[..], x)
    }

    /** `rank(x)`: the rank of `x`'s root, at least that of `x`. */
    function Rank(x: int): (r: int)
      reads this, uf, ranks
      requires Valid() && 0 <= x < n
      ensures 1 <= ranks[x] <= r
      ensures forall k :: k in roots && x in Members(uf[..], ranks[..], k) ==> r == ranks[k]
    {
      ranks[Root(x)]
    }

    /** `size(x)`: the number of members of `x`'s set. */
    function Size(x: int): (r: int)
      reads this, uf, ranks
      requires Valid() && 0 <= x < n
      ensures r == |Members(uf[..], ranks[..], Root(x))| && 1 <= r
    {
      -uf[Root(x)]
    }

    /** `same(x, y)`: whether `x` belongs to `y`'s set. */
    function Same(x: int, y: int): (r: bool)
      reads this, uf, ranks
      requires Valid() && 0 <= x < n && 0 <= y < n
      ensures r <==> x in Members(uf[..], ranks[..], Root(y))
    {
      Root(x) == Root(y)
    }

    /** `unite(x, y)`: nothing changes when `x` and `y` are in the same set;
        otherwise the root of lower rank (`y`'s on a tie) is hung below the
        other, which counts both sets and goes up a rank on a tie, and the
        absorbed root leaves `roots`. Afterwards `x` and `y` are in the same
        set. */
    method Unite(x: int, y: int)
      requires Valid() && 0 <= x < n && 0 <= y < n
      modifies this, uf, ranks
      ensures Valid()
      ensures uf[..] == UnitedLinks(old(uf[..]), old(ranks[..]), x, y)
      ensures ranks[..] == UnitedRanks(old(uf[..]), old(ranks[..]), x, y)
      ensures Same(x, y)
    {
      ghost var links, weights := uf[..], ranks[..];
      var rx, ry := Root(x), Root(y);
      if rx == ry {
        UniteKeepsPartition(links, weights, x, y);
        return;
      }
      var rankX, rankY := Rank(rx), Rank(ry);
      if rankX < rankY {
        rx, ry := ry, rx;
        rankX, rankY := rankY, rankX;
      }
      Link(rx, ry, rankX == rankY);
      roots := roots - {ry};
      UniteKeepsPartition(links, weights, x, y);
    }

    /** The writes of `unite` once the survivor `w` and the absorbed root `l`
        are known: `w` counts both sets, `l` points to `w`, and `w` goes up a
        rank when the two ranks were equal. */
    method Link(w: int, l: int, tie: bool)
      requires uf != ranks && uf.Length == ranks.Length
      requires 0 <= w < uf.Length && 0 <= l < uf.Length && w != l
      requires tie <==> ranks[w] == ranks[l]
      modifies uf, ranks
      ensures uf[..] == LinkLinks(old(uf[..]), w, l)
      ensures ranks[..] == LinkRanks(old(ranks[..]), w, l)
    {
      uf[w] := uf[w] + uf[l];
      uf[l] := w;
      if tie {
        ranks[w] := ranks[w] + 1;
      }
    }

    /** `flatten`: point every index that is not a root straight at its
        root; the partition and the roots stay as they were. */
    method Flatten()
      requires Valid()
      modifies uf
      ensures Valid()
      ensures uf[..] == Flattened(old(uf[..]), ranks[..])
    {
      FlattenedPartition(uf[..], ranks[..]);
      FlattenLinks(uf, ranks);
    }

    /** `trees()`: one tree per member of `roots`, each rooted there and
        describing the forest as it is, taken in ascending order of the
        roots. */
    method Trees() returns (ts: seq<UnionFindTree>)
      requires Valid()
      ensures RootsOf(ts) == Ascending(roots, n)
      ensures forall k :: 0 <= k < |ts| ==> ts[k].forest == this && ts[k].Current()
    {
      var rs := Ascending(roots, n);
      ts := [];
      for k := 0 to |rs|
        invariant |ts| == k
        invariant forall j :: 0 <= j < k ==> ts[j].forest == this && ts[j].rootIdx == rs[j] && ts[j].Current()
      {
        var t := new UnionFindTree(this, rs[k]);
        ts := ts + [t];
      }
    }
  }

  /** The roots of a sequence of trees, in order. */
  function RootsOf(ts: seq<UnionFindTree>): (rs: seq<int>)
    ensures |rs| == |ts| && forall k :: 0 <= k < |ts| ==> rs[k] == ts[k].rootIdx
  {
    seq(|ts|, k requires 0 <= k < |ts| => ts[k].rootIdx)
  }

  /** The members of `s` below `n`, in ascending order. */
  function Ascending(s: set<int>, n: int): (rs: seq<int>)
    ensures forall r :: r in rs <==> r in s && 0 <= r < n
    ensures forall j, k :: 0 <= j < k < |rs| ==> rs[j] < rs[k]
  {
    if n <= 0 then []
    else
      var below := Ascending(s, n - 1);
      assert forall j :: 0 <= j < |below| ==> below[j] in below && below[j] < n - 1;
      below + (if n - 1 in s then [n - 1] else [])
  }

  /** One `flatten` step on the values: every index keeps its root. */
  lemma Redirect(uf: seq<int>, ranks: seq<int>, i: int)
    requires Linked(uf, ranks) && 0 <= i < |uf| && 0 <= uf[i]
    ensures Linked(uf[i := Find(uf, ranks, i)], ranks)
    ensures forall j :: 0 <= j < |uf| ==> Find(uf[i := Find(uf, ranks, i)], ranks, j) == Find(uf, ranks, j)
  {
    var uf' := uf[i := Find(uf, ranks, i)];
    RedirectFind(uf, ranks, i, i);
    forall j | 0 <= j < |uf|
      ensures Find(uf', ranks, j) == Find(uf, ranks, j)
    {
      RedirectFind(uf, ranks, i, j);
    }
  }

  /** The loop of `flatten`: each index in turn is pointed at its root
      when it is not a root itself. */
  method FlattenLinks(uf: array<int>, ranks: array<int>)
    requires uf != ranks && Linked(uf[..], ranks[..])
    modifies uf
    ensures uf[..] == Flattened(old(uf[..]), ranks[..])
  {
    ghost var start := uf[..];
    ghost var rk := ranks[..];
    for idx := 0 to uf.Length
      invariant Linked(uf[..], rk)
      invariant forall j :: 0 <= j < uf.Length ==> Find(uf[..], rk, j) == Find(start, rk, j)
      invariant forall i :: 0 <= i < idx ==> uf[i] == if start[i] < 0 then start[i] else Find(start, rk, i)
      invariant forall i :: idx <= i < uf.Length ==> uf[i] == start[i]
    {
      var root := Find(uf[..], ranks[..], idx);
      if root != idx {
        ghost var before := uf[..];
        Redirect(before, rk, idx);
        uf[idx] := root;
        assert uf[..] == before[idx := root];
      }
    }
    assert uf[..] == Flattened(start, rk);
  }

  /** `_UnionFindTree(uf, root)`: the tree of one set of the forest. The
      children are recorded once, when the tree is built; the parent links
      are read from the forest. */
  class UnionFindTree {
    const forest: UnionFind
    const rootIdx: int
    const childrenDict: map<int, seq<int>>

    /** The tree still describes its forest: the forest is valid, the root is
        one of its roots, and the recorded children are those of the links. */
    ghost predicate Current()
      reads this, forest, forest.uf, forest.ranks
    {
      forest.Valid() && rootIdx in forest.roots &&
      forall k :: ChildrenIn(childrenDict, k) == ChildrenOf(forest.uf[..], k)
    }

    constructor (forest: UnionFind, root: int)
      requires forest.Valid() && root in forest.roots
      ensures this.forest == forest && rootIdx == root && Current()
    {
      var dict := GroupByLink(forest.uf);
      this.forest := forest;
      rootIdx := root;
      childrenDict := dict;
    }

    /** `root()`: the root index, which is a root of the forest. */
    function Root(): (r: Maybe<int>)
      reads this, forest, forest.uf, forest.ranks
      requires Current()
      ensures r.Just? && r.m in forest.roots
    {
      Just(rootIdx)
    }

    /** `parent(idx)`: Nothing for a root; otherwise the index `idx` links
        to, which is in the same set and of higher rank. */
    function Parent(idx: int): (r: Maybe<int>)
      reads this, forest, forest.uf, forest.ranks
      requires forest.Valid() && 0 <= idx < forest.n
      ensures r.Nothing? <==> idx in forest.roots
      ensures r.Just? ==> r.m == forest.uf[idx]
      ensures r.Just? ==> 0 <= r.m < forest.n && forest.Root(r.m) == forest.Root(idx) &&
                          forest.ranks[idx] < forest.ranks[r.m]
    {
      var link := forest.uf[idx];
      if link < 0 then Nothing else Just(link)
    }

    /** `parent_idx(idx)`: raises `IndexError("No parent")` for a root;
        otherwise the parent, of which `idx` is a child. */
    function ParentIdx(idx: int): (r: Result<int>)
      reads this, forest, forest.uf, forest.ranks
      requires forest.Valid() && 0 <= idx < forest.n
      ensures r.Raise? <==> idx in forest.roots
      ensures r.Raise? ==> r.error == IndexError("No parent")
      ensures r.Ok? ==> Parent(idx) == Just(r.value)
      ensures r.Ok? && Current() ==> idx in Children(r.value)
    {
      var link := forest.uf[idx];
      if link < 0 then Raise(IndexError("No parent")) else Ok(link)
    }

    /** `children(idx)` and `children_idx(idx)`: the indices linking to
        `idx`, in ascending order. */
    function Children(idx: int): (r: seq<int>)
      reads this, forest, forest.uf, forest.ranks
      ensures Current() ==> r == ChildrenOf(forest.uf[..], idx)
    {
      ChildrenIn(childrenDict, idx)
    }

    /** `get(idx)`: `Just(idx)` exactly for the indices of the forest. */
    function Get(idx: int): (r: Maybe<int>)
      reads this, forest
      ensures r.Just? <==> 0 <= idx < forest.n
      ensures r.Just? ==> r.m == idx
    {
      if 0 <= idx < forest.n then Just(idx) else Nothing
    }

    /** `self[idx]`: the index itself, the item `get` carries. */
    function Item(idx: int): (r: int)
      reads this, forest
      ensures Get(idx).Just? ==> Get(idx) == Just(r)
    {
      idx
    }

    /** The tree as the traversals see it. */
    function View(): (t: TreeView<int>)
      reads this, forest, forest.uf, forest.ranks
      requires Current()
      ensures t.root == Root() && t.rootIdx == rootIdx
      ensures forall i :: t.childrenIdx(i) == Children(i) && t.get(i) == Get(i)
    {
      TreeOf(forest.uf[..], forest.ranks[..], rootIdx)
    }
  }
}
