/** The growable sequence of zpy/classes/collections/array.py. An `Array` is a
    Python list, so its values are Dafny sequences; the one operation that
    changes an `Array` in place, `swap`, works on a Dafny `array`. */
module Arrays {
  import opened Maybes

  /** `Array.pure(m)`: the one-element array. */
  function Pure<T>(m: T): (r: seq<T>)
    ensures |r| == 1 && m in r
  {
    [m]
  }

  /** `Array.of(*args)`: an array of the arguments, in argument order. */
  function Of<T>(args: seq<T>): (r: seq<T>)
    ensures |r| == |args|
    ensures forall k :: 0 <= k < |r| ==> r[k] == args[k]
  {
    args
  }

  lemma PureIsOfOne<T>(m: T)
    ensures Pure(m) == Of([m])
  {
  }

  /** `map(f)`: `f` applied to each item, left to right. */
  function Map<T, U>(s: seq<T>, f: T -> U): (r: seq<U>)
    ensures |r| == |s|
    ensures forall k :: 0 <= k < |s| ==> r[k] == f(s[k])
  {
    if s == [] then [] else [f(s[0])] + Map(s[1..], f)
  }

  /** The left fold, defined from the end: the last item is combined last,
      with the fold of the items before it. */
  ghost function FoldLeft<T, U>(s: seq<T>, i: U, f: (U, T) -> U): U
  {
    if s == [] then i else f(FoldLeft(s[..|s| - 1], i, f), s[|s| - 1])
  }

  lemma {:induction false} FoldLeftCons<T, U>(x: T, s: seq<T>, i: U, f: (U, T) -> U)
    ensures FoldLeft([x] + s, i, f) == FoldLeft(s, f(i, x), f)
  {
    if s != [] {
      var t := [x] + s;
      assert t[..|t| - 1] == [x] + s[..|s| - 1];
      FoldLeftCons(x, s[..|s| - 1], i, f);
    } else {
      assert ([x] + s)[..0] == [];
    }
  }

  /** `reduce(i, f)`: functools.reduce of `f` over the items with initial `i`,
      which is the left fold. */
  function Reduce<T, U>(s: seq<T>, i: U, f: (U, T) -> U): (r: U)
    ensures r == FoldLeft(s, i, f)
  {
    if s == [] then i
    else
      assert s == [s[0]] + s[1..];
      FoldLeftCons(s[0], s[1..], i, f);
      Reduce(s[1..], f(i, s[0]), f)
  }

  /** Concatenation of a sequence of sequences, the reference for `flat_map`. */
  function Concat<T>(ss: seq<seq<T>>): seq<T>
  {
    if ss == [] then [] else ss[0] + Concat(ss[1..])
  }

  lemma {:induction false} ConcatAppend<T>(a: seq<seq<T>>, b: seq<seq<T>>)
    ensures Concat(a + b) == Concat(a) + Concat(b)
  {
    if a != [] {
      assert (a + b)[1..] == a[1..] + b;
      ConcatAppend(a[1..], b);
      calc {
        Concat(a + b);
        (a + b)[0] + Concat((a + b)[1..]);
        a[0] + (Concat(a[1..]) + Concat(b));
        (a[0] + Concat(a[1..])) + Concat(b);
      }
    } else {
      assert a + b == b;
    }
  }

  /** The accumulating fold that `flat_map` hands to `reduce`. */
  function Chain<T, U>(f: T -> seq<U>): (seq<U>, T) -> seq<U>
  {
    (a: seq<U>, item: T) => a + f(item)
  }

  /** One step of the fold keeps the accumulator as a prefix and puts the
      item's image after it. */
  lemma ChainStep<T, U>(f: T -> seq<U>, a: seq<U>, item: T)
    ensures |Chain(f)(a, item)| == |a| + |f(item)|
    ensures Chain(f)(a, item)[..|a|] == a && Chain(f)(a, item)[|a|..] == f(item)
  {
  }

  lemma {:induction false} ReduceChain<T, U>(s: seq<T>, acc: seq<U>, f: T -> seq<U>)
    ensures Reduce(s, acc, Chain(f)) == acc + Concat(Map(s, f))
  {
    if s != [] {
      ReduceChain(s[1..], acc + f(s[0]), f);
      assert Map(s, f) == [f(s[0])] + Map(s[1..], f);
    }
  }

  /** `flat_map(f)`: the items' `f`-images, concatenated in order. */
  function FlatMap<T, U>(s: seq<T>, f: T -> seq<U>): (r: seq<U>)
    ensures r == Concat(Map(s, f))
  {
    ReduceChain(s, [], f);
    Reduce(s, [], Chain(f))
  }

  lemma {:induction false} FlatMapAppend<T, U>(a: seq<T>, b: seq<T>, f: T -> seq<U>)
    ensures FlatMap(a + b, f) == FlatMap(a, f) + FlatMap(b, f)
  {
    MapAppend(a, b, f);
    ConcatAppend(Map(a, f), Map(b, f));
  }

  lemma MapAppend<T, U>(a: seq<T>, b: seq<T>, f: T -> U)
    ensures Map(a + b, f) == Map(a, f) + Map(b, f)
  {
  }

  /** `product(b)`: itertools.product, every pair in row-major order. */
  function Product<T, U>(a: seq<T>, b: seq<U>): (r: seq<(T, U)>)
    ensures |r| == |a| * |b|
  {
    if a == [] then []
    else
      assert |a| * |b| == |b| + (|a| - 1) * |b|;
      Map(b, (y: U) => (a[0], y)) + Product(a[1..], b)
  }

  /** Pair `(a[i], b[j])` sits at row `i`, column `j`. */
  lemma {:induction false} ProductIndex<T, U>(a: seq<T>, b: seq<U>, i: nat, j: nat)
    requires i < |a| && j < |b|
    ensures i * |b| + j < |Product(a, b)|
    ensures Product(a, b)[i * |b| + j] == (a[i], b[j])
  {
    var w := |b|;
    var row := Map(b, (y: U) => (a[0], y));
    var rest := Product(a[1..], b);
    assert Product(a, b) == row + rest;
    if i > 0 {
      ProductIndex(a[1..], b, i - 1, j);
      var k := (i - 1) * w + j;
      NextRow(i, w, j);
      assert i * w + j == w + k;
      assert rest[k] == (a[i], b[j]);
    }
  }

  lemma NextRow(i: nat, w: nat, j: nat)
    requires i > 0
    ensures i * w + j == w + ((i - 1) * w + j)
  {
  }

  /** `apply(ft)`: every function of the array applied, in order, to every item
      of `ft`: the pairs of `product`, each function called on its argument. */
  function Apply<T, U>(fs: seq<T -> U>, ft: seq<T>): (r: seq<U>)
    ensures r == Map(Product(fs, ft), (p: (T -> U, T)) => p.0(p.1))
  {
    ApplyIsMappedProduct(fs, ft);
    Reduce(fs, [], Chain((f: T -> U) => Map(ft, f)))
  }

  /** `apply` has `len(self) * len(ft)` results, function `i` on argument `j`
      at position `i * len(ft) + j`. */
  lemma ApplyIndex<T, U>(fs: seq<T -> U>, ft: seq<T>, i: nat, j: nat)
    requires i < |fs| && j < |ft|
    ensures |Apply(fs, ft)| == |fs| * |ft|
    ensures i * |ft| + j < |Apply(fs, ft)| && Apply(fs, ft)[i * |ft| + j] == fs[i](ft[j])
  {
    ProductIndex(fs, ft, i, j);
  }

  lemma {:induction false} ApplyIsMappedProduct<T, U>(fs: seq<T -> U>, ft: seq<T>)
    ensures Reduce(fs, [], Chain((f: T -> U) => Map(ft, f)))
         == Map(Product(fs, ft), (p: (T -> U, T)) => p.0(p.1))
  {
    var g := (f: T -> U) => Map(ft, f);
    ReduceChain(fs, [], g);
    ConcatMapProduct(fs, ft);
  }

  lemma {:induction false} ConcatMapProduct<T, U>(fs: seq<T -> U>, ft: seq<T>)
    ensures Concat(Map(fs, (f: T -> U) => Map(ft, f)))
         == Map(Product(fs, ft), (p: (T -> U, T)) => p.0(p.1))
  {
    var call := (p: (T -> U, T)) => p.0(p.1);
    if fs != [] {
      ConcatMapProduct(fs[1..], ft);
      var row := Map(ft, (y: T) => (fs[0], y));
      MapAppend(row, Product(fs[1..], ft), call);
      assert Map(row, call) == Map(ft, fs[0]);
    }
  }

  /** Python's `self[idx]`: a negative index counts from the end. */
  function At<T>(s: seq<T>, idx: int): (r: T)
    requires -|s| <= idx < |s|
    ensures 0 <= idx ==> r == s[idx]
    ensures idx < 0 ==> r == s[|s| + idx]
  {
    if idx < 0 then s[|s| + idx] else s[idx]
  }

  /** `get(idx)`: `Nothing` from `len` upward, otherwise `Just(self[idx])`;
      negative indices are not rejected (they count from the end, and
      indexing raises below `-len`). */
  function Get<T>(s: seq<T>, idx: int): (r: Maybe<T>)
    requires -|s| <= idx
    ensures r == Nothing <==> idx >= |s|
    ensures 0 <= idx < |s| ==> r == Just(s[idx])
    ensures idx < 0 ==> r == Just(s[|s| + idx])
  {
    if idx >= |s| then Nothing else Just(At(s, idx))
  }

  /** The slot a Python index refers to in a list of length `n`. */
  function Slot(n: nat, idx: int): (k: nat)
    requires -(n as int) <= idx < n
    ensures k < n
  {
    if idx < 0 then n + idx else idx
  }

  /** The contents after exchanging the items in slots `i` and `j`. */
  function Swapped<T>(s: seq<T>, i: nat, j: nat): (r: seq<T>)
    requires i < |s| && j < |s|
    ensures |r| == |s| && r[i] == s[j] && r[j] == s[i]
    ensures forall k :: 0 <= k < |s| && k != i && k != j ==> r[k] == s[k]
    ensures multiset(r) == multiset(s)
  {
    s[i := s[j]][j := s[i]]
  }

  lemma SwappedTwice<T>(s: seq<T>, i: nat, j: nat)
    requires i < |s| && j < |s|
    ensures Swapped(Swapped(s, i, j), i, j) == s
  {
  }

  /** `swap(x, y)`: exchanges two entries in place. */
  method Swap<T>(a: array<T>, x: int, y: int)
    requires -a.Length <= x < a.Length && -a.Length <= y < a.Length
    modifies a
    ensures a[..] == Swapped(old(a[..]), Slot(a.Length, x), Slot(a.Length, y))
  {
    var i, j := Slot(a.Length, x), Slot(a.Length, y);
    a[i], a[j] := a[j], a[i];
  }
}
