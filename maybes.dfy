/** The optional value of zpy/classes/logical/maybe.py: a `Just` holding one
    value, or the single shared `Nothing`. */
module Maybes {
  import opened Results

  datatype Maybe<+T> = Just(m: T) | Nothing

  /** Iterating a `Maybe`: a `Just` yields its value once, `Nothing` yields nothing. */
  function Iter<T>(x: Maybe<T>): (r: seq<T>)
    ensures |r| <= 1
    ensures r == [] <==> x == Nothing
    ensures x.Just? ==> x.m in r
  {
    match x
    case Just(v) => [v]
    case Nothing => []
  }

  /** Python truthiness: `Nothing` defines `__bool__` as false; a `Just` has
      neither `__bool__` nor `__len__`, so it is truthy. */
  function Truthy<T>(x: Maybe<T>): (r: bool)
    ensures r <==> |Iter(x)| == 1
  {
    x.Just?
  }

  /** `Maybe.pure`, `Maybe.of`, `Just.pure` and `Just.of` (which ignores any
      further arguments) all wrap their argument in a `Just`. */
  function Pure<T>(v: T): (r: Maybe<T>)
    ensures Truthy(r) && Iter(r) == [v]
  {
    Just(v)
  }

  /** `Nothing.pure` and `Nothing.of` (inherited from `Maybe.of`, which calls
      `cls.pure`): the argument is dropped and the result is `Nothing`. */
  function NothingPure<T>(v: T): (r: Maybe<T>)
    ensures !Truthy(r) && Iter(r) == []
  {
    Nothing
  }

  /** `Just(m).map(f)` is `Just(f(m))`; `Nothing.map(f)` is `Nothing` itself. */
  function Map<T, U>(x: Maybe<T>, f: T -> U): (r: Maybe<U>)
    ensures Truthy(r) == Truthy(x)
    ensures |Iter(r)| == |Iter(x)|
    ensures forall k :: 0 <= k < |Iter(r)| ==> Iter(r)[k] == f(Iter(x)[k])
  {
    match x
    case Just(v) => Just(f(v))
    case Nothing => Nothing
  }

  /** `Just(f).apply(fa)` is `fa.map(f)`; `Nothing.apply(_)` is `Nothing`. */
  function Apply<T, U>(mf: Maybe<T -> U>, fa: Maybe<T>): (r: Maybe<U>)
    ensures Truthy(r) <==> Truthy(mf) && Truthy(fa)
    ensures r.Just? ==> r.m == mf.m(fa.m)
  {
    match mf
    case Just(f) => Map(fa, f)
    case Nothing => Nothing
  }

  /** `unwrap` as evidently intended: the wrapped value of a `Just`, and
      `ForceUnwrapError` for `Nothing`. */
  function Unwrap<T>(x: Maybe<T>): (r: Result<T>)
    ensures r.Raise? <==> !Truthy(x)
    ensures r.Raise? ==> r.error == ForceUnwrapError
    ensures r.Ok? ==> Iter(x) == [r.value]
  {
    match x
    case Just(v) => Ok(v)
    case Nothing => Raise(ForceUnwrapError)
  }

  /** `unwrap_or` as evidently intended: the wrapped value, or `e` for `Nothing`. */
  function UnwrapOr<T>(x: Maybe<T>, e: T): (r: T)
    ensures Iter(x) == [] ==> r == e
    ensures Iter(x) != [] ==> r == Iter(x)[0]
  {
    match x
    case Just(v) => v
    case Nothing => e
  }

  /** What a call can hand back in Python, where `unwrap` and `unwrap_or` are
      untyped: either a plain value or a `Maybe` object. */
  datatype Unwrapped<T> = Value(v: T) | Wrapper(w: Maybe<T>)

  /** `unwrap` as maybe.py writes it: `Just.unwrap` returns `self`, the `Just`
      object, rather than the value inside it. */
  function UnwrapAsWritten<T>(x: Maybe<T>): (r: Result<Unwrapped<T>>)
    ensures r.Raise? <==> x == Nothing
    ensures x.Just? ==> r == Ok(Wrapper(x))
  {
    match x
    case Just(_) => Ok(Wrapper(x))
    case Nothing => Raise(ForceUnwrapError)
  }

  /** `unwrap_or` as maybe.py writes it: `Just.unwrap_or` returns
      `self.unwrap()`, so again the `Just` object. */
  function UnwrapOrAsWritten<T>(x: Maybe<T>, e: T): (r: Unwrapped<T>)
    ensures x == Nothing ==> r == Value(e)
    ensures x.Just? ==> r == Wrapper(x)
  {
    match x
    case Just(_) => UnwrapAsWritten(x).value
    case Nothing => Value(e)
  }

  /** The discrepancy: for every `Just(v)`, neither as-written call hands back
      `v`; `Just(3).unwrap_or(0)` is `Just(3)`, not `3`. The corrected
      functions do hand back `v`. */
  lemma JustUnwrapReturnsWrapper<T>(v: T, e: T)
    ensures UnwrapAsWritten(Just(v)) != Ok(Value(v))
    ensures UnwrapOrAsWritten(Just(v), e) != Value(v)
    ensures Unwrap(Just(v)) == Ok(v) && UnwrapOr(Just(v), e) == v
  {
  }

  /** `unwrap_or` commutes with `map`: mapping first and defaulting to `f(e)`
      is mapping the defaulted value. */
  lemma UnwrapOrMap<T, U>(x: Maybe<T>, f: T -> U, e: T)
    ensures UnwrapOr(Map(x, f), f(e)) == f(UnwrapOr(x, e))
  {
    match x
    case Just(v) =>
    case Nothing =>
  }

  /** The functor laws for `map`. */
  lemma MapIdentity<T>(x: Maybe<T>)
    ensures Map(x, v => v) == x
  {
    match x
    case Just(v) =>
    case Nothing =>
  }

  lemma MapComposition<T, U, V>(x: Maybe<T>, f: T -> U, g: U -> V)
    ensures Map(Map(x, f), g) == Map(x, v => g(f(v)))
  {
    match x
    case Just(v) =>
    case Nothing =>
  }

  /** The applicative laws for `pure` and `apply`. */
  lemma ApplyIdentity<T>(x: Maybe<T>)
    ensures Apply(Pure((v: T) => v), x) == x
  {
    MapIdentity(x);
  }

  lemma ApplyHomomorphism<T, U>(f: T -> U, v: T)
    ensures Apply(Pure(f), Pure(v)) == Pure(f(v))
  {
  }

  lemma ApplyInterchange<T, U>(mf: Maybe<T -> U>, v: T)
    ensures Apply(mf, Pure(v)) == Apply(Pure((f: T -> U) => f(v)), mf)
  {
    match mf
    case Just(f) =>
    case Nothing =>
  }

  /** Curried function composition, for the composition law. */
  function Compose<A, B, C>(): (B -> C) -> (A -> B) -> (A -> C)
  {
    (f: B -> C) => (g: A -> B) => (x: A) => f(g(x))
  }

  lemma ApplyComposition<A, B, C>(u: Maybe<B -> C>, v: Maybe<A -> B>, w: Maybe<A>)
    ensures Apply(Apply(Apply(Pure(Compose()), u), v), w) == Apply(u, Apply(v, w))
  {
    match u
    case Nothing =>
    case Just(f) =>
      match v
      case Nothing =>
      case Just(g) =>
        match w
        case Nothing =>
        case Just(x) =>
  }
}
