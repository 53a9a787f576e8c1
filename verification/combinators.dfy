/** The per-variant combinators of `Nothing`, `Problem` and `Something`
    that are single expressions or one try/catch: catch, forOne, map, or,
    orFrom and the extractors. Each is one function dispatching on the
    variant; "returns the same instance" is equality with the receiver. */
module Combinators {
  import opened Values

  /** `catch`: only a `Problem` runs the handler, through the same
      catch-and-normalise discipline as `from`. */
  function Catch(p: Perhaps, handler: Callback): (r: Perhaps)
    ensures !p.Problem? ==> r == p
    ensures p.Problem? && handler(p.err).Threw? ==> r == Problem(handler(p.err).thrown)
    ensures p.Problem? && handler(p.err).Ret? ==> r == Of(handler(p.err).result)
  {
    match p
    case Problem(e) => From(() => handler(e))
    case _ => p
  }

  /** `forOne`: calls the function once on the whole value, discards what
      it returns, and keeps the receiver unless it throws. */
  function ForOne(p: Perhaps, fn: Callback): (r: Perhaps)
    ensures !p.Something? ==> r == p
    ensures p.Something? && fn(p.value).Ret? ==> r == p
    ensures p.Something? && fn(p.value).Threw? ==> r == Problem(fn(p.value).thrown)
  {
    match p
    case Something(v) =>
      (match fn(v)
       case Ret(_) => p
       case Threw(e) => ProblemOf(e))
    case _ => p
  }

  /** `map`: calls the mapper once on the whole value and normalises what
      it returns; a throw becomes a `Problem`. */
  function Map(p: Perhaps, mapper: Callback): (r: Perhaps)
    ensures !p.Something? ==> r == p
    ensures p.Something? && mapper(p.value).Threw? ==> r == Problem(mapper(p.value).thrown)
    ensures p.Something? && mapper(p.value).Ret? ==> r == Of(mapper(p.value).result)
  {
    match p
    case Something(v) =>
      (match mapper(v)
       case Ret(w) => Of(w)
       case Threw(e) => ProblemOf(e))
    case _ => p
  }

  /** `or`: a present receiver ignores the alternative. */
  function Or(p: Perhaps, alt: Value): (r: Perhaps)
    ensures p.Something? ==> r == p
    ensures !p.Something? ==> r == Of(alt)
  {
    match p
    case Something(_) => p
    case _ => Of(alt)
  }

  /** `orFrom`: a present receiver never runs the computation. */
  function OrFrom(p: Perhaps, fn: Thunk): (r: Perhaps)
    ensures p.Something? ==> r == p
    ensures !p.Something? && fn().Threw? ==> r == Problem(fn().thrown)
    ensures !p.Something? && fn().Ret? ==> r == Of(fn().result)
  {
    match p
    case Something(_) => p
    case _ => From(fn)
  }

  /** `peek`: inspects without throwing. */
  function Peek(p: Perhaps): (v: Value)
    ensures p.Nothing? ==> v == Null
    ensures p.Problem? ==> v == p.err
    ensures p.Something? ==> v == p.value
  {
    match p
    case Nothing => Null
    case Problem(e) => e
    case Something(x) => x
  }

  /** `unwrap`: a `Problem` throws its error. */
  function Unwrap(p: Perhaps): (r: Outcome<Value>)
    ensures r.Threw? <==> p.Problem?
    ensures p.Problem? ==> r.thrown == p.err
    ensures p.Nothing? ==> r == Ret(Null)
    ensures p.Something? ==> r == Ret(p.value)
  {
    match p
    case Nothing => Ret(Null)
    case Problem(e) => Threw(e)
    case Something(x) => Ret(x)
  }

  /** `unwrapOr`: the alternative is returned as given, not classified. */
  function UnwrapOr(p: Perhaps, alt: Value): (v: Value)
    ensures p.Something? ==> v == p.value
    ensures !p.Something? ==> v == alt
  {
    match p
    case Something(x) => x
    case _ => alt
  }

  /** `unwrapOrThrow`: `Nothing` and `Problem` throw the given error
      (never their own); `Something` ignores it. */
  function UnwrapOrThrow(p: Perhaps, err: Value): (r: Outcome<Value>)
    ensures p.Something? ==> r == Ret(p.value)
    ensures !p.Something? ==> r == Threw(err)
  {
    match p
    case Something(x) => Ret(x)
    case _ => Threw(err)
  }

  // ----- Connections between the combinators -----

  /** On a `Problem`, `catch` is `from` over the handler applied to the
      error. */
  lemma CatchIsFrom(e: Value, handler: Callback)
    ensures Catch(Problem(e), handler) == From(() => handler(e))
  {
  }

  /** On a `Something`, `map` is `from` over the mapper applied to the
      whole value. */
  lemma MapIsFrom(v: Value, mapper: Callback)
    ensures Map(Something(v), mapper) == From(() => mapper(v))
  {
  }

  /** `or(alt)` is `orFrom` of the computation that returns `alt`. */
  lemma OrIsOrFrom(p: Perhaps, alt: Value)
    ensures Or(p, alt) == OrFrom(p, () => Ret(alt))
  {
  }

  /** `forOne` is `map` with the mapper's result replaced by the receiver:
      the two agree on whether the call threw, and `forOne` never changes
      a value it keeps. */
  lemma ForOneIsMapDiscarding(p: Perhaps, fn: Callback)
    ensures ForOne(p, fn) != p <==> p.Something? && fn(p.value).Threw?
    ensures ForOne(p, fn) != p ==> ForOne(p, fn) == Map(p, fn)
  {
  }

  /** `peek` and `unwrap` see the same value; only `unwrap` throws it for a
      `Problem`. */
  lemma PeekUnwrapAsymmetry(p: Perhaps)
    ensures !p.Problem? ==> Unwrap(p) == Ret(Peek(p))
    ensures p.Problem? ==> Unwrap(p) == Threw(Peek(p))
  {
  }

  /** The extractors give back what `of` wrapped. */
  lemma ExtractRoundTrip(v: Value, alt: Value, err: Value)
    requires !v.Wrapped?
    ensures !IsEmpty(v) ==> Peek(Of(v)) == v && Unwrap(Of(v)) == Ret(v)
    ensures !IsEmpty(v) ==> UnwrapOr(Of(v), alt) == v && UnwrapOrThrow(Of(v), err) == Ret(v)
    ensures IsEmpty(v) ==> Peek(Of(v)) == Null && Unwrap(Of(v)) == Ret(Null)
    ensures IsEmpty(v) ==> UnwrapOr(Of(v), alt) == alt
    ensures IsEmpty(v) ==> UnwrapOrThrow(Of(v), err) == Threw(err)
  {
  }

  /** A `Nothing` or `Problem` receiver is returned by every transforming
      combinator whatever callback is given: the callback is never
      consulted. */
  lemma AbsentBypasses(p: Perhaps, f: Callback, g: Callback)
    requires !p.Something?
    ensures Map(p, f) == p && Map(p, g) == p
    ensures ForOne(p, f) == p && ForOne(p, g) == p
    ensures p.Nothing? ==> Catch(p, f) == p && Catch(p, g) == p
  {
  }

  /** A `Something` is returned by catch, or and orFrom whatever handler,
      alternative or computation is given. */
  lemma PresentBypasses(v: Value, f: Callback, alt: Value, fn: Thunk)
    ensures Catch(Something(v), f) == Something(v)
    ensures Or(Something(v), alt) == Something(v)
    ensures OrFrom(Something(v), fn) == Something(v)
  {
  }

  /** `map` and `forOne` consult the callback only at the whole wrapped
      value, even when that value is an array. */
  lemma WholeValueCall(v: Value, f: Callback, g: Callback)
    requires f(v) == g(v)
    ensures Map(Something(v), f) == Map(Something(v), g)
    ensures ForOne(Something(v), f) == ForOne(Something(v), g)
  {
  }

  /** On `Nothing` and `Problem`, `or(alt)` is `of(alt)` and `orFrom(fn)` is
      `from(fn)`. */
  lemma AbsentRecovers(p: Perhaps, alt: Value, fn: Thunk)
    requires !p.Something?
    ensures Or(p, alt) == Of(alt)
    ensures OrFrom(p, fn) == From(fn)
    ensures UnwrapOr(p, alt) == alt
  {
  }

  // ----- Concrete cases -----

  /** The three recoveries of a `Problem`: to `Nothing`, to `Something`,
      and to a new `Problem` when the handler throws. */
  lemma CatchRecovery(e: Value, e2: Value)
    ensures Catch(Problem(e), _ => Ret(Null)) == Nothing
    ensures Catch(Problem(e), _ => Ret(Num(5))) == Something(Num(5))
    ensures Catch(Problem(e), _ => Threw(e2)) == Problem(e2)
  {
  }

  /** Mapping 123 with doubling, with a throw, and with mappers returning
      null, `Nothing`, a `Problem` and a `Something`. */
  lemma MapCases(e: Value)
    ensures Map(Something(Num(123)), (x: Value) => if x.Num? then Ret(Num(2 * x.n)) else Ret(NaN))
         == Something(Num(246))
    ensures Map(Something(Num(123)), _ => Threw(e)) == Problem(e)
    ensures Map(Something(Num(123)), _ => Ret(Null)) == Nothing
    ensures Map(Something(Num(123)), _ => Ret(Wrapped(Nothing))) == Nothing
    ensures Map(Something(Num(123)), _ => Ret(Wrapped(Problem(e)))) == Problem(e)
    ensures Map(Something(Num(123)), _ => Ret(Wrapped(Something(Bool(true))))) == Something(Bool(true))
  {
  }

  /** `Nothing.unwrap()` gives null without throwing, `Problem(e).unwrap()`
      throws e, and `unwrapOrThrow(e2)` throws e2 on both. */
  lemma UnwrapSignals(e: Value, e2: Value)
    ensures Unwrap(Nothing) == Ret(Null)
    ensures Unwrap(Problem(e)) == Threw(e)
    ensures UnwrapOrThrow(Nothing, e2) == Threw(e2)
    ensures UnwrapOrThrow(Problem(e), e2) == Threw(e2)
  {
  }
}
