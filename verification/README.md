# Perhaps: a verified model of an optional/result combinator algebra

This project models the `Perhaps` type of the TypeScript library
`highly-questionable` (`src/index.ts`). A `Perhaps` is one of three
variants: the shared `Nothing`, a `Problem(err)` holding a caught error, or
a `Something(value)` holding a present value. The library offers:

- `isEmpty`, the classifier. It holds for undefined, null, `''` and NaN.
- `Perhaps.of`, the normaliser. It returns an existing `Perhaps` unchanged,
  maps empty values to `Nothing`, and wraps everything else in `Something`.
- `Perhaps.from`, the throw-catching runner. A throw becomes a `Problem`; a
  returned value goes through `of`.
- `Perhaps.junction`, the fan-in combinator. It returns the first input that
  is not a `Something`, or else joins the inputs' values.
- The per-variant combinators: `catch`, `forEach`, `forOne`, `map`,
  `mapEach`, `or`, `orFrom`, `peek`, `unwrap`, `unwrapOr`, `unwrapOrThrow`
  and the three `is…` predicates.
- The statics `None.of`/`None.from` and `Problem.of`/`Problem.from`.

Modelling choices:

- Raw JavaScript values are the datatype `Values.Value`. Its constructors are
  `Undefined`, `Null`, strings, numbers, `NaN`, booleans, Error objects, other
  objects, arrays, and `Wrapped(p)` for a `Perhaps` passed as a value.
- A call that may throw yields `Outcome<T>`: `Ret(result)` or `Threw(thrown)`.
  Callbacks are total functions `Value -> Outcome<Value>`. Zero-argument
  computations are `() -> Outcome<Value>`. `unwrap` and `unwrapOrThrow`
  return an `Outcome`, because they may throw.
- "Returns the same instance" is modelled as equality with the receiver.
- The single-expression combinators are functions (module `Combinators`).
- `forEach`, `mapEach` and `junction` run index loops with early returns in
  the source. Each is a method with a `while` loop (modules `Iteration` and
  `Junctions`), proved equal to a recursive specification function. The
  lemmas are stated about that function.
- The `forEach` and `mapEach` methods keep a ghost log of the arguments the
  callback receives. The lemmas show this log is the prefix of the array up
  to the first stop. They also show the result depends only on what the
  callback does on those arguments, and that a walk that never stops
  calls the callback on every element.

Two behaviours of the code are easy to misread; the model follows the
code. First, `Problem.from` does not catch a throw from its computation
(src/index.ts:146-148), so not every throw is caught at a combinator
boundary. Second, `unwrapOr` returns the alternative unchanged on `Nothing`
and `Problem` and does not classify it.

## Model

| member | source | states |
|---|---|---|
| `Values.IsEmpty` | src/index.ts:298-314 | true exactly for undefined, null, the empty string and NaN |
| `Values.Of` | src/index.ts:63-79 | a wrapped `Perhaps` is returned unchanged; any other value is `Nothing` iff it is empty, otherwise `Something` of itself; never a `Problem` for a raw value |
| `Values.From` | src/index.ts:81-88 | a computation that throws e gives `Problem(e)`; one that returns v gives `of(v)` |
| `Values.NoneOf` | src/index.ts:92 | always `Nothing`, whatever the input |
| `Values.NoneFrom` | src/index.ts:94 | always `Nothing`; the computation plays no part |
| `Values.ProblemOf` | src/index.ts:142-144 | a `Problem` holding exactly the given error |
| `Values.ProblemFrom` | src/index.ts:146-148 | wraps the returned value as a `Problem`; a throw escapes uncaught |
| `Values.ExactlyOneVariant` | src/index.ts:102-106 | every instance answers exactly one of `isNothing`/`isProblem`/`isSomething` (the predicates `Values.IsNothing`, `Values.IsProblem`, `Values.IsSomething`) true (likewise lines 158-162 and 230-234) |
| `Values.OfIdempotent` | src/index.ts:63-72 | `of(of(x)) == of(x)`, and `of` returns every `Perhaps` unchanged |
| `Values.OfClassification` | test/spec.ts:13-31 | 0, false, arrays (empty or not) and returned Error objects become `Something`; undefined, null, `''` and NaN become `Nothing` |
| `Values.RaisedVersusReturned` | test/spec.ts:55-63 | a thrown Error gives a `Problem`, a returned Error a `Something` |
| `Values.FromProblemOnlyFromThrow` | src/index.ts:81-88 | `from` gives a `Problem` iff the computation throws or returns a `Problem` instance |
| `Values.ProblemFromDoesNotCatch` | test/spec.ts:227-231 | on a throwing computation `Problem.from` throws the same value where `Perhaps.from` gives `Problem` |
| `Combinators.Catch` | src/index.ts:150-152 | a `Problem`'s handler throwing e gives `Problem(e)`, returning v gives `of(v)`; `Nothing` and `Something` are returned unchanged |
| `Combinators.ForOne` | src/index.ts:221-228 | on `Something(v)`, `fn(v)` throwing e gives `Problem(e)`, otherwise the receiver whatever fn returns; other variants unchanged |
| `Combinators.Map` | src/index.ts:236-243 | on `Something(v)`, `f(v)` throwing e gives `Problem(e)`, returning w gives `of(w)`; other variants unchanged |
| `Combinators.Or` | src/index.ts:168-170 | `Something` is kept; `Nothing`/`Problem` give `of(alt)` |
| `Combinators.OrFrom` | src/index.ts:172-174 | `Something` is kept; `Nothing`/`Problem` give `Problem(e)` when fn throws e and `of(v)` when it returns v |
| `Combinators.Peek` | src/index.ts:176-178 | null for `Nothing`, the error for `Problem`, the value for `Something`; never throws |
| `Combinators.Unwrap` | src/index.ts:180-182 | throws iff the receiver is a `Problem`, and then its error; null for `Nothing`, the value for `Something` |
| `Combinators.UnwrapOr` | src/index.ts:184-186 | the value of a `Something`, otherwise the alternative unchanged |
| `Combinators.UnwrapOrThrow` | src/index.ts:188-190 | the value of a `Something`; `Nothing` and `Problem` throw the given error, not their own |
| `Combinators.CatchIsFrom` | src/index.ts:150-152 | `Problem(e).catch(h)` equals `from(() => h(e))` |
| `Combinators.MapIsFrom` | src/index.ts:236-243 | `Something(v).map(f)` equals `from(() => f(v))` |
| `Combinators.OrIsOrFrom` | src/index.ts:112-118 | `or(alt)` equals `orFrom(() => alt)` on every variant |
| `Combinators.ForOneIsMapDiscarding` | src/index.ts:221-243 | `forOne` changes the receiver iff it is a `Something` whose call throws, and then agrees with `map` |
| `Combinators.PeekUnwrapAsymmetry` | src/index.ts:176-182 | `unwrap` returns what `peek` returns, except that on a `Problem` it throws it |
| `Combinators.ExtractRoundTrip` | src/index.ts:287-295 | peek/unwrap/unwrapOr/unwrapOrThrow on `of(v)` give back v when v is non-empty; null, the alternative and the given error when it is empty |
| `Combinators.AbsentBypasses` | src/index.ts:96-110 | `Nothing` and `Problem` are returned by `map` and `forOne` for any two callbacks, and `Nothing` by `catch` (likewise lines 154-166) |
| `Combinators.PresentBypasses` | src/index.ts:283-285 | `Something` is returned by `or`, `orFrom` and `catch` (line 200) whatever the alternative, computation or handler |
| `Combinators.WholeValueCall` | src/index.ts:221-243 | `map` and `forOne` on `Something(v)` depend on the callback only through its outcome at the whole value v, arrays included |
| `Combinators.AbsentRecovers` | src/index.ts:112-126 | on `Nothing`/`Problem`, `or(alt)` is `of(alt)`, `orFrom(fn)` is `from(fn)`, `unwrapOr(alt)` is alt |
| `Combinators.CatchRecovery` | test/spec.ts:234-251 | a handler returning null gives `Nothing`, returning 5 gives `Something(5)`, throwing e2 gives `Problem(e2)` |
| `Combinators.MapCases` | test/spec.ts:389-429 | mapping 123 by doubling gives 246; a throw, null, `Nothing`, a `Problem` and a `Something` result give what the tests expect |
| `Combinators.UnwrapSignals` | test/spec.ts:180-205 | `Nothing.unwrap()` is null without a throw, `Problem(e).unwrap()` throws e, and `unwrapOrThrow(e2)` throws e2 on both |
| `Iteration.VisitedIsPrefix` | src/index.ts:204-210 | the elements an early-exit index loop visits form a prefix of the array |
| `Iteration.VisitedUpToFirstStop` | src/index.ts:204-210 | the loop visits exactly the elements up to and including the first one it stops on |
| `Iteration.VisitedAll` | src/index.ts:204-210 | a loop that never stops visits every element |
| `Iteration.VisitedStopsOnlyAtLast` | src/index.ts:204-210 | no visited element but the last stops the loop, and a loop that ends early stops on its last visited element |
| `Iteration.ForEach` | src/index.ts:202-219 | the loop returns the specification result, and its ghost log of callback arguments is the specified list |
| `Iteration.ForEachFirstThrow` | src/index.ts:204-210 | at the first element whose call throws e, `forEach` gives `Problem(e)` after calling fn on exactly the elements up to it |
| `Iteration.ForEachNoThrow` | src/index.ts:202-219 | when no call throws, every element is visited in order and the receiver is returned unchanged |
| `Iteration.RunAllIgnoresRest` | src/index.ts:204-210 | once a prefix has thrown, appending elements does not change the outcome |
| `Iteration.ForEachDependsOnlyOnCalls` | src/index.ts:202-219 | two callbacks that agree on the arguments actually passed give the same result and the same calls |
| `Iteration.ForEachAbsent` | src/index.ts:154 | `forEach` on `Nothing`/`Problem` returns the receiver and makes no call (likewise line 98) |
| `Iteration.ForEachNonArrayIsForOne` | src/index.ts:211-217 | on a non-array value `forEach` is `forOne`, calling fn once on the value |
| `Iteration.Contribution` | src/index.ts:249-269 | one mapper result is classified as `of` would: a throw or `Problem` stops with its error, `Nothing`/empty adds nothing, a `Something` adds its unwrapped value |
| `Iteration.MapEach` | src/index.ts:245-281 | the loop returns the specification result, and its ghost log of mapper arguments is the specified list |
| `Iteration.GatherAppend` | src/index.ts:247-270 | the walk over xs + ys is the walk over xs followed by the walk over ys, and ys is never examined once xs has stopped |
| `Iteration.MapEachFirstHalt` | src/index.ts:248-270 | the first thrown or returned `Problem` is the result, after calling the mapper on exactly the elements up to it |
| `Iteration.MapEachAllSkipped` | src/index.ts:258-276 | if every result is empty or `Nothing`, the result is `Nothing` |
| `Iteration.GatherPlain` | src/index.ts:264-266 | plain present results are collected one per element, in index order |
| `Iteration.MapEachDependsOnlyOnCalls` | src/index.ts:245-281 | two mappers that agree on the arguments actually passed give the same result and the same calls |
| `Iteration.MapEachNoHalt` | src/index.ts:247-270 | when no mapper result stops the walk, the mapper is called on every element, in index order |
| `Iteration.MapEachAbsent` | src/index.ts:166 | `mapEach` on `Nothing`/`Problem` returns the receiver and makes no call (likewise line 110) |
| `Iteration.MapEachVersusMap` | src/index.ts:278-280 | on a non-array value `mapEach` is `map`; on an array the mapper receives elements, a prefix of the array |
| `Iteration.MapEachNeverEmptyArray` | src/index.ts:272-276 | `mapEach` over an array never returns a `Something` holding an empty array |
| `Iteration.MapEachFiltering` | src/index.ts:245-281 | `[1, 2, 3]` mapped by `x > 1 ? x * 10 : null` gives `Something([20, 30])` |
| `Junctions.Payloads` | src/index.ts:41-42 | the values of all-`Something` inputs, one per input, in order |
| `Junctions.Junction` | src/index.ts:33-61 | the loop returns the specification result of the left-to-right scan |
| `Junctions.JunctionFirstAbsent` | src/index.ts:44-49 | the first `Nothing` or `Problem` in left-to-right order is returned as it is, whatever the join function |
| `Junctions.JunctionAllPresent` | src/index.ts:55-60 | when all inputs are `Something`, the result is `from(() => join(values in order))`: `Problem(e)` when join throws e, else `of` its result |
| `Junctions.JunctionJoinConsultedOnlyOnValues` | src/index.ts:38-60 | two join functions that agree on the inputs' values (when all are present) give the same result |
| `Junctions.JunctionCases` | test/spec.ts:76-96 | the adder joins 1 and 2 into 3; a leading `Nothing` wins over a later `Problem`; a throwing join gives a `Problem` |

## Left out

- JavaScript dispatch (`instanceof`, `typeof`, `Array.isArray`) and the per-instance arrow-function fields are replaced by matching on closed datatypes.
- Reference identity is modelled as value equality. A second `new None()` cannot be told apart from the shared `Nothing`.
- The variadic `junction(...args)` with `args.pop()` becomes a sequence plus a join function. A call with no arguments at all (join undefined, so calling it throws a TypeError that becomes a `Problem`) is not modelled.
- The 'Illegal junction parameter' throw (src/index.ts:50-52) cannot happen with a closed datatype. The TypeError the source raises for a non-`Perhaps` argument is not modelled either.
- Numbers are integers plus a separate `NaN`. Fractions, infinities and -0 are not modelled, since no floating point is available.
- Callbacks are pure total functions. Their side effects, `this` binding and extra arguments are not modelled. What the model records is their outcome and, for `forEach`/`mapEach`, the ghost log of arguments.
- Combinators.WholeValueCall: "fn is called exactly once" is stated as the result depending only on the callback's outcome at the whole value. A pure callback has no observable call count.
- Combinators.UnwrapOrThrow: `Something.unwrapOrThrow` takes no argument in the source. The model passes the error anyway and ignores it on `Something`.
- Error objects are told apart only by their message. Object identity is not modelled.
- TypeScript generics and casts carry no behaviour and are dropped.
- dist/index.js (a build of a different revision, with `mapEachFlat` and `Something.of/from`) and dist/index.d.ts are not part of this model.
- The `Perhaps.unwrapAll` test (test/spec.ts:66-68) has no body and no implementation, so it is not modelled.
