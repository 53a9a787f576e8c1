/** The data model of the Perhaps algebra: raw values, the three variants,
    the emptiness classifier, the normaliser `of` and the throw-catching
    runner `from`, plus the static helpers of the `None` and `Problem`
    classes. */
module Values {

  /** A raw JavaScript value as far as the algebra can tell them apart.
      Numbers other than NaN are modelled as integers; `Error` stands for an
      Error object, `Obj` for any other object or function, and `Wrapped`
      for a Perhaps instance handed over as a plain value. */
  datatype Value =
    | Undefined
    | Null
    | Str(chars: string)
    | Num(n: int)
    | NaN
    | Bool(b: bool)
    | Error(message: string)
    | Obj(id: nat)
    | Arr(elems: seq<Value>)
    | Wrapped(p: Perhaps)

  /** The three variants: the shared `Nothing`, a captured `Problem` and a
      present `Something`. */
  datatype Perhaps = Nothing | Problem(err: Value) | Something(value: Value)

  /** How a JavaScript call ends: it returns a result or throws a value. */
  datatype Outcome<+T> = Ret(result: T) | Threw(thrown: Value)

  /** A one-argument callback (mapper, handler, side-effecting function). */
  type Callback = Value -> Outcome<Value>

  /** A zero-argument computation, as passed to `from` and `orFrom`. */
  type Thunk = () -> Outcome<Value>

  /** `isEmpty`: dispatches on the JavaScript type of the value. */
  function IsEmpty(v: Value): (empty: bool)
    ensures empty <==> v == Undefined || v == Null || v == Str("") || v == NaN
  {
    match v
    case Undefined => true
    case Null => true          // typeof null is 'object'
    case Str(s) => |s| == 0
    case Num(_) => false       // isNaN of an ordinary number
    case NaN => true
    case _ => false            // booleans, objects, arrays, Errors, Perhaps instances
  }

  predicate IsNothing(p: Perhaps) { p.Nothing? }

  predicate IsProblem(p: Perhaps) { p.Problem? }

  predicate IsSomething(p: Perhaps) { p.Something? }

  /** `Perhaps.of`: an already-wrapped instance comes back unchanged, an
      empty raw value becomes `Nothing`, anything else is wrapped. */
  function Of(input: Value): (r: Perhaps)
    ensures input.Wrapped? ==> r == input.p
    ensures !input.Wrapped? ==> !r.Problem?
    ensures !input.Wrapped? ==> (r.Nothing? <==> IsEmpty(input))
    ensures !input.Wrapped? && !IsEmpty(input) ==> r == Something(input)
  {
    match input
    case Wrapped(p) => p
    case _ => if IsEmpty(input) then Nothing else Something(input)
  }

  /** `Perhaps.from`: runs the computation once; a throw becomes a
      `Problem`, a returned value is normalised. */
  function From(fn: Thunk): (r: Perhaps)
    ensures fn().Threw? ==> r == Problem(fn().thrown)
    ensures fn().Ret? ==> r == Of(fn().result)
  {
    match fn()
    case Threw(e) => Problem(e)
    case Ret(v) => Of(v)
  }

  /** `None.of`: ignores its input. */
  function NoneOf(input: Value): (r: Perhaps)
    ensures r == Nothing
  {
    Nothing
  }

  /** `None.from`: never runs the computation. */
  function NoneFrom(fn: Thunk): (r: Perhaps)
    ensures r == Nothing
  {
    Nothing
  }

  /** `Problem.of`: wraps the given error. */
  function ProblemOf(err: Value): (r: Perhaps)
    ensures r.Problem? && r.err == err
  {
    Problem(err)
  }

  /** `Problem.from`: wraps whatever the computation returns; a throw is not
      caught and escapes to the caller. */
  function ProblemFrom(fn: Thunk): (r: Outcome<Perhaps>)
    ensures fn().Ret? ==> r == Ret(Problem(fn().result))
    ensures fn().Threw? ==> r == Threw(fn().thrown)
  {
    match fn()
    case Ret(v) => Ret(Problem(v))
    case Threw(e) => Threw(e)
  }

  // ----- Properties of the classifier and the normaliser -----

  /** Every instance answers exactly one of the three variant predicates. */
  lemma ExactlyOneVariant(p: Perhaps)
    ensures IsNothing(p) || IsProblem(p) || IsSomething(p)
    ensures !(IsNothing(p) && IsProblem(p))
    ensures !(IsNothing(p) && IsSomething(p))
    ensures !(IsProblem(p) && IsSomething(p))
  {
  }

  /** Normalising an already-normalised value returns it unchanged. */
  lemma OfIdempotent(v: Value)
    ensures Of(Wrapped(Of(v))) == Of(v)
    ensures forall p: Perhaps :: Of(Wrapped(p)) == p
  {
  }

  /** Zero, false, empty arrays and returned Error objects are present;
      the four empty raw values all become `Nothing`. */
  lemma OfClassification(m: string, xs: seq<Value>)
    ensures Of(Num(0)) == Something(Num(0))
    ensures Of(Bool(false)) == Something(Bool(false))
    ensures Of(Arr([])) == Something(Arr([]))
    ensures Of(Error(m)) == Something(Error(m))
    ensures Of(Arr(xs)) == Something(Arr(xs))
    ensures Of(Undefined) == Nothing && Of(Null) == Nothing
    ensures Of(Str("")) == Nothing && Of(NaN) == Nothing
  {
  }

  /** A thrown Error becomes a `Problem`, a returned one a `Something`. */
  lemma RaisedVersusReturned(m: string)
    ensures From(() => Threw(Error(m))) == Problem(Error(m))
    ensures From(() => Ret(Error(m))) == Something(Error(m))
  {
  }

  /** `from` never yields a `Problem` unless the computation throws or
      returns a `Problem` instance. */
  lemma FromProblemOnlyFromThrow(fn: Thunk)
    ensures From(fn).Problem? <==>
      fn().Threw? || (fn().result.Wrapped? && fn().result.p.Problem?)
  {
  }

  /** `Problem.from` differs from `Perhaps.from` exactly in not catching:
      both report a throw, but only `Perhaps.from` turns it into a value. */
  lemma ProblemFromDoesNotCatch(fn: Thunk)
    requires fn().Threw?
    ensures ProblemFrom(fn).Threw? && ProblemFrom(fn).thrown == fn().thrown
    ensures From(fn) == Problem(fn().thrown)
  {
  }
}
