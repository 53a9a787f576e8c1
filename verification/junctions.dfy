/** `Perhaps.junction`: fans several wrapped values into one join function.
    The variadic argument list of the source (wrapped values followed by
    the join function) becomes an explicit sequence and a function over
    the sequence of unwrapped values. */
module Junctions {
  import opened Values

  /** A join function, taking the unwrapped values positionally. */
  type Joiner = seq<Value> -> Outcome<Value>

  /** The rest of the left-to-right scan, given the values collected so
      far: the first input that is not a `Something` is the answer;
      otherwise the join function runs on everything collected. */
  function Scan(ps: seq<Perhaps>, inputs: seq<Value>, join: Joiner): Perhaps {
    if ps == [] then
      match join(inputs)
      case Ret(v) => Of(v)
      case Threw(e) => Problem(e)
    else
      match ps[0]
      case Something(v) => Scan(ps[1..], inputs + [v], join)
      case _ => ps[0]
  }

  /** What `junction` returns. */
  function JunctionResult(ps: seq<Perhaps>, join: Joiner): Perhaps {
    Scan(ps, [], join)
  }

  /** The wrapped values of inputs that are all `Something`, in order. */
  function Payloads(ps: seq<Perhaps>): (vs: seq<Value>)
    requires forall i :: 0 <= i < |ps| ==> ps[i].Something?
    ensures |vs| == |ps|
    ensures forall i :: 0 <= i < |ps| ==> vs[i] == ps[i].value
  {
    if ps == [] then [] else [ps[0].value] + Payloads(ps[1..])
  }

  /** `junction`: scans the inputs left to right, returning the first
      `Problem` or `Nothing` as it is; when all are `Something`, runs the
      join function on their values and normalises its result, turning a
      throw into a `Problem`. */
  method Junction(ps: seq<Perhaps>, join: Joiner) returns (r: Perhaps)
    ensures r == JunctionResult(ps, join)
  {
    var joinInputs: seq<Value> := [];
    var i := 0;
    while i < |ps|
      invariant 0 <= i <= |ps|
      invariant JunctionResult(ps, join) == Scan(ps[i..], joinInputs, join)
    {
      var maybe := ps[i];
      assert ps[i..][0] == maybe && ps[i..][1..] == ps[i + 1..];
      match maybe {
        case Something(v) =>
          joinInputs := joinInputs + [v];
        case Problem(_) =>
          return maybe;
        case Nothing =>
          return maybe;
      }
      i := i + 1;
    }
    var result := join(joinInputs);
    match result {
      case Ret(v) => r := Of(v);
      case Threw(e) => r := ProblemOf(e);
    }
  }

  lemma {:induction false} ScanFirstAbsent(ps: seq<Perhaps>, inputs: seq<Value>, join: Joiner, k: nat)
    requires k < |ps| && !ps[k].Something?
    requires forall i :: 0 <= i < k ==> ps[i].Something?
    ensures Scan(ps, inputs, join) == ps[k]
  {
    if k > 0 {
      ScanFirstAbsent(ps[1..], inputs + [ps[0].value], join, k - 1);
    }
  }

  /** The first input that is a `Nothing` or a `Problem`, in left-to-right
      order, is returned as it is, whatever the join function and the later
      inputs are. */
  lemma JunctionFirstAbsent(ps: seq<Perhaps>, join: Joiner, k: nat)
    requires k < |ps| && !ps[k].Something?
    requires forall i :: 0 <= i < k ==> ps[i].Something?
    ensures JunctionResult(ps, join) == ps[k]
  {
    ScanFirstAbsent(ps, [], join, k);
  }

  lemma {:induction false} ScanAllPresent(ps: seq<Perhaps>, inputs: seq<Value>, join: Joiner)
    requires forall i :: 0 <= i < |ps| ==> ps[i].Something?
    ensures Scan(ps, inputs, join) == From(() => join(inputs + Payloads(ps)))
  {
    if ps == [] {
      assert inputs + Payloads(ps) == inputs;
    } else {
      ScanAllPresent(ps[1..], inputs + [ps[0].value], join);
      assert (inputs + [ps[0].value]) + Payloads(ps[1..]) == inputs + Payloads(ps);
    }
  }

  /** When every input is a `Something`, `junction` is `from` over the join
      function applied to their values in order: a throw e gives
      `Problem(e)` and a returned value is normalised. */
  lemma JunctionAllPresent(ps: seq<Perhaps>, join: Joiner)
    requires forall i :: 0 <= i < |ps| ==> ps[i].Something?
    ensures JunctionResult(ps, join) == From(() => join(Payloads(ps)))
    ensures join(Payloads(ps)).Threw? ==> JunctionResult(ps, join) == Problem(join(Payloads(ps)).thrown)
    ensures join(Payloads(ps)).Ret? ==> JunctionResult(ps, join) == Of(join(Payloads(ps)).result)
  {
    ScanAllPresent(ps, [], join);
    assert [] + Payloads(ps) == Payloads(ps);
  }

  /** The join function is consulted only when every input is a
      `Something`, and then only at their values. */
  lemma JunctionJoinConsultedOnlyOnValues(ps: seq<Perhaps>, join1: Joiner, join2: Joiner)
    requires (forall i :: 0 <= i < |ps| ==> ps[i].Something?) ==> join1(Payloads(ps)) == join2(Payloads(ps))
    ensures JunctionResult(ps, join1) == JunctionResult(ps, join2)
  {
    if forall i :: 0 <= i < |ps| ==> ps[i].Something? {
      JunctionAllPresent(ps, join1);
      JunctionAllPresent(ps, join2);
    } else {
      var k :| 0 <= k < |ps| && !ps[k].Something?;
      FirstAbsentExists(ps, k);
      var j :| 0 <= j <= k && !ps[j].Something? && forall i :: 0 <= i < j ==> ps[i].Something?;
      JunctionFirstAbsent(ps, join1, j);
      JunctionFirstAbsent(ps, join2, j);
    }
  }

  lemma {:induction false} FirstAbsentExists(ps: seq<Perhaps>, k: nat)
    requires k < |ps| && !ps[k].Something?
    ensures exists j :: 0 <= j <= k && !ps[j].Something? && forall i :: 0 <= i < j ==> ps[i].Something?
  {
    if forall i :: 0 <= i < k ==> ps[i].Something? {
      assert !ps[k].Something? && forall i :: 0 <= i < k ==> ps[i].Something?;
    } else {
      var k' :| 0 <= k' < k && !ps[k'].Something?;
      FirstAbsentExists(ps, k');
    }
  }

  // ----- Concrete cases -----

  /** An adder over two numbers, as a join function. */
  function Add(vs: seq<Value>): Outcome<Value> {
    if |vs| == 2 && vs[0].Num? && vs[1].Num? then Ret(Num(vs[0].n + vs[1].n)) else Ret(NaN)
  }

  /** Joining 1 and 2 with the adder gives 3; a leading `Nothing` wins; the
      first of a `Nothing` and a later `Problem` wins; a trailing `Problem`
      is returned; a throwing join gives a `Problem`. */
  lemma JunctionCases(e: Value)
    ensures JunctionResult([Something(Num(1)), Something(Num(2))], Add) == Something(Num(3))
    ensures JunctionResult([Nothing, Something(Num(1)), Something(Num(2))], Add) == Nothing
    ensures JunctionResult([Something(Num(1)), Nothing, Problem(e)], Add) == Nothing
    ensures JunctionResult([Something(Num(1)), Something(Num(2)), Problem(e)], Add) == Problem(e)
    ensures JunctionResult([Something(Num(1)), Something(Num(2))], _ => Threw(e)) == Problem(e)
  {
    var two := [Something(Num(1)), Something(Num(2))];
    JunctionAllPresent(two, Add);
    assert Payloads(two) == [Num(1), Num(2)];
    JunctionAllPresent(two, _ => Threw(e));
    JunctionFirstAbsent([Nothing, Something(Num(1)), Something(Num(2))], Add, 0);
    JunctionFirstAbsent([Something(Num(1)), Nothing, Problem(e)], Add, 1);
    JunctionFirstAbsent([Something(Num(1)), Something(Num(2)), Problem(e)], Add, 2);
  }
}
