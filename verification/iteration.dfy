/** `Something.forEach` and `Something.mapEach`, the two combinators that
    walk an array value with an index loop and an early return. Each has a
    recursive specification function, a method that runs the loop and is
    proved equal to it, and lemmas about the specification. The methods
    also keep a ghost log of the arguments the callback receives. */
module Iteration {
  import opened Values
  import Combinators

  // ----- Which elements a loop with an early exit reaches -----

  /** The elements an index loop visits when it leaves right after the
      first element on which `stops` holds. */
  function Visited(xs: seq<Value>, stops: Value -> bool): seq<Value> {
    if xs == [] then []
    else if stops(xs[0]) then [xs[0]]
    else [xs[0]] + Visited(xs[1..], stops)
  }

  /** The visited elements form a prefix of the array. */
  lemma {:induction false} VisitedIsPrefix(xs: seq<Value>, stops: Value -> bool)
    ensures Visited(xs, stops) <= xs
  {
    if xs != [] && !stops(xs[0]) {
      VisitedIsPrefix(xs[1..], stops);
    }
  }

  /** Every visited element but the last lets the loop go on, and a loop
      that leaves early does so on an element where it stops. */
  lemma {:induction false} VisitedStopsOnlyAtLast(xs: seq<Value>, stops: Value -> bool)
    ensures forall i :: 0 <= i < |Visited(xs, stops)| - 1 ==> !stops(Visited(xs, stops)[i])
    ensures |Visited(xs, stops)| < |xs| ==>
      |Visited(xs, stops)| > 0 && stops(Visited(xs, stops)[|Visited(xs, stops)| - 1])
  {
    if xs != [] && !stops(xs[0]) {
      VisitedStopsOnlyAtLast(xs[1..], stops);
      var vs := Visited(xs[1..], stops);
      assert Visited(xs, stops) == [xs[0]] + vs;
    }
  }

  /** The loop reaches exactly the elements up to and including the first
      one on which it stops. */
  lemma {:induction false} VisitedUpToFirstStop(xs: seq<Value>, stops: Value -> bool, k: nat)
    requires k < |xs| && stops(xs[k])
    requires forall i :: 0 <= i < k ==> !stops(xs[i])
    ensures Visited(xs, stops) == xs[..k + 1]
  {
    if k > 0 {
      VisitedUpToFirstStop(xs[1..], stops, k - 1);
      assert xs[..k + 1] == [xs[0]] + xs[1..][..k];
    }
  }

  /** A loop that never stops reaches every element. */
  lemma {:induction false} VisitedAll(xs: seq<Value>, stops: Value -> bool)
    requires forall i :: 0 <= i < |xs| ==> !stops(xs[i])
    ensures Visited(xs, stops) == xs
  {
    if xs != [] {
      VisitedAll(xs[1..], stops);
    }
  }

  // ----- forEach -----

  /** The outcome of calling `fn` on each element in index order: the first
      throw, or a normal return once every element has been seen. */
  function RunAll(xs: seq<Value>, fn: Callback): Outcome<()> {
    if xs == [] then Ret(())
    else match fn(xs[0])
      case Threw(e) => Threw(e)
      case Ret(_) => RunAll(xs[1..], fn)
  }

  /** The elements on which `fn` throws. */
  function Throws(fn: Callback): Value -> bool {
    x => fn(x).Threw?
  }

  /** What `forEach` returns: the receiver, unless a call of `fn` threw. */
  function ForEachResult(p: Perhaps, fn: Callback): Perhaps {
    match p
    case Something(Arr(xs)) =>
      (match RunAll(xs, fn)
       case Threw(e) => Problem(e)
       case Ret(_) => p)
    case Something(v) =>
      (match fn(v)
       case Threw(e) => Problem(e)
       case Ret(_) => p)
    case _ => p
  }

  /** The arguments `forEach` passes to `fn`, in order. */
  function ForEachCalls(p: Perhaps, fn: Callback): seq<Value> {
    match p
    case Something(Arr(xs)) => Visited(xs, Throws(fn))
    case Something(v) => [v]
    case _ => []
  }

  /** `forEach`: on an array, calls `fn` on each element in index order and
      leaves at the first throw with a `Problem`; on any other value calls
      it once; returns the receiver when nothing threw. */
  method ForEach(p: Perhaps, fn: Callback) returns (r: Perhaps, ghost calls: seq<Value>)
    ensures r == ForEachResult(p, fn)
    ensures calls == ForEachCalls(p, fn)
  {
    calls := [];
    if p.Something? && p.value.Arr? {
      var xs := p.value.elems;
      var i := 0;
      while i < |xs|
        invariant 0 <= i <= |xs|
        invariant RunAll(xs, fn) == RunAll(xs[i..], fn)
        invariant Visited(xs, Throws(fn)) == calls + Visited(xs[i..], Throws(fn))
      {
        VisitedAdvance(xs, i, Throws(fn), calls);
        calls := calls + [xs[i]];
        var o := fn(xs[i]);
        if o.Threw? {
          r := ProblemOf(o.thrown);
          return;
        }
        assert xs[i..][1..] == xs[i + 1..];
        i := i + 1;
      }
      r := p;
    } else if p.Something? {
      calls := [p.value];
      var o := fn(p.value);
      if o.Threw? {
        r := ProblemOf(o.thrown);
        return;
      }
      r := p;
    } else {
      r := p;
    }
  }

  /** On an array, `forEach` returns `Problem(e)` for the first element on
      which `fn` throws e, after visiting exactly the elements up to it. */
  lemma {:induction false} ForEachFirstThrow(xs: seq<Value>, fn: Callback, k: nat)
    requires k < |xs| && fn(xs[k]).Threw?
    requires forall i :: 0 <= i < k ==> fn(xs[i]).Ret?
    ensures ForEachResult(Something(Arr(xs)), fn) == Problem(fn(xs[k]).thrown)
    ensures ForEachCalls(Something(Arr(xs)), fn) == xs[..k + 1]
  {
    RunAllFirstThrow(xs, fn, k);
    VisitedUpToFirstStop(xs, Throws(fn), k);
  }

  lemma {:induction false} RunAllFirstThrow(xs: seq<Value>, fn: Callback, k: nat)
    requires k < |xs| && fn(xs[k]).Threw?
    requires forall i :: 0 <= i < k ==> fn(xs[i]).Ret?
    ensures RunAll(xs, fn) == Threw(fn(xs[k]).thrown)
  {
    if k > 0 {
      RunAllFirstThrow(xs[1..], fn, k - 1);
    }
  }

  /** On an array where `fn` never throws, `forEach` visits every element
      and returns the receiver unchanged. */
  lemma ForEachNoThrow(xs: seq<Value>, fn: Callback)
    requires forall i :: 0 <= i < |xs| ==> fn(xs[i]).Ret?
    ensures ForEachResult(Something(Arr(xs)), fn) == Something(Arr(xs))
    ensures ForEachCalls(Something(Arr(xs)), fn) == xs
  {
    RunAllNoThrow(xs, fn);
    VisitedAll(xs, Throws(fn));
  }

  lemma {:induction false} RunAllNoThrow(xs: seq<Value>, fn: Callback)
    requires forall i :: 0 <= i < |xs| ==> fn(xs[i]).Ret?
    ensures RunAll(xs, fn) == Ret(())
  {
    if xs != [] {
      RunAllNoThrow(xs[1..], fn);
    }
  }

  /** Once a prefix has thrown, no later element changes the outcome. */
  lemma {:induction false} RunAllIgnoresRest(xs: seq<Value>, ys: seq<Value>, fn: Callback)
    requires RunAll(xs, fn).Threw?
    ensures RunAll(xs + ys, fn) == RunAll(xs, fn)
  {
    if fn(xs[0]).Ret? {
      assert (xs + ys)[1..] == xs[1..] + ys;
      RunAllIgnoresRest(xs[1..], ys, fn);
    }
  }

  /** The result and the calls of `forEach` depend only on what `fn` does
      on the arguments it actually receives. */
  lemma ForEachDependsOnlyOnCalls(p: Perhaps, f: Callback, g: Callback)
    requires forall x :: x in ForEachCalls(p, f) ==> f(x) == g(x)
    ensures ForEachResult(p, f) == ForEachResult(p, g)
    ensures ForEachCalls(p, f) == ForEachCalls(p, g)
  {
    match p
    case Something(Arr(xs)) => RunAllAgree(xs, f, g);
    case Something(v) => assert v in ForEachCalls(p, f);
    case _ =>
  }

  lemma {:induction false} RunAllAgree(xs: seq<Value>, f: Callback, g: Callback)
    requires forall x :: x in Visited(xs, Throws(f)) ==> f(x) == g(x)
    ensures RunAll(xs, f) == RunAll(xs, g)
    ensures Visited(xs, Throws(f)) == Visited(xs, Throws(g))
  {
    if xs != [] {
      assert xs[0] in Visited(xs, Throws(f));
      if f(xs[0]).Ret? {
        forall x | x in Visited(xs[1..], Throws(f)) ensures f(x) == g(x) {
          assert x in Visited(xs, Throws(f));
        }
        RunAllAgree(xs[1..], f, g);
      }
    }
  }

  /** `Nothing` and `Problem` never call `fn` and come back unchanged. */
  lemma ForEachAbsent(p: Perhaps, fn: Callback)
    requires !p.Something?
    ensures ForEachResult(p, fn) == p
    ensures ForEachCalls(p, fn) == []
  {
  }

  /** On a value that is not an array, `forEach` is `forOne`. */
  lemma ForEachNonArrayIsForOne(v: Value, fn: Callback)
    requires !v.Arr?
    ensures ForEachResult(Something(v), fn) == Combinators.ForOne(Something(v), fn)
    ensures ForEachCalls(Something(v), fn) == [v]
  {
  }

  // ----- mapEach -----

  /** How far `mapEach` has got: it stopped on an error, or it has
      collected these values. */
  datatype Gathered = Halted(err: Value) | Collected(items: seq<Value>)

  /** What one mapper call contributes: its result is classified as `of`
      would classify it, a `Problem` (or a throw) stops the walk, `Nothing`
      adds nothing and a `Something` adds its unwrapped value. */
  function Contribution(o: Outcome<Value>): (g: Gathered)
    ensures o.Threw? ==> g == Halted(o.thrown)
    ensures o.Ret? && Of(o.result).Problem? ==> g == Halted(Of(o.result).err)
    ensures o.Ret? && Of(o.result).Nothing? ==> g == Collected([])
    ensures o.Ret? && Of(o.result).Something? ==> g == Collected([Of(o.result).value])
  {
    match o
    case Threw(e) => Halted(e)
    case Ret(Wrapped(Problem(e))) => Halted(e)
    case Ret(Wrapped(Something(v))) => Collected([v])
    case Ret(Wrapped(Nothing)) => Collected([])
    case Ret(v) => if IsEmpty(v) then Collected([]) else Collected([v])
  }

  /** Collected values placed in front of what the rest of the walk
      gathers. */
  function Prepend(c: seq<Value>, g: Gathered): (r: Gathered)
    ensures r.Halted? <==> g.Halted?
  {
    match g
    case Halted(_) => g
    case Collected(rest) => Collected(c + rest)
  }

  /** The walk of `mapEach` over the elements, in index order. */
  function Gather(xs: seq<Value>, f: Callback): Gathered {
    if xs == [] then Collected([])
    else match Contribution(f(xs[0]))
      case Halted(e) => Halted(e)
      case Collected(c) => Prepend(c, Gather(xs[1..], f))
  }

  /** The elements on which the mapper stops `mapEach`. */
  function Halts(f: Callback): Value -> bool {
    x => Contribution(f(x)).Halted?
  }

  /** What `mapEach` returns. */
  function MapEachResult(p: Perhaps, f: Callback): Perhaps {
    match p
    case Something(Arr(xs)) => Finish(Gather(xs, f))
    case Something(_) => Combinators.Map(p, f)
    case _ => p
  }

  /** The end of the walk over an array: the error it stopped on, the
      collected values if there are any, or else `Nothing`. */
  function Finish(g: Gathered): Perhaps {
    match g
    case Halted(e) => Problem(e)
    case Collected(items) => if |items| > 0 then Of(Arr(items)) else Nothing
  }

  /** The arguments `mapEach` passes to the mapper, in order. */
  function MapEachCalls(p: Perhaps, f: Callback): seq<Value> {
    match p
    case Something(Arr(xs)) => Visited(xs, Halts(f))
    case Something(v) => [v]
    case _ => []
  }

  /** `mapEach`: on an array, maps each element in index order, leaves at
      the first throw or `Problem`, skips empty and `Nothing` results and
      collects the rest, unwrapping a `Something`; on any other value it is
      `map`. */
  method MapEach(p: Perhaps, f: Callback) returns (r: Perhaps, ghost calls: seq<Value>)
    ensures r == MapEachResult(p, f)
    ensures calls == MapEachCalls(p, f)
  {
    calls := [];
    if p.Something? && p.value.Arr? {
      var xs := p.value.elems;
      assert MapEachResult(p, f) == Finish(Gather(xs, f));
      assert MapEachCalls(p, f) == Visited(xs, Halts(f));
      var results: seq<Value> := [];
      var i := 0;
      while i < |xs|
        invariant 0 <= i <= |xs|
        invariant Gather(xs, f) == Prepend(results, Gather(xs[i..], f))
        invariant Visited(xs, Halts(f)) == calls + Visited(xs[i..], Halts(f))
      {
        var o := f(xs[i]);
        VisitedAdvance(xs, i, Halts(f), calls);
        calls := calls + [xs[i]];
        if o.Threw? {
          GatherHalt(xs, i, f, results);
          r := ProblemOf(o.thrown);
          return;
        }
        var result := o.result;
        ghost var before := results;
        if result.Wrapped? && result.p.Problem? {
          GatherHalt(xs, i, f, results);
          r := result.p;
          return;
        } else if result.Wrapped? && result.p.Something? {
          results := results + [result.p.value];
        } else if result.Wrapped? && result.p.Nothing? {
          // a Nothing result is skipped
        } else if IsEmpty(result) {
          // an empty raw result is skipped
        } else {
          results := results + [result];
        }
        assert results == before + Contribution(o).items;
        GatherAdvance(xs, i, f, before);
        i := i + 1;
      }
      if |results| > 0 {
        r := Of(Arr(results));
      } else {
        r := Nothing;
      }
    } else if p.Something? {
      calls := [p.value];
      r := Combinators.Map(p, f);
    } else {
      r := p;
    }
  }

  /** Advancing the walk past an element that does not stop it. */
  lemma GatherAdvance(xs: seq<Value>, i: nat, f: Callback, done: seq<Value>)
    requires i < |xs| && Contribution(f(xs[i])).Collected?
    ensures Prepend(done, Gather(xs[i..], f))
         == Prepend(done + Contribution(f(xs[i])).items, Gather(xs[i + 1..], f))
  {
    assert xs[i..][1..] == xs[i + 1..];
    PrependTwice(done, Contribution(f(xs[i])).items, Gather(xs[i + 1..], f));
  }

  /** The walk ends at an element that stops it. */
  lemma GatherHalt(xs: seq<Value>, i: nat, f: Callback, done: seq<Value>)
    requires i < |xs| && Contribution(f(xs[i])).Halted?
    ensures Prepend(done, Gather(xs[i..], f)) == Halted(Contribution(f(xs[i])).err)
  {
  }

  /** Advancing an early-exit loop by one element. */
  lemma VisitedAdvance(xs: seq<Value>, i: nat, stops: Value -> bool, done: seq<Value>)
    requires i < |xs|
    ensures !stops(xs[i]) ==>
      done + Visited(xs[i..], stops) == (done + [xs[i]]) + Visited(xs[i + 1..], stops)
    ensures stops(xs[i]) ==> done + Visited(xs[i..], stops) == done + [xs[i]]
  {
    assert xs[i..][1..] == xs[i + 1..];
  }

  lemma PrependTwice(a: seq<Value>, b: seq<Value>, g: Gathered)
    ensures Prepend(a, Prepend(b, g)) == Prepend(a + b, g)
  {
    if g.Collected? {
      assert a + (b + g.items) == (a + b) + g.items;
    }
  }

  /** The walk splits at any point: what the first part gathers is
      followed by what the second part gathers, unless the first part
      already stopped, in which case the second part is never looked at. */
  lemma {:induction false} GatherAppend(xs: seq<Value>, ys: seq<Value>, f: Callback)
    ensures Gather(xs + ys, f) ==
      match Gather(xs, f)
      case Halted(e) => Halted(e)
      case Collected(c) => Prepend(c, Gather(ys, f))
  {
    if xs == [] {
      assert xs + ys == ys;
      assert Prepend([], Gather(ys, f)) == Gather(ys, f);
    } else {
      assert (xs + ys)[0] == xs[0];
      assert (xs + ys)[1..] == xs[1..] + ys;
      GatherAppend(xs[1..], ys, f);
      match Contribution(f(xs[0]))
      case Halted(_) =>
      case Collected(c) =>
        if Gather(xs[1..], f).Collected? {
          PrependTwice(c, Gather(xs[1..], f).items, Gather(ys, f));
        }
    }
  }

  /** `mapEach` returns the first `Problem` (thrown or returned) met in
      index order, after calling the mapper on exactly the elements up to
      it. */
  lemma {:induction false} MapEachFirstHalt(xs: seq<Value>, f: Callback, k: nat)
    requires k < |xs| && Contribution(f(xs[k])).Halted?
    requires forall i :: 0 <= i < k ==> Contribution(f(xs[i])).Collected?
    ensures MapEachResult(Something(Arr(xs)), f) == Problem(Contribution(f(xs[k])).err)
    ensures MapEachCalls(Something(Arr(xs)), f) == xs[..k + 1]
  {
    GatherFirstHalt(xs, f, k);
    VisitedUpToFirstStop(xs, Halts(f), k);
  }

  lemma {:induction false} GatherFirstHalt(xs: seq<Value>, f: Callback, k: nat)
    requires k < |xs| && Contribution(f(xs[k])).Halted?
    requires forall i :: 0 <= i < k ==> Contribution(f(xs[i])).Collected?
    ensures Gather(xs, f) == Halted(Contribution(f(xs[k])).err)
  {
    if k > 0 {
      GatherFirstHalt(xs[1..], f, k - 1);
    }
  }

  /** When every mapper result is empty or `Nothing`, `mapEach` gives
      `Nothing`. */
  lemma MapEachAllSkipped(xs: seq<Value>, f: Callback)
    requires forall i :: 0 <= i < |xs| ==> Contribution(f(xs[i])) == Collected([])
    ensures MapEachResult(Something(Arr(xs)), f) == Nothing
  {
    GatherAllSkipped(xs, f);
  }

  lemma {:induction false} GatherAllSkipped(xs: seq<Value>, f: Callback)
    requires forall i :: 0 <= i < |xs| ==> Contribution(f(xs[i])) == Collected([])
    ensures Gather(xs, f) == Collected([])
  {
    if xs != [] {
      GatherAllSkipped(xs[1..], f);
    }
  }

  /** When the mapper returns a plain present value `g(x)` for every
      element, `mapEach` collects exactly those values, in order. */
  lemma {:induction false} GatherPlain(xs: seq<Value>, f: Callback, g: Value -> Value)
    requires forall i :: 0 <= i < |xs| ==>
      f(xs[i]) == Ret(g(xs[i])) && !IsEmpty(g(xs[i])) && !g(xs[i]).Wrapped?
    ensures Gather(xs, f).Collected?
    ensures |Gather(xs, f).items| == |xs|
    ensures forall i :: 0 <= i < |xs| ==> Gather(xs, f).items[i] == g(xs[i])
  {
    if xs != [] {
      GatherPlain(xs[1..], f, g);
      assert Gather(xs, f).items == [g(xs[0])] + Gather(xs[1..], f).items;
    }
  }

  /** `Nothing` and `Problem` never call the mapper and come back
      unchanged. */
  lemma MapEachAbsent(p: Perhaps, f: Callback)
    requires !p.Something?
    ensures MapEachResult(p, f) == p
    ensures MapEachCalls(p, f) == []
  {
  }

  /** On a value that is not an array, `mapEach` is `map`; on an array, the
      mapper sees the elements where `map` would pass the whole array. */
  lemma MapEachVersusMap(v: Value, f: Callback)
    ensures !v.Arr? ==> MapEachResult(Something(v), f) == Combinators.Map(Something(v), f)
    ensures !v.Arr? ==> MapEachCalls(Something(v), f) == [v]
    ensures v.Arr? ==> MapEachCalls(Something(v), f) <= v.elems
  {
    if v.Arr? {
      VisitedIsPrefix(v.elems, Halts(f));
    }
  }

  /** The result and the calls of `mapEach` depend only on what the mapper
      does on the arguments it actually receives. */
  lemma MapEachDependsOnlyOnCalls(p: Perhaps, f: Callback, g: Callback)
    requires forall x :: x in MapEachCalls(p, f) ==> f(x) == g(x)
    ensures MapEachResult(p, f) == MapEachResult(p, g)
    ensures MapEachCalls(p, f) == MapEachCalls(p, g)
  {
    match p
    case Something(Arr(xs)) => GatherAgree(xs, f, g);
    case Something(v) => assert v in MapEachCalls(p, f);
    case _ =>
  }

  lemma {:induction false} GatherAgree(xs: seq<Value>, f: Callback, g: Callback)
    requires forall x :: x in Visited(xs, Halts(f)) ==> f(x) == g(x)
    ensures Gather(xs, f) == Gather(xs, g)
    ensures Visited(xs, Halts(f)) == Visited(xs, Halts(g))
  {
    if xs != [] {
      assert xs[0] in Visited(xs, Halts(f));
      if Contribution(f(xs[0])).Collected? {
        forall x | x in Visited(xs[1..], Halts(f)) ensures f(x) == g(x) {
          assert x in Visited(xs, Halts(f));
        }
        GatherAgree(xs[1..], f, g);
      }
    }
  }

  /** When no element stops the walk, the mapper is called on every
      element, in index order. */
  lemma MapEachNoHalt(xs: seq<Value>, f: Callback)
    requires forall i :: 0 <= i < |xs| ==> Contribution(f(xs[i])).Collected?
    ensures MapEachCalls(Something(Arr(xs)), f) == xs
  {
    VisitedAll(xs, Halts(f));
  }

  /** `mapEach` never returns a `Something` holding an empty array. */
  lemma MapEachNeverEmptyArray(p: Perhaps, f: Callback)
    requires p.Something? && p.value.Arr?
    ensures MapEachResult(p, f) != Something(Arr([]))
  {
  }

  /** The mapper x => x > 1 ? x * 10 : null. */
  function TenfoldAboveOne(x: Value): Outcome<Value> {
    if x.Num? && x.n > 1 then Ret(Num(x.n * 10)) else Ret(Null)
  }

  /** Mapping [1, 2, 3] with `TenfoldAboveOne` gives `Something([20, 30])`:
      the empty result is dropped and the order is kept. */
  lemma MapEachFiltering()
    ensures MapEachResult(Something(Arr([Num(1), Num(2), Num(3)])), TenfoldAboveOne)
         == Something(Arr([Num(20), Num(30)]))
  {
    var xs := [Num(1), Num(2), Num(3)];
    assert xs[1..] == [Num(2), Num(3)];
    assert xs[1..][1..] == [Num(3)];
    assert Contribution(TenfoldAboveOne(Num(3))) == Collected([Num(30)]);
    assert Contribution(TenfoldAboveOne(Num(2))) == Collected([Num(20)]);
    assert Contribution(TenfoldAboveOne(Num(1))) == Collected([]);
    assert Gather([Num(3)], TenfoldAboveOne) == Collected([Num(30)]);
    assert Gather([Num(2), Num(3)], TenfoldAboveOne) == Collected([Num(20), Num(30)]);
    assert Gather(xs, TenfoldAboveOne) == Collected([Num(20), Num(30)]);
  }
}
