/** The bounded first-order filter of path/local/sys_arma.c, over the reals. */
module Arma {

  datatype BoundType = NoBound | InputAbs | InputRel | OutputAbs | OutputRel

  datatype Params = Params(coefY1: real, coefX0: real, coefX1: real, bound: BoundType, lower: real, upper: real)

  datatype State = State(x1: real, y1: real)

  /** bound() of sys_rt.c. */
  function Bound(lower: real, value: real, upper: real): real {
    if value <= lower then lower else if upper <= value then upper else value
  }

  /** The input as used and stored. */
  function Input(p: Params, s: State, x: real): real {
    match p.bound
    case InputAbs => Bound(p.lower, x, p.upper)
    case InputRel => Bound(s.x1 + p.lower, x, s.x1 + p.upper)
    case _ => x
  }

  function Mix(p: Params, s: State, x: real): real {
    p.coefY1 * s.y1 + p.coefX0 * x + p.coefX1 * s.x1
  }

  /** arma_11_get_value; the relative output bound is taken around the prior input. */
  function Step(p: Params, s: State, x: real): State {
    var x0 := Input(p, s, x);
    var y := Mix(p, s, x0);
    State(x0, match p.bound
              case OutputAbs => Bound(p.lower, y, p.upper)
              case OutputRel => Bound(s.x1 + p.lower, y, s.x1 + p.upper)
              case _ => y)
  }

  function Run(p: Params, s: State, xs: seq<real>): State {
    if xs == [] then s else Step(p, Run(p, s, xs[..|xs| - 1]), xs[|xs| - 1])
  }

  /** A weighted mean. */
  predicate Averaging(p: Params) {
    p.coefY1 >= 0.0 && p.coefX0 >= 0.0 && p.coefX1 >= 0.0 && p.coefY1 + p.coefX0 + p.coefX1 == 1.0
  }

  predicate Inside(s: State, lo: real, hi: real) {
    lo <= s.x1 <= hi && lo <= s.y1 <= hi
  }

  function Times(c: real, v: real): real {
    c * v
  }

  lemma Weighted(c: real, v: real, lo: real, hi: real)
    requires c >= 0.0 && lo <= v <= hi
    ensures Times(c, lo) <= Times(c, v) <= Times(c, hi)
  {
  }

  lemma MixIs(p: Params, s: State, x0: real)
    ensures Mix(p, s, x0) == Times(p.coefY1, s.y1) + Times(p.coefX0, x0) + Times(p.coefX1, s.x1)
  {
  }

  lemma MixInside(p: Params, s: State, x: real, lo: real, hi: real)
    requires Averaging(p) && Inside(s, lo, hi) && lo <= x <= hi
    ensures lo <= Mix(p, s, x) <= hi
  {
    MixIs(p, s, x);
    hide Times, Mix;
    Weighted(p.coefY1, s.y1, lo, hi);
    Weighted(p.coefX0, x, lo, hi);
    Weighted(p.coefX1, s.x1, lo, hi);
    SharesAddUp(p, lo);
    SharesAddUp(p, hi);
  }

  lemma SharesAddUp(p: Params, v: real)
    requires Averaging(p)
    ensures Times(p.coefY1, v) + Times(p.coefX0, v) + Times(p.coefX1, v) == v
  {
    assert (p.coefY1 + p.coefX0 + p.coefX1) * v == p.coefY1 * v + p.coefX0 * v + p.coefX1 * v;
  }

  /** An averaging filter without output bounds never leaves the range of what it was fed, over every
      run, nor does one with a relative input bound that allows standing still; with absolute input
      bounds it stays within those whatever it is fed. */
  lemma {:induction false} RunStaysInside(p: Params, s: State, xs: seq<real>, lo: real, hi: real)
    requires Averaging(p) && Inside(s, lo, hi)
    requires match p.bound
             case NoBound => true
             case InputRel => p.lower <= 0.0 <= p.upper
             case InputAbs => lo == p.lower && hi == p.upper
             case _ => false
    requires !p.bound.InputAbs? ==> forall i :: 0 <= i < |xs| ==> lo <= xs[i] <= hi
    ensures Inside(Run(p, s, xs), lo, hi)
  {
    if xs != [] {
      var n := |xs| - 1;
      RunStaysInside(p, s, xs[..n], lo, hi);
      var before := Run(p, s, xs[..n]);
      assert lo <= Input(p, before, xs[n]) <= hi;
      MixInside(p, before, Input(p, before, xs[n]), lo, hi);
      hide Mix, Averaging;
    }
  }

  // ------------------------------------------------------------------ what each bound type does

  function Distance(a: real, b: real): real {
    if a < b then b - a else a - b
  }

  /** The value between the bounds that is closest to the one asked for. */
  ghost predicate Nearest(v: real, asked: real, lower: real, upper: real) {
    lower <= v <= upper && forall z :: lower <= z <= upper ==> Distance(v, asked) <= Distance(z, asked)
  }

  lemma BoundIsNearest(lower: real, value: real, upper: real)
    requires lower <= upper
    ensures Nearest(Bound(lower, value, upper), value, lower, upper)
  {
  }

  /** The input stored is the one nearest to what was fed that the bound type allows, and the output the
      one nearest to the weighted sum. */
  ghost predicate Obeys(p: Params, before: State, x: real, after: State) {
    AsBounded(p, before, x, after,
      Times(p.coefY1, before.y1) + Times(p.coefX0, after.x1) + Times(p.coefX1, before.x1))
  }

  ghost predicate AsBounded(p: Params, before: State, x: real, after: State, sum: real) {
    match p.bound
    case NoBound => after == State(x, sum)
    case InputAbs => Nearest(after.x1, x, p.lower, p.upper) && after.y1 == sum
    case InputRel => Nearest(after.x1 - before.x1, x - before.x1, p.lower, p.upper) && after.y1 == sum
    case OutputAbs => after.x1 == x && Nearest(after.y1, sum, p.lower, p.upper)
    case OutputRel => after.x1 == x && Nearest(after.y1 - before.x1, sum - before.x1, p.lower, p.upper)
  }

  /** Every step of every run does. */
  lemma RunObeys(p: Params, s: State, xs: seq<real>, i: nat)
    requires i < |xs| && p.lower <= p.upper
    ensures Obeys(p, Run(p, s, xs[..i]), xs[i], Run(p, s, xs[..i + 1]))
  {
    hide Step, Obeys;
    assert xs[..i + 1][..i] == xs[..i];
    StepObeys(p, Run(p, s, xs[..i]), xs[i]);
  }

  lemma StepObeys(p: Params, s: State, x: real)
    requires p.lower <= p.upper
    ensures Obeys(p, s, x, Step(p, s, x))
  {
    hide Step, Mix, Times, AsBounded;
    StepIsBounded(p, s, x);
    MixIs(p, s, Step(p, s, x).x1);
  }

  lemma StepIsBounded(p: Params, s: State, x: real)
    requires p.lower <= p.upper
    ensures var after := Step(p, s, x); AsBounded(p, s, x, after, Mix(p, s, after.x1))
  {
    hide Bound, Nearest, Mix;
    var y := Mix(p, s, x);
    BoundIsNearest(p.lower, x, p.upper);
    MovedBound(s.x1, p.lower, x, p.upper);
    BoundIsNearest(p.lower, y, p.upper);
    MovedBound(s.x1, p.lower, y, p.upper);
  }

  /** Bounding around a point is bounding the distance from it. */
  lemma MovedBound(around: real, lower: real, value: real, upper: real)
    requires lower <= upper
    ensures Nearest(Bound(around + lower, value, around + upper) - around, value - around, lower, upper)
  {
    assert Bound(around + lower, value, around + upper) - around == Bound(lower, value - around, upper);
    BoundIsNearest(lower, value - around, upper);
  }

  function Constant(v: real, n: nat): seq<real> {
    if n == 0 then [] else Constant(v, n - 1) + [v]
  }

  /** A relative input bound that allows standing still limits the rate: fed one value for n steps the
      stored input heads for it at the bound's pace, arrives exactly, and stays. */
  lemma {:induction false} RateIsLimited(p: Params, s: State, v: real, n: nat)
    requires p.bound.InputRel? && p.lower <= 0.0 <= p.upper
    ensures Run(p, s, Constant(v, n)).x1 == Heading(s.x1, v, Paces(n, p.lower), Paces(n, p.upper))
  {
    hide Mix, Heading, Bound, Paces, Step, Run;
    Pace(n, p.upper);
    Pace(n, p.lower);
    RunConstant(p, s, v, n);
    if n == 0 {
      StandStill(s.x1, v);
    } else {
      RateIsLimited(p, s, v, n - 1);
      HeadingOn(s.x1, v, Paces(n - 1, p.lower), Paces(n - 1, p.upper), p.lower, p.upper);
    }
  }

  lemma RunConstant(p: Params, s: State, v: real, n: nat)
    requires p.bound.InputRel?
    ensures n == 0 ==> Run(p, s, Constant(v, n)) == s
    ensures n > 0 ==> var at := Run(p, s, Constant(v, n - 1)).x1;
              Run(p, s, Constant(v, n)).x1 == Bound(at + p.lower, v, at + p.upper)
  {
    hide Bound, Mix;
    if n > 0 {
      assert Constant(v, n)[..|Constant(v, n)| - 1] == Constant(v, n - 1);
    }
  }

  function Paces(n: nat, w: real): real {
    n as real * w
  }

  lemma Pace(n: nat, w: real)
    ensures Paces(0, w) == 0.0
    ensures n > 0 ==> Paces(n, w) == Paces(n - 1, w) + w
    ensures n > 0 && w >= 0.0 ==> Paces(n - 1, w) >= 0.0
    ensures n > 0 && w <= 0.0 ==> Paces(n - 1, w) <= 0.0
  {
    if n > 0 {
      assert n as real == (n - 1) as real + 1.0;
    }
  }

  lemma StandStill(from: real, v: real)
    ensures Heading(from, v, 0.0, 0.0) == from
  {
  }

  /** From a point towards a value, at most this far down or up. */
  function Heading(from: real, v: real, down: real, up: real): real {
    if v < from + down then from + down else if v > from + up then from + up else v
  }

  lemma HeadingOn(from: real, v: real, down: real, up: real, lower: real, upper: real)
    requires down <= 0.0 <= up && lower <= 0.0 <= upper
    ensures var at := Heading(from, v, down, up);
      Bound(at + lower, v, at + upper) == Heading(from, v, down + lower, up + upper)
  {
  }

  /** Without bounds the filter is linear: the responses to two inputs from two states add up. */
  lemma {:induction false} UnboundedIsLinear(p: Params, s: State, u: State, xs: seq<real>, ys: seq<real>)
    requires p.bound.NoBound? && |xs| == |ys|
    ensures var a, b := Run(p, s, xs), Run(p, u, ys);
      Run(p, State(s.x1 + u.x1, s.y1 + u.y1), Sums(xs, ys)) == State(a.x1 + b.x1, a.y1 + b.y1)
  {
    if xs != [] {
      var n := |xs| - 1;
      UnboundedIsLinear(p, s, u, xs[..n], ys[..n]);
      assert Sums(xs, ys)[..n] == Sums(xs[..n], ys[..n]);
      var a, b := Run(p, s, xs[..n]), Run(p, u, ys[..n]);
      Spread(p.coefY1, a.y1, b.y1);
      Spread(p.coefX0, xs[n], ys[n]);
      Spread(p.coefX1, a.x1, b.x1);
    }
  }

  lemma Spread(c: real, v: real, w: real)
    ensures c * (v + w) == c * v + c * w
  {
  }

  function Sums(xs: seq<real>, ys: seq<real>): (r: seq<real>)
    requires |xs| == |ys|
    ensures |r| == |xs|
  {
    if xs == [] then [] else Sums(xs[..|xs| - 1], ys[..|ys| - 1]) + [xs[|xs| - 1] + ys[|ys| - 1]]
  }

  function Power(c: real, n: nat): real {
    if n == 0 then 1.0 else c * Power(c, n - 1)
  }

  /** Its response to a single one: coefX0, then coefX0 * coefY1 + coefX1 fading by coefY1 a step. */
  lemma {:induction false} ImpulseResponse(p: Params, n: nat)
    requires p.bound.NoBound?
    ensures var s := Run(p, State(0.0, 0.0), [1.0] + Constant(0.0, n));
      && s.x1 == (if n == 0 then 1.0 else 0.0)
      && s.y1 == if n == 0 then p.coefX0 else Power(p.coefY1, n - 1) * (p.coefX0 * p.coefY1 + p.coefX1)
  {
    var xs := [1.0] + Constant(0.0, n);
    if n == 0 {
      assert xs[..0] == [];
    } else {
      ImpulseResponse(p, n - 1);
      assert xs[..|xs| - 1] == [1.0] + Constant(0.0, n - 1) && xs[|xs| - 1] == 0.0;
      var w := p.coefX0 * p.coefY1 + p.coefX1;
      if n > 1 {
        assert p.coefY1 * (Power(p.coefY1, n - 2) * w) == (p.coefY1 * Power(p.coefY1, n - 2)) * w;
      }
    }
  }

  // ------------------------------------------------------------------ the relative output bound

  /** A relative output bound is promised to limit how far the output moves in one step. With input in
      the mix it does so for every input exactly when the prior input equals the prior output; without,
      also when the mix and the bound around the prior input happen to stay clear of the promised one. */
  lemma OutputMovesWithinIff(p: Params, s: State)
    requires p.bound.OutputRel?
    ensures (forall x: real :: MovesWithin(p, s, x)) <==>
            p.lower <= p.upper && (s.x1 == s.y1 || (p.coefX0 == 0.0 && StaysClear(p, s)))
  {
    if p.lower > p.upper {
      assert !MovesWithin(p, s, 0.0);
    } else if p.coefX0 == 0.0 {
      forall x: real
        ensures MovesWithin(p, s, x) <==> s.x1 == s.y1 || StaysClear(p, s)
      {
        MixWithoutInput(p, s, x);
        hide Mix;
      }
      assert MovesWithin(p, s, 0.0) <==> s.x1 == s.y1 || StaysClear(p, s);
    } else if s.x1 != s.y1 {
      var target := if s.x1 > s.y1 then s.x1 + p.upper else s.x1 + p.lower;
      var x := (target - p.coefY1 * s.y1 - p.coefX1 * s.x1) / p.coefX0;
      Reaches(p, s, x, target);
      assert !MovesWithin(p, s, x);
    }
  }

  /** Without the input, the output is this before it is clamped. */
  function Drift(p: Params, s: State): real {
    p.coefY1 * s.y1 + p.coefX1 * s.x1
  }

  predicate StaysClear(p: Params, s: State) {
    if s.x1 < s.y1 then s.y1 + p.lower <= Drift(p, s) && s.y1 + p.lower <= s.x1 + p.upper
    else Drift(p, s) <= s.y1 + p.upper && s.x1 + p.lower <= s.y1 + p.upper
  }

  lemma MixWithoutInput(p: Params, s: State, x: real)
    requires p.coefX0 == 0.0
    ensures Mix(p, s, x) == Drift(p, s)
  {
  }

  /** It does fail in use: a filter that passes its input through, bounded to one unit a step, started
      at 0 and fed 5 twice, moves by 1 and then by 4. */
  lemma OutputJumps()
    ensures var p, s := Params(0.0, 1.0, 0.0, OutputRel, -1.0, 1.0), State(0.0, 0.0);
      && Run(p, s, [5.0]) == State(5.0, 1.0) && Run(p, s, [5.0, 5.0]) == State(5.0, 5.0)
      && !MovesWithin(p, Run(p, s, [5.0]), 5.0)
  {
    var p, s := Params(0.0, 1.0, 0.0, OutputRel, -1.0, 1.0), State(0.0, 0.0);
    assert [5.0, 5.0][..1] == [5.0] && [5.0][..0] == [];
    assert Run(p, s, []) == s;
    assert Run(p, s, [5.0]) == Step(p, s, 5.0) == State(5.0, 1.0);
    assert Run(p, s, [5.0, 5.0]) == Step(p, State(5.0, 1.0), 5.0);
  }

  predicate MovesWithin(p: Params, s: State, x: real) {
    p.lower <= Step(p, s, x).y1 - s.y1 <= p.upper
  }

  lemma Reaches(p: Params, s: State, x: real, target: real)
    requires p.coefX0 != 0.0 && x == (target - p.coefY1 * s.y1 - p.coefX1 * s.x1) / p.coefX0
    ensures Mix(p, s, x) == target
  {
    assert p.coefX0 * x == target - p.coefY1 * s.y1 - p.coefX1 * s.x1;
  }

  // ------------------------------------------------------------------ the filter object

  class Filter {
    const p: Params
    var x1: real
    var y1: real

    ghost function View(): State
      reads this
    {
      State(x1, y1)
    }

    /** arma_11_init. */
    constructor (p: Params, init: real)
      ensures this.p == p && View() == State(init, init)
    {
      this.p := p;
      x1, y1 := init, init;
    }

    /** arma_11_set_value. */
    method SetValue(x: real)
      modifies this
      ensures View() == State(x, x)
    {
      x1 := x;
      y1 := x;
    }

    method WeightedSum(x0: real) returns (y: real)
      ensures y == Mix(p, View(), x0)
    {
      y := p.coefY1 * y1 + p.coefX0 * x0 + p.coefX1 * x1;
    }

    /** arma_11_get_value. */
    method GetValue(x: real) returns (y: real)
      modifies this
      ensures View() == Step(p, old(View()), x) && y == View().y1
    {
      hide Mix;
      var x0 := x;
      match p.bound {
        case InputAbs => x0 := Bound(p.lower, x0, p.upper);
        case InputRel => x0 := Bound(x1 + p.lower, x0, x1 + p.upper);
        case _ =>
      }
      y := WeightedSum(x0);
      match p.bound {
        case OutputAbs => y := Bound(p.lower, y, p.upper);
        case OutputRel => y := Bound(x1 + p.lower, y, x1 + p.upper);
        case _ =>
      }
      y1 := y;
      x1 := x0;
    }
  }

  /** Any inputs fed one after the other: the filter follows the run, output by output. */
  method Feed(f: Filter, xs: seq<real>) returns (ys: seq<real>)
    modifies f
    ensures f.View() == Run(f.p, old(f.View()), xs) && |ys| == |xs|
    ensures forall i :: 0 <= i < |xs| ==> ys[i] == Run(f.p, old(f.View()), xs[..i + 1]).y1
  {
    hide Step;
    ghost var s := f.View();
    ys := [];
    var i := 0;
    while i < |xs|
      invariant 0 <= i <= |xs| && |ys| == i && f.View() == Run(f.p, s, xs[..i])
      invariant forall k :: 0 <= k < i ==> ys[k] == Run(f.p, s, xs[..k + 1]).y1
    {
      assert xs[..i + 1][..i] == xs[..i];
      var y := f.GetValue(xs[i]);
      ys := ys + [y];
      i := i + 1;
    }
    assert xs[..i] == xs;
  }
}
