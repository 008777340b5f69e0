/** The numerical side of one `run`: the decay factor applied to the running
    sums, one refinement step (`iterate`), and the refinement loop that
    repeats it. The kernels the estimator calls into (`computeExp`, the
    dispersion energy of the event against its neighbours, the LDLT solve
    and the Euclidean norm) are parameters, gathered in `Numerics`; only
    the properties the estimator relies on are assumed of them. */
module Refinement {
  import opened Estimate

  /** One step's dispersion terms: the energy value, the gradient numerator
      and the denominator matrix (`val`, `vNum`, `vDen` of `VarsEstimate`). */
  datatype Terms = Terms(val: real, vNum: Vector, vDen: Matrix)

  /** The event a refinement works on: its point, its time after the
      reference event, and the points and time offsets of its neighbours. */
  datatype Event = Event(c: Vector, tsDiffRef: real, neighbours: seq<Vector>, offsets: seq<real>)

  datatype Numerics = Numerics(
    exp: real -> real,                   // computeExp
    energy: (Vector, Event) -> Terms,    // the loop over neighbours in `iterate`, at the given vars
    solve: (Matrix, Vector) -> Vector,   // the LDLT least-squares solve
    norm: Vector -> real)                // the Euclidean norm

  predicate TermsFit(g: Terms, nVars: nat) {
    |g.vNum| == nVars && IsMatrix(g.vDen, nVars)
  }

  /** What the estimator relies on: the exponential of a non-positive
      number lies in (0, 1], the kernels keep dimensions, a norm is not
      negative. */
  ghost predicate Admissible(nm: Numerics, nVars: nat) {
    (forall x: real :: x <= 0.0 ==> 0.0 < nm.exp(x) <= 1.0) &&
    (forall v: Vector, e: Event :: |v| == nVars ==> TermsFit(nm.energy(v, e), nVars)) &&
    (forall m: Matrix, v: Vector :: |nm.solve(m, v)| == nVars) &&
    (forall v: Vector :: 0.0 <= nm.norm(v))
  }

  // ---------------------------------------------------------------------
  // Decay

  /** The factor `decay(ts)` applies: `computeExp(-nDecay * (ts - tsPrev))`. */
  function DecayFactor(nm: Numerics, nDecay: real, dt: real): real {
    nm.exp(-nDecay * dt)
  }

  /** With a non-negative count and events in time order the factor lies
      in (0, 1]. */
  lemma DecayFactorInUnit(nm: Numerics, nVars: nat, nDecay: real, dt: real)
    requires Admissible(nm, nVars) && 0.0 <= nDecay && 0.0 <= dt
    ensures 0.0 < DecayFactor(nm, nDecay, dt) <= 1.0
  {
    assert 0.0 <= nDecay * dt;
  }

  /** What one `run` does to `nDecay_`: `decay` scales it by the factor,
      then the event is counted. */
  function NextCount(n: real, dec: real): real {
    n * dec + 1.0
  }

  /** `nDecay_` after runs whose decay factors were decs, in order. */
  function DecayCount(decs: seq<real>): real
    decreases |decs|
  {
    if decs == [] then 0.0 else NextCount(DecayCount(decs[..|decs| - 1]), decs[|decs| - 1])
  }

  /** With factors in (0, 1] the count stays between 0 and the number of
      runs, and is at least 1 after the first. */
  lemma {:induction false} DecayCountBound(decs: seq<real>)
    requires forall k :: 0 <= k < |decs| ==> 0.0 < decs[k] <= 1.0
    ensures 0.0 <= DecayCount(decs) <= |decs| as real
    ensures decs != [] ==> 1.0 <= DecayCount(decs)
    decreases |decs|
  {
    if decs != [] {
      var init := decs[..|decs| - 1];
      DecayCountBound(init);
      NextCountBound(DecayCount(init), decs[|decs| - 1], |init| as real);
    }
  }

  /** One run keeps a count in [0, k] within [1, k + 1]. */
  lemma NextCountBound(n: real, dec: real, k: real)
    requires 0.0 <= n <= k && 0.0 < dec <= 1.0
    ensures 1.0 <= NextCount(n, dec) <= k + 1.0
  {
    assert 0.0 <= n * dec <= n * 1.0;
  }

  // ---------------------------------------------------------------------
  // One refinement step

  /** The part of `VarsEstimate` a step rewrites. */
  datatype Current = Current(terms: Terms, vars: Vector)

  /** The running sums a step reads. */
  datatype Sums = Sums(vNumCum: Vector, vDenCum: Matrix)

  predicate SumsFit(s: Sums, nVars: nat) {
    |s.vNumCum| == nVars && IsMatrix(s.vDenCum, nVars)
  }

  /** The outcome of a step: the new current terms and estimate, and the
      length of the step taken. */
  datatype Stepped = Stepped(cur: Current, d: real)

  /** `iterate`: recompute the terms at vars; when the energy is positive,
      weight the numerator by nProp, solve the accumulated system, move vars
      onto the solution and answer the length of the move; otherwise keep
      vars and answer 0. */
  function Step(nm: Numerics, nVars: nat, e: Event, nProp: real, s: Sums, vars: Vector): (o: Stepped)
    requires Admissible(nm, nVars) && SumsFit(s, nVars) && |vars| == nVars
    ensures TermsFit(o.cur.terms, nVars) && |o.cur.vars| == nVars
  {
    var g := nm.energy(vars, e);
    if 0.0 < g.val then
      var num := Scale(g.vNum, nProp);
      var sol := nm.solve(AddMatrix(s.vDenCum, g.vDen), Add(s.vNumCum, num));
      var v := Sub(sol, vars);
      Stepped(Current(Terms(g.val, num, g.vDen), Add(vars, v)), nm.norm(v))
    else
      Stepped(Current(g, vars), 0.0)
  }

  /** A step with positive energy lands vars on the least-squares solution
      of the accumulated system and moves by the norm of the difference; one
      without positive energy leaves vars where they were and answers 0.
      Either way the step length is not negative. */
  lemma StepOutcome(nm: Numerics, nVars: nat, e: Event, nProp: real, s: Sums, vars: Vector)
    requires Admissible(nm, nVars) && SumsFit(s, nVars) && |vars| == nVars
    ensures var g, o := nm.energy(vars, e), Step(nm, nVars, e, nProp, s, vars);
      0.0 <= o.d &&
      o.cur.terms.val == g.val && o.cur.terms.vDen == g.vDen &&
      (0.0 < g.val ==>
        var sol := nm.solve(AddMatrix(s.vDenCum, g.vDen), Add(s.vNumCum, Scale(g.vNum, nProp)));
        o.cur.terms.vNum == Scale(g.vNum, nProp) && o.cur.vars == sol && o.d == nm.norm(Sub(sol, vars))) &&
      (g.val <= 0.0 ==> o.cur.terms.vNum == g.vNum && o.cur.vars == vars && o.d == 0.0)
  {
    var g := nm.energy(vars, e);
    if 0.0 < g.val {
      var sol := nm.solve(AddMatrix(s.vDenCum, g.vDen), Add(s.vNumCum, Scale(g.vNum, nProp)));
      assert Add(vars, Sub(sol, vars)) == sol;
    }
  }

  // ---------------------------------------------------------------------
  // The refinement loop

  /** The state after the loop: the current terms and estimate, the
      iteration counter `iter_`, and the last step length d. */
  datatype Outcome = Outcome(cur: Current, iter: int, d: real)

  /** `for (iter_ = iter; iter_ < maxIter && d >= minStep; ++iter_) d = iterate(...)`. */
  function Refine(nm: Numerics, nVars: nat, e: Event, nProp: real, s: Sums,
                  minStep: real, maxIter: int, cur: Current, iter: int, d: real): (o: Outcome)
    requires Admissible(nm, nVars) && SumsFit(s, nVars) && |cur.vars| == nVars
    ensures |o.cur.vars| == nVars
    ensures TermsFit(cur.terms, nVars) ==> TermsFit(o.cur.terms, nVars)
    decreases maxIter - iter
  {
    if iter < maxIter && d >= minStep then
      var st := Step(nm, nVars, e, nProp, s, cur.vars);
      Refine(nm, nVars, e, nProp, s, minStep, maxIter, st.cur, iter + 1, st.d)
    else
      Outcome(cur, iter, d)
  }

  /** The loop runs at most up to maxIter, and when it stops before that
      the last step was shorter than minStep. A loop that ran at least once
      ends on a step length that is not negative. */
  lemma {:induction false} RefineBounds(nm: Numerics, nVars: nat, e: Event, nProp: real, s: Sums,
                                        minStep: real, maxIter: int, cur: Current, iter: int, d: real)
    requires Admissible(nm, nVars) && SumsFit(s, nVars) && |cur.vars| == nVars
    ensures var o := Refine(nm, nVars, e, nProp, s, minStep, maxIter, cur, iter, d);
      (o.iter == iter || iter < o.iter <= maxIter) &&
      (o.iter == iter ==> o.cur == cur && o.d == d) &&
      (o.iter < maxIter ==> o.d < minStep) &&
      (iter < o.iter ==> 0.0 <= o.d)
    decreases maxIter - iter
  {
    if iter < maxIter && d >= minStep {
      var st := Step(nm, nVars, e, nProp, s, cur.vars);
      StepOutcome(nm, nVars, e, nProp, s, cur.vars);
      RefineBounds(nm, nVars, e, nProp, s, minStep, maxIter, st.cur, iter + 1, st.d);
    }
  }

  /** Started as `run` starts it (counter 0, d = minStep), the loop takes
      at least one step when maxIter is at least 1, and at most maxIter. */
  lemma RefineFromStart(nm: Numerics, nVars: nat, e: Event, nProp: real, s: Sums,
                        minStep: real, maxIter: int, cur: Current)
    requires Admissible(nm, nVars) && SumsFit(s, nVars) && |cur.vars| == nVars
    ensures var o := Refine(nm, nVars, e, nProp, s, minStep, maxIter, cur, 0, minStep);
      (1 <= maxIter ==> 1 <= o.iter <= maxIter) &&
      (maxIter <= 0 ==> o == Outcome(cur, 0, minStep))
  {
    if 1 <= maxIter {
      var st := Step(nm, nVars, e, nProp, s, cur.vars);
      RefineBounds(nm, nVars, e, nProp, s, minStep, maxIter, st.cur, 1, st.d);
    }
  }

  /** A step without positive energy ends the loop when minStep is
      positive: vars stay, the counter moves on by one, and d is 0. */
  lemma RefineStopsWithoutEnergy(nm: Numerics, nVars: nat, e: Event, nProp: real, s: Sums,
                                 minStep: real, maxIter: int, cur: Current, iter: int, d: real)
    requires Admissible(nm, nVars) && SumsFit(s, nVars) && |cur.vars| == nVars
    requires 0.0 < minStep && iter < maxIter && minStep <= d
    requires nm.energy(cur.vars, e).val <= 0.0
    ensures var o := Refine(nm, nVars, e, nProp, s, minStep, maxIter, cur, iter, d);
      o.iter == iter + 1 && o.d == 0.0 && o.cur.vars == cur.vars &&
      o.cur.terms == nm.energy(cur.vars, e)
  {
    StepOutcome(nm, nVars, e, nProp, s, cur.vars);
  }

  // ---------------------------------------------------------------------
  // The estimate part of one run

  /** The estimate part of `run` on the value: decay the running sums by
      dec, refine from d = minStep against the decayed sums, then add the
      terms of the last step into the sums. Answers the new state and the
      final loop counter `iter_`. */
  function Advance(nm: Numerics, nVars: nat, e: Event, nProp: real, minStep: real, maxIter: int,
                   s: EstimateState, dec: real): (r: (EstimateState, int))
    requires Admissible(nm, nVars) && Fits(s, nVars)
    ensures Fits(r.0, nVars)
  {
    var d := Decayed(s, dec, nVars);
    var o := Refine(nm, nVars, e, nProp, Sums(d.vNumCum, d.vDenCum), minStep, maxIter,
                    Current(Terms(d.val, d.vNum, d.vDen), d.vars), 0, minStep);
    (Accumulated(d.(val := o.cur.terms.val, vNum := o.cur.terms.vNum, vDen := o.cur.terms.vDen,
                    vars := o.cur.vars), nVars), o.iter)
  }
}
