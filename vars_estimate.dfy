/** The linear-algebra values of the estimator, over `real` where the source
    uses floating point: parameter vectors, square matrices, the estimator's
    parameters (`DispersionParams`) and the accumulator of one event's
    refinement together with the exponentially decayed running sums
    (`VarsEstimate`). */
module Estimate {

  type Vector = seq<real>
  type Matrix = seq<seq<real>>

  predicate IsMatrix(m: Matrix, d: nat) {
    |m| == d && forall i :: 0 <= i < d ==> |m[i]| == d
  }

  function Zeros(d: nat): (v: Vector)
    ensures |v| == d && forall i :: 0 <= i < d ==> v[i] == 0.0
  {
    seq(d, _ => 0.0)
  }

  function ZeroMatrix(d: nat): (m: Matrix)
    ensures IsMatrix(m, d)
    ensures forall i, j :: 0 <= i < d && 0 <= j < d ==> m[i][j] == 0.0
  {
    seq(d, _ => Zeros(d))
  }

  /** Every entry of v multiplied by a. */
  function Scale(v: Vector, a: real): (r: Vector)
    ensures |r| == |v| && forall i :: 0 <= i < |v| ==> r[i] == v[i] * a
  {
    seq(|v|, i requires 0 <= i < |v| => v[i] * a)
  }

  function Add(u: Vector, v: Vector): (r: Vector)
    requires |u| == |v|
    ensures |r| == |u| && forall i :: 0 <= i < |u| ==> r[i] == u[i] + v[i]
  {
    seq(|u|, i requires 0 <= i < |u| => u[i] + v[i])
  }

  function Sub(u: Vector, v: Vector): (r: Vector)
    requires |u| == |v|
    ensures |r| == |u| && forall i :: 0 <= i < |u| ==> r[i] == u[i] - v[i]
  {
    seq(|u|, i requires 0 <= i < |u| => u[i] - v[i])
  }

  /** Every entry of m multiplied by a. */
  function ScaleMatrix(m: Matrix, a: real): (r: Matrix)
    ensures |r| == |m| && forall i :: 0 <= i < |m| ==> |r[i]| == |m[i]|
  {
    seq(|m|, i requires 0 <= i < |m| => Scale(m[i], a))
  }

  function AddMatrix(m: Matrix, p: Matrix): (r: Matrix)
    requires |m| == |p| && forall i :: 0 <= i < |m| ==> |m[i]| == |p[i]|
    ensures |r| == |m| && forall i :: 0 <= i < |m| ==> |r[i]| == |m[i]|
  {
    seq(|m|, i requires 0 <= i < |m| => Add(m[i], p[i]))
  }

  /** Two decays in a row are one decay by the product of the factors. */
  lemma ScaleCompose(v: Vector, a: real, b: real)
    ensures Scale(Scale(v, a), b) == Scale(v, a * b)
  {
    var l, r := Scale(Scale(v, a), b), Scale(v, a * b);
    forall i | 0 <= i < |v|
      ensures l[i] == r[i]
    {
      assert v[i] * a * b == v[i] * (a * b);
    }
  }

  lemma ScaleMatrixCompose(m: Matrix, a: real, b: real)
    ensures ScaleMatrix(ScaleMatrix(m, a), b) == ScaleMatrix(m, a * b)
  {
    forall i | 0 <= i < |m|
      ensures ScaleMatrix(ScaleMatrix(m, a), b)[i] == ScaleMatrix(m, a * b)[i]
    {
      ScaleCompose(m[i], a, b);
    }
  }

  /** `DispersionParams`: the step length below which refinement stops, the
      cap on refinement iterations, and the half-size of the neighbour window. */
  datatype Params = Params(minStep: real, maxIter: int, wSize: int)

  /** The defaults of the `DispersionParams` constructor. */
  function DefaultParams(minStep: real := 0.000001, maxIter: int := 10, wSize: int := 4): (p: Params)
    ensures p.minStep == minStep && p.maxIter == maxIter && p.wSize == wSize
  {
    Params(minStep, maxIter, wSize)
  }

  lemma DefaultParamsValues()
    ensures DefaultParams() == Params(0.000001, 10, 4)
  {
  }

  /** The fields of a `VarsEstimate`, as one value. */
  datatype EstimateState = EstimateState(val: real, valCum: real, vNum: Vector, vNumCum: Vector,
                                         vDen: Matrix, vDenCum: Matrix, vars: Vector)

  /** Every vector has nVars entries and every matrix is nVars by nVars. */
  predicate Fits(s: EstimateState, nVars: nat) {
    |s.vNum| == nVars && |s.vNumCum| == nVars && |s.vars| == nVars &&
    IsMatrix(s.vDen, nVars) && IsMatrix(s.vDenCum, nVars)
  }

  /** `decay(dec)` on the value: the three running sums scaled by dec. */
  function Decayed(s: EstimateState, dec: real, ghost nVars: nat): (r: EstimateState)
    requires Fits(s, nVars)
    ensures Fits(r, nVars)
  {
    s.(valCum := s.valCum * dec, vNumCum := Scale(s.vNumCum, dec), vDenCum := ScaleMatrix(s.vDenCum, dec))
  }

  /** `update()` on the value: the current terms added into the running sums. */
  function Accumulated(s: EstimateState, ghost nVars: nat): (r: EstimateState)
    requires Fits(s, nVars)
    ensures Fits(r, nVars)
  {
    s.(valCum := s.valCum + s.val, vNumCum := Add(s.vNumCum, s.vNum), vDenCum := AddMatrix(s.vDenCum, s.vDen))
  }

  /** Two decays in a row are one decay by the product of the factors, and
      both keep the dimensions. */
  lemma DecayedCompose(s: EstimateState, nVars: nat, a: real, b: real)
    requires Fits(s, nVars)
    ensures Decayed(Decayed(s, a, nVars), b, nVars) == Decayed(s, a * b, nVars)
  {
    ScaleCompose(s.vNumCum, a, b);
    ScaleMatrixCompose(s.vDenCum, a, b);
    assert s.valCum * a * b == s.valCum * (a * b);
  }

  /** `VarsEstimate`: the current parameter estimate `vars`, the value,
      gradient numerator and denominator of the current refinement step
      (`val`, `vNum`, `vDen`) and their decayed running sums over past
      events (`valCum`, `vNumCum`, `vDenCum`). */
  class VarsEstimate {
    const nVars: nat
    var val: real
    var valCum: real
    var vNum: Vector
    var vNumCum: Vector
    var vDen: Matrix
    var vDenCum: Matrix
    var vars: Vector

    ghost function Value(): EstimateState
      reads this
    {
      EstimateState(val, valCum, vNum, vNumCum, vDen, vDenCum, vars)
    }

    ghost predicate Valid()
      reads this
    {
      Fits(Value(), nVars)
    }

    /** The running sums and the estimate start at zero; the current step's
        terms are left unset until the first refinement step writes them. */
    constructor (nVars: nat)
      ensures Valid() && this.nVars == nVars
      ensures valCum == 0.0 && vNumCum == Zeros(nVars) && vDenCum == ZeroMatrix(nVars)
      ensures vars == Zeros(nVars)
    {
      this.nVars := nVars;
      valCum := 0.0;
      vNumCum := Zeros(nVars);
      vDenCum := ZeroMatrix(nVars);
      vars := Zeros(nVars);
      val := *;
      assert |Zeros(nVars)| == nVars;
      var num: Vector :| |num| == nVars;
      vNum := num;
      assert IsMatrix(ZeroMatrix(nVars), nVars);
      var den: Matrix :| IsMatrix(den, nVars);
      vDen := den;
    }

    /** `decay(dec)`: scale the three running sums by dec and nothing else. */
    method Decay(dec: real)
      requires Valid()
      modifies this
      ensures Valid() && Value() == Decayed(old(Value()), dec, nVars)
    {
      valCum := valCum * dec;
      vNumCum := Scale(vNumCum, dec);
      vDenCum := ScaleMatrix(vDenCum, dec);
    }

    /** `update()`: add the current step's terms into the running sums. */
    method Update()
      requires Valid()
      modifies this
      ensures Valid() && Value() == Accumulated(old(Value()), nVars)
    {
      valCum := valCum + val;
      vNumCum := Add(vNumCum, vNum);
      vDenCum := AddMatrix(vDenCum, vDen);
    }
  }
}
