/** The incremental estimator (`incremental::Dispersion`): a ring buffer of
    the latest events (their points `c_`, times `ts_` and grid buckets
    `ij_`), a grid of cells indexing the buffer slots by bucket, and the
    running estimate `varse_`. Each method is proved against the value-level
    bookkeeping of module Window and the refinement of module Refinement;
    the class follows the source as written. */
module Incremental {
  import opened Utilities
  import opened Cells
  import opened Grids
  import opened Estimate
  import opened Refinement
  import Window

  /** The elements of xs at the positions found, in order. */
  function Pick<T>(xs: seq<T>, found: seq<int>): (p: seq<T>)
    requires forall i :: 0 <= i < |found| ==> 0 <= found[i] < |xs|
    ensures |p| == |found| && forall i :: 0 <= i < |found| ==> p[i] == xs[found[i]]
  {
    seq(|found|, i requires 0 <= i < |found| => xs[found[i]])
  }

  /** `tsDiffRef_`: the times at the positions found, minus the time at ref. */
  function Offsets(ts: seq<real>, found: seq<int>, ref: int): (o: seq<real>)
    requires 0 <= ref < |ts| && forall i :: 0 <= i < |found| ==> 0 <= found[i] < |ts|
    ensures |o| == |found| && forall i :: 0 <= i < |found| ==> o[i] == ts[found[i]] - ts[ref]
  {
    seq(|found|, i requires 0 <= i < |found| => ts[found[i]] - ts[ref])
  }

  /** `nPointsMax / inc` converted to `int`: the conversion truncates, which
      for a quotient that is not negative is the floor. */
  function NewTarget(nMax: int, inc: real): (t: int)
    requires 0 <= nMax && 0.0 < inc
    ensures 0 <= t && t as real <= nMax as real / inc < t as real + 1.0
  {
    assert 0.0 <= nMax as real / inc;
    (nMax as real / inc).Floor
  }

  class Dispersion {
    const dim0: int
    const dim1: int
    const params: Params
    const nPointsMax: int
    const nBuffer: int                // buffer length - 1, the mask of the ring
    const c: array<Vector>            // c_: the point of the event in each slot
    const ts: array<real>             // ts_: the time of the event in each slot
    const ij: array<Window.Bucket>    // ij_: the bucket of the event in each slot
    const grid: Grid                  // grid_: one cell per bucket, row-major
    const varse: VarsEstimate

    var nPointsCur: int   // the number of live events aimed at
    var curInd: int       // the slot the next event is written to
    var prevInd: int      // the slot of the latest event
    var refInd: int       // the reference slot
    var nPoints: int      // the number of live events
    var inds: seq<int>    // the slots gathered around the latest event
    var tsDiffRef: seq<real>
    var nDecay: real
    var iter: int

    /** The slots written at least once: the source leaves `ij_` unset
        until a slot is written. */
    ghost var written: set<int>
    /** The contents of the cells, oldest first. */
    ghost var cells: seq<seq<int>>

    /** The bookkeeping state, as the value Window works on. */
    ghost function Abstract(): Window.Ring
      reads this`curInd, this`prevInd, this`refInd, this`nPoints, this`nPointsCur, this`written, this`cells, ij
    {
      Window.Ring(nBuffer + 1, dim0, dim1, curInd, prevInd, refInd, nPoints, nPointsCur,
                  ij[..], written, cells)
    }

    ghost predicate Valid()
      reads this`curInd, this`prevInd, this`refInd, this`nPoints, this`nPointsCur, this`written, this`cells
      reads ij, varse, grid, grid.Repr
    {
      Shape() && Owns() && Window.WF(Abstract()) && varse.Valid() && grid.Valid() &&
      grid.Contents == cells && |cells| == dim0 * dim1
    }

    /** The buffers have the ring's length. */
    ghost predicate Shape() {
      c.Length == nBuffer + 1 && ts.Length == nBuffer + 1 && ij.Length == nBuffer + 1 &&
      0 <= nPointsMax <= Window.MAX_BUFFER
    }

    /** The storage of the grid is its own: neither the estimator, its
        buffers nor its estimate lie in it. */
    ghost predicate Owns()
      reads grid
    {
      this !in grid.Repr && c !in grid.Repr && ts !in grid.Repr && ij !in grid.Repr && varse !in grid.Repr
    }

    /** A ring of nextPower2(nPoints) slots with mask nBuffer, an empty cell
        per bucket, all cursors and counters at 0, times at 0 and a zero
        estimate. The mask is 0, which the cyclic steps refuse, unless
        nPoints is at least 2. */
    constructor (params: Params, nPoints: int, dim0: int, dim1: int, nVars: nat)
      requires 0 <= nPoints <= Window.MAX_BUFFER
      requires 0 <= dim0 && 0 <= dim1 && dim0 * dim1 <= INT_MAX
      ensures Valid() && fresh(c) && fresh(ts) && fresh(ij) && fresh(varse) && fresh(grid.Repr)
      ensures this.params == params && this.dim0 == dim0 && this.dim1 == dim1
      ensures nPointsMax == nPoints && nPointsCur == nPoints
      ensures IsPow2(nBuffer + 1) && nPoints <= nBuffer + 1 && (nBuffer == 0 || (nBuffer + 1) / 2 < nPoints)
      ensures 2 <= nPoints <==> IsMask(nBuffer)
      ensures curInd == 0 && prevInd == 0 && refInd == 0 && this.nPoints == 0
      ensures nDecay == 0.0 && iter == 0 && inds == [] && tsDiffRef == []
      ensures written == {} && cells == seq(dim0 * dim1, _ => [])
      ensures forall i :: 0 <= i < ts.Length ==> ts[i] == 0.0
      ensures varse.nVars == nVars && varse.vars == Zeros(nVars)
      ensures varse.valCum == 0.0 && varse.vNumCum == Zeros(nVars) && varse.vDenCum == ZeroMatrix(nVars)
    {
      var len := NextPower2(nPoints);
      var points, times, buckets, g, estimate := NewStorage(len, dim0 * dim1, nVars);
      this.dim0 := dim0;
      this.dim1 := dim1;
      this.params := params;
      nPointsCur := nPoints;
      nPointsMax := nPoints;
      nBuffer := len - 1;
      curInd, prevInd, refInd, this.nPoints := 0, 0, 0, 0;
      c, ts, ij := points, times, buckets;
      nDecay := 0.0;
      iter := 0;
      inds := [];
      tsDiffRef := [];
      grid := g;
      varse := estimate;
      written := {};
      cells := seq(dim0 * dim1, _ => []);
      new;
      if 2 <= nPoints {
        MaskIsPow2Minus1(nBuffer);
      } else {
        assert nBuffer == 0;
      }
    }

    /** The storage of a new estimator: the three buffers of len slots (the
        times at 0), n empty cells and a zero estimate, none of them shared. */
    static method NewStorage(len: nat, n: nat, nVars: nat)
      returns (points: array<Vector>, times: array<real>, buckets: array<Window.Bucket>,
               g: Grid, estimate: VarsEstimate)
      ensures fresh(points) && fresh(times) && fresh(buckets) && fresh(estimate) && fresh(g.Repr)
      ensures {points, times, buckets, estimate} !! g.Repr
      ensures points.Length == len && times.Length == len && buckets.Length == len
      ensures forall i :: 0 <= i < len ==> times[i] == 0.0
      ensures estimate.Valid() && estimate.nVars == nVars && estimate.vars == Zeros(nVars)
      ensures estimate.valCum == 0.0 && estimate.vNumCum == Zeros(nVars) && estimate.vDenCum == ZeroMatrix(nVars)
      ensures g.Valid() && |g.cells| == n && g.Contents == seq(n, _ => [])
    {
      points := new Vector[len];
      buckets := new Window.Bucket[len];
      g := new Grid(n);
      times := new real[len](_ => 0.0);
      estimate := new VarsEstimate(nVars);
    }

    /** The gather `ij2ind(ijMin, ijMax, grid, inds)`: the contents of the
        cells of the box [lo, hi], row by row. */
    method Gather(lo: Window.Bucket, hi: Window.Bucket) returns (found: seq<int>)
      requires grid.Valid() && grid.Contents == cells && |cells| == dim0 * dim1 && 0 <= dim0 && 0 <= dim1 && 0 <= lo.x && hi.x < dim0 && 0 <= lo.y && hi.y < dim1
      ensures found == Window.Gathered(cells, dim0, dim1, lo, hi)
    {
      found := [];
      var x := lo.x;
      while x <= hi.x
        invariant lo.x <= x && (x <= hi.x + 1 || x == lo.x)
        invariant found == Window.Rows(cells, dim1, lo.x, Window.Min(x, hi.x + 1), lo.y, hi.y + 1)
      {
        var row := GatherRow(x, lo.y, hi.y);
        found := found + row;
        x := x + 1;
      }
    }

    /** The middle loop of the gather: the indices of the cells of row x
        from column y0 to column y1, in that order. */
    method GatherRow(x: int, y0: int, y1: int) returns (found: seq<int>)
      requires grid.Valid() && grid.Contents == cells && |cells| == dim0 * dim1 && 0 <= dim1
      requires 0 <= x < dim0 && 0 <= y0 && y1 < dim1
      ensures found == Window.Row(cells, dim1, x, y0, y1 + 1)
    {
      found := [];
      var y := y0;
      while y <= y1
        invariant y0 <= y && (y <= y1 + 1 || y == y0)
        invariant found == Window.Row(cells, dim1, x, y0, Window.Min(y, y1 + 1))
      {
        var k := Window.Ij2Ind(Window.Bucket(x, y), dim1);
        Window.Ij2IndRange(Window.Bucket(x, y), dim0, dim1);
        var more := CellIndices(grid.cells[k]);
        assert more == Window.CellAt(cells, dim1, x, y);
        found := found + more;
        y := y + 1;
      }
    }

    /** The innermost loop of the gather: the indices of one cell, oldest
        first, read one by one through `ind(i)`. */
    static method CellIndices(cell: Cell) returns (found: seq<int>)
      requires cell.Valid()
      ensures found == cell.Contents
    {
      found := [];
      var i := 0;
      while i < cell.Size()
        invariant 0 <= i <= |cell.Contents| && found == cell.Contents[..i]
      {
        var s := cell.Ind(i);
        found := found + [s];
        i := i + 1;
      }
    }

    /** The loop filling `tsDiffRef_`: the time of each gathered slot after
        the time of the reference slot. */
    method TimeOffsets(found: seq<int>) returns (offsets: seq<real>)
      requires Valid() && forall i :: 0 <= i < |found| ==> 0 <= found[i] < ts.Length
      ensures offsets == Offsets(ts[..], found, refInd)
    {
      offsets := [];
      var i := 0;
      while i < |found|
        invariant 0 <= i <= |found|
        invariant offsets == Offsets(ts[..], found[..i], refInd)
      {
        offsets := offsets + [ts[found[i]] - ts[refInd]];
        i := i + 1;
      }
      assert found[..i] == found;
    }

    /** `decay(ts)`: scale the running sums and `nDecay_` by
        `computeExp(-nDecay_ * (t - ts_[prevInd_]))`. */
    method Decay(t: real, nm: Numerics)
      requires Valid()
      modifies this`nDecay, varse
      ensures Valid()
      ensures var dec := DecayFactor(nm, old(nDecay), t - ts[prevInd]);
        nDecay == old(nDecay) * dec && varse.Value() == Decayed(old(varse.Value()), dec, varse.nVars)
    {
      var dec := DecayFactor(nm, nDecay, t - ts[prevInd]);
      varse.Decay(dec);
      nDecay := nDecay * dec;
    }

    /** `iterate`: one refinement step of the estimate for event e. */
    method Iterate(e: Event, nProp: real, nm: Numerics) returns (d: real)
      requires varse.Valid() && Admissible(nm, varse.nVars)
      modifies varse
      ensures varse.Valid()
      ensures var o := Step(nm, varse.nVars, e, nProp,
                            Sums(old(varse.vNumCum), old(varse.vDenCum)), old(varse.vars));
        Current(Terms(varse.val, varse.vNum, varse.vDen), varse.vars) == o.cur && d == o.d
      ensures varse.valCum == old(varse.valCum) && varse.vNumCum == old(varse.vNumCum) &&
        varse.vDenCum == old(varse.vDenCum)
    {
      var g := nm.energy(varse.vars, e);
      varse.val := g.val;
      varse.vNum := g.vNum;
      varse.vDen := g.vDen;
      if 0.0 < varse.val {
        varse.vNum := Scale(varse.vNum, nProp);
        var v := nm.solve(AddMatrix(varse.vDenCum, varse.vDen), Add(varse.vNumCum, varse.vNum));
        v := Sub(v, varse.vars);
        varse.vars := Add(varse.vars, v);
        d := nm.norm(v);
      } else {
        d := 0.0;
      }
    }

    /** The refinement loop of `run`: iterate from d = minStep while fewer
        than maxIter steps were taken and the last step was not below
        minStep. Answers the final counter and step length. */
    method Converge(e: Event, nProp: real, nm: Numerics) returns (count: int, d: real)
      requires varse.Valid() && Admissible(nm, varse.nVars)
      modifies varse
      ensures varse.Valid()
      ensures var o := Refine(nm, varse.nVars, e, nProp,
                              Sums(old(varse.vNumCum), old(varse.vDenCum)),
                              params.minStep, params.maxIter,
                              Current(Terms(old(varse.val), old(varse.vNum), old(varse.vDen)), old(varse.vars)),
                              0, params.minStep);
        Current(Terms(varse.val, varse.vNum, varse.vDen), varse.vars) == o.cur &&
        count == o.iter && d == o.d
      ensures varse.valCum == old(varse.valCum) && varse.vNumCum == old(varse.vNumCum) &&
        varse.vDenCum == old(varse.vDenCum)
    {
      ghost var s := Sums(varse.vNumCum, varse.vDenCum);
      ghost var goal := Refine(nm, varse.nVars, e, nProp, s, params.minStep, params.maxIter,
                               Current(Terms(varse.val, varse.vNum, varse.vDen), varse.vars),
                               0, params.minStep);
      d := params.minStep;
      count := 0;
      while count < params.maxIter && d >= params.minStep
        invariant varse.Valid() && Sums(varse.vNumCum, varse.vDenCum) == s
        invariant varse.valCum == old(varse.valCum)
        invariant Refine(nm, varse.nVars, e, nProp, s, params.minStep, params.maxIter,
                         Current(Terms(varse.val, varse.vNum, varse.vDen), varse.vars),
                         count, d) == goal
        decreases params.maxIter - count
      {
        d := Iterate(e, nProp, nm);
        count := count + 1;
      }
    }

    /** The eviction step of `run` and `setInc`, as written: advance the
        reference slot, then drop the oldest index of the cell of the bucket
        recorded for the new reference slot. */
    method EvictOne()
      requires Valid() && IsMask(nBuffer) && Window.NextRef(Abstract()) in written
      modifies this`refInd, this`cells, grid.Repr
      ensures Valid() && Abstract() == Window.Evict(old(Abstract())) && grid.Repr == old(grid.Repr)
    {
      ghost var r0 := Abstract();
      Utilities.SuccMod(refInd, nBuffer + 1);
      refInd := FastIncrementCyclic(refInd, nBuffer);
      var k := Window.Ij2Ind(ij[refInd], dim1);
      Window.Ij2IndRange(ij[refInd], dim0, dim1);
      grid.Remove(k);
      cells := grid.Contents;
      Window.EvictIs(r0, refInd, cells);
      assert Abstract() == r0.(ref := refInd, cells := cells);
    }

    /** `grid_[k].add(x)`. */
    method AddToCell(k: int, x: int)
      requires Valid() && 0 <= k < |cells| && 0 <= x <= nBuffer && |cells[k]| < MAX_CAPACITY / 2
      modifies this`cells, grid.Repr
      ensures Valid() && fresh(grid.Repr - old(grid.Repr))
      ensures cells == old(cells)[k := old(cells)[k] + [x]]
    {
      grid.Add(k, x);
      cells := grid.Contents;
    }

    /** The tail of `run`: index the slot of the new event in the cell of its
        bucket, record its point, time and bucket, and move the cursors on. */
    method Insert(cv: Vector, t: real, b: Window.Bucket)
      requires Valid() && IsMask(nBuffer) && Window.InGrid(b, dim0, dim1)
      requires |Window.CellAt(cells, dim1, b.x, b.y)| < MAX_CAPACITY / 2
      modifies this`cells, this`written, this`prevInd, this`curInd, c, ts, ij, grid.Repr
      ensures Valid() && fresh(grid.Repr - old(grid.Repr))
      ensures Abstract() == Window.Insert(old(Abstract()), b)
      ensures c[..] == old(c[..])[old(curInd) := cv] && ts[..] == old(ts[..])[old(curInd) := t]
    {
      ghost var r0 := Abstract();
      var k := Window.Ij2Ind(b, dim1);
      Window.Ij2IndRange(b, dim0, dim1);
      AddToCell(k, curInd);
      Record(cv, t, b);
      Window.InsertIs(r0, b, cells, ij[..]);
    }

    /** The writes of `insert`: the event into the slot at the write cursor,
        that slot becomes the latest and the cursor moves on cyclically. */
    method Record(cv: Vector, t: real, b: Window.Bucket)
      requires Valid() && IsMask(nBuffer) && Window.InGrid(b, dim0, dim1)
      modifies this`written, this`prevInd, this`curInd, c, ts, ij
      ensures Valid()
      ensures Abstract() == old(Abstract()).(slots := old(ij[..])[old(curInd) := b],
        written := old(written) + {old(curInd)}, prev := old(curInd), cur := (old(curInd) + 1) % (nBuffer + 1))
      ensures c[..] == old(c[..])[old(curInd) := cv] && ts[..] == old(ts[..])[old(curInd) := t]
    {
      WriteSlot(cv, t, b);
      StepCursor();
    }

    /** The writes of the event into the slot under the write cursor. */
    method WriteSlot(cv: Vector, t: real, b: Window.Bucket)
      requires Valid() && Window.InGrid(b, dim0, dim1)
      modifies this`written, c, ts, ij
      ensures Valid()
      ensures Abstract() == old(Abstract()).(slots := old(ij[..])[curInd := b], written := old(written) + {curInd})
      ensures c[..] == old(c[..])[curInd := cv] && ts[..] == old(ts[..])[curInd := t]
    {
      StorePoint(cv, t);
      MarkSlot(b);
    }

    /** The point and the time of the event, which the ring does not read. */
    method StorePoint(cv: Vector, t: real)
      requires Valid()
      modifies c, ts
      ensures Valid()
      ensures c[..] == old(c[..])[curInd := cv] && ts[..] == old(ts[..])[curInd := t]
    {
      c[curInd] := cv;
      ts[curInd] := t;
    }

    /** The bucket of the event in the slot under the write cursor, which
        now holds an event. */
    method MarkSlot(b: Window.Bucket)
      requires Valid() && Window.InGrid(b, dim0, dim1)
      modifies this`written, ij
      ensures Valid()
      ensures Abstract() == old(Abstract()).(slots := old(ij[..])[curInd := b], written := old(written) + {curInd})
    {
      ij[curInd] := b;
      written := written + {curInd};
    }

    /** `prevInd_ = curInd_` and the cyclic step of the write cursor. */
    method StepCursor()
      requires Valid() && IsMask(nBuffer)
      modifies this`prevInd, this`curInd
      ensures Valid()
      ensures Abstract() == old(Abstract()).(prev := old(curInd), cur := (old(curInd) + 1) % (nBuffer + 1))
    {
      prevInd := curInd;
      Utilities.SuccMod(curInd, nBuffer + 1);
      curInd := FastIncrementCyclic(curInd, nBuffer);
    }

    /** `run(c, ts)` for an event at point cv and time t whose projection
        rounds to bucket b: gather the neighbours, shift the window, take
        the time offsets, decay, refine, accumulate and insert the event. */
    method Run(cv: Vector, t: real, b: Window.Bucket, nm: Numerics)
      requires Valid() && IsMask(nBuffer) && Admissible(nm, varse.nVars)
      requires Window.InGrid(b, dim0, dim1) && Window.CanAdmit(Abstract())
      requires |Window.CellAt(cells, dim1, b.x, b.y)| < MAX_CAPACITY / 2
      modifies this, c, ts, ij, varse, grid.Repr
      ensures Valid() && fresh(grid.Repr - old(grid.Repr))
      ensures Abstract() == Window.Run(old(Abstract()), b)
      ensures c[..] == old(c[..])[old(curInd) := cv] && ts[..] == old(ts[..])[old(curInd) := t]
      ensures var (lo, hi) := Window.Boundary(b, params.wSize, dim0, dim1);
        inds == Window.Gathered(old(cells), dim0, dim1, lo, hi)
      ensures Window.SlotsBelow(inds, nBuffer + 1)
      ensures tsDiffRef == Offsets(old(ts[..]), inds, refInd)
      ensures var dec := DecayFactor(nm, old(nDecay), t - old(ts[prevInd]));
        var e := Event(cv, t - old(ts[..])[refInd], Pick(old(c[..]), inds), tsDiffRef);
        (varse.Value(), iter) ==
          Advance(nm, varse.nVars, e, Window.WarmUpProportion(old(Abstract())),
                  params.minStep, params.maxIter, old(varse.Value()), dec) &&
        nDecay == NextCount(old(nDecay), dec)
    {
      ghost var r0 := Abstract();
      Window.AdmitShrinks(r0, b.x, b.y);
      var e, nProp := Front(cv, t, b);
      Back(cv, t, b, e, nProp, nm);
    }

    /** The first half of `run`: gather the neighbours, shift the window and
        build the event the refinement works on. */
    method Front(cv: Vector, t: real, b: Window.Bucket) returns (e: Event, nProp: real)
      requires Valid() && IsMask(nBuffer) && Window.InGrid(b, dim0, dim1) && Window.CanAdmit(Abstract())
      modifies this`inds, this`tsDiffRef, this`nPoints, this`nPointsCur, this`refInd, this`cells, grid.Repr
      ensures Valid() && grid.Repr == old(grid.Repr) && Abstract() == Window.Admit(old(Abstract()))
      ensures var (lo, hi) := Window.Boundary(b, params.wSize, dim0, dim1);
        inds == Window.Gathered(old(cells), dim0, dim1, lo, hi)
      ensures Window.SlotsBelow(inds, nBuffer + 1)
      ensures tsDiffRef == Offsets(ts[..], inds, refInd)
      ensures e == Event(cv, t - ts[refInd], Pick(c[..], inds), tsDiffRef)
      ensures nProp == Window.WarmUpProportion(old(Abstract()))
      ensures c[..] == old(c[..]) && ts[..] == old(ts[..]) && prevInd == old(prevInd) && curInd == old(curInd)
      ensures nDecay == old(nDecay) && ts[prevInd] == old(ts[prevInd]) && unchanged(varse)
    {
      Neighbours(b);
      nProp := Shift();
      e := Prepare(cv, t);
    }

    /** The second half of `run`: update the estimate and insert the event. */
    method Back(cv: Vector, t: real, b: Window.Bucket, e: Event, nProp: real, nm: Numerics)
      requires Valid() && IsMask(nBuffer) && Admissible(nm, varse.nVars) && Window.InGrid(b, dim0, dim1)
      requires |Window.CellAt(cells, dim1, b.x, b.y)| < MAX_CAPACITY / 2
      modifies this`cells, this`written, this`prevInd, this`curInd, this`nDecay, this`iter
      modifies c, ts, ij, varse, grid.Repr
      ensures Valid() && fresh(grid.Repr - old(grid.Repr))
      ensures Abstract() == Window.Insert(old(Abstract()), b)
      ensures c[..] == old(c[..])[old(curInd) := cv] && ts[..] == old(ts[..])[old(curInd) := t]
      ensures var dec := DecayFactor(nm, old(nDecay), t - old(ts[prevInd]));
        (varse.Value(), iter) ==
          Advance(nm, varse.nVars, e, nProp, params.minStep, params.maxIter, old(varse.Value()), dec) &&
        nDecay == NextCount(old(nDecay), dec)
    {
      Refresh(t, e, nProp, nm);
      Window.Ij2IndRange(b, dim0, dim1);
      Insert(cv, t, b);
    }

    /** The gather of `run`: the slots indexed by the cells of the window
        around bucket b, row by row. */
    method Neighbours(b: Window.Bucket)
      requires Valid() && Window.InGrid(b, dim0, dim1)
      modifies this`inds
      ensures Valid()
      ensures var (lo, hi) := Window.Boundary(b, params.wSize, dim0, dim1);
        inds == Window.Gathered(cells, dim0, dim1, lo, hi)
      ensures Window.SlotsBelow(inds, nBuffer + 1)
    {
      var (lo, hi) := Window.Boundary(b, params.wSize, dim0, dim1);
      inds := Gather(lo, hi);
      Window.GatheredSlots(Abstract(), lo, hi);
    }

    /** The circular shift of `run`: during warm-up one more event becomes
        live and nProp is the share of the target filled; afterwards the
        oldest event is evicted and nProp is 1. */
    method Shift() returns (nProp: real)
      requires Valid() && IsMask(nBuffer) && Window.CanAdmit(Abstract())
      modifies this`nPoints, this`nPointsCur, this`refInd, this`cells, grid.Repr
      ensures Valid() && grid.Repr == old(grid.Repr) && Abstract() == Window.Admit(old(Abstract()))
      ensures nProp == Window.WarmUpProportion(old(Abstract()))
    {
      if nPoints < nPointsCur {
        SetCounts(nPoints + 1, nPointsCur);
        nProp := nPoints as real / nPointsCur as real;
      } else {
        nProp := 1.0;
        EvictOne();
      }
    }

    /** The event the refinement works on: its point, its time after the
        reference event, and the points and time offsets (`tsDiffRef_`) of
        the gathered slots. */
    method Prepare(cv: Vector, t: real) returns (e: Event)
      requires Valid() && Window.SlotsBelow(inds, nBuffer + 1)
      modifies this`tsDiffRef
      ensures Valid()
      ensures tsDiffRef == Offsets(ts[..], inds, refInd)
      ensures e == Event(cv, t - ts[refInd], Pick(c[..], inds), tsDiffRef)
    {
      tsDiffRef := TimeOffsets(inds);
      e := Event(cv, t - ts[refInd], Pick(c[..], inds), tsDiffRef);
    }

    /** The estimate update of `run`: decay the sums, refine from d =
        minStep, store the counter, accumulate the new terms and count the
        event in `nDecay_`. */
    method Refresh(t: real, e: Event, nProp: real, nm: Numerics)
      requires Valid() && Admissible(nm, varse.nVars)
      modifies this`nDecay, this`iter, varse
      ensures Valid()
      ensures var dec := DecayFactor(nm, old(nDecay), t - ts[prevInd]);
        (varse.Value(), iter) ==
          Advance(nm, varse.nVars, e, nProp, params.minStep, params.maxIter, old(varse.Value()), dec) &&
        nDecay == NextCount(old(nDecay), dec)
    {
      ghost var s0 := varse.Value();
      Decay(t, nm);
      Learn(e, nProp, nm, s0, DecayFactor(nm, old(nDecay), t - ts[prevInd]));
      nDecay := nDecay + 1.0;
    }

    /** The part of `run` after the decay: refine from d = minStep, store
        the counter and accumulate the new terms, starting from the state s
        decayed by dec. */
    method Learn(e: Event, nProp: real, nm: Numerics, ghost s: EstimateState, ghost dec: real)
      requires Valid() && Admissible(nm, varse.nVars) && Fits(s, varse.nVars)
      requires varse.Value() == Decayed(s, dec, varse.nVars)
      modifies this`iter, varse
      ensures Valid()
      ensures (varse.Value(), iter) ==
        Advance(nm, varse.nVars, e, nProp, params.minStep, params.maxIter, s, dec)
    {
      var count, d := Converge(e, nProp, nm);
      iter := count;
      varse.Update();
    }

    /** The eviction loop of `setInc`: k evictions in a row. */
    method EvictMany(k: int)
      requires Valid() && Window.Evictable(Abstract(), k) && (0 < k ==> IsMask(nBuffer))
      modifies this`refInd, this`cells, grid.Repr
      ensures Valid() && grid.Repr == old(grid.Repr) && Abstract() == Window.EvictN(old(Abstract()), k)
    {
      var indDiff := k;
      while indDiff > 0
        invariant Valid() && grid.Repr == old(grid.Repr)
        invariant Window.Evictable(Abstract(), indDiff)
        invariant Window.EvictN(Abstract(), indDiff) == Window.EvictN(old(Abstract()), k)
        decreases indDiff
      {
        Window.EvictableShift(Abstract(), indDiff);
        EvictOne();
        indDiff := indDiff - 1;
      }
    }

    /** `setInc(inc)`: the new target is nPointsMax / inc, truncated; when
        the live events reach it, their count drops to it and the
        difference to the old target is evicted, as written. */
    method SetInc(inc: real)
      requires Valid() && 0.0 < inc && NewTarget(nPointsMax, inc) <= INT_MAX
      requires var t := NewTarget(nPointsMax, inc);
        t <= nPoints ==> Window.Evictable(Abstract(), nPointsCur - t) && (t < nPointsCur ==> IsMask(nBuffer))
      modifies this`nPoints, this`nPointsCur, this`refInd, this`cells, grid.Repr
      ensures Valid() && grid.Repr == old(grid.Repr) && Abstract() == Window.SetInc(old(Abstract()), NewTarget(nPointsMax, inc))
    {
      var t := NewTarget(nPointsMax, inc);
      if nPoints >= t {
        Shrink(t);
      } else {
        SetCounts(nPoints, t);
      }
    }

    /** The branch of `setInc` that reaches the new target t: the live
        events drop to t and the difference to the old target is evicted. */
    method Shrink(t: int)
      requires Valid() && 0 <= t <= nPoints && Window.Evictable(Abstract(), nPointsCur - t)
      requires t < nPointsCur ==> IsMask(nBuffer)
      modifies this`nPoints, this`nPointsCur, this`refInd, this`cells, grid.Repr
      ensures Valid() && grid.Repr == old(grid.Repr) && Abstract() == Window.SetInc(old(Abstract()), t)
    {
      ghost var r0 := Abstract();
      // The evictions neither read nor change the count of live events
      // (Window.EvictNCount), so they run before the count drops to t.
      EvictMany(nPointsCur - t);
      Window.EvictNCount(r0, nPointsCur - t, t);
      SetCounts(t, t);
    }

    /** Sets the count of live events and the target, which only the ring
        reads. */
    method SetCounts(n: int, t: int)
      requires Valid() && Window.WF(Abstract().(nPoints := n, target := t))
      modifies this`nPoints, this`nPointsCur
      ensures Valid() && Abstract() == old(Abstract()).(nPoints := n, target := t)
    {
      nPoints, nPointsCur := n, t;
    }
  }
}
