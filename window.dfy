/** Value-level account of the estimator's event window: the ring of event
    slots with its cursors and live count, the bucket recorded for each slot,
    and the grid of cells that index the slots by bucket.

    `Run` and `SetInc` follow the source as written. `RunFixed` and
    `SetIncFixed` are the corrected bookkeeping; for them the grid is proved
    to index exactly the live events, and the cursors stay aligned with the
    live count. */
module Window {
  import opened Utilities

  /** The largest buffer length a 32-bit `int` holds. */
  const MAX_BUFFER: int := 0x4000_0000

  function Min(a: int, b: int): int {
    if a < b then a else b
  }

  function Max(a: int, b: int): int {
    if a < b then b else a
  }

  // ---------------------------------------------------------------------
  // The grid

  /** A grid coordinate `ij`: x on the first axis, y on the second. */
  datatype Bucket = Bucket(x: int, y: int)

  predicate InGrid(b: Bucket, dim0: int, dim1: int) {
    0 <= b.x < dim0 && 0 <= b.y < dim1
  }

  /** `ij2ind(ij)`: the row-major index of a bucket. */
  function Ij2Ind(b: Bucket, dim1: int): int {
    b.x * dim1 + b.y
  }

  /** Every bucket of the grid has an index into a grid of dim0 * dim1 cells. */
  lemma Ij2IndRange(b: Bucket, dim0: int, dim1: int)
    requires InGrid(b, dim0, dim1)
    ensures 0 <= Ij2Ind(b, dim1) < dim0 * dim1
  {
    var k := dim0 - 1 - b.x;
    assert 0 <= b.x * dim1 && 0 <= k * dim1;
    assert dim0 * dim1 - Ij2Ind(b, dim1) == k * dim1 + (dim1 - b.y);
  }

  /** Different buckets of the grid have different indices. */
  lemma Ij2IndInjective(b: Bucket, c: Bucket, dim0: int, dim1: int)
    requires InGrid(b, dim0, dim1) && InGrid(c, dim0, dim1)
    requires Ij2Ind(b, dim1) == Ij2Ind(c, dim1)
    ensures b == c
  {
    DivModUnique(Ij2Ind(b, dim1), dim1, b.x, b.y);
    DivModUnique(Ij2Ind(c, dim1), dim1, c.x, c.y);
  }

  /** `ijBoundary(ij)`: on each axis, [ij - wSize, ij + wSize] clamped to
      [0, dim - 1]. The result is the lower and the upper corner. */
  function Boundary(b: Bucket, w: int, dim0: int, dim1: int): (Bucket, Bucket) {
    (Bucket(Max(b.x - w, 0), Max(b.y - w, 0)),
     Bucket(Min(b.x + w, dim0 - 1), Min(b.y + w, dim1 - 1)))
  }

  predicate InBox(q: Bucket, lo: Bucket, hi: Bucket) {
    lo.x <= q.x <= hi.x && lo.y <= q.y <= hi.y
  }

  /** The clamped box holds exactly the grid buckets within w of b on both
      axes; it holds b itself when b is on the grid and w is not negative. */
  lemma BoundaryIsClampedWindow(b: Bucket, w: int, dim0: int, dim1: int, q: Bucket)
    ensures InBox(q, Boundary(b, w, dim0, dim1).0, Boundary(b, w, dim0, dim1).1)
        <==> InGrid(q, dim0, dim1) && Abs(q.x - b.x) <= w && Abs(q.y - b.y) <= w
    ensures InGrid(b, dim0, dim1) && 0 <= w ==>
        InBox(b, Boundary(b, w, dim0, dim1).0, Boundary(b, w, dim0, dim1).1)
  {
  }

  /** The cell of bucket (x, y), or nothing off the grid. */
  function CellAt(cells: seq<seq<int>>, dim1: int, x: int, y: int): seq<int> {
    var i := Ij2Ind(Bucket(x, y), dim1);
    if 0 <= i < |cells| then cells[i] else []
  }

  /** The contents of the cells (x, y) for y in [y0, yEnd), in that order. */
  function Row(cells: seq<seq<int>>, dim1: int, x: int, y0: int, yEnd: int): seq<int>
    decreases yEnd - y0
  {
    if yEnd <= y0 then []
    else Row(cells, dim1, x, y0, yEnd - 1) + CellAt(cells, dim1, x, yEnd - 1)
  }

  /** The rows x in [x0, xEnd) of the box [x0, xEnd) x [y0, yEnd), in
      row-major order. */
  function Rows(cells: seq<seq<int>>, dim1: int, x0: int, xEnd: int, y0: int, yEnd: int): seq<int>
    decreases xEnd - x0
  {
    if xEnd <= x0 then []
    else Rows(cells, dim1, x0, xEnd - 1, y0, yEnd) + Row(cells, dim1, xEnd - 1, y0, yEnd)
  }

  /** The slot indices `ij2ind(ijMin, ijMax, grid, inds)` gathers: the
      contents of every cell of the box [lo, hi] of the grid, oldest first
      within a cell, cells in row-major order. */
  function Gathered(cells: seq<seq<int>>, dim0: int, dim1: int, lo: Bucket, hi: Bucket): seq<int>
    requires |cells| == dim0 * dim1 && 0 <= lo.x && hi.x < dim0 && 0 <= lo.y && hi.y < dim1
  {
    Rows(cells, dim1, lo.x, hi.x + 1, lo.y, hi.y + 1)
  }

  /** An index in the cell of bucket (x, y) is in the row of x from y0 to
      yEnd when y is in that range. */
  lemma {:induction false} RowHas(cells: seq<seq<int>>, dim1: int, x: int, y0: int, yEnd: int, y: int, s: int)
    requires y0 <= y < yEnd && s in CellAt(cells, dim1, x, y)
    ensures s in Row(cells, dim1, x, y0, yEnd)
    decreases yEnd - y0
  {
    var init, last := Row(cells, dim1, x, y0, yEnd - 1), CellAt(cells, dim1, x, yEnd - 1);
    assert Row(cells, dim1, x, y0, yEnd) == init + last;
    if y < yEnd - 1 {
      RowHas(cells, dim1, x, y0, yEnd - 1, y, s);
    }
    InAppend(init, last, s);
  }

  /** An index in the row of x from y0 to yEnd comes from the cell of some
      bucket (x, y) with y in that range. */
  lemma {:induction false} RowFrom(cells: seq<seq<int>>, dim1: int, x: int, y0: int, yEnd: int, s: int)
    returns (y: int)
    requires s in Row(cells, dim1, x, y0, yEnd)
    ensures y0 <= y < yEnd && s in CellAt(cells, dim1, x, y)
    decreases yEnd - y0
  {
    var init, last := Row(cells, dim1, x, y0, yEnd - 1), CellAt(cells, dim1, x, yEnd - 1);
    assert Row(cells, dim1, x, y0, yEnd) == init + last;
    InAppend(init, last, s);
    if s in init {
      y := RowFrom(cells, dim1, x, y0, yEnd - 1, s);
    } else {
      y := yEnd - 1;
    }
  }

  /** An index in the row of x is in the rows x0 to xEnd of the box when x
      lies in that range. */
  lemma {:induction false} RowsHas(cells: seq<seq<int>>, dim1: int, x0: int, xEnd: int, y0: int, yEnd: int,
                                   x: int, s: int)
    requires x0 <= x < xEnd && s in Row(cells, dim1, x, y0, yEnd)
    ensures s in Rows(cells, dim1, x0, xEnd, y0, yEnd)
    decreases xEnd - x0
  {
    var init, last := Rows(cells, dim1, x0, xEnd - 1, y0, yEnd), Row(cells, dim1, xEnd - 1, y0, yEnd);
    assert Rows(cells, dim1, x0, xEnd, y0, yEnd) == init + last;
    if x < xEnd - 1 {
      RowsHas(cells, dim1, x0, xEnd - 1, y0, yEnd, x, s);
    }
    InAppend(init, last, s);
  }

  /** What is in either part of a concatenation is in the whole. */
  lemma InAppend<T>(a: seq<T>, b: seq<T>, s: T)
    ensures s in a + b <==> s in a || s in b
  {
    if s in a {
      var i :| 0 <= i < |a| && a[i] == s;
      assert (a + b)[i] == s;
    }
    if s in b {
      var i :| 0 <= i < |b| && b[i] == s;
      assert (a + b)[|a| + i] == s;
    }
  }

  /** An index in the rows x0 to xEnd of the box comes from the cell of some
      bucket of the box. */
  lemma {:induction false} RowsFrom(cells: seq<seq<int>>, dim1: int, x0: int, xEnd: int, y0: int, yEnd: int, s: int)
    returns (x: int, y: int)
    requires s in Rows(cells, dim1, x0, xEnd, y0, yEnd)
    ensures x0 <= x < xEnd && y0 <= y < yEnd && s in CellAt(cells, dim1, x, y)
    decreases xEnd - x0
  {
    var init, last := Rows(cells, dim1, x0, xEnd - 1, y0, yEnd), Row(cells, dim1, xEnd - 1, y0, yEnd);
    assert Rows(cells, dim1, x0, xEnd, y0, yEnd) == init + last;
    InAppend(init, last, s);
    if s in init {
      x, y := RowsFrom(cells, dim1, x0, xEnd - 1, y0, yEnd, s);
    } else {
      x := xEnd - 1;
      y := RowFrom(cells, dim1, x, y0, yEnd, s);
    }
  }

  /** An index is gathered exactly when it is in the cell of some bucket of
      the box. */
  lemma RowsMembers(cells: seq<seq<int>>, dim1: int, x0: int, xEnd: int, y0: int, yEnd: int, s: int)
    ensures s in Rows(cells, dim1, x0, xEnd, y0, yEnd)
        <==> exists x, y :: x0 <= x < xEnd && y0 <= y < yEnd && s in CellAt(cells, dim1, x, y)
  {
    if s in Rows(cells, dim1, x0, xEnd, y0, yEnd) {
      var x, y := RowsFrom(cells, dim1, x0, xEnd, y0, yEnd, s);
    }
    if exists x, y :: x0 <= x < xEnd && y0 <= y < yEnd && s in CellAt(cells, dim1, x, y) {
      var x, y :| x0 <= x < xEnd && y0 <= y < yEnd && s in CellAt(cells, dim1, x, y);
      RowHas(cells, dim1, x, y0, yEnd, y, s);
      RowsHas(cells, dim1, x0, xEnd, y0, yEnd, x, s);
    }
  }

  /** Every index the gather collects is a slot of the buffer. */
  lemma GatheredSlots(r: Ring, lo: Bucket, hi: Bucket)
    requires WF(r) && 0 <= lo.x && hi.x < r.dim0 && 0 <= lo.y && hi.y < r.dim1
    ensures SlotsBelow(Gathered(r.cells, r.dim0, r.dim1, lo, hi), r.len)
  {
    var g := Gathered(r.cells, r.dim0, r.dim1, lo, hi);
    forall k | 0 <= k < |g|
      ensures 0 <= g[k] < r.len
    {
      var s := g[k];
      var x, y := RowsFrom(r.cells, r.dim1, lo.x, hi.x + 1, lo.y, hi.y + 1, s);
      var i := Ij2Ind(Bucket(x, y), r.dim1);
      assert s in r.cells[i];
      assert SlotsBelow(r.cells[i], r.len);
      var j :| 0 <= j < |r.cells[i]| && r.cells[i][j] == s;
    }
  }

  // ---------------------------------------------------------------------
  // The ring of event slots

  /** The bookkeeping state of the estimator's window. */
  datatype Ring = Ring(
    len: int,               // buffer length: nBuffer_ + 1, a power of two
    dim0: int, dim1: int,   // grid dimensions
    cur: int,               // curInd_: the slot the next event is written to
    prev: int,              // prevInd_: the slot of the latest event
    ref: int,               // refInd_: the reference slot, the oldest live event
    nPoints: int,           // nPoints_: the number of live events
    target: int,            // nPointsCur_: the number of live events aimed at
    slots: seq<Bucket>,     // ij_: the bucket recorded for each slot
    written: set<int>,      // the slots written at least once
    cells: seq<seq<int>>)   // grid_: the slots each cell indexes, oldest first

  predicate WF(r: Ring) {
    IsPow2(r.len) && r.len <= MAX_BUFFER &&
    0 <= r.dim0 && 0 <= r.dim1 && |r.cells| == r.dim0 * r.dim1 && |r.slots| == r.len &&
    0 <= r.cur < r.len && 0 <= r.prev < r.len && 0 <= r.ref < r.len &&
    0 <= r.nPoints <= r.target &&
    (forall s :: s in r.written ==> 0 <= s < r.len && InGrid(r.slots[s], r.dim0, r.dim1)) &&
    (forall i :: 0 <= i < |r.cells| ==> SlotsBelow(r.cells[i], r.len))
  }

  /** The contents of a cell are slots of a buffer of length n. */
  predicate SlotsBelow(c: seq<int>, n: int) {
    forall k :: 0 <= k < |c| ==> 0 <= c[k] < n
  }

  /** The slot j places after the reference slot. */
  function At(r: Ring, j: int): (s: int)
    requires 0 < r.len
    ensures 0 <= s < r.len
  {
    (r.ref + j) % r.len
  }

  /** The slots of the live events, oldest first. */
  function Live(r: Ring): (l: seq<int>)
    requires 0 < r.len && 0 <= r.nPoints
    ensures |l| == r.nPoints
    ensures forall j :: 0 <= j < r.nPoints ==> l[j] == At(r, j)
  {
    seq(r.nPoints, j requires 0 <= j < r.nPoints => At(r, j))
  }

  /** The write cursor sits right after the live events. */
  predicate Aligned(r: Ring)
    requires 0 < r.len
  {
    r.cur == At(r, r.nPoints)
  }

  /** Every live slot holds an event. */
  predicate LiveWritten(r: Ring)
    requires 0 < r.len
  {
    forall j :: 0 <= j < r.nPoints ==> At(r, j) in r.written
  }

  /** The first k slots after the reference slot hold events. */
  predicate Evictable(r: Ring, k: int)
    requires 0 < r.len
  {
    forall j :: 1 <= j <= k ==> At(r, j) in r.written
  }

  lemma AtZero(r: Ring)
    requires WF(r)
    ensures At(r, 0) == r.ref
  {
    DivModUnique(r.ref, r.len, 0, r.ref);
  }

  /** Two live positions closer than the buffer length are different slots. */
  lemma AtDistinct(r: Ring, j: int, k: int)
    requires 0 < r.len && 0 <= j < k < j + r.len
    ensures At(r, j) != At(r, k)
  {
    var a, q := At(r, j), (r.ref + j) / r.len;
    assert r.ref + k == r.len * q + (a + (k - j));
    if a + (k - j) < r.len {
      DivModUnique(r.ref + k, r.len, q, a + (k - j));
    } else {
      DivModUnique(r.ref + k, r.len, q + 1, a + (k - j) - r.len);
    }
  }

  /** Advancing the reference slot by one shifts every position by one. */
  lemma AtShift(r: Ring, j: int)
    requires 0 < r.len
    ensures At(r.(ref := At(r, 1)), j) == At(r, j + 1)
  {
    ModAddLeft(r.ref + 1, j, r.len);
  }

  /** Moving the reference slot on by k, then j places, is moving it on by
      k + j places. */
  lemma AtMoved(r: Ring, n: Ring, k: int, j: int)
    requires 0 < r.len && n.len == r.len && n.ref == At(r, k)
    ensures At(n, j) == At(r, k + j)
  {
    ModAddTwice(r.ref, k, j, r.len);
  }

  /** `grid_[i].remove()` on the cell contents. */
  function DropOldest(cells: seq<seq<int>>, i: int): (d: seq<seq<int>>)
    requires 0 <= i < |cells|
    ensures |d| == |cells| && d[i] == (if cells[i] == [] then [] else cells[i][1..])
    ensures forall k :: 0 <= k < |cells| && k != i ==> d[k] == cells[k]
  {
    cells[i := if cells[i] == [] then [] else cells[i][1..]]
  }

  function NextRef(r: Ring): int
    requires 0 < r.len
  {
    At(r, 1)
  }

  /** The eviction of `run` and of `setInc` as written: advance the reference
      slot, then remove the oldest index from the cell of the bucket recorded
      for the NEW reference slot. */
  function Evict(r: Ring): (e: Ring)
    requires WF(r) && NextRef(r) in r.written
    ensures WF(e)
  {
    var ref := NextRef(r);
    Ij2IndRange(r.slots[ref], r.dim0, r.dim1);
    r.(ref := ref, cells := DropOldest(r.cells, Ij2Ind(r.slots[ref], r.dim1)))
  }

  /** The eviction, field by field. */
  lemma EvictIs(r: Ring, ref: int, cells: seq<seq<int>>)
    requires WF(r) && NextRef(r) in r.written && ref == NextRef(r)
    requires 0 <= Ij2Ind(r.slots[ref], r.dim1) < |r.cells|
    requires cells == DropOldest(r.cells, Ij2Ind(r.slots[ref], r.dim1))
    ensures Evict(r) == r.(ref := ref, cells := cells)
  {
  }

  /** `run` needs the slot it evicts to hold an event. */
  predicate CanAdmit(r: Ring)
    requires 0 < r.len
  {
    r.nPoints < r.target || NextRef(r) in r.written
  }

  /** The circular shift at the head of `run`: count the event in while the
      window is warming up, evict otherwise. */
  function Admit(r: Ring): (a: Ring)
    requires WF(r) && CanAdmit(r)
    ensures WF(a)
  {
    if r.nPoints < r.target then r.(nPoints := r.nPoints + 1) else Evict(r)
  }

  /** Admitting an event never grows a cell. */
  lemma AdmitShrinks(r: Ring, x: int, y: int)
    requires WF(r) && CanAdmit(r)
    ensures |CellAt(Admit(r).cells, r.dim1, x, y)| <= |CellAt(r.cells, r.dim1, x, y)|
  {
  }

  /** `nProp`: the share of the target window the live events fill once the
      new event is counted, 1 once the window is full. */
  function WarmUpProportion(r: Ring): (p: real)
    requires WF(r)
    ensures 0.0 < p <= 1.0
    ensures r.nPoints < r.target ==> p * r.target as real == (r.nPoints + 1) as real
    ensures r.target <= r.nPoints ==> p == 1.0
  {
    if r.nPoints < r.target then (r.nPoints + 1) as real / r.target as real else 1.0
  }

  /** The tail of `run`: index the new event's slot in the cell of its
      bucket, record the bucket, and move the cursors on. */
  function Insert(r: Ring, b: Bucket): (n: Ring)
    requires WF(r) && InGrid(b, r.dim0, r.dim1)
    ensures WF(n)
  {
    var i := Ij2Ind(b, r.dim1);
    Ij2IndRange(b, r.dim0, r.dim1);
    r.(cells := r.cells[i := r.cells[i] + [r.cur]],
       slots := r.slots[r.cur := b],
       written := r.written + {r.cur},
       prev := r.cur,
       cur := (r.cur + 1) % r.len)
  }

  /** The insertion, field by field. */
  lemma InsertIs(r: Ring, b: Bucket, cells: seq<seq<int>>, slots: seq<Bucket>)
    requires WF(r) && InGrid(b, r.dim0, r.dim1)
    requires 0 <= Ij2Ind(b, r.dim1) < |r.cells|
    requires cells == r.cells[Ij2Ind(b, r.dim1) := r.cells[Ij2Ind(b, r.dim1)] + [r.cur]]
    requires slots == r.slots[r.cur := b]
    ensures Insert(r, b) == r.(cells := cells, slots := slots, written := r.written + {r.cur},
                               prev := r.cur, cur := (r.cur + 1) % r.len)
  {
  }

  /** The bookkeeping of `run(c, ts)` for an event in bucket b, as written. */
  function Run(r: Ring, b: Bucket): (n: Ring)
    requires WF(r) && CanAdmit(r) && InGrid(b, r.dim0, r.dim1)
    ensures WF(n)
  {
    Insert(Admit(r), b)
  }

  /** k evictions in a row, as the loop of `setInc` performs them. */
  function EvictN(r: Ring, k: int): (e: Ring)
    requires WF(r) && Evictable(r, k)
    ensures WF(e) && e.ref == At(r, Max(k, 0))
    ensures e.(ref := r.ref, cells := r.cells) == r
    decreases k
  {
    if k <= 0 then
      AtZero(r);
      r
    else
      EvictableShift(r, k);
      ModAddLeft(r.ref + 1, k - 1, r.len);
      EvictN(Evict(r), k - 1)
  }

  /** The evictions neither read nor change the count of live events. */
  lemma {:induction false} EvictNCount(r: Ring, k: int, n: int)
    requires WF(r) && Evictable(r, k) && 0 <= n <= r.target
    ensures Evictable(r.(nPoints := n), k)
    ensures EvictN(r.(nPoints := n), k) == EvictN(r, k).(nPoints := n)
    decreases k
  {
    var r' := r.(nPoints := n);
    assert forall j :: At(r', j) == At(r, j);
    if 0 < k {
      EvictableShift(r, k);
      EvictNCount(Evict(r), k - 1, n);
      assert Evict(r') == Evict(r).(nPoints := n);
    }
  }

  lemma EvictableShift(r: Ring, k: int)
    requires WF(r) && Evictable(r, k) && 1 <= k
    ensures NextRef(r) in r.written && Evictable(Evict(r), k - 1)
  {
    forall j | 1 <= j <= k - 1
      ensures At(Evict(r), j) in r.written
    {
      AtShift(r, j);
    }
  }

  /** `setInc` for a new target t, as written: when the live events reach
      t, the count drops to t and `nPointsCur_ - t` events are evicted. */
  function SetInc(r: Ring, t: int): (n: Ring)
    requires WF(r) && 0 <= t
    requires t <= r.nPoints ==> Evictable(r, r.target - t)
    ensures WF(n) && n.target == t
  {
    if t <= r.nPoints then EvictN(r, r.target - t).(nPoints := t, target := t)
    else r.(target := t)
  }

  // ---------------------------------------------------------------------
  // Properties of the bookkeeping as written

  /** `run` counts events in until the target is reached, keeps the write
      cursor right after the live events, and keeps every live slot written. */
  lemma RunKeepsWindow(r: Ring, b: Bucket)
    requires WF(r) && CanAdmit(r) && InGrid(b, r.dim0, r.dim1)
    requires Aligned(r) && LiveWritten(r)
    ensures Aligned(Run(r, b)) && LiveWritten(Run(r, b))
    ensures Run(r, b).nPoints == Min(r.nPoints + 1, r.target)
    ensures Run(r, b).prev == r.cur && Run(r, b).slots[r.cur] == b
  {
    var n := Run(r, b);
    if r.nPoints < r.target {
      AtZero(r);
      AdvanceKeepsWindow(r, n, 0);
    } else {
      AdvanceKeepsWindow(r, n, 1);
    }
  }

  /** Retiring the oldest k live events of an aligned ring and writing one
      event at its cursor keeps it aligned and its live slots written. */
  lemma AdvanceKeepsWindow(r: Ring, n: Ring, k: int)
    requires 0 < r.len && Aligned(r) && LiveWritten(r) && 0 <= k
    requires n.len == r.len && n.ref == At(r, k) && 0 <= n.nPoints == r.nPoints - k + 1
    requires n.cur == (r.cur + 1) % r.len && n.written == r.written + {r.cur}
    ensures Aligned(n) && LiveWritten(n)
  {
    AtMoved(r, n, k, n.nPoints);
    assert k + n.nPoints == r.nPoints + 1;
    ModAddTwice(r.ref, r.nPoints, 1, r.len);
    forall j | 0 <= j < n.nPoints
      ensures At(n, j) in n.written
    {
      AtMoved(r, n, k, j);
    }
  }

  /** A window of at least two events evicts a written slot. */
  lemma CanAdmitWhenWritten(r: Ring)
    requires WF(r) && LiveWritten(r) && 2 <= r.target
    ensures CanAdmit(r)
  {
    if r.target <= r.nPoints {
      assert At(r, 1) in r.written;
    }
  }

  /** The states `run` keeps itself in from the constructor's state on. */
  predicate Steady(r: Ring) {
    WF(r) && Aligned(r) && LiveWritten(r) && 2 <= r.target
  }

  /** Events in the buckets bs, one `run` after the other. */
  function RunAll(r: Ring, bs: seq<Bucket>): (n: Ring)
    requires Steady(r)
    requires forall k :: 0 <= k < |bs| ==> InGrid(bs[k], r.dim0, r.dim1)
    ensures Steady(n) && n.target == r.target
    decreases |bs|
  {
    if bs == [] then r
    else
      CanAdmitWhenWritten(r);
      RunKeepsWindow(r, bs[0]);
      RunAll(Run(r, bs[0]), bs[1..])
  }

  /** The live count climbs by one per event and then stays at the target. */
  lemma {:induction false} RunAllFills(r: Ring, bs: seq<Bucket>)
    requires Steady(r)
    requires forall k :: 0 <= k < |bs| ==> InGrid(bs[k], r.dim0, r.dim1)
    ensures RunAll(r, bs).nPoints == Min(r.nPoints + |bs|, r.target)
    decreases |bs|
  {
    if bs != [] {
      CanAdmitWhenWritten(r);
      RunKeepsWindow(r, bs[0]);
      RunAllFills(Run(r, bs[0]), bs[1..]);
    }
  }

  /** On a full window `setInc` keeps the cursors aligned: it evicts the
      events beyond the new target, oldest first. */
  lemma SetIncKeepsWindowWhenFull(r: Ring, t: int)
    requires WF(r) && 0 <= t && Aligned(r) && LiveWritten(r)
    requires r.nPoints == r.target || r.nPoints < t
    requires t <= r.nPoints ==> Evictable(r, r.target - t)
    ensures Aligned(SetInc(r, t)) && LiveWritten(SetInc(r, t))
    ensures SetInc(r, t).nPoints == Min(r.nPoints, t)
  {
    if t <= r.nPoints {
      SetIncShrinkKeepsWindow(r, t);
    } else {
      var n := SetInc(r, t);
      forall j | 0 <= j < n.nPoints
        ensures At(n, j) in n.written
      {
        assert At(n, j) == At(r, j);
      }
    }
  }

  /** A `setInc` that evicts from a full window keeps the newest t events,
      all of them written, with the cursor right after them. */
  lemma SetIncShrinkKeepsWindow(r: Ring, t: int)
    requires WF(r) && Aligned(r) && LiveWritten(r) && 0 <= t <= r.nPoints == r.target
    requires Evictable(r, r.target - t)
    ensures Aligned(SetInc(r, t)) && LiveWritten(SetInc(r, t))
  {
    SetIncEvicts(r, t);
    ShiftedKeepsWindow(r, SetInc(r, t), r.target - t);
  }

  /** Moving the reference slot of an aligned ring on by k of its live
      events, and counting k fewer, keeps it aligned and its live slots
      written. */
  lemma ShiftedKeepsWindow(r: Ring, n: Ring, k: int)
    requires 0 < r.len && Aligned(r) && LiveWritten(r) && 0 <= k <= r.nPoints
    requires n.ref == At(r, k) && n.nPoints == r.nPoints - k
    requires n.len == r.len && n.cur == r.cur && n.written == r.written
    ensures Aligned(n) && LiveWritten(n)
  {
    AtMoved(r, n, k, n.nPoints);
    forall j | 0 <= j < n.nPoints
      ensures At(n, j) in n.written
    {
      AtMoved(r, n, k, j);
    }
  }

  /** When the live events reach the new target, `setInc` moves the
      reference slot on by the old target minus the new one and keeps the
      cursor and the written slots. */
  lemma SetIncEvicts(r: Ring, t: int)
    requires WF(r) && 0 <= t <= r.nPoints && Evictable(r, r.target - t)
    ensures var n := SetInc(r, t);
      n.ref == At(r, r.target - t) && n.cur == r.cur && n.nPoints == t && n.target == t &&
      n.len == r.len && n.written == r.written && n.slots == r.slots
  {
    var e := EvictN(r, r.target - t);
    assert e.(ref := r.ref, cells := r.cells) == r;
  }

  /** Equal residues differ by a multiple of the modulus. */
  lemma ModEqualDifference(a: int, b: int, m: int)
    requires 0 < m && a % m == b % m
    ensures (a - b) % m == 0
  {
    assert a == m * (a / m) + a % m;
    assert b == m * (b / m) + b % m;
    assert a - b == m * (a / m - b / m);
    DivModUnique(a - b, m, a / m - b / m, 0);
  }

  /** `setInc` during warm-up breaks the cursors: with fewer live events
      than the old target, it evicts `nPointsCur_ - t` events but keeps t,
      so the write cursor no longer sits right after the live events unless
      the shortfall is a multiple of the buffer length. */
  lemma SetIncWarmUpMisaligns(r: Ring, t: int)
    requires WF(r) && Aligned(r) && 0 <= t <= r.nPoints < r.target
    requires Evictable(r, r.target - t)
    requires (r.target - r.nPoints) % r.len != 0
    ensures !Aligned(SetInc(r, t))
  {
    SetIncEvicts(r, t);
    ShiftedMisaligns(r, SetInc(r, t), t);
  }

  /** A ring whose reference slot moved on by target - t from that of an
      aligned r, with t live events and r's cursor, is not aligned unless
      target - nPoints is a multiple of the length. */
  lemma ShiftedMisaligns(r: Ring, n: Ring, t: int)
    requires 0 < r.len && Aligned(r) && (r.target - r.nPoints) % r.len != 0
    requires n.ref == At(r, r.target - t) && n.cur == r.cur && n.nPoints == t && n.len == r.len
    ensures !Aligned(n)
  {
    ShiftedResidues(r.ref, r.target, t, r.nPoints, r.len);
  }

  /** Moving on by target - t and then by t lands on a different slot than
      moving on by nPoints, unless the two differ by a multiple of len. */
  lemma ShiftedResidues(ref: int, target: int, t: int, nPoints: int, len: int)
    requires 0 < len && (target - nPoints) % len != 0
    ensures ((ref + (target - t)) % len + t) % len != (ref + nPoints) % len
  {
    ModAddLeft(ref + (target - t), t, len);
    assert ref + (target - t) + t == ref + target;
    if (ref + target) % len == (ref + nPoints) % len {
      ModEqualDifference(ref + target, ref + nPoints, len);
    }
  }

  /** What a warm-up `run` does to the cursors. */
  lemma RunWarmUp(r: Ring, b: Bucket)
    requires WF(r) && r.nPoints < r.target && InGrid(b, r.dim0, r.dim1)
    ensures CanAdmit(r)
    ensures var n := Run(r, b);
      n.len == r.len && n.target == r.target && n.ref == r.ref && n.nPoints == r.nPoints + 1 &&
      n.cur == (r.cur + 1) % r.len && n.written == r.written + {r.cur}
  {
  }

  /** Four events from the constructor's state fill a buffer of 4. */
  lemma FillFour(r0: Ring, b: Bucket)
    requires WF(r0) && r0.len == 4 && r0.target == 4
    requires r0.cur == 0 && r0.ref == 0 && r0.nPoints == 0 && InGrid(b, r0.dim0, r0.dim1)
    ensures CanAdmit(r0) && CanAdmit(Run(r0, b)) && CanAdmit(Run(Run(r0, b), b))
    ensures CanAdmit(Run(Run(Run(r0, b), b), b))
    ensures var r4 := Run(Run(Run(Run(r0, b), b), b), b);
      r4.len == 4 && r4.target == 4 && r4.cur == 0 && r4.ref == 0 && r4.nPoints == 4 &&
      {0, 1, 2, 3} <= r4.written
  {
    RunWarmUp(r0, b);
    var r1 := Run(r0, b);
    RunWarmUp(r1, b);
    var r2 := Run(r1, b);
    RunWarmUp(r2, b);
    var r3 := Run(r2, b);
    RunWarmUp(r3, b);
  }

  /** `setInc` as written misaligns the cursors on a trace. From the
      constructor's state with `nPointsMax_` 4 (a buffer of 4): four events,
      then new targets 2, 4 and 2 (`setInc(2)`, `setInc(1)`, `setInc(2)`).
      The second call leaves two live events out of a target of 4; the third
      evicts two more and keeps two, which puts the reference slot on the
      write cursor. */
  lemma SetIncWarmUpCounterexample(r0: Ring, b: Bucket)
    requires WF(r0) && r0.len == 4 && r0.target == 4
    requires r0.cur == 0 && r0.ref == 0 && r0.nPoints == 0 && InGrid(b, r0.dim0, r0.dim1)
    ensures Aligned(r0) && CanAdmit(r0)
    ensures var r4 := Run(Run(Run(Run(r0, b), b), b), b);
      Aligned(r4) && Evictable(r4, 2) &&
      var s2 := SetInc(SetInc(r4, 2), 4);
      Aligned(s2) && s2.nPoints == 2 && s2.target == 4 && Evictable(s2, 2) &&
      !Aligned(SetInc(s2, 2))
  {
    AtZero(r0);
    FillFour(r0, b);
    var r4 := Run(Run(Run(Run(r0, b), b), b), b);
    assert At(r4, 0) == 0 && At(r4, 1) == 1 && At(r4, 2) == 2 && At(r4, 3) == 3 && At(r4, 4) == 0;
    SetIncKeepsWindowWhenFull(r4, 2);
    var s1 := SetInc(r4, 2);
    assert s1.ref == At(r4, 2) == 2 && s1.written == r4.written;
    SetIncKeepsWindowWhenFull(s1, 4);
    var s2 := SetInc(s1, 4);
    assert s2 == s1.(target := 4);
    assert At(s2, 1) == 3 && At(s2, 2) == 0;
    SetIncWarmUpMisaligns(s2, 2);
  }

  /** Five events from the constructor's state with a buffer of 8 fill
      slots 0 to 4. */
  lemma FillFive(r0: Ring, b: Bucket)
    requires WF(r0) && r0.len == 8 && r0.target == 8 && r0.written == {}
    requires r0.cur == 0 && r0.ref == 0 && r0.nPoints == 0 && InGrid(b, r0.dim0, r0.dim1)
    ensures CanAdmit(r0) && CanAdmit(Run(r0, b)) && CanAdmit(Run(Run(r0, b), b))
    ensures CanAdmit(Run(Run(Run(r0, b), b), b)) && CanAdmit(Run(Run(Run(Run(r0, b), b), b), b))
    ensures var r5 := Run(Run(Run(Run(Run(r0, b), b), b), b), b);
      r5.len == 8 && r5.target == 8 && r5.ref == 0 && r5.nPoints == 5 && r5.written == {0, 1, 2, 3, 4}
  {
    RunWarmUp(r0, b);
    var r1 := Run(r0, b);
    RunWarmUp(r1, b);
    var r2 := Run(r1, b);
    RunWarmUp(r2, b);
    var r3 := Run(r2, b);
    RunWarmUp(r3, b);
    var r4 := Run(r3, b);
    RunWarmUp(r4, b);
  }

  /** `setInc` as written can make the next `run` evict a slot that holds no
      event. From the constructor's state with `nPointsMax_` 8 (a buffer of
      8): five events fill slots 0 to 4, then `setInc(2)` sets the target to 4
      and evicts 8 - 4 events, which leaves the reference slot on slot 4 with
      four live events. The eviction of the next `run` reads the bucket of
      slot 5, which was never written. */
  lemma SetIncUnwrittenEviction(r0: Ring, b: Bucket)
    requires WF(r0) && r0.len == 8 && r0.target == 8 && r0.written == {}
    requires r0.cur == 0 && r0.ref == 0 && r0.nPoints == 0 && InGrid(b, r0.dim0, r0.dim1)
    ensures CanAdmit(r0) && CanAdmit(Run(r0, b)) && CanAdmit(Run(Run(r0, b), b))
    ensures CanAdmit(Run(Run(Run(r0, b), b), b)) && CanAdmit(Run(Run(Run(Run(r0, b), b), b), b))
    ensures var r5 := Run(Run(Run(Run(Run(r0, b), b), b), b), b);
      Evictable(r5, 4) &&
      var s := SetInc(r5, 4);
      s.nPoints == 4 && s.target == 4 && !CanAdmit(s)
  {
    FillFive(r0, b);
    SetIncStarves(Run(Run(Run(Run(Run(r0, b), b), b), b), b));
  }

  /** Five live events in slots 0 to 4 of a buffer of 8 and a target of 8:
      `setInc(2)` evicts four of them and leaves the reference slot on slot 4,
      so the next eviction would read slot 5, which holds no event. */
  lemma SetIncStarves(r5: Ring)
    requires WF(r5) && r5.len == 8 && r5.target == 8 && r5.ref == 0 && r5.nPoints == 5
    requires r5.written == {0, 1, 2, 3, 4}
    ensures Evictable(r5, 4)
    ensures var s := SetInc(r5, 4); s.nPoints == 4 && s.target == 4 && !CanAdmit(s)
  {
    assert At(r5, 1) == 1 && At(r5, 2) == 2 && At(r5, 3) == 3 && At(r5, 4) == 4;
    SetIncEvicts(r5, 4);
    var s := SetInc(r5, 4);
    assert At(s, 1) == 5;
  }

  // ---------------------------------------------------------------------
  // The grid as an index of the live events

  /** The slots of live whose recorded bucket has index i, in the order of live. */
  function Members(live: seq<int>, slots: seq<Bucket>, dim1: int, i: int): seq<int>
    requires forall j :: 0 <= j < |live| ==> 0 <= live[j] < |slots|
  {
    if live == [] then []
    else
      var s := live[|live| - 1];
      Members(live[..|live| - 1], slots, dim1, i) + (if Ij2Ind(slots[s], dim1) == i then [s] else [])
  }

  /** Each cell holds exactly the live slots of its bucket, oldest first. */
  predicate Consistent(r: Ring)
    requires WF(r)
  {
    forall i :: 0 <= i < |r.cells| ==> r.cells[i] == Members(Live(r), r.slots, r.dim1, i)
  }

  lemma {:induction false} MembersIn(live: seq<int>, slots: seq<Bucket>, dim1: int, i: int, s: int)
    requires forall j :: 0 <= j < |live| ==> 0 <= live[j] < |slots|
    ensures s in Members(live, slots, dim1, i) <==> s in live && Ij2Ind(slots[s], dim1) == i
    decreases |live|
  {
    if live != [] {
      var init := live[..|live| - 1];
      MembersIn(init, slots, dim1, i, s);
      assert live == init + [live[|live| - 1]];
    }
  }

  lemma {:induction false} MembersCons(s: int, live: seq<int>, slots: seq<Bucket>, dim1: int, i: int)
    requires 0 <= s < |slots| && forall j :: 0 <= j < |live| ==> 0 <= live[j] < |slots|
    ensures Members([s] + live, slots, dim1, i)
        == (if Ij2Ind(slots[s], dim1) == i then [s] else []) + Members(live, slots, dim1, i)
    decreases |live|
  {
    if live != [] {
      var init := live[..|live| - 1];
      MembersCons(s, init, slots, dim1, i);
      assert ([s] + live)[..|live|] == [s] + init;
    }
  }

  lemma {:induction false} MembersFrame(live: seq<int>, slots: seq<Bucket>, slots': seq<Bucket>, dim1: int, i: int)
    requires forall j :: 0 <= j < |live| ==> 0 <= live[j] < |slots| && 0 <= live[j] < |slots'|
    requires forall j :: 0 <= j < |live| ==> slots[live[j]] == slots'[live[j]]
    ensures Members(live, slots, dim1, i) == Members(live, slots', dim1, i)
    decreases |live|
  {
    if live != [] {
      MembersFrame(live[..|live| - 1], slots, slots', dim1, i);
    }
  }

  /** Given a consistent grid, a slot is in cell i exactly when it is live
      and its recorded bucket has index i; so each live slot is in exactly one
      cell, and no evicted slot is in any. */
  lemma ConsistentIndex(r: Ring, i: int, s: int)
    requires WF(r) && Consistent(r) && 0 <= i < |r.cells|
    ensures s in r.cells[i] <==> 0 <= s < r.len && s in Live(r) && Ij2Ind(r.slots[s], r.dim1) == i
  {
    MembersIn(Live(r), r.slots, r.dim1, i, s);
  }

  /** The corrected eviction: remove the oldest index from the cell of the
      bucket recorded for the reference slot, then advance past it. */
  function Retire(r: Ring): (e: Ring)
    requires WF(r) && 1 <= r.nPoints && r.ref in r.written
    ensures WF(e)
  {
    Ij2IndRange(r.slots[r.ref], r.dim0, r.dim1);
    r.(cells := DropOldest(r.cells, Ij2Ind(r.slots[r.ref], r.dim1)),
       ref := NextRef(r), nPoints := r.nPoints - 1)
  }

  /** Retiring the oldest live event keeps the window aligned, written and
      indexed. */
  lemma RetireKeepsWindow(r: Ring)
    requires WF(r) && Aligned(r) && LiveWritten(r) && Consistent(r) && 1 <= r.nPoints
    ensures r.ref in r.written
    ensures Aligned(Retire(r)) && LiveWritten(Retire(r)) && Consistent(Retire(r))
  {
    AtZero(r);
    RetireKeepsCursors(r);
    RetireKeepsIndex(r);
  }

  lemma RetireKeepsCursors(r: Ring)
    requires WF(r) && Aligned(r) && LiveWritten(r) && 1 <= r.nPoints && r.ref in r.written
    ensures Aligned(Retire(r)) && LiveWritten(Retire(r))
  {
    var e := Retire(r);
    AtShift(r, e.nPoints);
    forall j | 0 <= j < e.nPoints
      ensures At(e, j) in e.written
    {
      AtShift(r, j);
    }
  }

  /** The live slots after a retirement are those before it but the first. */
  lemma LiveTail(r: Ring)
    requires WF(r) && 1 <= r.nPoints
    ensures Live(r) == [r.ref] + Live(r.(ref := NextRef(r), nPoints := r.nPoints - 1))
  {
    AtZero(r);
    var e := r.(ref := NextRef(r), nPoints := r.nPoints - 1);
    forall j | 0 <= j < e.nPoints
      ensures Live(e)[j] == Live(r)[j + 1]
    {
      AtShift(r, j);
    }
  }

  lemma RetireKeepsIndex(r: Ring)
    requires WF(r) && Consistent(r) && 1 <= r.nPoints && r.ref in r.written
    ensures Consistent(Retire(r))
  {
    var e := Retire(r);
    LiveTail(r);
    assert Live(e) == Live(r.(ref := NextRef(r), nPoints := r.nPoints - 1));
    var live := Live(e);
    forall i | 0 <= i < |e.cells|
      ensures e.cells[i] == Members(live, e.slots, e.dim1, i)
    {
      MembersCons(r.ref, live, r.slots, r.dim1, i);
    }
  }

  /** Counting in and indexing one more event, at the write cursor. */
  function Enroll(r: Ring, b: Bucket): (n: Ring)
    requires WF(r) && r.nPoints < r.target && InGrid(b, r.dim0, r.dim1)
    ensures WF(n)
  {
    Insert(r.(nPoints := r.nPoints + 1), b)
  }

  /** Indexing the event at the write cursor keeps the grid an index of the
      live events, as long as the window is shorter than the buffer. */
  lemma EnrollKeepsWindow(r: Ring, b: Bucket)
    requires WF(r) && Aligned(r) && LiveWritten(r) && Consistent(r)
    requires r.nPoints < r.target <= r.len && InGrid(b, r.dim0, r.dim1)
    ensures Aligned(Enroll(r, b)) && LiveWritten(Enroll(r, b)) && Consistent(Enroll(r, b))
  {
    var n := Enroll(r, b);
    ModAddLeft(r.ref + r.nPoints, 1, r.len);
    forall j | 0 <= j < n.nPoints
      ensures At(n, j) in n.written
    {
      if j < r.nPoints {
        assert At(n, j) == At(r, j);
      }
    }
    var live := Live(r);
    assert Live(n) == live + [r.cur];
    forall j | 0 <= j < |live|
      ensures r.slots[live[j]] == n.slots[live[j]]
    {
      AtDistinct(r, j, r.nPoints);
    }
    forall i | 0 <= i < |n.cells|
      ensures n.cells[i] == Members(Live(n), n.slots, n.dim1, i)
    {
      MembersFrame(live, r.slots, n.slots, r.dim1, i);
      assert (live + [r.cur])[..|live|] == live;
    }
  }

  /** `run`'s circular shift with the corrected eviction. */
  function AdmitFixed(r: Ring): (a: Ring)
    requires WF(r) && LiveWritten(r) && 1 <= r.target
    ensures WF(a) && a.nPoints < a.target
  {
    if r.nPoints < r.target then r
    else
      AtZero(r);
      Retire(r)
  }

  /** The bookkeeping of `run` with the corrected eviction. */
  function RunFixed(r: Ring, b: Bucket): (n: Ring)
    requires WF(r) && LiveWritten(r) && 1 <= r.target && InGrid(b, r.dim0, r.dim1)
    ensures WF(n)
  {
    Enroll(AdmitFixed(r), b)
  }

  /** With the corrected eviction, `run` keeps each cell holding exactly the
      live events of its bucket, and keeps the cursors aligned. */
  lemma RunFixedKeepsIndex(r: Ring, b: Bucket)
    requires WF(r) && Aligned(r) && LiveWritten(r) && Consistent(r)
    requires 1 <= r.target <= r.len && InGrid(b, r.dim0, r.dim1)
    ensures Aligned(RunFixed(r, b)) && LiveWritten(RunFixed(r, b)) && Consistent(RunFixed(r, b))
    ensures RunFixed(r, b).nPoints == Min(r.nPoints + 1, r.target)
  {
    if r.target <= r.nPoints {
      RetireKeepsWindow(r);
    }
    EnrollKeepsWindow(AdmitFixed(r), b);
  }

  /** While the window warms up the corrected `run` is `run`. */
  lemma RunFixedAgreesInWarmUp(r: Ring, b: Bucket)
    requires WF(r) && LiveWritten(r) && r.nPoints < r.target && InGrid(b, r.dim0, r.dim1)
    ensures CanAdmit(r) && Run(r, b) == RunFixed(r, b)
  {
  }

  /** `run` as written breaks the index. From the constructor's state with a
      buffer of 2 (`nPointsMax_` 2), events in buckets b0, b1 and b2, where b0
      shares its cell with neither b1 nor b2: the third event evicts the
      first, but the index removed is the second event's, from the cell of
      b1, while slot 0 stays in the cell of b0 although it now holds the
      third event, of bucket b2. */
  lemma EvictionOrderCounterexample(r0: Ring, b0: Bucket, b1: Bucket, b2: Bucket)
    requires WF(r0) && r0.len == 2 && r0.target == 2
    requires r0.cur == 0 && r0.ref == 0 && r0.nPoints == 0
    requires forall i :: 0 <= i < |r0.cells| ==> r0.cells[i] == []
    requires InGrid(b0, r0.dim0, r0.dim1) && InGrid(b1, r0.dim0, r0.dim1) && InGrid(b2, r0.dim0, r0.dim1)
    requires Ij2Ind(b0, r0.dim1) != Ij2Ind(b1, r0.dim1) && Ij2Ind(b0, r0.dim1) != Ij2Ind(b2, r0.dim1)
    ensures Aligned(r0) && LiveWritten(r0) && Consistent(r0)
    ensures CanAdmit(r0) && CanAdmit(Run(r0, b0)) && CanAdmit(Run(Run(r0, b0), b1))
    ensures Consistent(Run(Run(r0, b0), b1))
    ensures !Consistent(Run(Run(Run(r0, b0), b1), b2))
  {
    AtZero(r0);
    assert Live(r0) == [];
    RunFixedAgreesInWarmUp(r0, b0);
    RunFixedKeepsIndex(r0, b0);
    RunKeepsWindow(r0, b0);
    var r1 := Run(r0, b0);
    assert r1.cur == 1 && r1.ref == 0 && r1.slots[0] == b0;
    RunFixedAgreesInWarmUp(r1, b1);
    RunFixedKeepsIndex(r1, b1);
    RunKeepsWindow(r1, b1);
    var r2 := Run(r1, b1);
    assert r2.cur == 0 && r2.ref == 0 && r2.nPoints == 2 && r2.slots[0] == b0 && r2.slots[1] == b1;
    assert At(r2, 1) in r2.written;
    var i0 := Ij2Ind(b0, r0.dim1);
    Ij2IndRange(b0, r0.dim0, r0.dim1);
    AtZero(r2);
    assert Live(r2)[0] == 0;
    ConsistentIndex(r2, i0, 0);
    assert 0 in r2.cells[i0];
    var r3 := Run(r2, b2);
    assert r3.cells[i0] == r2.cells[i0] && r3.slots[0] == b2;
    if Consistent(r3) {
      ConsistentIndex(r3, i0, 0);
      assert false;
    }
  }

  /** `setInc` with the corrected eviction count: the live events beyond
      the new target are retired, oldest first. */
  function RetireN(r: Ring, k: int): (e: Ring)
    requires WF(r) && Aligned(r) && LiveWritten(r) && Consistent(r) && 0 <= k <= r.nPoints
    ensures WF(e) && Aligned(e) && LiveWritten(e) && Consistent(e)
    ensures e.nPoints == r.nPoints - k && e.target == r.target && e.len == r.len
    decreases k
  {
    if k == 0 then r
    else
      RetireKeepsWindow(r);
      RetireN(Retire(r), k - 1)
  }

  function SetIncFixed(r: Ring, t: int): (n: Ring)
    requires WF(r) && Aligned(r) && LiveWritten(r) && Consistent(r) && 0 <= t
    ensures WF(n) && n.target == t
  {
    if t <= r.nPoints then RetireN(r, r.nPoints - t).(target := t) else r.(target := t)
  }

  /** The corrected `setInc` keeps the window aligned, written and indexed in
      every state, warm-up included, and leaves min(nPoints, t) live events. */
  lemma SetIncFixedKeepsWindow(r: Ring, t: int)
    requires WF(r) && Aligned(r) && LiveWritten(r) && Consistent(r) && 0 <= t
    ensures Aligned(SetIncFixed(r, t)) && LiveWritten(SetIncFixed(r, t)) && Consistent(SetIncFixed(r, t))
    ensures SetIncFixed(r, t).nPoints == Min(r.nPoints, t)
  {
    var e := if t <= r.nPoints then RetireN(r, r.nPoints - t) else r;
    var n := SetIncFixed(r, t);
    assert n == e.(target := t);
    assert Live(n) == Live(e);
    forall j | 0 <= j < n.nPoints
      ensures At(n, j) in n.written
    {
      assert At(n, j) == At(e, j);
    }
    assert At(n, n.nPoints) == At(e, e.nPoints);
  }

  /** After the corrected `setInc` to a target of at least 2, the eviction of
      the next `run` reads a slot that holds an event. */
  lemma SetIncFixedCanAdmit(r: Ring, t: int)
    requires WF(r) && Aligned(r) && LiveWritten(r) && Consistent(r) && 2 <= t
    ensures CanAdmit(SetIncFixed(r, t))
  {
    SetIncFixedKeepsWindow(r, t);
    CanAdmitWhenWritten(SetIncFixed(r, t));
  }
}
