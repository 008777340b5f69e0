# EventEMin incremental dispersion estimator in Dafny

This project models the bookkeeping of EventEMin's incremental (streaming) motion estimator, `incremental::Dispersion`, and proves properties of it.

For each event, `run(c, ts)` works on a few in-place structures:
- a ring buffer of the latest events: their points `c_`, times `ts_` and grid buckets `ij_`;
- three cursors into it: `curInd_`, `prevInd_` and `refInd_`;
- a live count `nPoints_`, compared against a target `nPointsCur_`;
- a dense row-major grid of `Cell`s, each a growable circular FIFO of buffer slots;
- a running estimate, `VarsEstimate`, whose sums decay exponentially.

`run` proceeds in order:
1. It gathers the slots held by the cells in a clamped window around the event's bucket.
2. It either counts the event in (warm-up) or evicts the oldest one.
3. It takes the time offsets, decays the running sums and refines the estimate in a bounded loop.
4. It indexes and records the event and moves the write cursor on.

`setInc(inc)` changes the target, and evicts events when the live count reaches the new target.

The model is split by module:
- `Utilities` (utilities.dfy): the cyclic index helpers.
  - The mask form `(x + a) & n` is computed on the 32-bit two's-complement bit pattern, through a recursive bitwise AND.
  - The true-modulo form uses the C++ truncating `%`.
  - `nextPower2` keeps its loop.
- `Cells` (cell.dfy): the class `Cell`.
  - Its fields are updated in place, over an `array<int>`, with a ghost `Contents` giving the FIFO order.
- `Grids` (grid.dfy): the vector of cells `grid_`, as a class of cells with disjoint storage.
- `Estimate` (vars_estimate.dfy): `DispersionParams` and the class `VarsEstimate`.
  - Vectors and matrices are over `real`.
- `Refinement` (refinement.dfy): the numerical side of one `run`.
  - This covers the decay factor, one `iterate` step, the refinement loop and the update of `nDecay_`.
  - The kernels are parameters: the exponential, the dispersion energy, the LDLT solve and the norm.
- `Window` (window.dfy): the value-level account of the ring, cursors, recorded buckets and cell contents.
  - It has `Run` and `SetInc` exactly as the code performs them.
  - It also has corrected versions `RunFixed` and `SetIncFixed`, for which the grid is proved to index exactly the live events.
- `Incremental` (dispersion.dfy): the class `Dispersion`.
  - It has the buffers as arrays, the grid as a `Grid` and the estimate as a `VarsEstimate`.
  - Every method is proved against the `Window` and `Refinement` functions.
  - It follows the code as written, eviction order included.

The code and its design description disagree on two points, and the model follows the code:
- The design promises that a live slot sits in exactly one cell and an evicted one in none. The code's eviction order breaks this; see Findings.
- The design says that shrinking the window evicts the surplus of live events over the new target. The code evicts the old target minus the new one, which differs during warm-up; see Findings.

## Model

| member | source | states |
|---|---|---|
| Utilities.NextPower2 | include/EventEMin/utilities.h:71-79 | the result is a power of two of at least n, and its half is below n; it is 1 for every n <= 1 because the loop never runs |
| Utilities.PowerOfTwoTest | include/EventEMin/dispersion/incremental_dispersion.h:44 | `(m & (m - 1)) == 0` holds for m >= 1 exactly when m is a power of two |
| Utilities.MaskIsPow2Minus1 | include/EventEMin/utilities.h:54 | the assertion of the fast helpers, `0 < n && ((n + 1) & n) == 0`, holds exactly when n + 1 is a power of two |
| Utilities.MaskIsMod | include/EventEMin/utilities.h:55 | masking with m - 1 is reduction modulo m when m is a power of two |
| Utilities.FastAddCyclic | include/EventEMin/utilities.h:51-56 | under the assertion, `(x + a) & n` lies in [0, n] and equals (x + a) mod (n + 1), also for negative x + a such as a = -1 at x = 0 |
| Utilities.FastIncrementCyclic | include/EventEMin/utilities.h:64-69 | on a ring of n + 1 slots the step goes to x + 1 and wraps n to 0 |
| Utilities.FastDecrementCyclic | include/EventEMin/utilities.h:57-62 | on a ring of n + 1 slots the step goes to x - 1 and wraps 0 to n |
| Utilities.FastCyclicInverse | include/EventEMin/utilities.h:57-69 | on [0, n] the fast increment and decrement undo each other |
| Utilities.TruncRem | include/EventEMin/utilities.h:34 | C++ `%` truncates: the remainder is smaller than the divisor in magnitude, has the dividend's sign and differs from it by a multiple of the divisor |
| Utilities.AddCyclic | include/EventEMin/utilities.h:31-35 | `(x + a + n) % n` is the residue of x + a in [0, n) when x + a + n >= 0, and is not positive otherwise |
| Utilities.IncrementCyclic | include/EventEMin/utilities.h:43-47 | on [0, n) the step goes to x + 1 and wraps n - 1 to 0 |
| Utilities.DecrementCyclic | include/EventEMin/utilities.h:37-41 | on [0, n) the step goes to x - 1 and wraps 0 to n - 1 |
| Utilities.CyclicInverse | include/EventEMin/utilities.h:30-47 | on [0, n) the true-modulo increment and decrement undo each other |
| Cells.Cell.constructor | include/EventEMin/dispersion/incremental_dispersion.h:36-45 | under the power-of-two assertion the cell starts empty with capacity nMax and first = last = 0 |
| Cells.Cell.Size | include/EventEMin/dispersion/incremental_dispersion.h:47-51 | `n()` is the number of stored indices |
| Cells.Cell.Ind | include/EventEMin/dispersion/incremental_dispersion.h:52-56 | `ind(k)` reads storage position (first + k) mod capacity, which for k < n is the k-th oldest index |
| Cells.ValidPositions | include/EventEMin/dispersion/incremental_dispersion.h:73-75 | in a valid cell last = (first + n) mod nMax and the k-th oldest index sits at (first + k) mod nMax |
| Cells.Cell.Add | include/EventEMin/dispersion/incremental_dispersion.h:58-76 | x is appended to the FIFO contents, capacity doubles exactly when the cell was full, and the cell stays valid with a power-of-two capacity |
| Cells.Cell.Grow | include/EventEMin/dispersion/incremental_dispersion.h:61-71 | doubling a full cell and copying the wrapped prefix behind the old end keeps the contents in FIFO order, with last = first + n |
| Cells.Cell.Remove | include/EventEMin/dispersion/incremental_dispersion.h:78-87 | an empty cell is unchanged; otherwise the oldest index is dropped; the answer is the number left |
| Grids.Grid.constructor | include/EventEMin/dispersion/incremental_dispersion/dispersion.h:98 | the grid has n empty cells with disjoint storage |
| Grids.Grid.Add | include/EventEMin/dispersion/incremental_dispersion/dispersion.h:184 | `grid_[k].add(x)` appends x to cell k and leaves every other cell as it was |
| Grids.Grid.Remove | include/EventEMin/dispersion/incremental_dispersion/dispersion.h:159 | `grid_[k].remove()` drops the oldest index of cell k, if any, and leaves every other cell as it was |
| Estimate.DefaultParamsValues | include/EventEMin/dispersion/incremental_dispersion.h:20-24 | the default parameters are minStep 1e-6, maxIter 10 and wSize 4 |
| Estimate.DefaultParams | include/EventEMin/dispersion/incremental_dispersion.h:20-24 | `DispersionParams` takes minStep, maxIter and wSize, each defaulted, and stores them unchanged |
| Estimate.VarsEstimate.constructor | include/EventEMin/dispersion/incremental_dispersion.h:197-203 | valCum, vNumCum, vDenCum and vars start at zero |
| Estimate.VarsEstimate.Decay | include/EventEMin/dispersion/incremental_dispersion.h:205-211 | exactly the three running sums are scaled by dec; the current terms and vars are untouched |
| Estimate.VarsEstimate.Update | include/EventEMin/dispersion/incremental_dispersion.h:213-219 | val, vNum and vDen are added into the running sums; nothing else changes |
| Estimate.DecayedCompose | include/EventEMin/dispersion/incremental_dispersion.h:205-211 | two decays in a row equal one decay by the product of the factors |
| Refinement.DecayFactor | include/EventEMin/dispersion/incremental_dispersion/dispersion.h:127-133 | `decay`'s factor is computeExp(-nDecay_ * (ts - ts_[prevInd_])) |
| Refinement.DecayFactorInUnit | include/EventEMin/dispersion/incremental_dispersion/dispersion.h:127-133 | with nDecay_ >= 0 and events in time order the factor lies in (0, 1] |
| Refinement.NextCountBound | include/EventEMin/dispersion/incremental_dispersion/dispersion.h:169-181 | one run takes a count in [0, k] into [1, k + 1] |
| Refinement.DecayCountBound | include/EventEMin/dispersion/incremental_dispersion/dispersion.h:169-181 | after any number of runs with factors in (0, 1], nDecay_ lies between 0 and the number of runs, and is at least 1 after the first |
| Refinement.Step | include/EventEMin/dispersion/incremental_dispersion/dispersion.h:215-265 | one `iterate`: with positive energy, vNum scaled by nProp, vars moved onto the solution of the accumulated system and the step length is the norm of the move; otherwise 0; the terms and vars keep the dimension of the model |
| Refinement.StepOutcome | include/EventEMin/dispersion/incremental_dispersion/dispersion.h:215-265 | a step with positive energy scales vNum by nProp, moves vars onto the solution of the accumulated system and returns the norm of the move; otherwise vars stay and the step returns 0; the step length is never negative |
| Refinement.Refine | include/EventEMin/dispersion/incremental_dispersion/dispersion.h:173-178 | the refinement loop: steps while the counter is below maxIter and the last step length is at least minStep; vars keep their dimension |
| Refinement.RefineBounds | include/EventEMin/dispersion/incremental_dispersion/dispersion.h:173-178 | the loop counter ends at most at maxIter; a loop that stopped early ended on a step below minStep; a loop that never ran changed nothing |
| Refinement.RefineFromStart | include/EventEMin/dispersion/incremental_dispersion/dispersion.h:173-178 | started with d = minStep, the loop runs between 1 and maxIter times when maxIter >= 1, and not at all otherwise |
| Refinement.RefineStopsWithoutEnergy | include/EventEMin/dispersion/incremental_dispersion/dispersion.h:239-264 | a step whose energy is not positive ends the loop with d = 0 and vars unchanged |
| Refinement.Advance | include/EventEMin/dispersion/incremental_dispersion/dispersion.h:169-181 | decay by dec, refinement from d = minStep and counter 0, then the running sums gain the final terms; the estimate keeps its dimensions |
| Window.Ij2Ind | include/EventEMin/dispersion/incremental_dispersion/dispersion.h:268-272 | a bucket's cell is row-major: x * dim1 + y |
| Window.Ij2IndRange | include/EventEMin/dispersion/incremental_dispersion/dispersion.h:268-272 | the row-major index of a bucket on the grid lies in [0, dim0 * dim1) |
| Window.Ij2IndInjective | include/EventEMin/dispersion/incremental_dispersion/dispersion.h:268-272 | different buckets of the grid have different indices |
| Window.Boundary | include/EventEMin/dispersion/incremental_dispersion/dispersion.h:293-302 | the box around a bucket extends wSize on each axis, clamped to [0, dim - 1] |
| Window.BoundaryIsClampedWindow | include/EventEMin/dispersion/incremental_dispersion/dispersion.h:293-302 | the clamped box holds exactly the grid buckets within wSize of the event on both axes, and holds the event's own bucket |
| Window.RowsMembers | include/EventEMin/dispersion/incremental_dispersion/dispersion.h:273-291 | an index is gathered exactly when it is in the cell of some bucket of the box |
| Window.GatheredSlots | include/EventEMin/dispersion/incremental_dispersion/dispersion.h:273-291 | every gathered index is a slot of the buffer |
| Window.WarmUpProportion | include/EventEMin/dispersion/incremental_dispersion/dispersion.h:148-156 | nProp is (nPoints_ + 1) / nPointsCur_ during warm-up and 1 afterwards, always in (0, 1] |
| Window.Evict | include/EventEMin/dispersion/incremental_dispersion/dispersion.h:157-159 | one eviction as written: refInd_ advances cyclically, then the cell of the bucket recorded in the new refInd_ slot drops its oldest index |
| Window.Admit | include/EventEMin/dispersion/incremental_dispersion/dispersion.h:148-160 | below the target the live count rises by one; otherwise one eviction as written |
| Window.Insert | include/EventEMin/dispersion/incremental_dispersion/dispersion.h:183-191 | the bucket's cell gains curInd_ as its newest index, the slot records the bucket and is written, prevInd_ becomes curInd_ and curInd_ advances cyclically |
| Window.Run | include/EventEMin/dispersion/incremental_dispersion/dispersion.h:135-195 | the bookkeeping of one `run`: the circular shift, then the insertion of the event |
| Window.AdmitShrinks | include/EventEMin/dispersion/incremental_dispersion/dispersion.h:148-160 | the circular shift never grows a cell |
| Window.EvictN | include/EventEMin/dispersion/incremental_dispersion/dispersion.h:204-209 | k evictions move refInd_ on by k slots and change nothing but refInd_ and the cells |
| Window.RunKeepsWindow | include/EventEMin/dispersion/incremental_dispersion/dispersion.h:135-195 | run raises the live count to min(nPoints_ + 1, target), keeps the write cursor right after the live events and every live slot written, records the bucket and sets prevInd_ to the old cursor |
| Window.RunWarmUp | include/EventEMin/dispersion/incremental_dispersion/dispersion.h:149-153 | during warm-up run counts one more live event, keeps refInd_ and advances curInd_ cyclically |
| Window.CanAdmitWhenWritten | include/EventEMin/dispersion/incremental_dispersion/dispersion.h:154-160 | with a target of at least 2 the slot an eviction reads holds an event |
| Window.RunAllFills | include/EventEMin/dispersion/incremental_dispersion/dispersion.h:135-195 | after N events from a steady state the live count is min(nPoints_ + N, target) |
| Window.EvictNCount | include/EventEMin/dispersion/incremental_dispersion/dispersion.h:201-209 | the eviction loop neither reads nor changes the live count, so setting nPoints_ before or after it is the same |
| Window.SetInc | include/EventEMin/dispersion/incremental_dispersion/dispersion.h:197-212 | the target becomes t; when nPoints_ >= t, old target - t evictions as written and the live count becomes t |
| Window.SetIncEvicts | include/EventEMin/dispersion/incremental_dispersion/dispersion.h:197-212 | when nPoints_ reaches the new target t, refInd_ moves on by old target - t, the count becomes t and cursor, buckets and written slots stay |
| Window.SetIncKeepsWindowWhenFull | include/EventEMin/dispersion/incremental_dispersion/dispersion.h:197-212 | on a full window, or when the new target is above the live count, setInc keeps the cursor right after the live events and leaves min(nPoints_, t) of them |
| Window.SetIncWarmUpMisaligns | include/EventEMin/dispersion/incremental_dispersion/dispersion.h:201-209 | during warm-up, setInc to t <= nPoints_ leaves the write cursor off the end of the live events unless the shortfall is a multiple of the buffer length |
| Window.SetIncWarmUpCounterexample | include/EventEMin/dispersion/incremental_dispersion/dispersion.h:197-212 | a concrete trace (buffer 4; four events; setInc(2), setInc(1), setInc(2)) on which setInc breaks the cursor alignment |
| Window.SetIncUnwrittenEviction | include/EventEMin/dispersion/incremental_dispersion/dispersion.h:197-212 | a concrete trace (buffer 8; five events; setInc(2)) after which the next eviction would read slot 5, which holds no event |
| Window.SetIncStarves | include/EventEMin/dispersion/incremental_dispersion/dispersion.h:201-209 | five live events in slots 0 to 4 of a buffer of 8: setInc to 4 leaves four live events with the next eviction on slot 5, never written |
| Window.EvictionOrderCounterexample | include/EventEMin/dispersion/incremental_dispersion/dispersion.h:154-160 | a concrete trace (buffer 2; three events) after which a cell indexes a slot whose event lies in another bucket |
| Window.ConsistentIndex | include/EventEMin/dispersion/incremental_dispersion/dispersion.h:183-184 | in a consistent grid, a slot is in cell i exactly when it is live and its recorded bucket has index i |
| Window.Retire | include/EventEMin/dispersion/incremental_dispersion/dispersion.h:157-159 | the corrected eviction: the cell of the bucket recorded in the refInd_ slot drops its oldest index, then refInd_ advances and the live count falls by one |
| Window.RetireKeepsWindow | include/EventEMin/dispersion/incremental_dispersion/dispersion.h:157-159 | the corrected eviction (remove from the cell of the reference slot, then advance) keeps cursors aligned, live slots written and the grid consistent |
| Window.EnrollKeepsWindow | include/EventEMin/dispersion/incremental_dispersion/dispersion.h:183-191 | indexing the event at the write cursor keeps the grid an exact index of the live events |
| Window.RunFixed | include/EventEMin/dispersion/incremental_dispersion/dispersion.h:148-191 | the corrected run: below the target the live count rises by one, otherwise one corrected eviction; then the event is inserted |
| Window.RunFixedKeepsIndex | include/EventEMin/dispersion/incremental_dispersion/dispersion.h:148-191 | the corrected run keeps each cell holding exactly the live slots of its bucket, oldest first, and the live count at min(nPoints_ + 1, target) |
| Window.RunFixedAgreesInWarmUp | include/EventEMin/dispersion/incremental_dispersion/dispersion.h:149-153 | during warm-up the corrected run and the run as written coincide |
| Window.SetIncFixed | include/EventEMin/dispersion/incremental_dispersion/dispersion.h:197-212 | the corrected setInc: the target becomes t and nPoints_ - t corrected evictions happen when nPoints_ >= t |
| Window.SetIncFixedKeepsWindow | include/EventEMin/dispersion/incremental_dispersion/dispersion.h:197-212 | the corrected setInc, evicting nPoints_ - t events, keeps the window aligned and the grid consistent in every state and leaves min(nPoints_, t) live events |
| Window.SetIncFixedCanAdmit | include/EventEMin/dispersion/incremental_dispersion/dispersion.h:197-212 | after the corrected setInc to a target of at least 2, the next eviction reads a slot that holds an event |
| Incremental.NewTarget | include/EventEMin/dispersion/incremental_dispersion/dispersion.h:200 | the new target is the floor of nPointsMax_ / inc and is not negative |
| Incremental.Dispersion.constructor | include/EventEMin/dispersion/incremental_dispersion/dispersion.h:70-99 | the buffer has nextPower2(nPoints) slots with mask nBuffer_; the mask passes the cyclic assertion exactly when nPoints >= 2; the grid has dim0 * dim1 empty cells; cursors and counters are 0 and the estimate is zero |
| Incremental.Dispersion.NewStorage | include/EventEMin/dispersion/incremental_dispersion/dispersion.h:84-98 | three fresh buffers of the given length, a grid of empty cells and a zero estimate, none of them shared |
| Incremental.Dispersion.Gather | include/EventEMin/dispersion/incremental_dispersion/dispersion.h:273-291 | the gathered slots are the contents of every cell of the box, row by row, oldest first within a cell |
| Incremental.Dispersion.GatherRow | include/EventEMin/dispersion/incremental_dispersion/dispersion.h:282-289 | one row of the gather is the concatenation of that row's cells from y0 to y1 |
| Incremental.Dispersion.CellIndices | include/EventEMin/dispersion/incremental_dispersion/dispersion.h:285-288 | reading `ind(i)` for i below `n()` yields the cell's contents in FIFO order |
| Incremental.Dispersion.Neighbours | include/EventEMin/dispersion/incremental_dispersion/dispersion.h:143-145 | inds_ holds the gathered slots of the clamped window around the bucket, each a slot of the buffer |
| Incremental.Dispersion.TimeOffsets | include/EventEMin/dispersion/incremental_dispersion/dispersion.h:162-166 | entry i of tsDiffRef_ is the time of gathered slot i minus the time at refInd_ |
| Incremental.Dispersion.Prepare | include/EventEMin/dispersion/incremental_dispersion/dispersion.h:162-167 | the refinement works on the event, its time after the reference event and the gathered points with their offsets |
| Incremental.Dispersion.Shift | include/EventEMin/dispersion/incremental_dispersion/dispersion.h:148-160 | during warm-up the live count rises by one and nProp is the share filled; otherwise nProp is 1 and one eviction as written happens |
| Incremental.Dispersion.EvictOne | include/EventEMin/dispersion/incremental_dispersion/dispersion.h:157-159 | refInd_ advances cyclically, then the cell of the bucket recorded for the new refInd_ loses its oldest index |
| Incremental.Dispersion.Decay | include/EventEMin/dispersion/incremental_dispersion/dispersion.h:127-133 | the running sums and nDecay_ are scaled by computeExp(-nDecay_ * (ts - ts_[prevInd_])) |
| Incremental.Dispersion.Iterate | include/EventEMin/dispersion/incremental_dispersion/dispersion.h:215-265 | one step rewrites val, vNum, vDen and vars as `Step` says and leaves the running sums alone |
| Incremental.Dispersion.Converge | include/EventEMin/dispersion/incremental_dispersion/dispersion.h:173-178 | the loop ends in the state `Refine` describes, with its final counter and step length |
| Incremental.Dispersion.Learn | include/EventEMin/dispersion/incremental_dispersion/dispersion.h:173-180 | after the decay, refinement, `iter_` and update together give the state `Advance` describes |
| Incremental.Dispersion.Refresh | include/EventEMin/dispersion/incremental_dispersion/dispersion.h:169-181 | decay, refinement and update give `Advance`'s state, and nDecay_ becomes nDecay_ * dec + 1 |
| Incremental.Dispersion.AddToCell | include/EventEMin/dispersion/incremental_dispersion/dispersion.h:184 | the cell k gains x as its newest index; the other cells are unchanged |
| Incremental.Dispersion.StorePoint | include/EventEMin/dispersion/incremental_dispersion/dispersion.h:185-186 | only slot curInd_ of c_ and ts_ is written |
| Incremental.Dispersion.MarkSlot | include/EventEMin/dispersion/incremental_dispersion/dispersion.h:187 | only slot curInd_ of ij_ is written, and it now holds an event |
| Incremental.Dispersion.WriteSlot | include/EventEMin/dispersion/incremental_dispersion/dispersion.h:185-187 | the event's point, time and bucket go into slot curInd_ and nowhere else |
| Incremental.Dispersion.StepCursor | include/EventEMin/dispersion/incremental_dispersion/dispersion.h:190-191 | prevInd_ becomes the old curInd_ and curInd_ advances cyclically |
| Incremental.Dispersion.Record | include/EventEMin/dispersion/incremental_dispersion/dispersion.h:185-191 | the event is recorded in slot curInd_ and the cursors move on; nothing else changes |
| Incremental.Dispersion.Insert | include/EventEMin/dispersion/incremental_dispersion/dispersion.h:183-191 | the bucket's cell gains curInd_ as newest index, only slot curInd_ is written and the cursors move on, as `Window.Insert` says |
| Incremental.Dispersion.Front | include/EventEMin/dispersion/incremental_dispersion/dispersion.h:143-167 | gather, circular shift and time offsets, with points, times, cursors, nDecay_ and the estimate unchanged |
| Incremental.Dispersion.Back | include/EventEMin/dispersion/incremental_dispersion/dispersion.h:169-191 | the estimate follows `Advance` and the event is inserted |
| Incremental.Dispersion.Run | include/EventEMin/dispersion/incremental_dispersion/dispersion.h:135-195 | the ring moves as `Window.Run`; inds_ is the gather over the cells before the shift; tsDiffRef_ are offsets to the new reference slot; the estimate, iter_ and nDecay_ follow `Advance` and `NextCount` |
| Incremental.Dispersion.EvictMany | include/EventEMin/dispersion/incremental_dispersion/dispersion.h:204-209 | the loop performs k evictions as written, as `Window.EvictN` says |
| Incremental.Dispersion.Shrink | include/EventEMin/dispersion/incremental_dispersion/dispersion.h:201-210 | the live count and target drop to t after old target - t evictions |
| Incremental.Dispersion.SetInc | include/EventEMin/dispersion/incremental_dispersion/dispersion.h:197-212 | the target becomes floor(nPointsMax_ / inc); when the live events reach it, the ring moves as `Window.SetInc` says |

## Left out

- Whitening and its statistics (`Stats`, `Whitening::processEvent`, `updateStats`): these are an SVD and floating-point covariance. `run` ends with `updateStats`, which the model leaves out; the whitened points enter only through the energy parameter.
- Projection and rounding of the event to a bucket: floating point. The bucket is an input, and it must lie on the grid, because `grid_[ind]` is not bounds-checked.
- The body of `iterate`: the motion model's warps, the energy policies, the LDLT solve and the norm are parameters (`Refinement.Numerics`).
  - `Refinement.Admissible` is all that is assumed of them: exp of a non-positive number lies in (0, 1], dimensions are kept, and norms are not negative.
- `computeExp`'s bit-punning fast path: floating point. The exponential is a parameter.
- Floating point in general: times, points and estimates are `real`, with no rounding.
- The accessors `minStep()`, `maxIter()`, `wSize()`, `iter()` and `vars()`, and the fields `camParams_`, `scale_`, `cMin_` and `cMax_`: the model reads the fields directly. `cMin_` and `cMax_` are 0 and dim - 1 in `Window.Boundary`.
- Cells.Cell.Add: a full cell must have room to double, because `nMax_ <<= 1` overflows a 32-bit `int` past 2^30. Insert and Run require the event's cell to be below half that bound for the same reason.
- Utilities.FastAddCyclic and the other cyclic helpers: their operands must be 32-bit values, because the mask is applied to the 32-bit pattern. The source's assertion on the mask is a precondition.
- Incremental.Dispersion.Run: requires the slot it evicts to have been written (`Window.CanAdmit`), because the source leaves unwritten `ij_` entries uninitialised. `Window.CanAdmitWhenWritten` shows this holds in every state that `run` alone reaches from a steady state (`Window.RunAll`) with a target of at least 2. After `setInc` during warm-up it can fail: `Window.SetIncUnwrittenEviction` gives a trace on which the next `run` would read an unwritten slot (see Findings).
- Utilities.NextPower2: requires INT_MIN < n0 <= 2^30. Above 2^30 the source shifts to `1 << 31`, which is INT_MIN, and the constructor would size its buffers negatively; at n0 = INT_MIN the `--n` overflows.
- Incremental.Dispersion.constructor: requires 0 <= nPoints <= 2^30. The source accepts a negative nPoints, giving mask 0 and a negative target, which the model's window invariant 0 <= nPoints_ <= target excludes. Above 2^30 the buffer size overflows as under `Utilities.NextPower2`.
- Incremental.Dispersion.Run: requires the cyclic mask to be valid (`nPointsMax_ >= 2`), which is the assertion inside `fastIncrementCyclic`.
- Incremental.Dispersion.SetInc: requires inc > 0, and requires the slots its loop evicts to have been written. The source's conversion of a non-positive or infinite quotient to `int` is not defined.
- Incremental.Dispersion.Shrink: evicts first and then sets the live count, where the source sets `nPoints_` before its loop. `Window.EvictNCount` proves the two orders give the same state.
- Incremental.Dispersion.Converge: counts in a local variable and stores it in `iter_` afterwards, where the source's `for` loop writes `iter_` directly; the final value is the same.
- Estimate.VarsEstimate.constructor: leaves `val`, `vNum` and `vDen` arbitrary, as the source leaves them uninitialised until the first step writes them.
- Refinement.DecayFactorInUnit: needs events in non-decreasing time order and nDecay_ >= 0. The class does not require time order of its callers, so the bound is stated on the value sequence (`Refinement.DecayCountBound`) rather than as a class invariant.

## Findings

| source | as written | input that shows it | evidently intended | confidence | as-written member | corrected member |
|---|---|---|---|---|---|---|
| include/EventEMin/dispersion/incremental_dispersion/dispersion.h:157-159 | on eviction `refInd_` is advanced first, and only then is the cell of `ij_[refInd_]` made to drop its oldest index: the cell of the event after the evicted one | `nPointsMax_` 2, with events in buckets b0, b1 and b2, where b0's cell is neither b1's nor b2's. The third event evicts slot 0, but the index removed is slot 1 from b1's cell. Slot 0, which now holds the b2 event, stays indexed in b0's cell | drop the evicted event's own index from its own cell, then advance, so that each live slot is in exactly the cell of its bucket and evicted slots are in none | high; not executed | Window.EvictionOrderCounterexample | Window.RunFixedKeepsIndex |
| include/EventEMin/dispersion/incremental_dispersion/dispersion.h:201-209 | when `nPoints_ >= t` the loop evicts `nPointsCur_ - t` events while keeping t live, also when `nPoints_` is below the old target | `nPointsMax_` 4: four events, then `setInc(2)`, `setInc(1)` and `setInc(2)`. The last call evicts two events although just two are live and none is beyond the new target, and it keeps the count at two, which puts `refInd_` on `curInd_` | evict the `nPoints_ - t` oldest live events, so that the write cursor stays right after the live events | high; not executed | Window.SetIncWarmUpCounterexample | Window.SetIncFixedKeepsWindow |
| include/EventEMin/dispersion/incremental_dispersion/dispersion.h:201-209 | the same count, `nPointsCur_ - t`, applied during warm-up can move `refInd_` so that the next eviction reads a slot not yet written | `nPointsMax_` 8: five events fill slots 0 to 4, then `setInc(2)` evicts four of them and leaves `refInd_` on slot 4; the next `run` evicts slot 5, whose `ij_` entry was never written | evict only live events, so that every slot the next eviction reads holds an event | high; not executed | Window.SetIncUnwrittenEviction | Window.SetIncFixedCanAdmit |

The class `Incremental.Dispersion` models the program as written, so it performs both evictions as the code does. The corrected bookkeeping lives in `Window` (`RunFixed`, `SetIncFixed`), where both invariants are proved.
