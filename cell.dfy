/** The bucket of the spatial index: a growable circular FIFO of event-slot
    indices (`Cell`). Its capacity is a power of two so that positions wrap
    with the mask form of the modulo; a full cell doubles its storage and
    moves the wrapped prefix behind the old end, which keeps FIFO order. */
module Cells {
  import opened Utilities

  /** The largest power of two a 32-bit `int` holds. */
  const MAX_CAPACITY: int := 0x4000_0000

  class Cell {
    var n: int           // number of stored indices
    var nMax: int        // capacity, a power of two
    var nMaxMinus1: int  // capacity mask
    var first: int       // storage position of the oldest index
    var last: int        // storage position the next index goes to
    var ind: array<int>  // storage

    /** The stored indices, oldest first. */
    ghost var Contents: seq<int>
    ghost var Repr: set<object>

    ghost predicate Valid()
      reads this, Repr
      ensures Valid() ==> this in Repr
    {
      this in Repr && ind in Repr && Repr == {this, ind} &&
      2 <= nMax <= MAX_CAPACITY && IsPow2(nMax) && nMaxMinus1 == nMax - 1 &&
      ind.Length == nMax &&
      0 <= n <= nMax && 0 <= first < nMax && last == Slot(first, n, nMax) &&
      |Contents| == n &&
      forall k :: 0 <= k < n ==> Contents[k] == ind[Slot(first, k, nMax)]
    }

    /** The constructor asserts that the capacity is a power of two of at
        least 2, with the test `0 < nMax - 1 && (nMax & (nMax - 1)) == 0`. */
    constructor (capacity: int := 2)
      requires 0 < capacity - 1 && BitAnd(capacity, capacity - 1) == 0
      requires capacity <= MAX_CAPACITY
      ensures Valid() && fresh(Repr)
      ensures Contents == [] && nMax == capacity
      ensures first == 0 && last == 0
    {
      PowerOfTwoTest(capacity);
      n := 0;
      nMax := capacity;
      nMaxMinus1 := capacity - 1;
      first := 0;
      last := 0;
      ind := new int[capacity];
      Contents := [];
      Repr := {this, ind};
    }

    /** `n()`: the number of stored indices. */
    function Size(): (r: int)
      reads this, Repr
      requires Valid()
      ensures r == |Contents|
    {
      n
    }

    /** `ind(k)`: the k-th oldest index, read at storage position
        `(first + k) mod capacity` through the mask. */
    method Ind(k: int) returns (x: int)
      requires Valid()
      requires 0 <= k && IsInt32(first + k)
      ensures x == ind[(first + k) % nMax]
      ensures k < n ==> x == Contents[k]
    {
      MaskIsPow2Minus1(nMaxMinus1);
      x := ind[FastAddCyclic(first, k, nMaxMinus1)];
      if k < n {
        SlotIsMod(first, k, nMax);
      }
    }

    /** `add(ind)`: append x as the newest index, doubling the storage first
        when the cell is full. Doubling overflows the source's `int` past
        MAX_CAPACITY, so a full cell must have room to double. */
    method Add(x: int)
      requires Valid()
      requires n < nMax || nMax <= MAX_CAPACITY / 2
      modifies Repr
      ensures Valid() && fresh(Repr - old(Repr))
      ensures Contents == old(Contents) + [x]
      ensures nMax == if old(n) < old(nMax) then old(nMax) else 2 * old(nMax)
      ensures old(n) < old(nMax) ==> first == old(first)
    {
      if n >= nMax {
        Grow();
      }
      ind[last] := x;
      n := n + 1;
      MaskIsPow2Minus1(nMaxMinus1);
      last := FastIncrementCyclic(last, nMaxMinus1);
      Contents := Contents + [x];
    }

    /** The first half of a full `add`: double the capacity (the storage
        keeps its old slots, the new half reads 0) and, when the contents
        wrap, copy the prefix [0, last) to [n, n + last). */
    method Grow()
      requires Valid() && n == nMax && nMax <= MAX_CAPACITY / 2
      modifies this
      ensures Valid() && fresh(ind) && Repr == {this, ind}
      ensures Contents == old(Contents) && n == old(n) && first == old(first)
      ensures nMax == 2 * old(nMax) && last == first + n
    {
      var grown := new int[2 * nMax];
      forall i | 0 <= i < grown.Length {
        grown[i] := if i < nMax then ind[i] else 0;
      }
      if 0 < first {
        forall i | 0 <= i < last {
          grown[n + i] := ind[i];
        }
      }
      ind := grown;
      Repr := {this, ind};
      nMax := 2 * nMax;
      nMaxMinus1 := nMax - 1;
      last := last + n;
    }

    /** `remove()`: drop the oldest index if there is one; answer the number
        of indices left. */
    method Remove() returns (remaining: int)
      requires Valid()
      modifies this
      ensures Valid() && Repr == old(Repr) && ind == old(ind) && nMax == old(nMax)
      ensures Contents == if old(n) == 0 then old(Contents) else old(Contents)[1..]
      ensures remaining == |Contents|
    {
      if 0 < n {
        MaskIsPow2Minus1(nMaxMinus1);
        first := FastIncrementCyclic(first, nMaxMinus1);
        n := n - 1;
        Contents := Contents[1..];
      }
      remaining := n;
    }
  }

  /** The positions of a valid cell are the source's masked sums: the next
      free position is `(first + n) mod nMax` and the k-th oldest index sits at
      `(first + k) mod nMax`. */
  lemma ValidPositions(c: Cell)
    requires c.Valid()
    ensures c.last == (c.first + c.n) % c.nMax
    ensures forall k :: 0 <= k < c.n ==> c.Contents[k] == c.ind[(c.first + k) % c.nMax]
  {
    SlotIsMod(c.first, c.n, c.nMax);
    forall k | 0 <= k < c.n
      ensures c.Contents[k] == c.ind[(c.first + k) % c.nMax]
    {
      SlotIsMod(c.first, k, c.nMax);
    }
  }

  /** Storage position of the k-th oldest index of a cell whose oldest index
      sits at `first`, for a capacity m: `(first + k) mod m` while k <= m. */
  function Slot(first: int, k: int, m: int): int {
    if first + k < m then first + k else first + k - m
  }

  lemma SlotIsMod(first: int, k: int, m: int)
    requires 0 <= first < m && 0 <= k <= m
    ensures Slot(first, k, m) == (first + k) % m
  {
    if first + k < m {
      DivModUnique(first + k, m, 0, first + k);
    } else {
      DivModUnique(first + k, m, 1, first + k - m);
    }
  }
}
