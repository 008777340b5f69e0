/** The spatial index `grid_`: a vector of cells, one per bucket of the
    image grid in row-major order, each cell with storage of its own. */
module Grids {
  import opened Cells

  class Grid {
    const cells: seq<Cell>

    /** The contents of the cells, oldest first. */
    ghost var Contents: seq<seq<int>>
    ghost var Repr: set<object>

    ghost predicate Valid()
      reads this, Repr
      ensures Valid() ==> this in Repr
    {
      this in Repr && |cells| == |Contents| &&
      (forall i :: 0 <= i < |cells| ==>
         cells[i] in Repr && cells[i].Repr <= Repr && this !in cells[i].Repr &&
         cells[i].Valid() && cells[i].Contents == Contents[i]) &&
      (forall i, j :: 0 <= i < |cells| && 0 <= j < |cells| && i != j ==> cells[i].Repr !! cells[j].Repr)
    }

    /** `grid_.resize(n, Cell())`: n empty cells. */
    constructor (n: nat)
      ensures Valid() && fresh(Repr)
      ensures |cells| == n && Contents == seq(n, _ => [])
    {
      var g: seq<Cell> := [];
      ghost var gr: set<object> := {};
      while |g| < n
        invariant |g| <= n && fresh(gr)
        invariant forall i :: 0 <= i < |g| ==> g[i].Valid() && g[i].Contents == [] && g[i].Repr <= gr
        invariant forall i, j :: 0 <= i < |g| && 0 <= j < |g| && i != j ==> g[i].Repr !! g[j].Repr
      {
        var cell := new Cell();
        g := g + [cell];
        gr := gr + cell.Repr;
      }
      cells := g;
      Contents := seq(n, _ => []);
      Repr := {this} + gr;
    }

    /** `grid_[k].add(x)`: x becomes the newest index of cell k, which has
        room to double if it is full. */
    method Add(k: int, x: int)
      requires Valid() && 0 <= k < |cells| && |Contents[k]| < MAX_CAPACITY / 2
      modifies Repr
      ensures Valid() && fresh(Repr - old(Repr))
      ensures Contents == old(Contents)[k := old(Contents)[k] + [x]]
    {
      cells[k].Add(x);
      Contents := Contents[k := cells[k].Contents];
      Repr := Repr + cells[k].Repr;
      forall i | 0 <= i < |cells| && i != k
        ensures cells[i].Valid() && cells[i].Contents == Contents[i] && cells[i].Repr !! cells[k].Repr
      {
        assert cells[i].Repr !! old(cells[k].Repr);
      }
    }

    /** `grid_[k].remove()`: cell k drops its oldest index, if any. */
    method Remove(k: int)
      requires Valid() && 0 <= k < |cells|
      modifies this, cells[k]
      ensures Valid() && Repr == old(Repr)
      ensures Contents == old(Contents)[k := if old(Contents)[k] == [] then [] else old(Contents)[k][1..]]
    {
      var _ := cells[k].Remove();
      Contents := Contents[k := cells[k].Contents];
    }
  }
}
