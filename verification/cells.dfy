/** A single Game of Life cell: a fixed position and a two-valued status.
    Mirrors the `Cell` class of run.rb. */
module Cells {

  datatype Status = Alive | Dead

  /** A cell records its own row `y` and column `x`; only `status` ever changes. */
  datatype Cell = Cell(y: int, x: int, status: Status) {

    predicate IsAlive() {
      status == Alive
    }

    predicate IsDead() {
      status == Dead
    }

    /** `die!`: unconditionally dead, position untouched. */
    function Die(): (r: Cell)
      ensures r.IsDead() && !r.IsAlive()
      ensures r.y == y && r.x == x
    {
      this.(status := Dead)
    }

    /** `born!`: unconditionally alive, position untouched. */
    function Born(): (r: Cell)
      ensures r.IsAlive() && !r.IsDead()
      ensures r.y == y && r.x == x
    {
      this.(status := Alive)
    }
  }

  /** Both transitions touch only `status`; applying either twice is applying
      it once, and the last one wins. */
  lemma TransitionsIdempotent(c: Cell)
    ensures c.Die().Die() == c.Die()
    ensures c.Born().Born() == c.Born()
    ensures c.Born().Die() == c.Die() && c.Die().Born() == c.Born()
  {
  }

  /** (a, b) is one of the eight Moore neighbours of (y, x). */
  predicate Adjacent(y: int, x: int, a: int, b: int) {
    (a, b) != (y, x) && y - 1 <= a <= y + 1 && x - 1 <= b <= x + 1
  }

  /** `cells_around`: the eight neighbour coordinates, in the source's order. */
  function Around(y: int, x: int): (r: seq<(int, int)>)
    ensures |r| == 8
  {
    [ (y - 1, x - 1), (y - 1, x), (y - 1, x + 1),
      (y, x - 1),                 (y, x + 1),
      (y + 1, x - 1), (y + 1, x), (y + 1, x + 1) ]
  }

  /** `cells_around` is exactly the Moore neighbourhood, each neighbour once. */
  lemma AroundIsNeighbourhood(y: int, x: int)
    ensures forall i, j :: 0 <= i < j < |Around(y, x)| ==> Around(y, x)[i] != Around(y, x)[j]
    ensures forall i :: 0 <= i < |Around(y, x)| ==> Adjacent(y, x, Around(y, x)[i].0, Around(y, x)[i].1)
    ensures forall a, b :: Adjacent(y, x, a, b) ==> (a, b) in Around(y, x)
  {
  }
}
