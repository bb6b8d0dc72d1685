/** Failure values of the model: Ruby's `ArgumentError` for a negative array
    size, the only error the modelled part of the core raises. The
    `ArgumentError` that `sleep` raises for a negative interval while
    rendering belongs to the timing, which is not modelled. */
module Results {

  datatype Error = NegativeArraySize

  datatype Result<T> = Ok(value: T) | Err(error: Error)
}

/** The `Field` class of run.rb: a `height x width` grid of cells stored row by row. */
module Fields {
  import opened Cells
  import opened Results

  type Field = seq<seq<Cell>>

  /** The states of a field, row by row: `true` for a live cell. */
  type Grid = seq<seq<bool>>

  /** `g` has `h` rows of `w` entries each. */
  predicate Rect<T>(g: seq<seq<T>>, h: int, w: int) {
    |g| == h && forall r :: 0 <= r < |g| ==> |g[r]| == w
  }

  /** The layout `Field#initialize` builds: the cell stored at row `r`, column `c`
      records `y == r` and `x == c`. */
  predicate WellIndexed(f: Field, h: int, w: int) {
    && Rect(f, h, w)
    && forall r, c :: 0 <= r < h && 0 <= c < w ==> f[r][c].y == r && f[r][c].x == c
  }

  /** `Field.new(height, width)`. The random draw `rand(1..100) > 90` made for each
      cell becomes the parameter `seed`, asked once per position. Ruby's
      `Array.new` rejects a negative row count, and a negative column count as soon
      as one row is built. */
  function NewField(h: int, w: int, seed: (int, int) -> bool): (r: Result<Field>)
    ensures r.Err? <==> h < 0 || (h > 0 && w < 0)
    ensures r.Ok? ==> WellIndexed(r.value, h, w)
    ensures r.Ok? ==> forall y, x :: 0 <= y < h && 0 <= x < w ==>
                         (r.value[y][x].IsAlive() <==> seed(y, x))
  {
    if h < 0 || (h > 0 && w < 0) then Err(NegativeArraySize)
    else if h == 0 then Ok([])
    else Ok(seq(h, y => seq(w, x => Cell(y, x, if seed(y, x) then Alive else Dead))))
  }

  /** The status of every cell of `f`, position by position. */
  function States(f: Field, h: nat, w: nat): (g: Grid)
    requires Rect(f, h, w)
    ensures Rect(g, h, w)
    ensures forall r, c :: 0 <= r < h && 0 <= c < w ==> (g[r][c] <==> f[r][c].IsAlive())
  {
    seq(h, r requires 0 <= r < h => seq(w, c requires 0 <= c < w => f[r][c].IsAlive()))
  }

  /** Two `h x w` grids with the same entries are the same grid. */
  lemma SameEntries<T>(s: seq<seq<T>>, t: seq<seq<T>>, h: nat, w: nat)
    requires Rect(s, h, w) && Rect(t, h, w)
    requires forall i, j :: 0 <= i < h && 0 <= j < w ==> s[i][j] == t[i][j]
    ensures s == t
  {
    assert forall i :: 0 <= i < h ==> s[i] == t[i];
  }
}
