/** The generation pass of `Frame#calculate` in run.rb: neighbour counting on a
    clamped (non-wrapping) grid, the B3/S23 rule, and the row-major sweep that
    updates cells in place while later cells are still being counted. */
module Generation {
  import opened Cells
  import opened Fields

  /** The source's neighbour filter, in its order: skip a row past the last,
      a column past the last, a negative row, a negative column; otherwise
      read the state stored there. */
  predicate Live(g: Grid, h: nat, w: nat, p: (int, int))
    requires Rect(g, h, w)
  {
    if p.0 > h - 1 then false
    else if p.1 > w - 1 then false
    else if p.0 < 0 then false
    else if p.1 < 0 then false
    else g[p.0][p.1]
  }

  function Bit(b: bool): nat {
    if b then 1 else 0
  }

  /** `lived_neighbors` accumulated over the coordinate list `ps`. */
  function CountLive(g: Grid, h: nat, w: nat, ps: seq<(int, int)>): (n: nat)
    requires Rect(g, h, w)
    ensures n <= |ps|
    decreases |ps|
  {
    if |ps| == 0 then 0
    else CountLive(g, h, w, ps[..|ps| - 1]) + Bit(Live(g, h, w, ps[|ps| - 1]))
  }

  /** Counting one more coordinate adds its contribution. */
  lemma CountLivePrefix(g: Grid, h: nat, w: nat, ps: seq<(int, int)>, k: nat)
    requires Rect(g, h, w) && k < |ps|
    ensures CountLive(g, h, w, ps[..k + 1]) == CountLive(g, h, w, ps[..k]) + Bit(Live(g, h, w, ps[k]))
  {
    assert ps[..k + 1][..k] == ps[..k];
  }

  /** The live neighbour count of the cell at (y, x), over `cells_around`. */
  function LiveNeighbors(g: Grid, h: nat, w: nat, y: int, x: int): (n: nat)
    requires Rect(g, h, w)
    ensures n <= 8
  {
    CountLive(g, h, w, Around(y, x))
  }

  /** Reference definition of the count: the in-range Moore neighbours that are alive. */
  ghost function LiveNeighbourSet(g: Grid, h: nat, w: nat, y: int, x: int): set<(int, int)>
    requires Rect(g, h, w)
  {
    set a, b | y - 1 <= a <= y + 1 && x - 1 <= b <= x + 1 && Adjacent(y, x, a, b)
                 && 0 <= a < h && 0 <= b < w && g[a][b] :: (a, b)
  }

  lemma {:induction false} CountLiveIsCardinality(g: Grid, h: nat, w: nat, ps: seq<(int, int)>)
    requires Rect(g, h, w)
    requires forall i, j :: 0 <= i < j < |ps| ==> ps[i] != ps[j]
    ensures CountLive(g, h, w, ps) == |set p | p in ps && Live(g, h, w, p)|
  {
    if |ps| > 0 {
      var init, last := ps[..|ps| - 1], ps[|ps| - 1];
      CountLiveIsCardinality(g, h, w, init);
      var s0 := set p | p in init && Live(g, h, w, p);
      var s1 := set p | p in ps && Live(g, h, w, p);
      assert last !in init;
      assert ps == init + [last];
      if Live(g, h, w, last) {
        assert s1 == s0 + {last};
      } else {
        assert s1 == s0;
      }
    }
  }

  /** The count is exactly the number of live cells among the in-range neighbours. */
  lemma LiveNeighborsIsCardinality(g: Grid, h: nat, w: nat, y: int, x: int)
    requires Rect(g, h, w)
    ensures LiveNeighbors(g, h, w, y, x) == |LiveNeighbourSet(g, h, w, y, x)|
  {
    var ps := Around(y, x);
    AroundIsNeighbourhood(y, x);
    CountLiveIsCardinality(g, h, w, ps);
    var s := set p | p in ps && Live(g, h, w, p);
    var t := LiveNeighbourSet(g, h, w, y, x);
    forall p | p in t ensures p in s {
      assert Adjacent(y, x, p.0, p.1);
    }
    assert s == t;
  }

  /** The count written out as the sum of its eight contributions. */
  lemma LiveNeighborsUnrolled(g: Grid, h: nat, w: nat, y: int, x: int)
    requires Rect(g, h, w)
    ensures LiveNeighbors(g, h, w, y, x) ==
      Bit(Live(g, h, w, (y - 1, x - 1))) + Bit(Live(g, h, w, (y - 1, x))) + Bit(Live(g, h, w, (y - 1, x + 1)))
      + Bit(Live(g, h, w, (y, x - 1))) + Bit(Live(g, h, w, (y, x + 1)))
      + Bit(Live(g, h, w, (y + 1, x - 1))) + Bit(Live(g, h, w, (y + 1, x))) + Bit(Live(g, h, w, (y + 1, x + 1)))
  {
    var ps := Around(y, x);
    assert ps[..8] == ps;
    assert ps[0] == (y - 1, x - 1) && ps[1] == (y - 1, x) && ps[2] == (y - 1, x + 1) && ps[3] == (y, x - 1);
    assert ps[4] == (y, x + 1) && ps[5] == (y + 1, x - 1) && ps[6] == (y + 1, x) && ps[7] == (y + 1, x + 1);
    forall k | 1 <= k <= 8
      ensures CountLive(g, h, w, ps[..k]) == CountLive(g, h, w, ps[..k - 1]) + Bit(Live(g, h, w, ps[k - 1]))
    {
      assert ps[..k][..k - 1] == ps[..k - 1];
    }
  }

  /** A corner cell has at most three in-range neighbours to count. */
  lemma CornerAtMostThree(g: Grid, h: nat, w: nat, y: int, x: int)
    requires Rect(g, h, w)
    requires 0 <= y < h && 0 <= x < w
    requires (y == 0 || y == h - 1) && (x == 0 || x == w - 1)
    ensures LiveNeighbors(g, h, w, y, x) <= 3
  {
    LiveNeighborsUnrolled(g, h, w, y, x);
  }

  /** A cell on an edge has at most five in-range neighbours to count. */
  lemma EdgeAtMostFive(g: Grid, h: nat, w: nat, y: int, x: int)
    requires Rect(g, h, w)
    requires 0 <= y < h && 0 <= x < w
    requires y == 0 || y == h - 1 || x == 0 || x == w - 1
    ensures LiveNeighbors(g, h, w, y, x) <= 5
  {
    LiveNeighborsUnrolled(g, h, w, y, x);
  }

  lemma {:induction false} CountLiveAgree(g1: Grid, g2: Grid, h: nat, w: nat, ps: seq<(int, int)>)
    requires Rect(g1, h, w) && Rect(g2, h, w)
    requires forall k :: 0 <= k < |ps| ==> Live(g1, h, w, ps[k]) == Live(g2, h, w, ps[k])
    ensures CountLive(g1, h, w, ps) == CountLive(g2, h, w, ps)
  {
    if |ps| > 0 {
      CountLiveAgree(g1, g2, h, w, ps[..|ps| - 1]);
    }
  }

  /** Grids that agree on the in-range neighbours of (y, x) give it the same count. */
  lemma LiveNeighborsLocal(g1: Grid, g2: Grid, h: nat, w: nat, y: int, x: int)
    requires Rect(g1, h, w) && Rect(g2, h, w)
    requires forall a, b :: 0 <= a < h && 0 <= b < w && Adjacent(y, x, a, b) ==> g1[a][b] == g2[a][b]
    ensures LiveNeighbors(g1, h, w, y, x) == LiveNeighbors(g2, h, w, y, x)
  {
    var ps := Around(y, x);
    AroundIsNeighbourhood(y, x);
    forall k | 0 <= k < |ps| ensures Live(g1, h, w, ps[k]) == Live(g2, h, w, ps[k]) {
      assert Adjacent(y, x, ps[k].0, ps[k].1);
    }
    CountLiveAgree(g1, g2, h, w, ps);
  }

  /** The rule as the two `if`s of the source apply it to a state: a count of 3
      gives birth, then a count below 2 or above 3 kills. */
  function Rule(alive: bool, n: int): (b: bool)
    ensures b <==> n == 3 || (n == 2 && alive)
  {
    var born := if n == 3 then true else alive;
    if n < 2 || n > 3 then false else born
  }

  /** The same rule applied to a cell object through `born!` and `die!`; the
      branches never both fire, so a count of 3 ends in `born!`, a count
      below 2 or above 3 in `die!`, and a count of 2 leaves the cell alone. */
  function Step(c: Cell, n: int): (r: Cell)
    ensures r.y == c.y && r.x == c.x
    ensures r.IsAlive() == Rule(c.IsAlive(), n)
    ensures n == 3 ==> r == c.Born()
    ensures n < 2 || n > 3 ==> r == c.Die()
    ensures n == 2 ==> r == c
  {
    var c1 := if n == 3 then c.Born() else c;
    if n < 2 || n > 3 then c1.Die() else c1
  }

  // ---------------------------------------------------------------------------
  // The row-major in-place pass, for any per-cell update `next`

  /** `next` can be asked about every in-range cell of every `h x w` grid. */
  ghost predicate Total(h: nat, w: nat, next: (Grid, nat, nat) --> bool) {
    forall g, r: nat, c: nat :: Rect(g, h, w) && r < h && c < w ==> next.requires(g, r, c)
  }

  /** (pr, pc) is a point of the row-major sweep: the next cell to visit, or
      (h, 0) once every cell has been visited. */
  predicate Progress(h: nat, w: nat, pr: nat, pc: nat) {
    pr <= h && pc <= w && (pr == h ==> pc == 0)
  }

  /** Cell (i, j) comes before (pr, pc) in row-major order. */
  predicate Precede(i: int, j: int, pr: int, pc: int) {
    i < pr || (i == pr && j < pc)
  }

  /** Writes `v` at (r, c) and nowhere else. */
  function Put(g: Grid, h: nat, w: nat, r: nat, c: nat, v: bool): (g': Grid)
    requires Rect(g, h, w) && r < h && c < w
    ensures Rect(g', h, w)
    ensures g'[r][c] == v
    ensures forall i, j :: 0 <= i < h && 0 <= j < w && (i, j) != (r, c) ==> g'[i][j] == g[i][j]
  {
    g[r := g[r][c := v]]
  }

  /** The grid once the two nested `each` loops have visited every cell before
      (pr, pc), each visit overwriting the cell, in place, with `next` of the
      grid as it stands at that moment. */
  function Pass(g: Grid, h: nat, w: nat, pr: nat, pc: nat, next: (Grid, nat, nat) --> bool): (g': Grid)
    requires Rect(g, h, w) && Progress(h, w, pr, pc) && Total(h, w, next)
    ensures Rect(g', h, w)
    ensures forall i, j :: 0 <= i < h && 0 <= j < w && !Precede(i, j, pr, pc) ==> g'[i][j] == g[i][j]
    decreases pr, pc
  {
    if pc == 0 then
      if pr == 0 then g else Pass(g, h, w, pr - 1, w, next)
    else
      var cur := Pass(g, h, w, pr, pc - 1, next);
      Put(cur, h, w, pr, pc - 1, next(cur, pr, pc - 1))
  }

  /** Visiting (i, j) writes `next` of the grid as the sweep left it just before. */
  lemma PassVisit(g: Grid, h: nat, w: nat, i: nat, j: nat, next: (Grid, nat, nat) --> bool)
    requires Rect(g, h, w) && Total(h, w, next) && i < h && j < w
    ensures Pass(g, h, w, i, j + 1, next)[i][j] == next(Pass(g, h, w, i, j, next), i, j)
  {
  }

  /** A visit writes its own cell and no other. */
  lemma PassStep(g: Grid, h: nat, w: nat, pr: nat, pc: nat, next: (Grid, nat, nat) --> bool, i: nat, j: nat)
    requires Rect(g, h, w) && Progress(h, w, pr, pc) && Total(h, w, next) && pc > 0
    requires i < h && j < w && (i, j) != (pr, pc - 1)
    ensures Pass(g, h, w, pr, pc, next)[i][j] == Pass(g, h, w, pr, pc - 1, next)[i][j]
  {
  }

  /** Once the sweep has passed a cell it never writes it again. */
  lemma {:induction false} PassSettled(g: Grid, h: nat, w: nat, i: nat, j: nat, pr: nat, pc: nat,
                                       next: (Grid, nat, nat) --> bool)
    requires Rect(g, h, w) && Progress(h, w, pr, pc) && Total(h, w, next)
    requires i < h && j < w && Precede(i, j, pr, pc)
    ensures Pass(g, h, w, pr, pc, next)[i][j] == Pass(g, h, w, i, j + 1, next)[i][j]
    decreases pr, pc
  {
    if pr == i && pc == j + 1 {
    } else if pc == 0 {
      PassSettled(g, h, w, i, j, pr - 1, w, next);
    } else {
      PassStep(g, h, w, pr, pc, next, i, j);
      PassSettled(g, h, w, i, j, pr, pc - 1, next);
    }
  }

  /** A grid on which every visit rewrites the value already there is left unchanged. */
  lemma {:induction false} PassFixed(g: Grid, h: nat, w: nat, pr: nat, pc: nat, next: (Grid, nat, nat) --> bool)
    requires Rect(g, h, w) && Progress(h, w, pr, pc) && Total(h, w, next)
    requires forall i: nat, j: nat :: i < h && j < w ==> next(g, i, j) == g[i][j]
    ensures Pass(g, h, w, pr, pc, next) == g
    decreases pr, pc
  {
    if pc == 0 {
      if pr > 0 {
        PassFixed(g, h, w, pr - 1, w, next);
      }
    } else {
      PassFixed(g, h, w, pr, pc - 1, next);
      var g' := Pass(g, h, w, pr, pc, next);
      assert forall i :: 0 <= i < h ==> g'[i] == g[i];
    }
  }

  // ---------------------------------------------------------------------------
  // The Game of Life pass

  /** The state the rule gives the cell at (r, c) when it is counted on `g`. */
  function NextState(g: Grid, h: nat, w: nat, r: nat, c: nat): bool
    requires Rect(g, h, w) && r < h && c < w
  {
    Rule(g[r][c], LiveNeighbors(g, h, w, r, c))
  }

  function LifeNext(h: nat, w: nat): (next: (Grid, nat, nat) --> bool)
    ensures Total(h, w, next)
    ensures forall g, r: nat, c: nat :: Rect(g, h, w) && r < h && c < w ==> next(g, r, c) == NextState(g, h, w, r, c)
  {
    (g: Grid, r: nat, c: nat) requires Rect(g, h, w) && r < h && c < w => NextState(g, h, w, r, c)
  }

  /** The grid after `Frame#calculate` has visited every cell before (pr, pc). */
  function SweepTo(g: Grid, h: nat, w: nat, pr: nat, pc: nat): (g': Grid)
    requires Rect(g, h, w) && Progress(h, w, pr, pc)
    ensures Rect(g', h, w)
    ensures forall i, j :: 0 <= i < h && 0 <= j < w && !Precede(i, j, pr, pc) ==> g'[i][j] == g[i][j]
  {
    Pass(g, h, w, pr, pc, LifeNext(h, w))
  }

  /** The whole in-place pass of `Frame#calculate`. */
  function Sweep(g: Grid, h: nat, w: nat): (g': Grid)
    requires Rect(g, h, w)
    ensures Rect(g', h, w)
  {
    SweepTo(g, h, w, h, 0)
  }

  /** The in-place semantics of the pass. The final state of (i, j) is the rule
      applied to its original state and to a count taken on a grid whose cells
      before (i, j) in row-major order already hold their final states and whose
      other cells still hold the original ones. */
  lemma InPlaceSweep(g: Grid, h: nat, w: nat, i: nat, j: nat)
    requires Rect(g, h, w) && i < h && j < w
    ensures forall a, b :: 0 <= a < h && 0 <= b < w ==>
              SweepTo(g, h, w, i, j)[a][b] == if Precede(a, b, i, j) then Sweep(g, h, w)[a][b] else g[a][b]
    ensures Sweep(g, h, w)[i][j] == Rule(g[i][j], LiveNeighbors(SweepTo(g, h, w, i, j), h, w, i, j))
  {
    var next := LifeNext(h, w);
    forall a, b | 0 <= a < h && 0 <= b < w && Precede(a, b, i, j)
      ensures SweepTo(g, h, w, i, j)[a][b] == Sweep(g, h, w)[a][b]
    {
      PassSettled(g, h, w, a, b, i, j, next);
      PassSettled(g, h, w, a, b, h, 0, next);
    }
    PassSettled(g, h, w, i, j, h, 0, next);
    PassVisit(g, h, w, i, j, next);
  }

  /** One entry of the grid `InPlaceSweep` counts on: (a, b) holds its final
      state if the sweep reaches it before (i, j), and its original one if not. */
  lemma InPlaceEntry(g: Grid, h: nat, w: nat, i: nat, j: nat, a: nat, b: nat)
    requires Rect(g, h, w) && i < h && j < w && a < h && b < w
    ensures SweepTo(g, h, w, i, j)[a][b] == if Precede(a, b, i, j) then Sweep(g, h, w)[a][b] else g[a][b]
  {
    InPlaceSweep(g, h, w, i, j);
  }

  /** The final state of (i, j), as `InPlaceSweep` gives it. */
  lemma InPlaceVisit(g: Grid, h: nat, w: nat, i: nat, j: nat)
    requires Rect(g, h, w) && i < h && j < w
    ensures Sweep(g, h, w)[i][j] == Rule(g[i][j], LiveNeighbors(SweepTo(g, h, w, i, j), h, w, i, j))
  {
    InPlaceSweep(g, h, w, i, j);
  }

  /** `InPlaceSweep` for a grid `m` given by its entries: if `m` holds the final
      states before (i, j) and the original ones elsewhere, the final state of
      (i, j) is the rule applied to its count on `m`. */
  lemma SweepVisit(g: Grid, h: nat, w: nat, i: nat, j: nat, m: Grid)
    requires Rect(g, h, w) && Rect(m, h, w) && i < h && j < w
    requires forall a, b :: 0 <= a < h && 0 <= b < w ==>
               m[a][b] == if Precede(a, b, i, j) then Sweep(g, h, w)[a][b] else g[a][b]
    ensures Sweep(g, h, w)[i][j] == Rule(g[i][j], LiveNeighbors(m, h, w, i, j))
  {
    InPlaceSweep(g, h, w, i, j);
    SameEntries(SweepTo(g, h, w, i, j), m, h, w);
  }

  /** The synchronous (double-buffered) generation: every cell is counted on the
      grid as it was before the pass. */
  function SyncStep(g: Grid, h: nat, w: nat): (g': Grid)
    requires Rect(g, h, w)
    ensures Rect(g', h, w)
    ensures forall i, j :: 0 <= i < h && 0 <= j < w ==> g'[i][j] == NextState(g, h, w, i, j)
  {
    seq(h, i requires 0 <= i < h => seq(w, j requires 0 <= j < w => NextState(g, h, w, i, j)))
  }

  /** In the synchronous step the next state of (i, j) depends on nothing but the
      old states of (i, j) and its neighbours: no update leaks into another count. */
  lemma SyncLocal(g1: Grid, g2: Grid, h: nat, w: nat, i: nat, j: nat)
    requires Rect(g1, h, w) && Rect(g2, h, w) && i < h && j < w
    requires forall a, b :: 0 <= a < h && 0 <= b < w && (Adjacent(i, j, a, b) || (a, b) == (i, j)) ==>
               g1[a][b] == g2[a][b]
    ensures SyncStep(g1, h, w)[i][j] == SyncStep(g2, h, w)[i][j]
  {
    LiveNeighborsLocal(g1, g2, h, w, i, j);
  }

  /** Where the two passes agree: if no neighbour of (i, j) that the sweep
      visits earlier has changed by the end of the sweep, (i, j) ends in the
      state the synchronous step gives it. In particular the first cell of the
      sweep always agrees. */
  lemma SweepAgreesWithSync(g: Grid, h: nat, w: nat, i: nat, j: nat)
    requires Rect(g, h, w) && i < h && j < w
    requires forall a, b :: 0 <= a < h && 0 <= b < w && Adjacent(i, j, a, b) && Precede(a, b, i, j) ==>
               Sweep(g, h, w)[a][b] == g[a][b]
    ensures Sweep(g, h, w)[i][j] == SyncStep(g, h, w)[i][j]
  {
    InPlaceSweep(g, h, w, i, j);
    LiveNeighborsLocal(SweepTo(g, h, w, i, j), g, h, w, i, j);
  }

  /** Every still life of the synchronous step is left unchanged by the in-place sweep. */
  lemma SyncFixedIsSweepFixed(g: Grid, h: nat, w: nat)
    requires Rect(g, h, w)
    requires SyncStep(g, h, w) == g
    ensures Sweep(g, h, w) == g
  {
    var next := LifeNext(h, w);
    forall i: nat, j: nat | i < h && j < w ensures next(g, i, j) == g[i][j] {
      assert SyncStep(g, h, w)[i][j] == NextState(g, h, w, i, j);
    }
    PassFixed(g, h, w, h, 0, next);
  }
}
