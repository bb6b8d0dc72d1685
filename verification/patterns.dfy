/** What the generation pass does to a few configurations: the empty grid, a lone
    cell, the 2x2 block, and the 3x3 blinker on which the in-place sweep and the
    synchronous step part ways. */
module Patterns {
  import opened Cells
  import opened Fields
  import opened Generation

  predicate AllDead(g: Grid, h: nat, w: nat)
    requires Rect(g, h, w)
  {
    forall i, j :: 0 <= i < h && 0 <= j < w ==> !g[i][j]
  }

  /** Every live cell of `g` sits at (py, px). */
  predicate LiveOnlyAt(g: Grid, h: nat, w: nat, py: int, px: int)
    requires Rect(g, h, w)
  {
    forall i, j :: 0 <= i < h && 0 <= j < w && g[i][j] ==> i == py && j == px
  }

  /** With at most one live cell, no count exceeds 1, and that cell counts 0. */
  lemma CountNearLoneCell(g: Grid, h: nat, w: nat, py: int, px: int, y: int, x: int)
    requires Rect(g, h, w) && LiveOnlyAt(g, h, w, py, px)
    ensures LiveNeighbors(g, h, w, y, x) <= 1
    ensures y == py && x == px ==> LiveNeighbors(g, h, w, y, x) == 0
  {
    LiveNeighborsIsCardinality(g, h, w, y, x);
    var s := LiveNeighbourSet(g, h, w, y, x);
    assert s <= {(py, px)};
    if y == py && x == px {
      assert s == {};
    } else {
      assert s == {} || s == {(py, px)};
    }
  }

  /** An all-dead grid is a fixed point of both the synchronous step and the
      in-place sweep. */
  lemma AllDeadIsFixed(g: Grid, h: nat, w: nat)
    requires Rect(g, h, w) && AllDead(g, h, w)
    ensures SyncStep(g, h, w) == g
    ensures Sweep(g, h, w) == g
  {
    var s := SyncStep(g, h, w);
    forall i, j | 0 <= i < h && 0 <= j < w ensures s[i][j] == g[i][j] {
      CountNearLoneCell(g, h, w, i, j, i, j);
    }
    assert forall i :: 0 <= i < h ==> s[i] == g[i];
    SyncFixedIsSweepFixed(g, h, w);
  }

  /** A lone live cell dies and nothing is born, in the synchronous step. */
  lemma LoneCellDiesSync(g: Grid, h: nat, w: nat, py: int, px: int)
    requires Rect(g, h, w) && LiveOnlyAt(g, h, w, py, px)
    ensures AllDead(SyncStep(g, h, w), h, w)
  {
    forall i, j | 0 <= i < h && 0 <= j < w ensures !SyncStep(g, h, w)[i][j] {
      CountNearLoneCell(g, h, w, py, px, i, j);
    }
  }

  /** A pass whose every visit, on a grid with no live cell but (py, px), writes
      a dead cell: it keeps that shape and leaves every visited cell dead. */
  lemma {:induction false} PassKillsLoneCell(g: Grid, h: nat, w: nat, py: int, px: int, pr: nat, pc: nat,
                                             next: (Grid, nat, nat) --> bool)
    requires Rect(g, h, w) && Progress(h, w, pr, pc) && Total(h, w, next)
    requires LiveOnlyAt(g, h, w, py, px)
    requires forall cur, r: nat, c: nat :: Rect(cur, h, w) && r < h && c < w && LiveOnlyAt(cur, h, w, py, px) ==>
               !next(cur, r, c)
    ensures LiveOnlyAt(Pass(g, h, w, pr, pc, next), h, w, py, px)
    ensures forall i, j :: 0 <= i < h && 0 <= j < w && Precede(i, j, pr, pc) ==> !Pass(g, h, w, pr, pc, next)[i][j]
    decreases pr, pc
  {
    if pc == 0 {
      if pr > 0 {
        PassKillsLoneCell(g, h, w, py, px, pr - 1, w, next);
      }
    } else {
      PassKillsLoneCell(g, h, w, py, px, pr, pc - 1, next);
    }
  }

  /** A lone live cell dies and nothing is born, in the in-place sweep too. */
  lemma LoneCellDiesSweep(g: Grid, h: nat, w: nat, py: int, px: int)
    requires Rect(g, h, w) && LiveOnlyAt(g, h, w, py, px)
    ensures AllDead(Sweep(g, h, w), h, w)
  {
    var next := LifeNext(h, w);
    forall cur, r: nat, c: nat | Rect(cur, h, w) && r < h && c < w && LiveOnlyAt(cur, h, w, py, px)
      ensures !next(cur, r, c)
    {
      CountNearLoneCell(cur, h, w, py, px, r, c);
    }
    PassKillsLoneCell(g, h, w, py, px, h, 0, next);
  }

  /** The 2x2 block with top-left corner (top, left), anywhere inside the grid,
      touching an edge or not, is a still life of both passes. */
  lemma BlockIsStill(g: Grid, h: nat, w: nat, top: nat, left: nat)
    requires Rect(g, h, w) && top + 1 < h && left + 1 < w
    requires forall i, j :: 0 <= i < h && 0 <= j < w ==>
               (g[i][j] <==> top <= i <= top + 1 && left <= j <= left + 1)
    ensures SyncStep(g, h, w) == g
    ensures Sweep(g, h, w) == g
  {
    var s := SyncStep(g, h, w);
    forall i, j | 0 <= i < h && 0 <= j < w ensures s[i][j] == g[i][j] {
      LiveNeighborsUnrolled(g, h, w, i, j);
      var n := LiveNeighbors(g, h, w, i, j);
      if top <= i <= top + 1 && left <= j <= left + 1 {
        assert n == 3;
      } else {
        assert n <= 2;
      }
    }
    assert forall i :: 0 <= i < h ==> s[i] == g[i];
    SyncFixedIsSweepFixed(g, h, w);
  }

  // ---------------------------------------------------------------------------
  // The blinker: where updating in place departs from the Game of Life

  /** A horizontal blinker across the middle row of a 3x3 grid. */
  predicate FlatBlinker(g: Grid)
    requires Rect(g, 3, 3)
  {
    forall i, j :: 0 <= i < 3 && 0 <= j < 3 ==> (g[i][j] <==> i == 1)
  }

  /** The same blinker turned upright, down the middle column. */
  predicate UprightBlinker(g: Grid)
    requires Rect(g, 3, 3)
  {
    forall i, j :: 0 <= i < 3 && 0 <= j < 3 ==> (g[i][j] <==> j == 1)
  }

  /** The flat blinker with its left end removed. */
  predicate ClippedBlinker(g: Grid)
    requires Rect(g, 3, 3)
  {
    forall i, j :: 0 <= i < 3 && 0 <= j < 3 ==> (g[i][j] <==> i == 1 && j >= 1)
  }

  /** As written, the sweep lets earlier updates leak into later counts. The
      blinker and the clipped blinker agree on (0, 2) and on every neighbour of
      it, yet the in-place sweep brings (0, 2) to life in one and not in the
      other: in the blinker, (0, 1) is born first and then counts as a third
      neighbour of (0, 2). The synchronous step keeps (0, 2) dead in both, so
      the sweep does not compute the Game of Life generation. */
  lemma BlinkerSweepLeaks(g: Grid, k: Grid)
    requires Rect(g, 3, 3) && Rect(k, 3, 3) && FlatBlinker(g) && ClippedBlinker(k)
    ensures forall a, b :: 0 <= a < 3 && 0 <= b < 3 && (Adjacent(0, 2, a, b) || (a, b) == (0, 2)) ==>
              g[a][b] == k[a][b]
    ensures Sweep(g, 3, 3)[0][2]
    ensures !Sweep(k, 3, 3)[0][2]
    ensures !SyncStep(g, 3, 3)[0][2] && !SyncStep(k, 3, 3)[0][2]
    ensures Sweep(g, 3, 3) != SyncStep(g, 3, 3)
  {
    FlatVisit02(g);
    ClippedVisit02(k);
    LiveNeighborsUnrolled(g, 3, 3, 0, 2);
    LiveNeighborsUnrolled(k, 3, 3, 0, 2);
  }

  /** The count of a top-row cell of a 3x3 grid: its in-range neighbours are
      the row cells beside it and the three (or two) cells below. */
  lemma TopRowCount(m: Grid, j: nat)
    requires Rect(m, 3, 3) && j < 3
    ensures LiveNeighbors(m, 3, 3, 0, j) ==
              Bit(j > 0 && m[0][j - 1]) + Bit(j < 2 && m[0][j + 1])
              + Bit(j > 0 && m[1][j - 1]) + Bit(m[1][j]) + Bit(j < 2 && m[1][j + 1])
  {
    LiveNeighborsUnrolled(m, 3, 3, 0, j);
  }

  // The sweep over the top row of the flat blinker, one visit at a time:
  // (0, 0) counts two live neighbours and stays dead, (0, 1) counts three and is
  // born, and (0, 2) then counts three, the newborn (0, 1) among them.

  lemma FlatVisit00(g: Grid)
    requires Rect(g, 3, 3) && FlatBlinker(g)
    ensures !Sweep(g, 3, 3)[0][0]
  {
    InPlaceEntry(g, 3, 3, 0, 0, 0, 0);
    InPlaceEntry(g, 3, 3, 0, 0, 0, 1);
    InPlaceEntry(g, 3, 3, 0, 0, 1, 0);
    InPlaceEntry(g, 3, 3, 0, 0, 1, 1);
    InPlaceVisit(g, 3, 3, 0, 0);
    TopRowCount(SweepTo(g, 3, 3, 0, 0), 0);
  }

  lemma FlatVisit01(g: Grid)
    requires Rect(g, 3, 3) && FlatBlinker(g)
    ensures Sweep(g, 3, 3)[0][1]
  {
    FlatVisit00(g);
    InPlaceEntry(g, 3, 3, 0, 1, 0, 0);
    InPlaceEntry(g, 3, 3, 0, 1, 0, 1);
    InPlaceEntry(g, 3, 3, 0, 1, 0, 2);
    InPlaceEntry(g, 3, 3, 0, 1, 1, 0);
    InPlaceEntry(g, 3, 3, 0, 1, 1, 1);
    InPlaceEntry(g, 3, 3, 0, 1, 1, 2);
    InPlaceVisit(g, 3, 3, 0, 1);
    TopRowCount(SweepTo(g, 3, 3, 0, 1), 1);
  }

  lemma FlatVisit02(g: Grid)
    requires Rect(g, 3, 3) && FlatBlinker(g)
    ensures Sweep(g, 3, 3)[0][2]
  {
    FlatVisit01(g);
    InPlaceEntry(g, 3, 3, 0, 2, 0, 1);
    InPlaceEntry(g, 3, 3, 0, 2, 0, 2);
    InPlaceEntry(g, 3, 3, 0, 2, 1, 1);
    InPlaceEntry(g, 3, 3, 0, 2, 1, 2);
    InPlaceVisit(g, 3, 3, 0, 2);
    TopRowCount(SweepTo(g, 3, 3, 0, 2), 2);
  }

  // The same row of the clipped blinker: (0, 0) counts one, (0, 1) and (0, 2)
  // count two each, and none of them is born.

  lemma ClippedVisit00(k: Grid)
    requires Rect(k, 3, 3) && ClippedBlinker(k)
    ensures !Sweep(k, 3, 3)[0][0]
  {
    InPlaceEntry(k, 3, 3, 0, 0, 0, 0);
    InPlaceEntry(k, 3, 3, 0, 0, 0, 1);
    InPlaceEntry(k, 3, 3, 0, 0, 1, 0);
    InPlaceEntry(k, 3, 3, 0, 0, 1, 1);
    InPlaceVisit(k, 3, 3, 0, 0);
    TopRowCount(SweepTo(k, 3, 3, 0, 0), 0);
  }

  lemma ClippedVisit01(k: Grid)
    requires Rect(k, 3, 3) && ClippedBlinker(k)
    ensures !Sweep(k, 3, 3)[0][1]
  {
    ClippedVisit00(k);
    InPlaceEntry(k, 3, 3, 0, 1, 0, 0);
    InPlaceEntry(k, 3, 3, 0, 1, 0, 1);
    InPlaceEntry(k, 3, 3, 0, 1, 0, 2);
    InPlaceEntry(k, 3, 3, 0, 1, 1, 0);
    InPlaceEntry(k, 3, 3, 0, 1, 1, 1);
    InPlaceEntry(k, 3, 3, 0, 1, 1, 2);
    InPlaceVisit(k, 3, 3, 0, 1);
    TopRowCount(SweepTo(k, 3, 3, 0, 1), 1);
  }

  lemma ClippedVisit02(k: Grid)
    requires Rect(k, 3, 3) && ClippedBlinker(k)
    ensures !Sweep(k, 3, 3)[0][2]
  {
    ClippedVisit01(k);
    InPlaceEntry(k, 3, 3, 0, 2, 0, 1);
    InPlaceEntry(k, 3, 3, 0, 2, 0, 2);
    InPlaceEntry(k, 3, 3, 0, 2, 1, 1);
    InPlaceEntry(k, 3, 3, 0, 2, 1, 2);
    InPlaceVisit(k, 3, 3, 0, 2);
    TopRowCount(SweepTo(k, 3, 3, 0, 2), 2);
  }

  /** With the synchronous step the blinker behaves as in the Game of Life: it
      turns upright and back, a period-2 oscillator. */
  lemma BlinkerOscillates(g: Grid, v: Grid)
    requires Rect(g, 3, 3) && Rect(v, 3, 3) && FlatBlinker(g) && UprightBlinker(v)
    ensures SyncStep(g, 3, 3) == v
    ensures SyncStep(v, 3, 3) == g
  {
    var s, t := SyncStep(g, 3, 3), SyncStep(v, 3, 3);
    forall i, j | 0 <= i < 3 && 0 <= j < 3 ensures s[i][j] == v[i][j] && t[i][j] == g[i][j] {
      LiveNeighborsUnrolled(g, 3, 3, i, j);
      LiveNeighborsUnrolled(v, 3, 3, i, j);
    }
    assert forall i :: 0 <= i < 3 ==> s[i] == v[i] && t[i] == g[i];
  }
}
