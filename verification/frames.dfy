/** The `Frame` class of run.rb: one screen buffer per generation, filled by
    `calculate` while it advances the field, and turned into text by `render`. */
module Frames {
  import opened Cells
  import opened Fields
  import opened Generation

  /** A screen buffer: one glyph per cell, row by row. The game's glyphs are the
      one-character strings `'*'` and `' '`, so a glyph is a character here. */
  type Screen = seq<seq<char>>

  /** What `Frame.new` keeps of the game: the field size and the two glyphs,
      and a fresh screen buffer. */
  datatype Frame = Frame(height: nat, width: nat, cellSym: char, emptySym: char, screen: Screen)

  /** `Array.new(@y) { Array.new(@x) { @empty_symbol } }`. */
  function BlankScreen(h: nat, w: nat, emptySym: char): (s: Screen)
    ensures Rect(s, h, w)
    ensures forall r, c :: 0 <= r < h && 0 <= c < w ==> s[r][c] == emptySym
  {
    seq(h, r => seq(w, c => emptySym))
  }

  /** `Frame.new(game)`: a blank screen of the game's size. */
  function NewFrame(h: nat, w: nat, cellSym: char, emptySym: char): (fr: Frame)
    ensures fr.height == h && fr.width == w
    ensures fr.cellSym == cellSym && fr.emptySym == emptySym
    ensures Rect(fr.screen, h, w)
    ensures forall r, c :: 0 <= r < h && 0 <= c < w ==> fr.screen[r][c] == emptySym
  {
    Frame(h, w, cellSym, emptySym, BlankScreen(h, w, emptySym))
  }

  /** The screen `calculate` leaves behind for the states `g`: the cell glyph
      where a cell is alive and the empty glyph elsewhere. */
  function Paint(g: Grid, h: nat, w: nat, cellSym: char, emptySym: char): (s: Screen)
    requires Rect(g, h, w)
    ensures Rect(s, h, w)
  {
    seq(h, r requires 0 <= r < h => seq(w, c requires 0 <= c < w => if g[r][c] then cellSym else emptySym))
  }

  /** With two distinct glyphs, a painted screen shows exactly the live cells:
      every entry is one of the two glyphs, and it is the cell glyph iff the
      cell is alive, so the states can be read back off the screen. */
  lemma PaintShowsStates(g: Grid, h: nat, w: nat, cellSym: char, emptySym: char)
    requires Rect(g, h, w) && cellSym != emptySym
    ensures forall r, c :: 0 <= r < h && 0 <= c < w ==>
              (Paint(g, h, w, cellSym, emptySym)[r][c] == cellSym <==> g[r][c])
    ensures forall r, c :: 0 <= r < h && 0 <= c < w ==>
              (Paint(g, h, w, cellSym, emptySym)[r][c] == emptySym <==> !g[r][c])
  {
  }

  /** `Frame#calculate`, line by line: the two nested `each` loops walk the
      field's rows in order; for every cell the eight `cells_around` are
      filtered against the bounds and the live ones counted on the field as it
      stands, the rule rewrites the cell in place, and the cell's glyph is
      written at its own recorded position. The field is copied into an array
      that the method owns, so the caller's value is untouched and the
      updated field comes back as a result.

      The postconditions say that the resulting field is the in-place sweep of
      the original one, that every cell keeps its position, and that the
      screen is the painted result. */
  method Calculate(fr: Frame, f: Field) returns (f': Field, fr': Frame)
    requires Rect(fr.screen, fr.height, fr.width)
    requires WellIndexed(f, fr.height, fr.width)
    ensures WellIndexed(f', fr.height, fr.width)
    ensures States(f', fr.height, fr.width) == Sweep(States(f, fr.height, fr.width), fr.height, fr.width)
    ensures fr' == fr.(screen := Paint(Sweep(States(f, fr.height, fr.width), fr.height, fr.width),
                                       fr.height, fr.width, fr.cellSym, fr.emptySym))
  {
    var h, w := fr.height, fr.width;
    ghost var g0 := States(f, h, w);
    ghost var s := Sweep(g0, h, w);
    var data := new Cell[h, w]((r, c) requires 0 <= r < h && 0 <= c < w => f[r][c]);
    var screen := new char[h, w]((r, c) requires 0 <= r < h && 0 <= c < w => fr.screen[r][c]);
    var r := 0;
    while r < h
      invariant 0 <= r <= h
      invariant forall a, b :: 0 <= a < h && 0 <= b < w ==> data[a, b].y == a && data[a, b].x == b
      invariant forall a, b :: 0 <= a < h && 0 <= b < w ==>
                  data[a, b].IsAlive() == if a < r then s[a][b] else g0[a][b]
      invariant forall a, b :: 0 <= a < r && 0 <= b < w ==>
                  screen[a, b] == if s[a][b] then fr.cellSym else fr.emptySym
    {
      SweepRow(data, screen, r, g0, fr.cellSym, fr.emptySym);
      r := r + 1;
    }
    f' := Snapshot(data);
    var painted := Snapshot(screen);
    SameEntries(States(f', h, w), s, h, w);
    SameEntries(painted, Paint(s, h, w, fr.cellSym, fr.emptySym), h, w);
    fr' := fr.(screen := painted);
  }

  /** The inner loop of `calculate` over row `r`: every cell of the row is
      visited in turn, rewritten in place, and its glyph written at its own
      position. Rows before `r` already hold their final sweep states and
      glyphs; afterwards row `r` does too. */
  method SweepRow(data: array2<Cell>, screen: array2<char>, r: nat, ghost g0: Grid, cellSym: char, emptySym: char)
    requires r < data.Length0 && screen.Length0 == data.Length0 && screen.Length1 == data.Length1
    requires Rect(g0, data.Length0, data.Length1)
    requires forall a, b :: 0 <= a < data.Length0 && 0 <= b < data.Length1 ==> data[a, b].y == a && data[a, b].x == b
    requires forall a, b :: 0 <= a < data.Length0 && 0 <= b < data.Length1 ==>
               data[a, b].IsAlive() == if a < r then Sweep(g0, data.Length0, data.Length1)[a][b] else g0[a][b]
    requires forall a, b :: 0 <= a < r && 0 <= b < data.Length1 ==>
               screen[a, b] == if Sweep(g0, data.Length0, data.Length1)[a][b] then cellSym else emptySym
    modifies data, screen
    ensures forall a, b :: 0 <= a < data.Length0 && 0 <= b < data.Length1 ==> data[a, b].y == a && data[a, b].x == b
    ensures forall a, b :: 0 <= a < data.Length0 && 0 <= b < data.Length1 ==>
              data[a, b].IsAlive() == if a <= r then Sweep(g0, data.Length0, data.Length1)[a][b] else g0[a][b]
    ensures forall a, b :: 0 <= a <= r && 0 <= b < data.Length1 ==>
              screen[a, b] == if Sweep(g0, data.Length0, data.Length1)[a][b] then cellSym else emptySym
  {
    var h, w := data.Length0, data.Length1;
    ghost var s := Sweep(g0, h, w);
    var c := 0;
    while c < w
      invariant 0 <= c <= w
      invariant forall a, b :: 0 <= a < h && 0 <= b < w ==> data[a, b].y == a && data[a, b].x == b
      invariant forall a, b :: 0 <= a < h && 0 <= b < w ==>
                  data[a, b].IsAlive() == if Precede(a, b, r, c) then s[a][b] else g0[a][b]
      invariant forall a, b :: 0 <= a < h && 0 <= b < w && Precede(a, b, r, c) ==>
                  screen[a, b] == if s[a][b] then cellSym else emptySym
    {
      var cell := UpdatedCell(data, r, c, g0);
      data[r, c] := cell;
      if cell.IsAlive() {
        screen[cell.y, cell.x] := cellSym;
      } else {
        screen[cell.y, cell.x] := emptySym;
      }
      c := c + 1;
    }
  }

  /** The contents of a two-dimensional array, row by row. */
  function Snapshot<T>(a: array2<T>): (s: seq<seq<T>>)
    reads a
    ensures Rect(s, a.Length0, a.Length1)
    ensures forall i, j :: 0 <= i < a.Length0 && 0 <= j < a.Length1 ==> s[i][j] == a[i, j]
  {
    seq(a.Length0, i requires 0 <= i < a.Length0 reads a =>
      seq(a.Length1, j requires 0 <= j < a.Length1 reads a => a[i, j]))
  }

  /** Which cells of a two-dimensional array are alive, row by row. */
  function AliveIn(a: array2<Cell>): (g: Grid)
    reads a
    ensures Rect(g, a.Length0, a.Length1)
    ensures forall i, j :: 0 <= i < a.Length0 && 0 <= j < a.Length1 ==> (g[i][j] <==> a[i, j].IsAlive())
  {
    seq(a.Length0, i requires 0 <= i < a.Length0 reads a =>
      seq(a.Length1, j requires 0 <= j < a.Length1 reads a => a[i, j].IsAlive()))
  }

  /** `calculate` as the Game of Life defines a generation: every cell is
      counted on the field as it was before the pass (a second buffer), and
      the rule and the screen write are those of `Calculate`. */
  method CalculateSync(fr: Frame, f: Field) returns (f': Field, fr': Frame)
    requires Rect(fr.screen, fr.height, fr.width)
    requires WellIndexed(f, fr.height, fr.width)
    ensures WellIndexed(f', fr.height, fr.width)
    ensures States(f', fr.height, fr.width) == SyncStep(States(f, fr.height, fr.width), fr.height, fr.width)
    ensures fr' == fr.(screen := Paint(SyncStep(States(f, fr.height, fr.width), fr.height, fr.width),
                                       fr.height, fr.width, fr.cellSym, fr.emptySym))
  {
    var h, w := fr.height, fr.width;
    var g := States(f, h, w);
    f' := seq(h, r requires 0 <= r < h =>
            seq(w, c requires 0 <= c < w => Step(f[r][c], LiveNeighbors(g, h, w, r, c))));
    var screen := seq(h, r requires 0 <= r < h =>
                    seq(w, c requires 0 <= c < w => if f'[r][c].IsAlive() then fr.cellSym else fr.emptySym));
    SameEntries(States(f', h, w), SyncStep(g, h, w), h, w);
    SameEntries(screen, Paint(SyncStep(g, h, w), h, w, fr.cellSym, fr.emptySym), h, w);
    fr' := fr.(screen := screen);
  }

  /** One visit of `calculate`'s inner loop, up to the writes: the cell at
      (r, c) is read, its live neighbours are counted on the array as it stands,
      and `born!` and `die!` apply the rule. When the array holds the final
      sweep states before (r, c) and the original states of `g0` from (r, c) on,
      the visited cell comes out in its final sweep state, at its own position. */
  method UpdatedCell(data: array2<Cell>, r: nat, c: nat, ghost g0: Grid) returns (cell: Cell)
    requires r < data.Length0 && c < data.Length1 && Rect(g0, data.Length0, data.Length1)
    requires forall a, b :: 0 <= a < data.Length0 && 0 <= b < data.Length1 ==>
               data[a, b].y == a && data[a, b].x == b
    requires forall a, b :: 0 <= a < data.Length0 && 0 <= b < data.Length1 ==>
               data[a, b].IsAlive() == if Precede(a, b, r, c) then Sweep(g0, data.Length0, data.Length1)[a][b] else g0[a][b]
    ensures cell.y == r && cell.x == c
    ensures cell.IsAlive() == Sweep(g0, data.Length0, data.Length1)[r][c]
  {
    ghost var cur := AliveIn(data);
    cell := data[r, c];
    var livedNeighbors := CountLivedNeighbors(data, cell.y, cell.x, cur);
    SweepVisit(g0, data.Length0, data.Length1, r, c, cur);
    cell := Step(cell, livedNeighbors);
  }

  /** The counting loop of `calculate` for the cell at (y, x): every coordinate
      of `cells_around` that passes the four bound checks, in the source's order,
      and holds a live cell adds one. `cur` is the state the array holds. */
  method CountLivedNeighbors(data: array2<Cell>, y: int, x: int, ghost cur: Grid) returns (n: nat)
    requires Rect(cur, data.Length0, data.Length1)
    requires forall a, b :: 0 <= a < data.Length0 && 0 <= b < data.Length1 ==> data[a, b].IsAlive() == cur[a][b]
    ensures n == LiveNeighbors(cur, data.Length0, data.Length1, y, x)
  {
    var h, w := data.Length0, data.Length1;
    var around := Around(y, x);
    n := 0;
    var k := 0;
    while k < |around|
      invariant 0 <= k <= |around|
      invariant n == CountLive(cur, h, w, around[..k])
    {
      var (ny, nx) := around[k];
      CountLivePrefix(cur, h, w, around, k);
      if ny > h - 1 || nx > w - 1 || ny < 0 || nx < 0 {
      } else if data[ny, nx].IsAlive() {
        n := n + 1;
      }
      k := k + 1;
    }
    assert around[..|around|] == around;
  }

  // ---------------------------------------------------------------------------
  // Rendering

  /** `row.join(' ')`: the glyphs of a row with one space between neighbours. */
  function Join(row: seq<char>): (line: string)
    ensures |row| == 0 ==> line == ""
    ensures |row| > 0 ==> |line| == 2 * |row| - 1
    ensures forall k :: 0 <= k < |line| ==> line[k] == if k % 2 == 0 then row[k / 2] else ' '
    decreases |row|
  {
    if |row| <= 1 then row
    else [row[0], ' '] + Join(row[1..])
  }

  /** Reads a joined line back: the glyphs sit at the even positions. */
  function Unjoin(line: string): (row: seq<char>)
    ensures |row| == (|line| + 1) / 2
    ensures forall i :: 0 <= i < |row| ==> row[i] == line[2 * i]
  {
    seq((|line| + 1) / 2, i requires 0 <= i < (|line| + 1) / 2 => line[2 * i])
  }

  /** Joining loses nothing: the row can be read back from its line. */
  lemma UnjoinJoin(row: seq<char>)
    ensures Unjoin(Join(row)) == row
  {
    var line := Join(row);
    forall i | 0 <= i < |row| ensures Unjoin(line)[i] == row[i] {
      assert (2 * i) % 2 == 0 && (2 * i) / 2 == i;
    }
  }

  /** `@screen.map { |row| row.join(' ') }`: the lines that `render` hands to `puts`. */
  function Render(s: Screen): (lines: seq<string>)
    ensures |lines| == |s|
    ensures forall r :: 0 <= r < |s| ==> Unjoin(lines[r]) == s[r]
    ensures forall r :: 0 <= r < |s| && |s[r]| > 0 ==>
              |lines[r]| == 2 * |s[r]| - 1 &&
              forall k :: 0 <= k < |lines[r]| ==> lines[r][k] == if k % 2 == 0 then s[r][k / 2] else ' '
  {
    seq(|s|, r requires 0 <= r < |s| => Join(s[r]))
  }

  /** On a rendered frame of a `h x w` field with distinct glyphs, line `r`
      shows the cell glyph at column `2c` exactly when cell (r, c) is alive. */
  lemma RenderShowsStates(g: Grid, h: nat, w: nat, cellSym: char, emptySym: char, r: nat, c: nat)
    requires Rect(g, h, w) && cellSym != emptySym && r < h && c < w
    ensures 2 * c < |Render(Paint(g, h, w, cellSym, emptySym))[r]|
    ensures Render(Paint(g, h, w, cellSym, emptySym))[r][2 * c] == cellSym <==> g[r][c]
  {
    var s := Paint(g, h, w, cellSym, emptySym);
    assert Join(s[r])[2 * c] == s[r][c];
  }
}
