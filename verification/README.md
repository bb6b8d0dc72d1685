# Conway's Life in the terminal: a Dafny model

This project models the simulation core of `run.rb`, a terminal Game of Life
written in Ruby. The model covers:

- a `Field` of `Cell`s sized from the terminal: `rows - 1` rows of `cols / 2` cells;
- the `Frame#calculate` pass, which counts each cell's live neighbours on a
  clamped (non-wrapping) grid and applies the B3/S23 rule, updating the cells
  **in place, in row-major order**, while later cells are still being counted;
- the screen buffer the pass paints, and the text lines `render` makes of it;
- `Game#execute`, which draws one such frame per generation.

Modules, in dependency order:

- `Cells` (cells.dfy): the `Cell` record, `born!`, `die!`, `alive?`,
  `dead?`, and `cells_around`.
- `Results` and `Fields` (fields.dfy): the `ArgumentError` a negative size
  raises, `Field.new`, and the row-by-row layout of the field.
- `Generation` (generation.dfy):
  - the neighbour count and the rule;
  - `Pass`, a row-major in-place pass over any per-cell update;
  - `Sweep`, which is that pass with the Life update (what `calculate` does);
  - `SyncStep`, the textbook synchronous generation, for comparison.
- `Patterns` (patterns.dfy): the empty field, a lone cell, the block, and the
  blinker.
- `Frames` (frames.dfy):
  - the screen buffer;
  - `Calculate`, an imperative method over `array2` that follows the source's
    loops line by line and is proved equal to `Sweep`;
  - `join` and `render`.
- `Games` (games.dfy): `Game.new` and `execute`.

Two inputs become parameters:

- The terminal size (`rows`, `cols`).
- The random initial state of each cell, as a function `seed(y, x)`.

`Calculate` copies the field into an array it owns and returns the updated
field and frame as results. The Ruby version mutates the shared field
instead.

## Model

| member | source | states |
|---|---|---|
| `Cells.TransitionsIdempotent` | run.rb:139-147 | `die!` and `born!` are idempotent, and the last of two transitions decides the status |
| `Cells.Cell.Die` | run.rb:139-142 | `die!` leaves the cell dead and keeps its `y` and `x` |
| `Cells.Cell.Born` | run.rb:144-147 | `born!` leaves the cell alive and keeps its `y` and `x` |
| `Cells.Around` | run.rb:157-168 | `cells_around` returns eight coordinates; the body lists them in the source's order, and `Cells.AroundIsNeighbourhood` states which they are |
| `Cells.AroundIsNeighbourhood` | run.rb:157-168 | `cells_around` lists 8 distinct coordinates. Each is a Moore neighbour: within 1 on both axes and not the cell itself. Every Moore neighbour is listed. |
| `Fields.NewField` | run.rb:113-124 | fails exactly for a negative height, or a positive height with a negative width. Otherwise the cell stored at row r, column c records `y == r` and `x == c`, and is alive iff `seed(r, c)`. |
| `Generation.LiveNeighborsIsCardinality` | run.rb:60-75 | the count over the bound-filtered `cells_around` equals the number of live in-range Moore neighbours |
| `Generation.CornerAtMostThree` | run.rb:62-75 | a corner cell counts at most 3 live neighbours |
| `Generation.EdgeAtMostFive` | run.rb:62-75 | an edge cell counts at most 5 live neighbours |
| `Generation.LiveNeighborsLocal` | run.rb:62-75 | the count depends only on the in-range neighbours' states |
| `Generation.Rule` | run.rb:77-83 | the two `if`s amount to B3/S23: alive next iff the count is 3, or the count is 2 and the cell is alive |
| `Generation.Step` | run.rb:77-83 | on a cell object, a count of 3 is `born!`, a count below 2 or above 3 is `die!`, and 2 leaves the cell as it is. The position never changes. |
| `Generation.PassSettled` | run.rb:58-59 | once the row-major pass has visited a cell, nothing later writes it again |
| `Generation.PassFixed` | run.rb:58-59 | a pass whose every visit rewrites the value already there changes nothing |
| `Generation.InPlaceSweep` | run.rb:57-92 | each cell's final state is the rule applied to its original state and to a count taken on a grid that mixes states: cells visited earlier hold their new states, all others their old ones |
| `Generation.SweepAgreesWithSync` | run.rb:57-92 | if no earlier-visited neighbour of a cell changed, the sweep gives that cell the synchronous generation's state |
| `Generation.SyncFixedIsSweepFixed` | run.rb:57-92 | every still life of the Game of Life is left unchanged by the in-place pass |
| `Generation.SyncLocal` | run.rb:57-92 | in the synchronous generation a cell's next state depends only on its own old state and its neighbours' old states |
| `Patterns.AllDeadIsFixed` | run.rb:57-92 | an all-dead field is a fixed point of the in-place pass and of the synchronous step |
| `Patterns.LoneCellDiesSync` | run.rb:57-92 | with at most one live cell, the synchronous step leaves every cell dead |
| `Patterns.LoneCellDiesSweep` | run.rb:57-92 | with at most one live cell, the in-place pass leaves every cell dead: the cell dies and nothing is born |
| `Patterns.BlockIsStill` | run.rb:57-92 | a 2x2 block anywhere in the field, at an edge or not, is unchanged by both passes |
| `Patterns.BlinkerSweepLeaks` | run.rb:57-92 | on a 3x3 field, the in-place pass brings (0, 2) to life next to a flat blinker, though not next to a grid that agrees with it on (0, 2)'s whole neighbourhood. The synchronous step keeps (0, 2) dead in both. |
| `Patterns.BlinkerOscillates` | run.rb:57-92 | under the synchronous step the blinker turns upright and back |
| `Frames.BlankScreen` | run.rb:54 | the fresh buffer has `height` rows of `width` empty glyphs |
| `Frames.NewFrame` | run.rb:45-55 | a new frame has the game's size and glyphs and a blank buffer |
| `Games.Game.NewFrameOf` | run.rb:35 | `Frame.new(self)` has the game's size and glyphs and a blank buffer of that size |
| `Frames.PaintShowsStates` | run.rb:85-89 | with distinct glyphs, a buffer entry is the cell glyph iff the cell is alive after its update, and the empty glyph iff it is dead |
| `Frames.CountLivedNeighbors` | run.rb:60-75 | the counting loop returns the live-neighbour count of the array as it stands |
| `Frames.UpdatedCell` | run.rb:60-83 | one visit of the inner loop returns the cell in its final sweep state, at its own position |
| `Frames.SweepRow` | run.rb:59-90 | after the inner loop over row `r`, the cells of rows up to `r` hold their `Sweep` states and the buffer holds their glyphs, later rows still hold their old states, and every cell keeps its position |
| `Frames.Calculate` | run.rb:57-92 | the nested loops leave the field with the states of `Sweep`, keep every cell's position, and leave the painted `Sweep` in the buffer |
| `Frames.CalculateSync` | run.rb:57-92 | the double-buffered pass leaves the field with the states of `SyncStep`, and its painting in the buffer |
| `Frames.Join` | run.rb:97 | `row.join(' ')` of a nonempty row has length 2w-1, with glyph k at position 2k and a space at every odd position. An empty row joins to `""`. |
| `Frames.UnjoinJoin` | run.rb:97 | joining loses nothing: taking the even positions gives the row back |
| `Frames.Render` | run.rb:97 | one line per buffer row. Each line reads back to its row, and has glyphs at even positions and spaces at odd positions. |
| `Frames.RenderShowsStates` | run.rb:85-97 | in a rendered frame, line r has the cell glyph at column 2c iff cell (r, c) is alive |
| `Games.NewGame` | run.rb:23-31 | the field has `rows - 1` rows and `cols / 2` cells per row, rounding down. It is laid out by `Field.new` and seeded. The glyphs are `'*'` and `' '`. It fails only as `Field.new` does. |
| `Games.GenerationsSplit` | run.rb:34-38 | running `m + n` passes is running `m` passes and then `n` more |
| `Games.AllDeadForever` | run.rb:33-39 | an empty field stays empty in every frame |
| `Games.StillLifeForever` | run.rb:33-39 | a still life is redrawn unchanged in every frame |
| `Games.LoneCellGone` | run.rb:33-39 | with at most one live cell, every frame from the first on shows an empty field |
| `Games.Execute` | run.rb:33-39 | after `n` frames the field holds `n` in-place passes of the start, and frame k shows the rendering of pass k + 1 |
| `Games.Run` | run.rb:34 | the same, for the program's 100000 frames |
| `Games.ExecuteSync` | run.rb:33-39 | with the double-buffered pass, after `n` frames the field holds `n` Game of Life generations of the start, and frame k shows generation k + 1 |

Three behaviours of the code that are easy to miss:

- **Zero sizes.** A field with zero rows or zero columns is accepted. Only a
  negative size fails: Ruby's `Array.new` raises `ArgumentError` for it.
- **Rounding.** `cols / 2` rounds toward minus infinity, so when `rows > 1` a
  negative column count fails rather than becoming zero. When `rows == 1` the
  field has no rows, the inner `Array.new` is never called, and any column
  count is accepted. For a divisor of 2, Dafny's
  Euclidean `/` agrees with this.
- **In-place update.** The pass updates cells in place and in order, which
  lets updates leak (see Findings).

## Left out

- Terminal-size detection (`TTY::Screen`) and the `Main` class: the size is the parameter pair `rows`, `cols` of `NewGame`.
- The random draw `rand(1..100) > 90` in `Cell#initialize` is the parameter `seed`, asked once per position. The order of the draws and the roughly 10% density are not modelled.
- `render`'s timing (`Time.now` and `sleep((1 - difference) / @fps)`) is not modelled, and `fps` is only kept as a field. This leaves out a crash: when the interval is negative (a render that takes longer than a second, or a negative `fps`), `sleep` raises `ArgumentError` and ends `Game#execute`. The model never fails after `NewGame`.
- `puts` is not modelled: `Render` and `Execute` return the lines that would be written.
- `Frames.Render`: with no rows (`rows == 1`), `puts []` still writes one empty line per frame, but `Render` returns `[]`. Output of `puts` is not modelled, so this line is not either.
- `Games.NewGame`: when `rows - 1` is 0 the field has no rows. Ruby then keeps `cols / 2`, possibly negative, as the width, but the model stores 0. Nothing reads the width of an empty field, so no behaviour changes.
- The glyphs are the one-character strings `'*'` and `' '` in the source, so they are characters in the model. Longer glyph strings would change the line lengths stated for `Join`.
- `die!` and `born!` return `nil`, which no caller uses.
- Sharing: in Ruby every frame mutates the one field object owned by the game. The model threads the field from frame to frame explicitly, which has the same effect with one thread of control.

## Findings

| source | as written | input that shows it | evidently intended | confidence | as-written member | corrected member |
|---|---|---|---|---|---|---|
| run.rb:57-92 | `calculate` updates each cell in place while it walks the field, so cells visited later count neighbours that already hold their next-generation state | 3x3 field whose middle row is alive (a flat blinker). (0, 1) is born first and then counts as a third live neighbour of (0, 2), so (0, 2) is born too. In the Game of Life it stays dead, and the blinker should turn upright. | every cell's next state computed from the previous generation only (double buffering) | not executed | `Patterns.BlinkerSweepLeaks` | `Frames.CalculateSync` (driven by `Games.ExecuteSync`; `Patterns.BlinkerOscillates` proves the intended behaviour on the same input) |
