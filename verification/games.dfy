/** The `Game` class of run.rb: the screen size fixes the field's size, and
    `execute` draws one frame per generation. */
module Games {
  import opened Results
  import opened Fields
  import opened Generation
  import opened Frames
  import opened Patterns

  /** The glyph of a live cell and of an empty position. */
  const CellSymbol: char := '*'
  const EmptySymbol: char := ' '

  /** The number of frames `Game#execute` draws. */
  const FrameCount: nat := 100000

  /** A game: frames per second (used by `render` only to pace its output),
      the field's size, the field, and the two glyphs. */
  datatype Game = Game(fps: int, height: nat, width: nat, field: Field, cellSym: char, emptySym: char)
  {
    /** The field has the game's size and the layout `Field.new` gives it. */
    predicate Valid() {
      WellIndexed(field, height, width)
    }

    /** `Frame.new(self)`. */
    function NewFrameOf(): (fr: Frame)
      ensures fr.height == height && fr.width == width
      ensures fr.cellSym == cellSym && fr.emptySym == emptySym
      ensures Rect(fr.screen, height, width)
      ensures forall y, x :: 0 <= y < height && 0 <= x < width ==> fr.screen[y][x] == emptySym
    {
      NewFrame(height, width, cellSym, emptySym)
    }
  }

  /** `Game.new(config)` for a terminal of `rows x cols` characters: one line is
      kept free, and every cell takes two columns (its glyph and a space), so
      the field has `rows - 1` rows of `cols / 2` cells, `/` rounding down as
      Ruby's integer division does. The field's random initial states are
      `seed`. The only failure is the one `Field.new` raises for a negative
      size. */
  function NewGame(rows: int, cols: int, fps: int, seed: (int, int) -> bool): (r: Result<Game>)
    ensures r.Err? <==> rows < 1 || (rows > 1 && cols < 0)
    ensures r.Ok? ==> r.value.Valid()
    ensures r.Ok? ==> r.value.height == rows - 1
    ensures r.Ok? && rows > 1 ==> 2 * r.value.width <= cols <= 2 * r.value.width + 1
    ensures r.Ok? ==> r.value.fps == fps && r.value.cellSym == '*' && r.value.emptySym == ' '
    ensures r.Ok? ==> forall y, x :: 0 <= y < r.value.height && 0 <= x < r.value.width ==>
                         (r.value.field[y][x].IsAlive() <==> seed(y, x))
  {
    var screenY, screenX := rows - 1, cols / 2;
    match NewField(screenY, screenX, seed)
    case Err(e) => Err(e)
    case Ok(f) =>
      Ok(Game(fps, screenY, if screenY == 0 then 0 else screenX, f, CellSymbol, EmptySymbol))
  }

  /** The states after `n` passes of `calculate`. */
  function Generations(g: Grid, h: nat, w: nat, n: nat): (g': Grid)
    requires Rect(g, h, w)
    ensures Rect(g', h, w)
  {
    if n == 0 then g else Sweep(Generations(g, h, w, n - 1), h, w)
  }

  /** The states after `n` synchronous generations. */
  function SyncGenerations(g: Grid, h: nat, w: nat, n: nat): (g': Grid)
    requires Rect(g, h, w)
    ensures Rect(g', h, w)
  {
    if n == 0 then g else SyncStep(SyncGenerations(g, h, w, n - 1), h, w)
  }

  /** The lines of frame `k` (from 0) of the double-buffered run. */
  function SyncFrame(g: Grid, h: nat, w: nat, cellSym: char, emptySym: char, k: nat): seq<string>
    requires Rect(g, h, w)
  {
    Render(Paint(SyncGenerations(g, h, w, k + 1), h, w, cellSym, emptySym))
  }

  /** An empty field stays empty for ever. */
  lemma {:induction false} AllDeadForever(g: Grid, h: nat, w: nat, n: nat)
    requires Rect(g, h, w) && AllDead(g, h, w)
    ensures Generations(g, h, w, n) == g
  {
    if n > 0 {
      AllDeadForever(g, h, w, n - 1);
      AllDeadIsFixed(g, h, w);
    }
  }

  /** A still life of the Game of Life is redrawn unchanged in every frame. */
  lemma {:induction false} StillLifeForever(g: Grid, h: nat, w: nat, n: nat)
    requires Rect(g, h, w) && SyncStep(g, h, w) == g
    ensures Generations(g, h, w, n) == g
  {
    if n > 0 {
      StillLifeForever(g, h, w, n - 1);
      SyncFixedIsSweepFixed(g, h, w);
    }
  }

  /** A field with at most one live cell is empty from the first frame on. */
  lemma LoneCellGone(g: Grid, h: nat, w: nat, py: int, px: int, n: nat)
    requires Rect(g, h, w) && LiveOnlyAt(g, h, w, py, px) && n > 0
    ensures AllDead(Generations(g, h, w, n), h, w)
  {
    var first := Generations(g, h, w, 1);
    assert Generations(g, h, w, 0) == g;
    assert first == Sweep(g, h, w);
    LoneCellDiesSweep(g, h, w, py, px);
    AllDeadForever(first, h, w, n - 1);
    GenerationsSplit(g, h, w, 1, n - 1);
  }

  /** Running `m + n` passes is running `m` and then `n` more. */
  lemma {:induction false} GenerationsSplit(g: Grid, h: nat, w: nat, m: nat, n: nat)
    requires Rect(g, h, w)
    ensures Generations(g, h, w, m + n) == Generations(Generations(g, h, w, m), h, w, n)
  {
    if n > 0 {
      GenerationsSplit(g, h, w, m, n - 1);
    }
  }

  /** `Game#execute` for `n` frames: each frame is a fresh `Frame.new(self)`,
      `calculate` advances the game's one field in place, and `render` turns
      the frame's screen into text lines. The field after the last frame and
      the lines of every frame come back as results. Frame `k` (from 0) shows
      the states after `k + 1` passes. */
  method Execute(game: Game, n: nat) returns (field: Field, shown: seq<seq<string>>)
    requires game.Valid()
    ensures WellIndexed(field, game.height, game.width)
    ensures States(field, game.height, game.width) ==
              Generations(States(game.field, game.height, game.width), game.height, game.width, n)
    ensures |shown| == n
    ensures forall k :: 0 <= k < n ==>
              shown[k] == Render(Paint(Generations(States(game.field, game.height, game.width), game.height, game.width, k + 1),
                                       game.height, game.width, game.cellSym, game.emptySym))
  {
    var h, w := game.height, game.width;
    ghost var g0 := States(game.field, h, w);
    field := game.field;
    shown := [];
    var i := 0;
    while i < n
      invariant 0 <= i <= n
      invariant WellIndexed(field, h, w)
      invariant States(field, h, w) == Generations(g0, h, w, i)
      invariant |shown| == i
      invariant forall k :: 0 <= k < i ==>
                  shown[k] == Render(Paint(Generations(g0, h, w, k + 1), h, w, game.cellSym, game.emptySym))
    {
      var frame := game.NewFrameOf();
      field, frame := Calculate(frame, field);
      shown := shown + [Render(frame.screen)];
      i := i + 1;
    }
  }

  /** The whole run: `FrameCount` frames. */
  method Run(game: Game) returns (field: Field, shown: seq<seq<string>>)
    requires game.Valid()
    ensures |shown| == FrameCount
    ensures WellIndexed(field, game.height, game.width)
    ensures States(field, game.height, game.width) ==
              Generations(States(game.field, game.height, game.width), game.height, game.width, FrameCount)
    ensures forall k :: 0 <= k < FrameCount ==>
              shown[k] == Render(Paint(Generations(States(game.field, game.height, game.width), game.height, game.width, k + 1),
                                       game.height, game.width, game.cellSym, game.emptySym))
  {
    field, shown := Execute(game, FrameCount);
  }

  /** `Game#execute` with the double-buffered pass: the frames then follow the
      Game of Life generation by generation. */
  method ExecuteSync(game: Game, n: nat) returns (field: Field, shown: seq<seq<string>>)
    requires game.Valid()
    ensures WellIndexed(field, game.height, game.width)
    ensures States(field, game.height, game.width) ==
              SyncGenerations(States(game.field, game.height, game.width), game.height, game.width, n)
    ensures |shown| == n
    ensures forall k :: 0 <= k < n ==>
              shown[k] == SyncFrame(States(game.field, game.height, game.width), game.height, game.width,
                                    game.cellSym, game.emptySym, k)
  {
    var h, w := game.height, game.width;
    ghost var g0 := States(game.field, h, w);
    field := game.field;
    shown := [];
    var i := 0;
    while i < n
      invariant 0 <= i <= n
      invariant WellIndexed(field, h, w)
      invariant States(field, h, w) == SyncGenerations(g0, h, w, i)
      invariant |shown| == i
      invariant forall k :: 0 <= k < i ==> shown[k] == SyncFrame(g0, h, w, game.cellSym, game.emptySym, k)
    {
      var lines;
      field, lines := SyncFrameOf(game, field, g0, i);
      ghost var before := shown;
      shown := shown + [lines];
      forall k | 0 <= k < i + 1 ensures shown[k] == SyncFrame(g0, h, w, game.cellSym, game.emptySym, k) {
        if k < i {
          assert shown[k] == before[k];
        }
      }
      i := i + 1;
    }
  }

  /** One frame of `ExecuteSync`: a fresh frame, the double-buffered pass, and
      the rendered lines, for a field that holds generation `i` of `g0`. */
  method SyncFrameOf(game: Game, field: Field, ghost g0: Grid, ghost i: nat) returns (field': Field, lines: seq<string>)
    requires WellIndexed(field, game.height, game.width) && Rect(g0, game.height, game.width)
    requires States(field, game.height, game.width) == SyncGenerations(g0, game.height, game.width, i)
    ensures WellIndexed(field', game.height, game.width)
    ensures States(field', game.height, game.width) == SyncGenerations(g0, game.height, game.width, i + 1)
    ensures lines == SyncFrame(g0, game.height, game.width, game.cellSym, game.emptySym, i)
  {
    var frame := game.NewFrameOf();
    field', frame := CalculateSync(frame, field);
    lines := Render(frame.screen);
  }
}
