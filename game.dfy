/** js/game.js: the module globals of the tracing game as the fields of one
    object, and `resetGame`, `spawnFood`, `update`, `finishDrawing` and
    `loop` as the methods that change them. Each method is specified by
    the matching function of module Trace on the old state; what a whole
    drawing does is proved there. */
module SnakeGame {
  import opened Grid
  import Paths
  import Trace
  import Render

  class Game {
    /** The grid size that `resize` computes from the canvas. */
    var cols: int
    var rows: int
    /** Whether paths.js was loaded (`typeof PATHS !== 'undefined'`). */
    var pathsLoaded: bool

    var snake: seq<Cell>
    var food: Option<Cell>
    var score: int
    var isGameOver: bool
    var drawPath: seq<Cell>
    var pathIndex: nat

    var lastTime: int
    var accumulator: int

    /** The logic globals as one value. */
    function State(): Trace.State
      reads this
    {
      Trace.State(snake, food, score, isGameOver, drawPath, pathIndex)
    }

    function Clock(): Trace.Clock
      reads this
    {
      Trace.Clock(lastTime, accumulator)
    }

    ghost predicate Valid()
      reads this
    {
      Trace.Inv(State())
    }

    /** The globals' initial values, then `init` on a grid of the given
        size: `resetGame`, with the clock not started yet. */
    constructor (cols: int, rows: int, pathsLoaded: bool)
      ensures this.cols == cols && this.rows == rows && this.pathsLoaded == pathsLoaded
      ensures State() == Trace.Reset(Trace.State([], None, 0, false, [], 0), Trace.RawPath(pathsLoaded), cols, rows)
      ensures Clock() == Trace.Clock(0, 0)
      ensures Valid()
    {
      this.cols := cols;
      this.rows := rows;
      this.pathsLoaded := pathsLoaded;
      snake := [];
      food := None;
      score := 0;
      isGameOver := false;
      drawPath := [];
      pathIndex := 0;
      lastTime := 0;
      accumulator := 0;
      new;
      ResetGame();
    }

    /** `resetGame`: generate the path (or take the fallback line), then
        centre it and start the snake on it. */
    method ResetGame()
      modifies this`snake, this`food, this`score, this`isGameOver, this`drawPath, this`pathIndex
      ensures State() == Trace.Reset(old(State()), Trace.RawPath(pathsLoaded), cols, rows)
      ensures Valid()
    {
      ghost var s0 := State();
      var raw: seq<Cell>;
      if pathsLoaded {
        raw := Paths.GetHardcodedCoinis();
      } else {
        raw := [Cell(10, 10), Cell(11, 10), Cell(12, 10)];
      }
      Trace.LoadedRaw(pathsLoaded, raw);
      Place(raw);
      Trace.ResetOfRaw(s0, State(), raw, pathsLoaded, cols, rows);
    }

    /** The rest of `resetGame` on the path it generated: clear the flags,
        centre the path on the grid, and start a one-cell snake on its
        first cell with the food on the second. */
    method Place(raw: seq<Cell>)
      modifies this`snake, this`food, this`score, this`isGameOver, this`drawPath, this`pathIndex
      ensures State() == Trace.Reset(old(State()), raw, cols, rows)
      ensures Valid()
    {
      ghost var s0 := State();
      isGameOver := false;
      score := 0;
      pathIndex := 0;
      var pWidth := Trace.PathMaxX - Trace.PathMinX;
      var pHeight := Trace.PathMaxY - Trace.PathMinY;
      var offsetX := (cols - pWidth) / 2 - Trace.PathMinX;
      var offsetY := (rows - pHeight) / 2 - Trace.PathMinY;
      drawPath := Trace.Translate(raw, offsetX, offsetY);
      if |drawPath| > 0 {
        snake := [drawPath[0]];
        pathIndex := 0;
        SpawnFood();
      } else {
        snake := [Cell(5, 5)];
      }
      Trace.ResetFacts(s0, raw, cols, rows);
    }

    /** `spawnFood`: the food goes on the next path cell, or away. */
    method SpawnFood()
      modifies this`food
      ensures food == Trace.SpawnFood(drawPath, pathIndex)
    {
      if pathIndex + 1 < |drawPath| {
        food := Some(drawPath[pathIndex + 1]);
      } else {
        food := None;
      }
    }

    /** `finishDrawing`, as far as the logic state goes; the reveal timer
        that fires after it is a later call of `ResetGame`. */
    method FinishDrawing()
      modifies this`isGameOver
      ensures State() == Trace.Finish(old(State()))
    {
      isGameOver := true;
    }

    /** `update`: finish at the end of the path, or grow onto the next
        cell. The food test is guarded here, and both of its branches do
        the same. */
    method Update()
      modifies this`snake, this`food, this`score, this`isGameOver, this`pathIndex
      ensures State() == Trace.Step(old(State()))
      ensures old(Valid()) ==> Valid()
    {
      ghost var s := State();
      if pathIndex >= |drawPath| - 1 {
        FinishDrawing();
        assert State() == Trace.Step(s);
      } else {
        var nextPos := drawPath[pathIndex + 1];
        snake := [nextPos] + snake;
        if food.Some? && nextPos.x == food.value.x && nextPos.y == food.value.y {
          score := score + 1;
          pathIndex := pathIndex + 1;
          SpawnFood();
        } else {
          score := score + 1;
          pathIndex := pathIndex + 1;
          SpawnFood();
        }
        assert State() == Trace.Step(s);
      }
      if Trace.Inv(s) {
        Trace.StepInv(s);
      }
    }

    /** One `requestAnimationFrame` callback: advance the accumulator, run
        at most one update, and return what `draw` paints. */
    method Loop(timestamp: int) returns (picture: Render.Picture)
      modifies this`snake, this`food, this`score, this`isGameOver, this`pathIndex
      modifies this`lastTime, this`accumulator
      ensures (State(), Clock()) == Trace.Frame(old(State()), old(Clock()), timestamp)
      ensures picture == Render.Painted(snake, food)
      ensures old(Valid()) ==> Valid()
    {
      if lastTime == 0 {
        lastTime := timestamp;
      }
      var deltaTime := timestamp - lastTime;
      lastTime := timestamp;
      if !isGameOver {
        accumulator := accumulator + deltaTime;
        if accumulator >= Trace.Speed {
          Update();
          accumulator := accumulator - Trace.Speed;
        }
      }
      picture := Render.Draw(snake, food);
    }
  }
}
