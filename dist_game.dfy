/** dist/SnakeDemo/js/game.js, the built copy of the game. It differs from
    js/game.js in two places: `resetGame` always calls paths.js (there is
    no fallback line), and `update` reads `food.x` without first testing
    `food` for `null`. That read needs food whenever the drawing is not
    finished, which `Update` demands and the invariant `Valid` provides. */
module DistSnakeGame {
  import opened Grid
  import Paths
  import Trace
  import Render

  class Game {
    /** The grid size that `resize` computes from the canvas. */
    var cols: int
    var rows: int

    var snake: seq<Cell>
    var food: Option<Cell>
    var score: int
    var isGameOver: bool
    var drawPath: seq<Cell>
    var pathIndex: nat

    var lastTime: int
    var accumulator: int

    /** The logic globals as one value. */
    function State(): Trace.State
      reads this
    {
      Trace.State(snake, food, score, isGameOver, drawPath, pathIndex)
    }

    function Clock(): Trace.Clock
      reads this
    {
      Trace.Clock(lastTime, accumulator)
    }

    ghost predicate Valid()
      reads this
    {
      Trace.Inv(State())
    }

    /** The globals' initial values, then `init` on a grid of the given
        size: `resetGame`, with the clock not started yet. */
    constructor (cols: int, rows: int)
      ensures this.cols == cols && this.rows == rows
      ensures State() == Trace.Reset(Trace.State([], None, 0, false, [], 0), Paths.CoinisPath(), cols, rows)
      ensures Clock() == Trace.Clock(0, 0)
      ensures Valid()
    {
      this.cols := cols;
      this.rows := rows;
      snake := [];
      food := None;
      score := 0;
      isGameOver := false;
      drawPath := [];
      pathIndex := 0;
      lastTime := 0;
      accumulator := 0;
      new;
      ResetGame();
    }

    /** `resetGame`: generate the path with paths.js, then centre it and
        start the snake on it. */
    method ResetGame()
      modifies this`snake, this`food, this`score, this`isGameOver, this`drawPath, this`pathIndex
      ensures State() == Trace.Reset(old(State()), Paths.CoinisPath(), cols, rows)
      ensures Valid()
    {
      var raw := Paths.GetHardcodedCoinis();
      Place(raw);
    }

    /** The rest of `resetGame` on the path it generated: clear the flags,
        centre the path on the grid, and start a one-cell snake on its
        first cell with the food on the second. */
    method Place(raw: seq<Cell>)
      modifies this`snake, this`food, this`score, this`isGameOver, this`drawPath, this`pathIndex
      ensures State() == Trace.Reset(old(State()), raw, cols, rows)
      ensures Valid()
    {
      ghost var s0 := State();
      isGameOver := false;
      score := 0;
      pathIndex := 0;
      var pWidth := Trace.PathMaxX - Trace.PathMinX;
      var pHeight := Trace.PathMaxY - Trace.PathMinY;
      var offsetX := (cols - pWidth) / 2 - Trace.PathMinX;
      var offsetY := (rows - pHeight) / 2 - Trace.PathMinY;
      drawPath := Trace.Translate(raw, offsetX, offsetY);
      if |drawPath| > 0 {
        snake := [drawPath[0]];
        pathIndex := 0;
        SpawnFood();
      } else {
        snake := [Cell(5, 5)];
      }
      Trace.ResetFacts(s0, raw, cols, rows);
    }

    /** `spawnFood`: the food goes on the next path cell, or away. */
    method SpawnFood()
      modifies this`food
      ensures food == Trace.SpawnFood(drawPath, pathIndex)
    {
      if pathIndex + 1 < |drawPath| {
        food := Some(drawPath[pathIndex + 1]);
      } else {
        food := None;
      }
    }

    /** `finishDrawing`, as far as the logic state goes; the reveal timer
        that fires after it is a later call of `ResetGame`. */
    method FinishDrawing()
      modifies this`isGameOver
      ensures State() == Trace.Finish(old(State()))
    {
      isGameOver := true;
    }

    /** `update` with the unguarded food test: when the drawing is not
        finished the source reads `food.x`, so food must be there. Both
        branches of the test then do the same; inside the invariant the
        food is always on the cell the head moves to, so the test always
        succeeds. */
    method Update()
      requires !Trace.Finished(State()) ==> food.Some?
      modifies this`snake, this`food, this`score, this`isGameOver, this`pathIndex
      ensures State() == Trace.Step(old(State()))
      ensures old(Valid()) ==> Valid()
      ensures old(Valid()) && !Trace.Finished(old(State())) ==> old(food) == Some(snake[0])
    {
      ghost var s := State();
      if pathIndex >= |drawPath| - 1 {
        FinishDrawing();
        assert State() == Trace.Step(s);
      } else {
        var nextPos := drawPath[pathIndex + 1];
        snake := [nextPos] + snake;
        if nextPos.x == food.value.x && nextPos.y == food.value.y {
          score := score + 1;
          pathIndex := pathIndex + 1;
          SpawnFood();
        } else {
          pathIndex := pathIndex + 1;
          score := score + 1;
          SpawnFood();
        }
        assert State() == Trace.Step(s);
      }
      if Trace.Inv(s) {
        Trace.StepInv(s);
        if !Trace.Finished(s) {
          Trace.FoodIsNext(s);
        }
      }
    }

    /** One `requestAnimationFrame` callback: advance the accumulator, run
        at most one update, and return what `draw` paints. */
    method Loop(timestamp: int) returns (picture: Render.Picture)
      requires Valid()
      modifies this`snake, this`food, this`score, this`isGameOver, this`pathIndex
      modifies this`lastTime, this`accumulator
      ensures (State(), Clock()) == Trace.Frame(old(State()), old(Clock()), timestamp)
      ensures picture == Render.Painted(snake, food)
      ensures Valid()
    {
      if lastTime == 0 {
        lastTime := timestamp;
      }
      var deltaTime := timestamp - lastTime;
      lastTime := timestamp;
      if !isGameOver {
        accumulator := accumulator + deltaTime;
        if accumulator >= Trace.Speed {
          if !Trace.Finished(State()) {
            Trace.FoodIsNext(State());
          }
          Update();
          accumulator := accumulator - Trace.Speed;
        }
      }
      picture := Render.Draw(snake, food);
    }
  }
}
