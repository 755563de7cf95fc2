/** The logic shared by js/game.js and dist/SnakeDemo/js/game.js: the
    state of one drawing, what `resetGame`, `update` and `spawnFood` make
    of it, the centring of the path on the grid, and the fixed-timestep
    accumulator of `loop`. Both game modules drive their globals with
    these functions. */
module Trace {
  import opened Grid
  import Paths

  /** The logic globals of the game. */
  datatype State = State(
    snake: seq<Cell>,      // head first
    food: Option<Cell>,    // `null` is None
    score: int,
    isGameOver: bool,
    drawPath: seq<Cell>,
    pathIndex: nat)

  /** The timing globals `lastTime` and `accumulator`, in milliseconds. */
  datatype Clock = Clock(lastTime: int, accumulator: int)

  /** `CONFIG.speed`: milliseconds per step. */
  const Speed: int := 60

  /** `spawnFood`: the next cell of the path, or `null` past its end. */
  function SpawnFood(path: seq<Cell>, pathIndex: nat): Option<Cell> {
    if pathIndex + 1 < |path| then Some(path[pathIndex + 1]) else None
  }

  /** The test at the top of `update`: no cell left to move to. */
  predicate Finished(s: State) {
    s.pathIndex >= |s.drawPath| - 1
  }

  /** `finishDrawing` as far as the logic state goes. */
  function Finish(s: State): State {
    s.(isGameOver := true)
  }

  /** `update`: finish, or move the head onto the next path cell without
      dropping the tail, count the step, and put the food one cell ahead. */
  function Step(s: State): State {
    if Finished(s) then Finish(s)
    else
      var nextPos := s.drawPath[s.pathIndex + 1];
      s.(snake := [nextPos] + s.snake,
         score := s.score + 1,
         pathIndex := s.pathIndex + 1,
         food := SpawnFood(s.drawPath, s.pathIndex + 1))
  }

  // ---------------------------------------------------------------------
  // Centring (`resetGame`).

  /** The bounding box the centring assumes, and its size as the source
      computes it: `pathMaxX - pathMinX` and `pathMaxY - pathMinY`. */
  const PathMinX: int := 2
  const PathMaxX: int := 28
  const PathMinY: int := 10
  const PathMaxY: int := 18

  /** `Math.floor((cols - pWidth) / 2) - pathMinX`. Dafny's `/` by a
      positive divisor rounds down, as `Math.floor` does, also below zero. */
  function OffsetX(cols: int): int {
    (cols - (PathMaxX - PathMinX)) / 2 - PathMinX
  }

  function OffsetY(rows: int): int {
    (rows - (PathMaxY - PathMinY)) / 2 - PathMinY
  }

  /** Every cell moved by `(dx, dy)`. */
  function Translate(path: seq<Cell>, dx: int, dy: int): (r: seq<Cell>)
    ensures |r| == |path|
  {
    seq(|path|, i requires 0 <= i < |path| => Cell(path[i].x + dx, path[i].y + dy))
  }

  /** `drawPath.map(p => ({ x: p.x + offsetX, y: p.y + offsetY }))`. */
  function Center(path: seq<Cell>, cols: int, rows: int): seq<Cell> {
    Translate(path, OffsetX(cols), OffsetY(rows))
  }

  /** The path `resetGame` asks for: the hard-coded logo, or the
      three-cell fallback line when paths.js is not loaded. */
  function RawPath(pathsLoaded: bool): seq<Cell> {
    if pathsLoaded then Paths.CoinisPath() else [Cell(10, 10), Cell(11, 10), Cell(12, 10)]
  }

  /** `resetGame` on a given raw path. With an empty path `spawnFood` is
      not called, so `food` keeps whatever it held. */
  function Reset(s: State, raw: seq<Cell>, cols: int, rows: int): State {
    var path := Center(raw, cols, rows);
    if |path| > 0 then
      State([path[0]], SpawnFood(path, 0), 0, false, path, 0)
    else
      State([Cell(5, 5)], s.food, 0, false, path, 0)
  }

  // ---------------------------------------------------------------------
  // The invariant of a drawing.

  /** What holds between any two calls: the snake is the path prefix up to
      `pathIndex`, read from the head back, the score counts the steps, the
      food sits on the next cell, and the game is over only at the end. */
  ghost predicate Inv(s: State) {
    if |s.drawPath| == 0 then
      s.pathIndex == 0 && s.score == 0
    else
      && s.pathIndex < |s.drawPath|
      && s.snake == Reverse(s.drawPath[..s.pathIndex + 1])
      && s.score == s.pathIndex
      && s.food == SpawnFood(s.drawPath, s.pathIndex)
      && (s.isGameOver ==> Finished(s))
  }

  /** The state the drawing is in after `k` growing steps on `path`. */
  function Drawing(path: seq<Cell>, k: nat, over: bool): State
    requires k < |path|
  {
    State(Reverse(path[..k + 1]), SpawnFood(path, k), k, over, path, k)
  }

  /** After `resetGame` the game is running, nothing is drawn yet, the
      snake is the first path cell alone (or (5, 5) when the path is
      empty), and the food is the second cell, if there is one. */
  lemma ResetFacts(s: State, raw: seq<Cell>, cols: int, rows: int)
    ensures var r := Reset(s, raw, cols, rows);
      && r.drawPath == Center(raw, cols, rows)
      && !r.isGameOver && r.pathIndex == 0 && r.score == 0
      && (|raw| > 0 ==> r.snake == [r.drawPath[0]] && r == Drawing(r.drawPath, 0, false))
      && (|raw| > 0 ==> r.food == if |raw| >= 2 then Some(r.drawPath[1]) else None)
      && (|raw| == 0 ==> r.snake == [Cell(5, 5)] && r.food == s.food)
      && Inv(r)
  {
    var path := Center(raw, cols, rows);
    if |path| > 0 {
      assert path[..1] == [path[0]];
      assert Reverse([path[0]]) == [path[0]];
    }
  }

  /** The two ways `resetGame` obtains its path give `RawPath`. */
  lemma LoadedRaw(pathsLoaded: bool, raw: seq<Cell>)
    requires pathsLoaded ==> raw == Paths.CoinisPath()
    requires !pathsLoaded ==> raw == [Cell(10, 10), Cell(11, 10), Cell(12, 10)]
    ensures raw == RawPath(pathsLoaded)
  {
  }

  /** `Reset` on the path actually loaded is `Reset` on `RawPath`; kept
      apart so that callers need not unfold the hard-coded path. */
  lemma ResetOfRaw(s: State, r: State, raw: seq<Cell>, pathsLoaded: bool, cols: int, rows: int)
    requires raw == RawPath(pathsLoaded) && r == Reset(s, raw, cols, rows)
    ensures r == Reset(s, RawPath(pathsLoaded), cols, rows)
  {
  }

  /** Every step keeps the invariant. */
  lemma StepInv(s: State)
    requires Inv(s)
    ensures Inv(Step(s))
  {
    if !Finished(s) {
      var path, i := s.drawPath, s.pathIndex;
      var p := path[..i + 2];
      assert p[..|p| - 1] == path[..i + 1];
      assert Reverse(p) == [path[i + 1]] + Reverse(path[..i + 1]);
    }
  }

  /** At the end of the path `update` only raises `isGameOver`. */
  lemma StepFinishes(s: State)
    requires Finished(s)
    ensures Step(s).isGameOver
    ensures Step(s).snake == s.snake && Step(s).food == s.food
    ensures Step(s).score == s.score && Step(s).pathIndex == s.pathIndex
    ensures Step(s).drawPath == s.drawPath
  {
  }

  /** Before the end `update` prepends exactly the next path cell, keeps
      the old snake as its tail, counts one more point and one more index,
      and leaves the game running. */
  lemma StepGrows(s: State)
    requires !Finished(s)
    ensures |Step(s).snake| == |s.snake| + 1
    ensures Step(s).snake[0] == s.drawPath[s.pathIndex + 1]
    ensures Step(s).snake[1..] == s.snake
    ensures Step(s).score == s.score + 1 && Step(s).pathIndex == s.pathIndex + 1
    ensures Step(s).isGameOver == s.isGameOver && Step(s).drawPath == s.drawPath
  {
  }

  /** Whenever `update` gets past the finish test, the food is on the cell
      the head moves to: reading `food.x` is safe and the food is eaten. */
  lemma FoodIsNext(s: State)
    requires Inv(s) && !Finished(s)
    ensures s.food.Some? && s.food.value == s.drawPath[s.pathIndex + 1]
  {
  }

  /** The snake is as long as the part of the path drawn so far. */
  lemma SnakeLength(s: State)
    requires Inv(s) && |s.drawPath| > 0
    ensures |s.snake| == s.pathIndex + 1 && s.score == |s.snake| - 1
    ensures s.snake[0] == s.drawPath[s.pathIndex]
  {
    ReverseAt(s.drawPath[..s.pathIndex + 1], 0);
  }

  // ---------------------------------------------------------------------
  // A whole drawing.

  /** `k` calls of `update`. */
  function Run(s: State, k: nat): State {
    if k == 0 then s else Step(Run(s, k - 1))
  }

  /** From the post-reset state of an N-cell path, the first N - 1 updates
      each grow the snake by one cell. */
  lemma {:induction false} RunGrows(path: seq<Cell>, k: nat)
    requires k < |path|
    ensures Run(Drawing(path, 0, false), k) == Drawing(path, k, false)
  {
    if k > 0 {
      RunGrows(path, k - 1);
      var s := Drawing(path, k - 1, false);
      assert !Finished(s);
      var p := path[..k + 1];
      assert p[..|p| - 1] == path[..k];
      assert Reverse(p) == [path[k]] + Reverse(path[..k]);
    }
  }

  /** Update number N finishes the drawing with the whole path as the
      snake, head at the path's last cell, N cells long; every later update
      changes nothing. */
  lemma {:induction false} RunFinishes(path: seq<Cell>, m: nat)
    requires |path| > 0 && m >= |path|
    ensures Run(Drawing(path, 0, false), m) == Drawing(path, |path| - 1, true)
    ensures Drawing(path, |path| - 1, true).snake == Reverse(path)
    ensures |Reverse(path)| == |path|
  {
    if m == |path| {
      RunGrows(path, |path| - 1);
    } else {
      RunFinishes(path, m - 1);
    }
    assert path[..|path|] == path;
  }

  /** The whole demo on the hard-coded path: after `resetGame` the path has
      145 cells and the food is on the second; 144 updates grow the snake
      without finishing, the 145th finishes with all 145 cells drawn, head
      at the path's last cell. */
  lemma CoinisDrawing(s: State, cols: int, rows: int)
    ensures var r := Reset(s, Paths.CoinisPath(), cols, rows);
      && |r.drawPath| == 145
      && r == Drawing(r.drawPath, 0, false)
      && r.food == Some(r.drawPath[1])
      && Run(r, 144) == Drawing(r.drawPath, 144, false)
      && Run(r, 145) == Drawing(r.drawPath, 144, true)
      && Run(r, 145).snake == Reverse(r.drawPath)
  {
    Paths.CoinisPathFacts();
    var r := Reset(s, Paths.CoinisPath(), cols, rows);
    ResetFacts(s, Paths.CoinisPath(), cols, rows);
    RunGrows(r.drawPath, 144);
    RunFinishes(r.drawPath, 145);
  }

  /** The state before a reset is forgotten whenever the path is not empty,
      so every cycle of the demo after the reveal timer starts alike. */
  lemma ResetForgets(s: State, s': State, raw: seq<Cell>, cols: int, rows: int)
    requires |raw| > 0
    ensures Reset(s, raw, cols, rows) == Reset(s', raw, cols, rows)
  {
  }

  // ---------------------------------------------------------------------
  // Centring facts.

  /** Translation moves every cell by the same amount, so it keeps the
      shape: steps touch, or are king moves, afterwards exactly when they
      were before. */
  lemma TranslateShape(path: seq<Cell>, dx: int, dy: int)
    ensures Continuous(Translate(path, dx, dy)) <==> Continuous(path)
    ensures KingSteps(Translate(path, dx, dy)) <==> KingSteps(path)
  {
    var r := Translate(path, dx, dy);
    forall k | 0 <= k < |r| - 1
      ensures Touching(r[k], r[k + 1]) <==> Touching(path[k], path[k + 1])
      ensures Neighbours(r[k], r[k + 1]) <==> Neighbours(path[k], path[k + 1])
    {
      assert r[k] == Cell(path[k].x + dx, path[k].y + dy);
      assert r[k + 1] == Cell(path[k + 1].x + dx, path[k + 1].y + dy);
    }
  }

  /** Moving back by the same amount gives the original path. */
  lemma TranslateBack(path: seq<Cell>, dx: int, dy: int)
    ensures Translate(Translate(path, dx, dy), -dx, -dy) == path
  {
    var back := Translate(Translate(path, dx, dy), -dx, -dy);
    forall k | 0 <= k < |path|
      ensures back[k] == path[k]
    {
    }
  }

  /** The offsets are floors, also below zero: `2 * (OffsetX + 2)` is the
      even number at or just below `cols - 26`, and likewise for rows. */
  lemma OffsetsAreFloors(cols: int, rows: int)
    ensures 2 * (OffsetX(cols) + PathMinX) <= cols - 26 < 2 * (OffsetX(cols) + PathMinX) + 2
    ensures 2 * (OffsetY(rows) + PathMinY) <= rows - 8 < 2 * (OffsetY(rows) + PathMinY) + 2
  {
  }

  /** On a 19-column grid `(19 - 26) / 2` rounds down to -4, not towards
      zero, so the offset is -6. */
  lemma OffsetBelowZero()
    ensures OffsetX(19) == -6
  {
  }

  /** The box [2, 28] x [10, 18] after centring: the margin to its left is
      `(cols - 26) / 2` and the margin to its right is one less for an even
      `cols - 26`; the box is 27 cells wide while the source centres a width
      of 26. The same holds for the top and bottom margins. */
  lemma CenterMargins(cols: int, rows: int)
    ensures var left, right := PathMinX + OffsetX(cols), cols - 1 - (PathMaxX + OffsetX(cols));
      left == (cols - 26) / 2 && right == left - 1 + (cols - 26) % 2
    ensures var top, bottom := PathMinY + OffsetY(rows), rows - 1 - (PathMaxY + OffsetY(rows));
      top == (rows - 8) / 2 && bottom == top - 1 + (rows - 8) % 2
  {
  }

  /** The centred hard-coded path fits on a cols x rows grid exactly when
      the grid has at least 27 columns and 9 rows; it stays continuous. */
  lemma CenteredCoinisOnGrid(cols: int, rows: int)
    ensures AllInBox(Center(Paths.CoinisPath(), cols, rows), Box(0, cols - 1, 0, rows - 1))
        <==> cols >= 27 && rows >= 9
    ensures Continuous(Center(Paths.CoinisPath(), cols, rows))
  {
    var path := Paths.CoinisPath();
    var r := Center(path, cols, rows);
    var grid := Box(0, cols - 1, 0, rows - 1);
    Paths.CoinisPathFacts();
    Paths.CoinisCorners();
    TranslateShape(path, OffsetX(cols), OffsetY(rows));
    CenterMargins(cols, rows);
    if cols >= 27 && rows >= 9 {
      forall k | 0 <= k < |r|
        ensures InBox(r[k], grid)
      {
        assert InBox(path[k], Paths.CoinisBox);
      }
    } else if cols < 27 {
      assert r[144] == Cell(28 + OffsetX(cols), 10 + OffsetY(rows));
      assert !InBox(r[144], grid);
    } else {
      assert r[14] == Cell(2 + OffsetX(cols), 18 + OffsetY(rows));
      assert !InBox(r[14], grid);
    }
  }

  // ---------------------------------------------------------------------
  // The fixed-timestep loop (`loop`).

  /** `deltaTime`: zero on the first frame, when `lastTime` is still 0, and
      otherwise the time since the previous frame. */
  function Elapsed(c: Clock, timestamp: int): int {
    timestamp - (if c.lastTime == 0 then timestamp else c.lastTime)
  }

  /** One animation frame: remember the time; unless the game is over, add
      the elapsed time to the accumulator and, if a whole step is due, run
      one `update` and take one step's worth off. */
  function Frame(s: State, c: Clock, timestamp: int): (State, Clock) {
    var delta := Elapsed(c, timestamp);
    if s.isGameOver then (s, Clock(timestamp, c.accumulator))
    else if c.accumulator + delta >= Speed then (Step(s), Clock(timestamp, c.accumulator + delta - Speed))
    else (s, Clock(timestamp, c.accumulator + delta))
  }

  /** While the game is over a frame only records the time. */
  lemma FrameFrozen(s: State, c: Clock, timestamp: int)
    requires s.isGameOver
    ensures Frame(s, c, timestamp) == (s, Clock(timestamp, c.accumulator))
  {
  }

  /** While it runs, a frame updates at most once: exactly when the
      accumulated time reaches one step, and then the accumulator goes down
      by exactly one step and stays non-negative. */
  lemma FrameAtMostOnce(s: State, c: Clock, timestamp: int)
    requires !s.isGameOver
    ensures var (s', c') := Frame(s, c, timestamp);
      var due := c.accumulator + Elapsed(c, timestamp);
      && c'.lastTime == timestamp
      && (due >= Speed ==> s' == Step(s) && c'.accumulator == due - Speed && c'.accumulator >= 0)
      && (due < Speed ==> s' == s && c'.accumulator == due)
  {
  }

  /** With frames less than a step apart the accumulator stays in
      [0, Speed): no backlog of updates builds up. */
  lemma FrameKeepsBand(s: State, c: Clock, timestamp: int)
    requires 0 <= c.accumulator < Speed && 0 <= Elapsed(c, timestamp) < Speed
    ensures 0 <= Frame(s, c, timestamp).1.accumulator < Speed
  {
  }

  /** A 180 ms gap between frames still runs only one update; the other two
      steps' worth stays in the accumulator. */
  lemma SlowFrame(s: State)
    requires !s.isGameOver
    ensures Frame(s, Clock(1000, 0), 1180) == (Step(s), Clock(1180, 120))
  {
  }

  /** Frames keep the invariant of the drawing. */
  lemma FrameInv(s: State, c: Clock, timestamp: int)
    requires Inv(s)
    ensures Inv(Frame(s, c, timestamp).0)
  {
    StepInv(s);
  }

  // ---------------------------------------------------------------------
  // Many frames.

  /** One `loop` callback per timestamp, in order. */
  function Frames(s: State, c: Clock, ts: seq<int>): (State, Clock)
    decreases |ts|
  {
    if ts == [] then (s, c)
    else
      var f := Frame(s, c, ts[0]);
      Frames(f.0, f.1, ts[1..])
  }

  /** The `deltaTime` of each of those frames, the first one measured from
      `last`. */
  function Delays(last: int, ts: seq<int>): seq<int>
    decreases |ts|
  {
    if ts == [] then [] else [Elapsed(Clock(last, 0), ts[0])] + Delays(ts[0], ts[1..])
  }

  function Sum(ds: seq<int>): int
    decreases |ds|
  {
    if ds == [] then 0 else ds[0] + Sum(ds[1..])
  }

  /** How many updates the accumulator lets through while the game runs,
      starting from `acc`, and what it holds afterwards. */
  function Fires(acc: int, ds: seq<int>): nat
    decreases |ds|
  {
    if ds == [] then 0
    else if acc + ds[0] >= Speed then 1 + Fires(acc + ds[0] - Speed, ds[1..])
    else Fires(acc + ds[0], ds[1..])
  }

  function Backlog(acc: int, ds: seq<int>): int
    decreases |ds|
  {
    if ds == [] then acc
    else if acc + ds[0] >= Speed then Backlog(acc + ds[0] - Speed, ds[1..])
    else Backlog(acc + ds[0], ds[1..])
  }

  /** With a backlog below one step and every frame shorter than a step,
      the loop fires exactly one update per whole step of elapsed time,
      rounded down, and keeps the rest: nothing is lost and nothing is
      fired early. */
  lemma {:induction false} FiresCount(acc: int, ds: seq<int>)
    requires 0 <= acc < Speed
    requires forall i :: 0 <= i < |ds| ==> 0 <= ds[i] < Speed
    ensures Fires(acc, ds) == (acc + Sum(ds)) / Speed
    ensures Backlog(acc, ds) == (acc + Sum(ds)) % Speed
    decreases |ds|
  {
    if ds != [] {
      var a := acc + ds[0];
      var rest := Sum(ds[1..]);
      if a >= Speed {
        FiresCount(a - Speed, ds[1..]);
        assert (a - Speed + rest) / Speed + 1 == (a + rest) / Speed;
        assert (a - Speed + rest) % Speed == (a + rest) % Speed;
      } else {
        FiresCount(a, ds[1..]);
      }
    }
  }

  /** `k` updates after one update are `k + 1` updates. */
  lemma {:induction false} RunShift(s: State, k: nat)
    ensures Run(Step(s), k) == Run(s, k + 1)
  {
    if k > 0 {
      RunShift(s, k - 1);
    }
  }

  /** While the drawing does not reach its end, a run of frames is as many
      updates as the accumulator lets through, and the accumulator ends
      with the backlog. */
  lemma {:induction false} FramesRun(s: State, c: Clock, ts: seq<int>)
    requires !s.isGameOver
    requires forall k :: 0 <= k < Fires(c.accumulator, Delays(c.lastTime, ts)) ==> !Finished(Run(s, k))
    ensures Frames(s, c, ts).0 == Run(s, Fires(c.accumulator, Delays(c.lastTime, ts)))
    ensures Frames(s, c, ts).1.accumulator == Backlog(c.accumulator, Delays(c.lastTime, ts))
    decreases |ts|
  {
    if ts != [] {
      var ds := Delays(c.lastTime, ts);
      assert ds[0] == Elapsed(c, ts[0]) && ds[1..] == Delays(ts[0], ts[1..]);
      var f := Frame(s, c, ts[0]);
      var a := c.accumulator + ds[0];
      if a >= Speed {
        assert !Finished(Run(s, 0));
        forall k | 0 <= k < Fires(f.1.accumulator, ds[1..])
          ensures !Finished(Run(f.0, k))
        {
          RunShift(s, k);
          assert !Finished(Run(s, k + 1));
        }
        FramesRun(f.0, f.1, ts[1..]);
        RunShift(s, Fires(f.1.accumulator, ds[1..]));
      } else {
        FramesRun(f.0, f.1, ts[1..]);
      }
    }
  }

  /** From a backlog below one step, frames each less than one step apart
      that add up to `T` milliseconds run exactly `(acc + T) / Speed`
      updates of the drawing and leave `(acc + T) % Speed` behind, as long
      as the drawing does not reach its end. */
  lemma StepsForTime(s: State, c: Clock, ts: seq<int>)
    requires !s.isGameOver && 0 <= c.accumulator < Speed
    requires forall i :: 0 <= i < |Delays(c.lastTime, ts)| ==> 0 <= Delays(c.lastTime, ts)[i] < Speed
    requires forall k :: 0 <= k < (c.accumulator + Sum(Delays(c.lastTime, ts))) / Speed ==> !Finished(Run(s, k))
    ensures Fires(c.accumulator, Delays(c.lastTime, ts)) == (c.accumulator + Sum(Delays(c.lastTime, ts))) / Speed
    ensures Frames(s, c, ts).0 == Run(s, Fires(c.accumulator, Delays(c.lastTime, ts)))
    ensures Frames(s, c, ts).1.accumulator == (c.accumulator + Sum(Delays(c.lastTime, ts))) % Speed
  {
    FiresCount(c.accumulator, Delays(c.lastTime, ts));
    FramesRun(s, c, ts);
  }
}
