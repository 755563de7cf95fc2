# Snake-demo logo tracer, modelled in Dafny

This project models the logo-tracing core of the snake signage demo. The core has four parts:

- **Rasteriser.** An integer line walk (Bresenham) turns two keyframes into a run of grid cells.
- **Path generator.** It chains 24 hard-coded keyframes into one path through the cells that spell "COINIS". An older generator spells the logo letter by letter.
- **Game.** `resetGame` centres the path on the grid. Each `update` grows the snake one cell along the path, with the food one cell ahead. At the end, `finishDrawing` freezes the picture.
- **Loop and slides.** A fixed-timestep `loop` runs at most one update per animation frame, and `draw` maps cells to pixels. A company-values slide show runs on its own start/stop cycle.

The files, leaf first:

- `grid.dfy`: cells, boxes, "touching" and "king move" steps, and `Reverse`.
- `raster.dfy`: one pass of the line loop as a function on a cursor. Also the walk's invariant, and the rasterised stroke with its proved properties.
- `paths.dfy`: `addStroke`, `addLine` and `getHardcodedCoinis` as methods with the source's loops. Also the chaining of strokes and the facts about the hard-coded path.
- `logo.dfy`: `getLogoPath` and the shape of the path it builds.
- `trace.dfy`: the game's logic state, with `update`, `resetGame`, the centring and `loop` as functions on it. Also the invariant of a drawing and what a whole drawing does.
- `render.dfy`: the pixel arithmetic of `draw`.
- `game.dfy`: class `Game` holds the globals of `js/game.js`, and its methods update them in place.
- `dist_game.dfy`: the same for `dist/SnakeDemo/js/game.js`, which always loads the path and tests `food.x` without a null guard.
- `presentation.dfy`: the values slide show of `js/presentation.js` as a class with a boolean array for the indicator dots.

The game methods in `game.dfy` and `dist_game.dfy` are proved against functions of `trace.dfy` and `render.dfy` on the old state. `AddStroke`, `AddLine` and `GetHardcodedCoinis` are proved against functions of `raster.dfy` and `paths.dfy`, and `Logo.GetLogoPath` against `Logo.LogoPath`. What the source promises is then proved about those functions. The `Presentation` methods state their new state directly, in terms of `Presentation.NextIndex` and the slide list.

Notes on the code:

- The keyframe list at dist/SnakeDemo/paths.js:104-134 has 24 entries, so it makes 23 strokes. The path they yield has 145 cells (`Paths.CoinisPathFacts`).
- `getLogoPath` is commented `Generate a centered "COINIS" path` (dist/SnakeDemo/paths.js:9). It draws the letters C O I N I only, at dist/SnakeDemo/paths.js:37-82. Its path jumps between letters, so a snake cannot follow it (`Logo.LogoShape`).
- The centring at js/game.js:112-118 uses a width of `28 - 2 = 26` for a box that is 27 cells wide, and a height of 8 for one that is 9 rows high. When `cols - 26` is even, the right margin is one cell smaller than the left (`Trace.CenterMargins`).
- `addStroke` pushes both ends of each stroke (dist/SnakeDemo/paths.js:149-155). So every keyframe where two strokes meet appears twice in a row in the path (`Paths.JointDuplicated`). At each joint the snake's head lands on the same cell twice, one update apart.

## Model

| member | source | states |
|---|---|---|
| Raster.Start | dist/SnakeDemo/paths.js:140-147 | the loop starts at `p1` with `err = dx - dy`; what this start gives is stated by `Raster.Walk` and `Raster.Stroke` |
| Raster.Advance | dist/SnakeDemo/paths.js:150-153 | one pass of the loop body, both `if`s on the same `e2`; its properties are `Raster.AdvanceInv` |
| Raster.Stroke | dist/SnakeDemo/paths.js:139-156 | the cells of one `addStroke` line: `max(dx, dy) + 1` cells, from `p1` to `p2`, a single cell when `p1 == p2` |
| Raster.Walk | dist/SnakeDemo/paths.js:149-155 | from any state satisfying the loop invariant, the walk ends at `p2`, and its length is the steps left on the major axis plus one |
| Raster.AdvanceInv | dist/SnakeDemo/paths.js:149-154 | one pass of the loop body keeps the invariant, moves one king step and gets closer to `p2`; the major axis always advances |
| Raster.WalkSteps | dist/SnakeDemo/paths.js:149-155 | every step of the walk is a king move to a distinct cell and never leaves the bounding box of the two ends |
| Raster.StrokeSteps | dist/SnakeDemo/paths.js:139-156 | a stroke has no gap and no overshoot: king steps only, inside the box of `p1` and `p2` |
| Paths.Pairs | dist/SnakeDemo/paths.js:158-160 | the loop visits each consecutive pair of keyframes once, in order |
| Paths.Lines | dist/SnakeDemo/paths.js:139-160 | the cells of a run of strokes, each pushed whole; stated by `Paths.LinesLength`, `Paths.LinesEnds`, `Paths.LinesContinuous` and `Paths.JointDuplicated` |
| Paths.Chain | dist/SnakeDemo/paths.js:158-162 | the path of a keyframe list; stated by `Paths.ChainProperties` |
| Paths.CoinisKeys | dist/SnakeDemo/paths.js:104-134 | the 24 keyframes, one for one; stated by `Paths.CoinisKeysInBox` and `Paths.CoinisTotal` |
| Paths.CoinisPath | dist/SnakeDemo/paths.js:102-163 | the path of the hard-coded keyframes; stated by `Paths.CoinisPathFacts` and `Paths.CoinisCorners` |
| Paths.AddStroke | dist/SnakeDemo/paths.js:139-156 | pushes exactly the rasterised stroke from `p1` to `p2` onto the path |
| Paths.AddLine | dist/SnakeDemo/paths.js:17-35 | the `while (true)` loop that pushes before its end test pushes exactly the same stroke |
| Paths.LinesLength | dist/SnakeDemo/paths.js:158-160 | the chained path is as long as the sum of its strokes' lengths |
| Paths.LinesPrefix | dist/SnakeDemo/paths.js:158-160 | the cells of the first `n` strokes are a prefix of the chained path |
| Paths.LinesEnds | dist/SnakeDemo/paths.js:158-160 | a chain starts at the first stroke's start and ends at the last stroke's end |
| Paths.LinesAppend | dist/SnakeDemo/paths.js:158-160 | drawing two runs of strokes one after another concatenates their cells |
| Paths.StrokeBoundary | dist/SnakeDemo/paths.js:155-158 | where stroke `k` starts in the path, the cell before it is the end of stroke `k - 1` |
| Paths.LinesContinuous | dist/SnakeDemo/paths.js:139-160 | strokes that start where the previous one ended give a path with no teleports |
| Paths.JointDuplicated | dist/SnakeDemo/paths.js:150-158 | at each joint the shared keyframe is pushed twice, once as the end of one stroke and once as the start of the next |
| Paths.LinesInBox | dist/SnakeDemo/paths.js:139-160 | if every keyframe lies in a box, so does every cell of the path |
| Paths.PairsJoined | dist/SnakeDemo/paths.js:158-160 | consecutive strokes share their keyframe |
| Paths.ChainProperties | dist/SnakeDemo/paths.js:102-163 | chaining any keyframe list gives one continuous path from the first keyframe to the last, with the summed length |
| Paths.GetHardcodedCoinis | dist/SnakeDemo/paths.js:102-163 | returns the chained path of the 24 keyframes |
| Paths.GenerateTwice | dist/SnakeDemo/paths.js:102-163 | the generator keeps no state: two calls give the same path |
| Paths.CoinisKeysInBox | dist/SnakeDemo/paths.js:104-134 | every keyframe lies in the box [2, 28] x [10, 18] that the game centres |
| Paths.CountStrokes | dist/SnakeDemo/paths.js:104-160 | the strokes between those keyframes add up to 145 cells; the first one has 5 and the first two 14 |
| Paths.CoinisTotal | dist/SnakeDemo/paths.js:104-160 | the same totals for the hard-coded keyframe list |
| Paths.CoinisPathFacts | dist/SnakeDemo/paths.js:102-163 | the hard-coded path has 145 cells, runs from (6, 10) to (28, 10), is continuous and stays in the box |
| Paths.CoinisCorners | dist/SnakeDemo/paths.js:104-134 | the path reaches (2, 10) and (2, 18), so the box is tight on the left, top and bottom |
| Logo.StartX | dist/SnakeDemo/paths.js:13 | `Math.floor(cols * 0.1)` as `cols / 10` (see `Logo.StartX` under "Left out") |
| Logo.StartY | dist/SnakeDemo/paths.js:14 | `Math.floor(rows * 0.4)` as `2 * rows / 5` (see the same line) |
| Logo.LetterC | dist/SnakeDemo/paths.js:42-46 | the five strokes of the "C"; stated by `Logo.LengthC` and `Logo.LettersContinuous` |
| Logo.LetterO | dist/SnakeDemo/paths.js:52-59 | the eight strokes of the "O", `cx` moved on by 6; stated by `Logo.LengthO` and `Logo.LettersContinuous` |
| Logo.BarDown | dist/SnakeDemo/paths.js:65 | the first "I", one bar drawn downwards; stated by `Logo.LengthBars` |
| Logo.LetterN | dist/SnakeDemo/paths.js:71-73 | the three strokes of the "N"; stated by `Logo.LengthN` and `Logo.LettersContinuous` |
| Logo.BarUp | dist/SnakeDemo/paths.js:82 | the second "I", one bar drawn upwards; stated by `Logo.LengthBars` |
| Logo.LogoSegments | dist/SnakeDemo/paths.js:37-82 | the strokes of the 18 `addLine` calls, letter by letter; stated by `Logo.LogoAt` |
| Logo.LogoPath | dist/SnakeDemo/paths.js:10-98 | the path `getLogoPath` returns; stated by `Logo.LogoPieces`, `Logo.LogoJumps` and `Logo.LogoShape` |
| Logo.LogoAt | dist/SnakeDemo/paths.js:37-82 | the 18 `addLine` calls, in call order, with their end points relative to the start cell |
| Logo.GetLogoPath | dist/SnakeDemo/paths.js:10-98 | returns the strokes of those calls, concatenated |
| Logo.LengthC | dist/SnakeDemo/paths.js:37-46 | the "C" has 17 cells |
| Logo.LengthO | dist/SnakeDemo/paths.js:51-59 | the "O" has 26 cells |
| Logo.LengthN | dist/SnakeDemo/paths.js:71-73 | the "N" has 21 cells |
| Logo.LengthBars | dist/SnakeDemo/paths.js:65-82 | each "I" has 7 cells |
| Logo.LettersContinuous | dist/SnakeDemo/paths.js:37-82 | each letter on its own is one unbroken pen stroke |
| Logo.LogoPieces | dist/SnakeDemo/paths.js:37-82 | the logo path is the five letters' cells in drawing order, 78 cells in all |
| Logo.LogoJumps | dist/SnakeDemo/paths.js:37-82 | the cells on either side of each letter boundary, and the two ends |
| Logo.LogoShape | dist/SnakeDemo/paths.js:10-98 | 78 cells inside a 25 x 7 box from the start cell; there are gaps of three or more columns between letters, so the whole path is not continuous |
| Trace.SpawnFood | js/game.js:196-202 | the next path cell, or none past the end; used by `Trace.Inv` and `Trace.FoodIsNext` |
| Trace.Finished | js/game.js:156 | the finish test `pathIndex >= drawPath.length - 1` (also dist/SnakeDemo/js/game.js:155); stated by `Trace.StepFinishes`, `Trace.StepGrows` and `Trace.FoodIsNext` |
| Trace.Finish | js/game.js:182-183 | only `isGameOver` is raised; stated by `Trace.StepFinishes` |
| Trace.Step | js/game.js:154-180 | one `update`; stated by `Trace.StepInv`, `Trace.StepFinishes`, `Trace.StepGrows` and `Trace.RunFinishes` |
| Trace.Run | js/game.js:154-180 | `k` updates in a row; stated by `Trace.RunGrows`, `Trace.RunFinishes` and `Trace.CoinisDrawing` |
| Trace.OffsetX | js/game.js:112-117 | the column offset of the centring; stated by `Trace.OffsetsAreFloors` and `Trace.CenterMargins` |
| Trace.OffsetY | js/game.js:112-118 | the row offset of the centring; stated by the same two lemmas |
| Trace.Center | js/game.js:111-123 | the path moved by both offsets; stated by `Trace.TranslateShape`, `Trace.TranslateBack` and `Trace.CenteredCoinisOnGrid` |
| Trace.RawPath | js/game.js:104-109 | the `typeof PATHS` choice: the hard-coded path, or the three-cell fallback line; used by `SnakeGame.Game.ResetGame` |
| Trace.Reset | js/game.js:91-133 | the state `resetGame` leaves on a given raw path; stated by `Trace.ResetFacts` and `Trace.ResetForgets` |
| Trace.Translate | js/game.js:120-123 | the centred path has as many cells as the raw one |
| Trace.ResetFacts | js/game.js:91-133 | after a reset the game runs, with score and index 0; the snake is the first cell and the food the second (or none); an empty path gives the (5, 5) fallback with stale food; the invariant holds |
| Trace.StepInv | js/game.js:154-180 | each update keeps the invariant: the snake is the path so far, head first; the score counts the steps; the food is on the next cell |
| Trace.StepFinishes | js/game.js:155-158 | at the end of the path an update only raises `isGameOver` |
| Trace.StepGrows | js/game.js:161-179 | before the end an update prepends the next path cell, keeps the whole old snake as the tail, and counts one point and one index |
| Trace.FoodIsNext | dist/SnakeDemo/js/game.js:155-172 | past the finish test the food is always present and on the cell the head moves to |
| Trace.SnakeLength | js/game.js:154-180 | the snake is one cell longer than the index; the score is its length minus one; the head is at the index |
| Trace.RunGrows | js/game.js:154-180 | the first N - 1 updates on an N-cell path each grow the snake by one cell |
| Trace.RunFinishes | js/game.js:154-194 | update number N finishes with the whole path drawn, head at its last cell, and later updates change nothing |
| Trace.CoinisDrawing | js/game.js:91-194 | with the hard-coded path, 144 updates draw it and the 145th finishes, with the snake as the reversed 145-cell path |
| Trace.ResetForgets | js/game.js:91-133 | a reset with a non-empty path does not depend on the state before it |
| Trace.TranslateShape | js/game.js:120-123 | centring keeps the path continuous exactly when it was, and keeps king steps as king steps |
| Trace.TranslateBack | js/game.js:120-123 | centring loses nothing: shifting back gives the raw path |
| Trace.OffsetsAreFloors | js/game.js:111-118 | the offsets are `Math.floor` of the half-difference, also below zero |
| Trace.OffsetBelowZero | js/game.js:117 | on a 19-column grid the offset is -6, because the division rounds down, not towards zero |
| Trace.CenterMargins | js/game.js:111-118 | the left margin is `(cols - 26) / 2`, and the right margin is one less when `cols - 26` is even; the same holds for rows |
| Trace.CenteredCoinisOnGrid | js/game.js:103-123 | the centred hard-coded path fits on the grid exactly when there are at least 27 columns and 9 rows, and it stays continuous |
| Trace.Elapsed | js/game.js:136-137 | `deltaTime`, zero on the first frame; used by `Trace.FrameAtMostOnce` |
| Trace.Frame | js/game.js:135-146 | one `loop` callback on the logic state and the clock; stated by `Trace.FrameFrozen`, `Trace.FrameAtMostOnce` and `Trace.FrameKeepsBand` |
| Trace.FrameFrozen | js/game.js:135-146 | after the finish a frame only records the time |
| Trace.FrameAtMostOnce | js/game.js:135-146 | a frame runs one update exactly when a whole step is due, then takes exactly one step off the accumulator, which stays non-negative |
| Trace.FrameKeepsBand | js/game.js:140-146 | with frames less than one step apart, the accumulator stays in [0, 60) |
| Trace.SlowFrame | js/game.js:135-146 | a 180 ms frame still runs a single update and keeps 120 ms of backlog |
| Trace.FrameInv | js/game.js:135-152 | frames keep the invariant of the drawing |
| Trace.Frames | js/game.js:135-152 | `loop` called once per timestamp, in order; stated by `Trace.FramesRun` and `Trace.StepsForTime` |
| Trace.Delays | js/game.js:136-138 | the `deltaTime` of each of those frames |
| Trace.Fires | js/game.js:140-146 | how many updates the accumulator lets through for a list of delays; stated by `Trace.FiresCount` |
| Trace.Backlog | js/game.js:141-144 | what the accumulator holds after those frames; stated by `Trace.FiresCount` |
| Trace.FiresCount | js/game.js:140-146 | from a backlog `acc` below one step, with each delay in [0, 60), the updates fired are `(acc + total) / 60` and the accumulator ends at `(acc + total) % 60` |
| Trace.RunShift | js/game.js:154-180 | `k` updates after one update are `k + 1` updates |
| Trace.FramesRun | js/game.js:135-152 | while the drawing does not reach its end, a run of frames is exactly as many updates as the accumulator lets through, and it leaves the backlog |
| Trace.StepsForTime | js/game.js:135-152 | frames less than a step apart, adding up to `T` ms, run exactly `(acc + T) / 60` updates and leave `(acc + T) % 60` ms, as long as the drawing does not end |
| Render.CellOrigin | js/game.js:207-218 | `x * gs + gap / 2`; stated by `Render.SquareInCell` and `Render.PixelToCell` |
| Render.FoodCentre | js/game.js:232-233 | `x * gs + gs / 2`; stated by `Render.FoodCentredOnSquare` |
| Render.SquareOf | js/game.js:216-229 | the square one snake cell gets; stated by `Render.SquareInCell` and `Render.SquaresDisjoint` |
| Render.DiscOf | js/game.js:232-234 | the food disc's centre `(fx, fy)`; stated by `Render.FoodCentredOnSquare` |
| Render.Painted | js/game.js:204-248 | one square per snake cell, in order, the head alone in head style; a food disc exactly when there is food |
| Render.Draw | js/game.js:214-234 | the loop over the snake and the food test paint exactly that picture |
| Render.OneHead | js/game.js:216-229 | only the first square has the head style |
| Render.SquareInCell | js/game.js:207-218 | a square starts 1 px into its 30 px cell and ends 1 px before the next, leaving a 2 px gap |
| Render.FoodCentredOnSquare | js/game.js:217-233 | the food disc is centred on the square its cell would get |
| Render.PixelToCell | js/game.js:207-218 | every pixel of a cell's square maps back to that cell, negative cells included |
| Render.SquaresDisjoint | js/game.js:207-229 | squares of distinct cells never share a pixel |
| SnakeGame.Game.constructor | js/game.js:49-80 | the globals start empty, then `init` resets the game on the loaded path or the fallback line; the clock starts at zero |
| SnakeGame.Game.ResetGame | js/game.js:91-133 | the new state is the reset on the hard-coded path when paths.js is loaded, and on the three-cell line otherwise; the invariant holds |
| SnakeGame.Game.Place | js/game.js:111-132 | for any raw path, the centring, the snake start and the food placement give the reset state |
| SnakeGame.Game.SpawnFood | js/game.js:196-202 | the food is the next path cell, or none past the end |
| SnakeGame.Game.FinishDrawing | js/game.js:182-194 | only `isGameOver` changes |
| SnakeGame.Game.Update | js/game.js:154-180 | the new state is one step of the drawing, and the invariant is kept |
| SnakeGame.Game.Loop | js/game.js:135-152 | the new state and clock are one frame of the loop; what is painted is the picture of the new state; the invariant is kept |
| DistSnakeGame.Game.constructor | dist/SnakeDemo/js/game.js:44-73 | the globals start empty, then `init` resets the game on the hard-coded path |
| DistSnakeGame.Game.ResetGame | dist/SnakeDemo/js/game.js:87-126 | the reset on the hard-coded path, which this build always loads; the invariant holds |
| DistSnakeGame.Game.Place | dist/SnakeDemo/js/game.js:103-125 | for any raw path, the centring, the snake start and the food placement give the reset state |
| DistSnakeGame.Game.SpawnFood | dist/SnakeDemo/js/game.js:228-236 | the food is the next path cell, or none past the end |
| DistSnakeGame.Game.FinishDrawing | dist/SnakeDemo/js/game.js:205-226 | only `isGameOver` changes |
| DistSnakeGame.Game.Update | dist/SnakeDemo/js/game.js:151-203 | the unguarded `food.x` read needs food before the end; the new state is one step; the invariant is kept; in a valid state the old food is the new head |
| DistSnakeGame.Game.Loop | dist/SnakeDemo/js/game.js:128-149 | in a valid state the unguarded update never reads missing food; the new state and clock are one frame; the painted picture matches; the invariant is kept |
| Presentation.Values | js/presentation.js:11-24 | the three company values, title and description, in order |
| Presentation.NextIndex | js/presentation.js:105-108 | the next slide is the following one, and after the last comes the first |
| Presentation.NextIndexCycles | js/presentation.js:105-108 | three slide changes come back to the starting slide, and no fewer do |
| Presentation.SlidesShown | js/presentation.js:68-108 | after `k` slide changes from the first slide, slide `k mod 3` is up |
| Presentation.Iterate | js/presentation.js:71-73 | `k` calls of `nextSlide` from the slide interval; stated by `Presentation.SlidesShown` |
| Presentation.Presentation.constructor | js/presentation.js:11-31 | inactive, first slide, no callback, no timer armed, three unmarked dots |
| Presentation.Presentation.Start | js/presentation.js:50-79 | ignored while showing; otherwise shows the first slide's text with its dot marked, stores the callback, and arms the 10 s slide interval and the 2 min stop timer |
| Presentation.Presentation.Stop | js/presentation.js:81-103 | ignored while hidden; otherwise disarms both timers, hides, and hands back the stored callback to schedule |
| Presentation.Presentation.NextSlide | js/presentation.js:105-108 | moves to the next slide, puts up its title and description, and marks exactly its dot |
| Presentation.Presentation.ShowSlide | js/presentation.js:110-121 | puts up the slide's title and description and marks only its dot |
| Presentation.Presentation.UpdateIndicators | js/presentation.js:135-142 | the dot at the index is marked and every other dot is not |

## Left out

- Canvas and DOM work is not modelled, and `Render.Draw` returns what would be painted. This covers the canvas calls, `roundedRect`, the glow styles, the reveal overlay, `updateScore` and the slide overlay's CSS classes.
- Timers are not modelled; they are explicit calls. A `setTimeout` or `setInterval` in `Presentation` becomes a field holding its delay while it is armed. A timer firing becomes a later call of the method it fires. The reveal timer of `finishDrawing` becomes a call of `ResetGame`, the slide interval a call of `NextSlide`, and the stop timer a call of `Stop`. `Stop` returns the callback that `setTimeout` would fire one second later.
- Timestamps come from `requestAnimationFrame` and are a parameter of `Loop`. The browser rescheduling `loop` is left out.
- `SnakeGame.Game.Loop`, `DistSnakeGame.Game.Loop`: a `requestAnimationFrame` timestamp is a fractional number of milliseconds. The model takes whole milliseconds, so the accumulator and `deltaTime` are integers.
- The food pulse (`pulseFrame` and the disc radius) is floating point and is not modelled. `Render.Disc` keeps only the centre.
- `resize` is left out, and the grid size is fixed by the constructor. In the source, `resize` overwrites `cols` and `rows` (js/game.js:87-88, dist/SnakeDemo/js/game.js:80-81). It does not rebuild the path that is being drawn, but the next `resetGame` centres on the new size. So a resize between drawings changes the centring of every later drawing, and the model does not capture that.
- The periodic page reload, `startClock` and `startDemoMessages` are left out. They are browser and clock I/O. The reload in `dist/SnakeDemo/js/game.js` uses an interval that is not defined in its `CONFIG`.
- `renderIndicators` and `init` in js/presentation.js are left out. They only build and look up DOM elements, so the dots are a fresh array of three from the start.
- js/gallery.js is not part of this model.
- `Presentation.Callback`: the callback is opaque; the model keeps only whether `start` was given one.
- `Logo.StartX`, `Logo.StartY`: the floating-point products `cols * 0.1` and `rows * 0.4` are modelled as the integer quotients `cols / 10` and `2 * rows / 5`. They agree for sizes below about 10^14 in magnitude. Beyond that the model does not follow the floating-point rounding.
- `DistSnakeGame.Game.Update`: the source throws a TypeError when `food` is `null` before the end. The model makes that case a precondition instead of modelling the throw. `Trace.FoodIsNext` shows the case cannot arise from a valid state.
