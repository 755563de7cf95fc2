/** The grid line rasteriser: the integer incremental (Bresenham) line walk
    that `addStroke` and `addLine` in dist/SnakeDemo/paths.js both run.
    The walk is specified here as a function of its loop state; the two
    loops themselves are methods in module Paths. */
module Raster {
  import opened Grid

  /** The loop state: the current cell and the error term `err`. */
  datatype Cursor = Cursor(at: Cell, err: int)

  function Dx(p1: Cell, p2: Cell): nat { Abs(p2.x - p1.x) }
  function Dy(p1: Cell, p2: Cell): nat { Abs(p2.y - p1.y) }

  /** The step directions; note -1 (not 0) when the coordinates are equal. */
  function Sx(p1: Cell, p2: Cell): int { if p1.x < p2.x then 1 else -1 }
  function Sy(p1: Cell, p2: Cell): int { if p1.y < p2.y then 1 else -1 }

  /** The number of steps already taken along each axis. */
  function Ix(p1: Cell, p2: Cell, c: Cell): int {
    if p1.x < p2.x then c.x - p1.x else p1.x - c.x
  }
  function Jy(p1: Cell, p2: Cell, c: Cell): int {
    if p1.y < p2.y then c.y - p1.y else p1.y - c.y
  }

  /** The state the walk starts in: `cx, cy = p1`, `err = dx - dy`. */
  function Start(p1: Cell, p2: Cell): Cursor {
    Cursor(p1, Dx(p1, p2) - Dy(p1, p2))
  }

  /** One pass of the loop body: `e2 = 2 * err`, then the x move
      (`e2 > -dy`) and the y move (`e2 < dx`), both tested against `e2`. */
  function Advance(p1: Cell, p2: Cell, cur: Cursor): Cursor {
    var dx: int, dy: int := Dx(p1, p2), Dy(p1, p2);
    var e2 := 2 * cur.err;
    var err1 := if e2 > -dy then cur.err - dy else cur.err;
    var x1 := if e2 > -dy then cur.at.x + Sx(p1, p2) else cur.at.x;
    var err2 := if e2 < dx then err1 + dx else err1;
    var y1 := if e2 < dx then cur.at.y + Sy(p1, p2) else cur.at.y;
    Cursor(Cell(x1, y1), err2)
  }

  /** The two sequential `if`s of the loop body, each guarded by the same
      `e2`, leave the cursor at `Advance(cur)`; `dx`, `dy`, `sx`, `sy` are
      the loop's own copies of the stroke's constants. */
  lemma PassIsAdvance(p1: Cell, p2: Cell, cur: Cursor, dx: int, dy: int, sx: int, sy: int,
                      e2: int, x: int, y: int, err: int)
    requires dx == Dx(p1, p2) && dy == Dy(p1, p2) && sx == Sx(p1, p2) && sy == Sy(p1, p2)
    requires e2 == 2 * cur.err
    requires x == if e2 > -dy then cur.at.x + sx else cur.at.x
    requires y == if e2 < dx then cur.at.y + sy else cur.at.y
    requires err == cur.err - (if e2 > -dy then dy else 0) + (if e2 < dx then dx else 0)
    ensures Advance(p1, p2, cur) == Cursor(Cell(x, y), err)
  {
  }

  /** How far the cursor still is from `p2`; the loop's variant. */
  function Remaining(p2: Cell, c: Cell): nat {
    Abs(p2.x - c.x) + Abs(p2.y - c.y)
  }

  /** The invariant of the walk: `i` steps taken in x and `j` in y, neither
      past the end point, `err` tied to them, and `err` kept in the band that
      makes the major axis advance on every pass. */
  ghost predicate WalkInv(p1: Cell, p2: Cell, cur: Cursor) {
    var dx: int, dy: int := Dx(p1, p2), Dy(p1, p2);
    var i, j := Ix(p1, p2, cur.at), Jy(p1, p2, cur.at);
    && 0 <= i <= dx && 0 <= j <= dy
    && cur.err == dx - dy + j * dx - i * dy
    && (dx >= dy && dx > 0 ==> -dx <= 2 * (cur.err - dx + dy) < dx)
    && (dy >= dx && dy > 0 ==> -dy < 2 * (cur.err - dx + dy) <= dy)
  }

  /** The arithmetic core of the invariant, on plain integers: with `i`
      steps taken in x and `j` in y, the minor axis never steps past its end
      and the major axis ends only together with the minor one. */
  lemma EndArith(dx: int, dy: int, i: int, j: int, err: int)
    requires 0 <= i <= dx && 0 <= j <= dy
    requires err == dx - dy + j * dx - i * dy
    requires dx >= dy && dx > 0 ==> -dx <= 2 * (err - dx + dy) < dx
    requires dy >= dx && dy > 0 ==> -dy < 2 * (err - dx + dy) <= dy
    ensures j == dy && i < dx ==> !(2 * err < dx)
    ensures i == dx && j < dy ==> !(2 * err > -dy)
    ensures dx >= dy && i == dx ==> j == dy
    ensures dy >= dx && j == dy ==> i == dx
  {
    if j == dy && i < dx {
      assert err - dx + dy == dy * (dx - i);
      MulAtLeast(dy, dx - i);
    }
    if i == dx && j < dy {
      assert err - dx + dy == -(dx * (dy - j));
      MulAtLeast(dx, dy - j);
    }
  }

  lemma MulAtLeast(a: int, b: int)
    requires a >= 0 && b >= 1
    ensures a * b >= a
  {
    assert a * b - a == a * (b - 1);
  }

  lemma StartInv(p1: Cell, p2: Cell)
    ensures WalkInv(p1, p2, Start(p1, p2))
  {
  }

  lemma InvInSpan(p1: Cell, p2: Cell, cur: Cursor)
    requires WalkInv(p1, p2, cur)
    ensures InBox(cur.at, Span(p1, p2))
    ensures cur.at == p2 <==> Ix(p1, p2, cur.at) == Dx(p1, p2) && Jy(p1, p2, cur.at) == Dy(p1, p2)
    ensures Remaining(p2, cur.at) == Dx(p1, p2) - Ix(p1, p2, cur.at) + Dy(p1, p2) - Jy(p1, p2, cur.at)
  {
  }

  /** One pass of the loop keeps the invariant, moves to a distinct
      8-neighbour, gets closer to `p2`, and always steps the major axis. */
  lemma AdvanceInv(p1: Cell, p2: Cell, cur: Cursor)
    requires WalkInv(p1, p2, cur) && cur.at != p2
    ensures WalkInv(p1, p2, Advance(p1, p2, cur))
    ensures Neighbours(cur.at, Advance(p1, p2, cur).at)
    ensures Remaining(p2, Advance(p1, p2, cur).at) < Remaining(p2, cur.at)
    ensures Dx(p1, p2) >= Dy(p1, p2) ==> Ix(p1, p2, Advance(p1, p2, cur).at) == Ix(p1, p2, cur.at) + 1
    ensures Dy(p1, p2) >= Dx(p1, p2) ==> Jy(p1, p2, Advance(p1, p2, cur).at) == Jy(p1, p2, cur.at) + 1
  {
    var dx: int, dy: int := Dx(p1, p2), Dy(p1, p2);
    var i, j := Ix(p1, p2, cur.at), Jy(p1, p2, cur.at);
    var next := Advance(p1, p2, cur);
    var e2 := 2 * cur.err;
    InvInSpan(p1, p2, cur);
    EndArith(dx, dy, i, j, cur.err);
    var i', j' := Ix(p1, p2, next.at), Jy(p1, p2, next.at);
    assert i' == if e2 > -dy then i + 1 else i;
    assert j' == if e2 < dx then j + 1 else j;
    StepArith(dx, dy, i, j, cur.err);
    InvInSpan(p1, p2, next);
  }

  /** The link between `err` and the steps taken survives one pass. */
  lemma StepArith(dx: int, dy: int, i: int, j: int, err: int)
    requires err == dx - dy + j * dx - i * dy
    ensures var i', j' := (if 2 * err > -dy then i + 1 else i), (if 2 * err < dx then j + 1 else j);
            var err' := (if 2 * err > -dy then err - dy else err) + (if 2 * err < dx then dx else 0);
            err' == dx - dy + j' * dx - i' * dy
  {
  }

  /** The cells the loop emits from state `cur` on; the last one is `p2`,
      and the major axis sets how many there are. */
  function Walk(p1: Cell, p2: Cell, cur: Cursor): (r: seq<Cell>)
    requires WalkInv(p1, p2, cur)
    decreases Remaining(p2, cur.at)
    ensures |r| >= 1 && r[0] == cur.at && r[|r| - 1] == p2
    ensures |r| == if Dx(p1, p2) >= Dy(p1, p2) then Dx(p1, p2) - Ix(p1, p2, cur.at) + 1
                                               else Dy(p1, p2) - Jy(p1, p2, cur.at) + 1
  {
    if cur.at == p2 then
      [p2]
    else
      InvInSpan(p1, p2, cur);
      AdvanceInv(p1, p2, cur);
      [cur.at] + Walk(p1, p2, Advance(p1, p2, cur))
  }

  /** Every step of the walk is a king move and no cell leaves the bounding
      box of the two ends. */
  lemma {:induction false} WalkSteps(p1: Cell, p2: Cell, cur: Cursor)
    requires WalkInv(p1, p2, cur)
    decreases Remaining(p2, cur.at)
    ensures KingSteps(Walk(p1, p2, cur))
    ensures AllInBox(Walk(p1, p2, cur), Span(p1, p2))
  {
    InvInSpan(p1, p2, cur);
    if cur.at != p2 {
      AdvanceInv(p1, p2, cur);
      var next := Advance(p1, p2, cur);
      WalkSteps(p1, p2, next);
      var rest := Walk(p1, p2, next);
      var r := Walk(p1, p2, cur);
      assert r == [cur.at] + rest;
      assert forall k :: 1 <= k < |r| ==> r[k] == rest[k - 1];
      assert Neighbours(r[0], r[1]);
    }
  }

  /** The rasterised line from `p1` to `p2`, both ends included: it starts
      at `p1`, ends at `p2`, and has `max(|dx|, |dy|) + 1` cells (exactly
      one when the ends coincide). */
  function Stroke(p1: Cell, p2: Cell): (r: seq<Cell>)
    ensures |r| == Max(Dx(p1, p2), Dy(p1, p2)) + 1
    ensures r[0] == p1 && r[|r| - 1] == p2
    ensures p1 == p2 ==> r == [p1]
  {
    StartInv(p1, p2);
    Walk(p1, p2, Start(p1, p2))
  }

  /** No gaps and no overshoot: consecutive cells of a stroke are distinct
      8-neighbours, and every cell lies in the bounding box of `p1` and `p2`. */
  lemma StrokeSteps(p1: Cell, p2: Cell)
    ensures KingSteps(Stroke(p1, p2))
    ensures AllInBox(Stroke(p1, p2), Span(p1, p2))
  {
    StartInv(p1, p2);
    WalkSteps(p1, p2, Start(p1, p2));
  }
}
