/** The path generator of dist/SnakeDemo/paths.js: the two line loops
    (`addStroke` inside `getHardcodedCoinis`, `addLine` inside
    `getLogoPath`), the chaining of strokes over keyframes, and the two
    logo paths. */
module Paths {
  import opened Grid
  import opened Raster

  /** A pen stroke from one keyframe to the next. */
  datatype Segment = Segment(from: Cell, to: Cell)

  /** The cells of all strokes, in order, each stroke with both its ends. */
  function Lines(segs: seq<Segment>): seq<Cell> {
    if segs == [] then []
    else Lines(segs[..|segs| - 1]) + Stroke(segs[|segs| - 1].from, segs[|segs| - 1].to)
  }

  /** The number of cells stroke `s` emits. */
  function StrokeCells(s: Segment): nat {
    Max(Dx(s.from, s.to), Dy(s.from, s.to)) + 1
  }

  /** The sum of the stroke lengths, joints counted once per stroke. */
  function TotalCells(segs: seq<Segment>): nat {
    if segs == [] then 0 else TotalCells(segs[..|segs| - 1]) + StrokeCells(segs[|segs| - 1])
  }

  /** The strokes between consecutive keyframes. */
  function Pairs(keys: seq<Cell>): (segs: seq<Segment>)
    ensures |segs| == if |keys| < 2 then 0 else |keys| - 1
    ensures forall k :: 0 <= k < |segs| ==> segs[k] == Segment(keys[k], keys[k + 1])
  {
    if |keys| < 2 then [] else seq(|keys| - 1, k requires 0 <= k < |keys| - 1 => Segment(keys[k], keys[k + 1]))
  }

  /** Each stroke starts where the previous one ended. */
  predicate Joined(segs: seq<Segment>) {
    forall k :: 0 <= k < |segs| - 1 ==> segs[k].to == segs[k + 1].from
  }

  // ---------------------------------------------------------------------
  // The two loops.

  /** `addStroke(p1, p2)`: push every cell before `p2`, then `p2` itself. */
  method AddStroke(fullPath: seq<Cell>, p1: Cell, p2: Cell) returns (extended: seq<Cell>)
    ensures extended == fullPath + Stroke(p1, p2)
  {
    var dx: int := Abs(p2.x - p1.x);
    var dy: int := Abs(p2.y - p1.y);
    var sx := if p1.x < p2.x then 1 else -1;
    var sy := if p1.y < p2.y then 1 else -1;
    var err: int := dx - dy;
    var cx, cy := p1.x, p1.y;
    extended := fullPath;
    StartInv(p1, p2);
    ghost var cur := Start(p1, p2);
    while !(cx == p2.x && cy == p2.y)
      invariant cur == Cursor(Cell(cx, cy), err)
      invariant WalkInv(p1, p2, cur)
      invariant extended + Walk(p1, p2, cur) == fullPath + Stroke(p1, p2)
      decreases Remaining(p2, cur.at)
    {
      LoopStep(p1, p2, fullPath + Stroke(p1, p2), extended, cur);
      extended := extended + [Cell(cx, cy)];
      var e2 := 2 * err;
      if e2 > -dy { err := err - dy; cx := cx + sx; }
      if e2 < dx { err := err + dx; cy := cy + sy; }
      PassIsAdvance(p1, p2, cur, dx, dy, sx, sy, e2, cx, cy, err);
      cur := Advance(p1, p2, cur);
    }
    extended := extended + [p2];
  }

  /** `addLine(x1, y1, x2, y2)`: push the current cell first, then stop if it
      is the end point; it emits exactly the cells `addStroke` emits. */
  method AddLine(path: seq<Cell>, x1: int, y1: int, x2: int, y2: int) returns (extended: seq<Cell>)
    ensures extended == path + Stroke(Cell(x1, y1), Cell(x2, y2))
  {
    ghost var p1, p2 := Cell(x1, y1), Cell(x2, y2);
    var dx: int := Abs(x2 - x1);
    var dy: int := Abs(y2 - y1);
    var sx := if x1 < x2 then 1 else -1;
    var sy := if y1 < y2 then 1 else -1;
    var err: int := dx - dy;
    var cx, cy := x1, y1;
    extended := path;
    StartInv(p1, p2);
    ghost var cur := Start(p1, p2);
    while true
      invariant cur == Cursor(Cell(cx, cy), err)
      invariant WalkInv(p1, p2, cur)
      invariant extended + Walk(p1, p2, cur) == path + Stroke(p1, p2)
      decreases Remaining(p2, cur.at)
    {
      if cx == x2 && cy == y2 {
        extended := extended + [Cell(cx, cy)];
        break;
      }
      LoopStep(p1, p2, path + Stroke(p1, p2), extended, cur);
      extended := extended + [Cell(cx, cy)];
      var e2 := 2 * err;
      if e2 > -dy { err := err - dy; cx := cx + sx; }
      if e2 < dx { err := err + dx; cy := cy + sy; }
      PassIsAdvance(p1, p2, cur, dx, dy, sx, sy, e2, cx, cy, err);
      cur := Advance(p1, p2, cur);
    }
  }

  /** One pass of either loop: pushing the current cell and moving the
      cursor to `Advance(cur)` keeps "pushed so far, then the cells still to
      come, is the whole stroke", keeps the walk invariant, and gets closer
      to `p2`. */
  lemma LoopStep(p1: Cell, p2: Cell, whole: seq<Cell>, pushed: seq<Cell>, cur: Cursor)
    requires WalkInv(p1, p2, cur) && cur.at != p2
    requires pushed + Walk(p1, p2, cur) == whole
    ensures WalkInv(p1, p2, Advance(p1, p2, cur))
    ensures (pushed + [cur.at]) + Walk(p1, p2, Advance(p1, p2, cur)) == whole
    ensures Remaining(p2, Advance(p1, p2, cur).at) < Remaining(p2, cur.at)
  {
    AdvanceInv(p1, p2, cur);
    assert Walk(p1, p2, cur) == [cur.at] + Walk(p1, p2, Advance(p1, p2, cur));
  }

  // ---------------------------------------------------------------------
  // Chaining strokes.

  lemma {:induction false} LinesLength(segs: seq<Segment>)
    ensures |Lines(segs)| == TotalCells(segs)
  {
    if segs != [] {
      LinesLength(segs[..|segs| - 1]);
    }
  }

  /** The cells of the first `n` strokes are a prefix of the whole path. */
  lemma {:induction false} LinesPrefix(segs: seq<Segment>, n: nat)
    requires n <= |segs|
    ensures Lines(segs[..n]) <= Lines(segs)
  {
    if n < |segs| {
      assert segs[..|segs| - 1][..n] == segs[..n];
      LinesPrefix(segs[..|segs| - 1], n);
    } else {
      assert segs[..n] == segs;
    }
  }

  /** Drawing stroke `k` after strokes `0..k-1` appends its cells. */
  lemma LinesStep(segs: seq<Segment>, k: nat)
    requires k < |segs|
    ensures Lines(segs[..k + 1]) == Lines(segs[..k]) + Stroke(segs[k].from, segs[k].to)
  {
    assert segs[..k + 1][..k] == segs[..k];
  }

  /** The same for the last stroke, which completes the path. */
  lemma LinesLast(segs: seq<Segment>)
    requires segs != []
    ensures Lines(segs) == Lines(segs[..|segs| - 1]) + Stroke(segs[|segs| - 1].from, segs[|segs| - 1].to)
  {
  }

  /** A non-empty chain starts at the first stroke's start and ends at the
      last stroke's end. */
  lemma {:induction false} LinesEnds(segs: seq<Segment>)
    requires segs != []
    ensures Lines(segs) != []
    ensures Lines(segs)[0] == segs[0].from
    ensures Lines(segs)[|Lines(segs)| - 1] == segs[|segs| - 1].to
  {
    var init, last := segs[..|segs| - 1], segs[|segs| - 1];
    var s := Stroke(last.from, last.to);
    assert Lines(segs) == Lines(init) + s;
    if |segs| > 1 {
      LinesEnds(init);
      assert init[0] == segs[0];
      assert Lines(segs)[0] == Lines(init)[0];
    } else {
      assert Lines(init) == [];
    }
  }

  lemma {:induction false} LinesAppend(a: seq<Segment>, b: seq<Segment>)
    ensures Lines(a + b) == Lines(a) + Lines(b)
  {
    if b == [] {
      assert a + b == a;
    } else {
      var init, last := b[..|b| - 1], b[|b| - 1];
      var s := Stroke(last.from, last.to);
      assert (a + b)[..|a + b| - 1] == a + init;
      assert (a + b)[|a + b| - 1] == last;
      assert Lines(a + b) == Lines(a + init) + s;
      LinesAppend(a, init);
      assert Lines(b) == Lines(init) + s;
      assert (Lines(a) + Lines(init)) + s == Lines(a) + (Lines(init) + s);
    }
  }

  /** Where stroke `k` begins: the cell before it is the end of stroke
      `k - 1` and the cell at it is the start of stroke `k`. */
  lemma StrokeBoundary(segs: seq<Segment>, k: nat)
    requires 0 < k < |segs|
    ensures |Lines(segs)| > |Lines(segs[..k])| >= 1
    ensures Lines(segs)[|Lines(segs[..k])| - 1] == segs[k - 1].to
    ensures Lines(segs)[|Lines(segs[..k])|] == segs[k].from
  {
    LinesPrefix(segs, k + 1);
    LinesEnds(segs[..k]);
    LinesStep(segs, k);
  }

  /** Joined strokes leave no gap: neighbouring cells differ by at most one
      per axis; at each joint the keyframe appears twice, so they may be equal. */
  lemma {:induction false} LinesContinuous(segs: seq<Segment>)
    requires Joined(segs)
    ensures Continuous(Lines(segs))
  {
    if segs != [] {
      var init := segs[..|segs| - 1];
      var last := segs[|segs| - 1];
      assert Joined(init);
      LinesContinuous(init);
      var a, b := Lines(init), Stroke(last.from, last.to);
      StrokeSteps(last.from, last.to);
      if init != [] {
        LinesEnds(init);
        assert a[|a| - 1] == last.from == b[0];
      }
      forall k | 0 <= k < |a + b| - 1
        ensures Touching((a + b)[k], (a + b)[k + 1])
      {
        if k + 1 < |a| {
          assert (a + b)[k] == a[k] && (a + b)[k + 1] == a[k + 1];
        } else if k + 1 == |a| {
          assert (a + b)[k] == a[k] && (a + b)[k + 1] == b[0];
        } else {
          assert (a + b)[k] == b[k - |a|] && (a + b)[k + 1] == b[k - |a| + 1];
        }
      }
    }
  }

  /** At the joint entering stroke `k` (for 0 < k) the shared keyframe is
      emitted twice: as the last cell of the strokes before it and as the
      first cell of stroke `k`. */
  lemma JointDuplicated(segs: seq<Segment>, k: nat)
    requires Joined(segs) && 0 < k < |segs|
    ensures |Lines(segs)| > TotalCells(segs[..k]) >= 1
    ensures Lines(segs)[TotalCells(segs[..k]) - 1] == segs[k].from
    ensures Lines(segs)[TotalCells(segs[..k])] == segs[k].from
  {
    StrokeBoundary(segs, k);
    LinesLength(segs[..k]);
    assert segs[k - 1].to == segs[k].from;
  }

  /** If every stroke's ends lie in `b`, so does every cell of the path. */
  lemma {:induction false} LinesInBox(segs: seq<Segment>, b: Box)
    requires forall k :: 0 <= k < |segs| ==> InBox(segs[k].from, b) && InBox(segs[k].to, b)
    ensures AllInBox(Lines(segs), b)
  {
    if segs != [] {
      var init := segs[..|segs| - 1];
      var last := segs[|segs| - 1];
      LinesInBox(init, b);
      var s := Stroke(last.from, last.to);
      StrokeSteps(last.from, last.to);
      assert forall k :: 0 <= k < |s| ==> InBox(s[k], Span(last.from, last.to));
      assert AllInBox(s, b);
      var a := Lines(init);
      assert forall k :: 0 <= k < |a + s| ==> (a + s)[k] == if k < |a| then a[k] else s[k - |a|];
    }
  }

  lemma PairsJoined(keys: seq<Cell>)
    ensures Joined(Pairs(keys))
  {
  }

  /** The for loop over `keys`: one stroke per consecutive pair. */
  function Chain(keys: seq<Cell>): seq<Cell> {
    Lines(Pairs(keys))
  }

  /** Chaining keyframes gives one continuous path whose length is the sum
      of its stroke lengths. */
  lemma ChainProperties(keys: seq<Cell>)
    ensures Continuous(Chain(keys))
    ensures |Chain(keys)| == TotalCells(Pairs(keys))
    ensures |keys| >= 2 ==> Chain(keys)[0] == keys[0]
    ensures |keys| >= 2 ==> Chain(keys)[|Chain(keys)| - 1] == keys[|keys| - 1]
  {
    PairsJoined(keys);
    LinesContinuous(Pairs(keys));
    LinesLength(Pairs(keys));
    if |keys| >= 2 {
      LinesEnds(Pairs(keys));
    }
  }

  // ---------------------------------------------------------------------
  // The hard-coded "COINIS" path.

  /** The 24 keyframes that spell "COINIS" as one pen stroke. */
  const CoinisKeys: seq<Cell> := [
    // C
    Cell(6, 10), Cell(2, 10), Cell(2, 18), Cell(6, 18),
    // connector to O
    Cell(8, 18),
    // O
    Cell(12, 18), Cell(12, 10), Cell(8, 10), Cell(8, 18),
    // connector to I, I
    Cell(14, 18), Cell(14, 10),
    // connector to N, N
    Cell(16, 10), Cell(16, 18), Cell(16, 10), Cell(20, 18), Cell(20, 10),
    // connector to I, I
    Cell(22, 10), Cell(22, 18),
    // connector to S, S
    Cell(24, 18), Cell(28, 18), Cell(28, 14), Cell(24, 14), Cell(24, 10), Cell(28, 10)
  ]

  /** The box the game centres on the grid: x in [2, 28], y in [10, 18]. */
  const CoinisBox: Box := Box(2, 28, 10, 18)

  function CoinisPath(): seq<Cell> {
    Chain(CoinisKeys)
  }

  /** `getHardcodedCoinis()`: a fresh path built from the keyframes alone. */
  method GetHardcodedCoinis() returns (fullPath: seq<Cell>)
    ensures fullPath == CoinisPath()
  {
    var keys := CoinisKeys;
    fullPath := [];
    for i := 0 to |keys| - 1
      invariant fullPath == Lines(Pairs(keys)[..i])
    {
      assert Pairs(keys)[..i + 1][..i] == Pairs(keys)[..i];
      fullPath := AddStroke(fullPath, keys[i], keys[i + 1]);
    }
    assert Pairs(keys)[..|keys| - 1] == Pairs(keys);
  }

  /** The generator depends on nothing outside its own keyframes: two calls
      give equal paths. */
  method GenerateTwice() returns (first: seq<Cell>, second: seq<Cell>)
    ensures first == second
  {
    first := GetHardcodedCoinis();
    second := GetHardcodedCoinis();
  }

  lemma CoinisKeysInBox()
    ensures forall k :: 0 <= k < |CoinisKeys| ==> InBox(CoinisKeys[k], CoinisBox)
  {
    forall c | c in CoinisKeys
      ensures InBox(c, CoinisBox)
    {
    }
  }

  /** The hard-coded path: 145 cells from (6, 10) to (28, 10), continuous,
      and inside the box [2, 28] x [10, 18]. */
  lemma CoinisPathFacts()
    ensures |CoinisPath()| == 145
    ensures CoinisPath()[0] == Cell(6, 10) && CoinisPath()[144] == Cell(28, 10)
    ensures Continuous(CoinisPath())
    ensures AllInBox(CoinisPath(), CoinisBox)
  {
    ChainProperties(CoinisKeys);
    CoinisKeysInBox();
    LinesInBox(Pairs(CoinisKeys), CoinisBox);
    CoinisTotal();
  }

  /** The box is tight: besides (28, 10) at the end, the path visits (2, 10)
      as cell 4 and (2, 18) as cell 14. */
  lemma CoinisCorners()
    ensures |CoinisPath()| > 14
    ensures CoinisPath()[4] == Cell(2, 10) && CoinisPath()[14] == Cell(2, 18)
  {
    var segs := Pairs(CoinisKeys);
    CoinisTotal();
    PairsJoined(CoinisKeys);
    assert segs[1].from == Cell(2, 10) && segs[2].from == Cell(2, 18);
    JointCell(segs, 1, 5, Cell(2, 10));
    JointCell(segs, 2, 14, Cell(2, 18));
  }

  /** `JointDuplicated` with the joint's position and keyframe named. */
  lemma JointCell(segs: seq<Segment>, k: nat, n: nat, c: Cell)
    requires Joined(segs) && 0 < k < |segs|
    requires TotalCells(segs[..k]) == n && segs[k].from == c
    ensures |Lines(segs)| > n >= 1 && Lines(segs)[n - 1] == c && Lines(segs)[n] == c
  {
    JointDuplicated(segs, k);
  }

  /** The stroke lengths of the keyframes, added up one stroke at a time:
      145 cells, each joint counted twice. */
  lemma CountStrokes(keys: seq<Cell>)
    requires |keys| == 24
    requires keys[0] == Cell(6, 10) && keys[1] == Cell(2, 10) && keys[2] == Cell(2, 18) && keys[3] == Cell(6, 18)
    requires keys[4] == Cell(8, 18) && keys[5] == Cell(12, 18) && keys[6] == Cell(12, 10) && keys[7] == Cell(8, 10)
    requires keys[8] == Cell(8, 18) && keys[9] == Cell(14, 18) && keys[10] == Cell(14, 10) && keys[11] == Cell(16, 10)
    requires keys[12] == Cell(16, 18) && keys[13] == Cell(16, 10) && keys[14] == Cell(20, 18) && keys[15] == Cell(20, 10)
    requires keys[16] == Cell(22, 10) && keys[17] == Cell(22, 18) && keys[18] == Cell(24, 18) && keys[19] == Cell(28, 18)
    requires keys[20] == Cell(28, 14) && keys[21] == Cell(24, 14) && keys[22] == Cell(24, 10) && keys[23] == Cell(28, 10)
    ensures TotalCells(Pairs(keys)[..1]) == 5 && TotalCells(Pairs(keys)[..2]) == 14
    ensures TotalCells(Pairs(keys)) == 145
  {
    var segs := Pairs(keys);
    assert TotalCells(segs[..0]) == 0;
    assert TotalCells(segs[..1]) == 5 by {
      assert segs[..1][..0] == segs[..0] && segs[0] == Segment(Cell(6, 10), Cell(2, 10));
    }
    assert TotalCells(segs[..2]) == 14 by {
      assert segs[..2][..1] == segs[..1] && segs[1] == Segment(Cell(2, 10), Cell(2, 18));
    }
    assert TotalCells(segs[..3]) == 19 by {
      assert segs[..3][..2] == segs[..2] && segs[2] == Segment(Cell(2, 18), Cell(6, 18));
    }
    assert TotalCells(segs[..4]) == 22 by {
      assert segs[..4][..3] == segs[..3] && segs[3] == Segment(Cell(6, 18), Cell(8, 18));
    }
    assert TotalCells(segs[..5]) == 27 by {
      assert segs[..5][..4] == segs[..4] && segs[4] == Segment(Cell(8, 18), Cell(12, 18));
    }
    assert TotalCells(segs[..6]) == 36 by {
      assert segs[..6][..5] == segs[..5] && segs[5] == Segment(Cell(12, 18), Cell(12, 10));
    }
    assert TotalCells(segs[..7]) == 41 by {
      assert segs[..7][..6] == segs[..6] && segs[6] == Segment(Cell(12, 10), Cell(8, 10));
    }
    assert TotalCells(segs[..8]) == 50 by {
      assert segs[..8][..7] == segs[..7] && segs[7] == Segment(Cell(8, 10), Cell(8, 18));
    }
    assert TotalCells(segs[..9]) == 57 by {
      assert segs[..9][..8] == segs[..8] && segs[8] == Segment(Cell(8, 18), Cell(14, 18));
    }
    assert TotalCells(segs[..10]) == 66 by {
      assert segs[..10][..9] == segs[..9] && segs[9] == Segment(Cell(14, 18), Cell(14, 10));
    }
    assert TotalCells(segs[..11]) == 69 by {
      assert segs[..11][..10] == segs[..10] && segs[10] == Segment(Cell(14, 10), Cell(16, 10));
    }
    assert TotalCells(segs[..12]) == 78 by {
      assert segs[..12][..11] == segs[..11] && segs[11] == Segment(Cell(16, 10), Cell(16, 18));
    }
    assert TotalCells(segs[..13]) == 87 by {
      assert segs[..13][..12] == segs[..12] && segs[12] == Segment(Cell(16, 18), Cell(16, 10));
    }
    assert TotalCells(segs[..14]) == 96 by {
      assert segs[..14][..13] == segs[..13] && segs[13] == Segment(Cell(16, 10), Cell(20, 18));
    }
    assert TotalCells(segs[..15]) == 105 by {
      assert segs[..15][..14] == segs[..14] && segs[14] == Segment(Cell(20, 18), Cell(20, 10));
    }
    assert TotalCells(segs[..16]) == 108 by {
      assert segs[..16][..15] == segs[..15] && segs[15] == Segment(Cell(20, 10), Cell(22, 10));
    }
    assert TotalCells(segs[..17]) == 117 by {
      assert segs[..17][..16] == segs[..16] && segs[16] == Segment(Cell(22, 10), Cell(22, 18));
    }
    assert TotalCells(segs[..18]) == 120 by {
      assert segs[..18][..17] == segs[..17] && segs[17] == Segment(Cell(22, 18), Cell(24, 18));
    }
    assert TotalCells(segs[..19]) == 125 by {
      assert segs[..19][..18] == segs[..18] && segs[18] == Segment(Cell(24, 18), Cell(28, 18));
    }
    assert TotalCells(segs[..20]) == 130 by {
      assert segs[..20][..19] == segs[..19] && segs[19] == Segment(Cell(28, 18), Cell(28, 14));
    }
    assert TotalCells(segs[..21]) == 135 by {
      assert segs[..21][..20] == segs[..20] && segs[20] == Segment(Cell(28, 14), Cell(24, 14));
    }
    assert TotalCells(segs[..22]) == 140 by {
      assert segs[..22][..21] == segs[..21] && segs[21] == Segment(Cell(24, 14), Cell(24, 10));
    }
    assert TotalCells(segs[..23]) == 145 by {
      assert segs[..23][..22] == segs[..22] && segs[22] == Segment(Cell(24, 10), Cell(28, 10));
    }
    assert segs[..23] == segs;
  }

  lemma CoinisTotal()
    ensures TotalCells(Pairs(CoinisKeys)[..1]) == 5 && TotalCells(Pairs(CoinisKeys)[..2]) == 14
    ensures TotalCells(Pairs(CoinisKeys)) == 145
  {
    CountStrokes(CoinisKeys);
  }
}
