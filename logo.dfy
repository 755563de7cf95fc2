/** The older logo generator `getLogoPath(cols, rows)` of
    dist/SnakeDemo/paths.js: five letters "C O I N I" drawn with `addLine`
    from an origin placed at a tenth of the width and two fifths of the
    height. Its letters are separate pen strokes, so the path it returns
    jumps between letters; the game uses the hard-coded path instead. */
module Logo {
  import opened Grid
  import opened Raster
  import opened Paths

  /** `Math.floor(cols * 0.1)`. The double nearest to 0.1 lies just above
      one tenth and rounding is monotone, so for every grid size below
      about 10^14 this is the integer quotient. */
  function StartX(cols: int): int {
    cols / 10
  }

  /** `Math.floor(rows * 0.4)`, likewise the quotient of `2 * rows` by 5. */
  function StartY(rows: int): int {
    2 * rows / 5
  }

  /** The rounded "C": top arc, left bar, bottom arc. */
  function LetterC(x: int, y: int): seq<Segment> {
    [ Segment(Cell(x + 4, y), Cell(x + 1, y)),
      Segment(Cell(x + 1, y), Cell(x, y + 1)),
      Segment(Cell(x, y + 1), Cell(x, y + 5)),
      Segment(Cell(x, y + 5), Cell(x + 1, y + 6)),
      Segment(Cell(x + 1, y + 6), Cell(x + 4, y + 6)) ]
  }

  /** The "O", drawn clockwise from its top-left corner back to it. */
  function LetterO(x: int, y: int): seq<Segment> {
    [ Segment(Cell(x + 1, y), Cell(x + 4, y)),
      Segment(Cell(x + 4, y), Cell(x + 5, y + 1)),
      Segment(Cell(x + 5, y + 1), Cell(x + 5, y + 5)),
      Segment(Cell(x + 5, y + 5), Cell(x + 4, y + 6)),
      Segment(Cell(x + 4, y + 6), Cell(x + 1, y + 6)),
      Segment(Cell(x + 1, y + 6), Cell(x, y + 5)),
      Segment(Cell(x, y + 5), Cell(x, y + 1)),
      Segment(Cell(x, y + 1), Cell(x + 1, y)) ]
  }

  /** The first "I": one bar drawn downwards. */
  function BarDown(x: int, y: int): seq<Segment> {
    [ Segment(Cell(x + 1, y), Cell(x + 1, y + 6)) ]
  }

  /** The "N": up, diagonal down, up. */
  function LetterN(x: int, y: int): seq<Segment> {
    [ Segment(Cell(x, y + 6), Cell(x, y)),
      Segment(Cell(x, y), Cell(x + 4, y + 6)),
      Segment(Cell(x + 4, y + 6), Cell(x + 4, y)) ]
  }

  /** The second "I": one bar drawn upwards. */
  function BarUp(x: int, y: int): seq<Segment> {
    [ Segment(Cell(x + 1, y + 6), Cell(x + 1, y)) ]
  }

  /** The letters in drawing order; `cx` moves right by 6, 7, 4 and 6. */
  function LogoSegments(sx: int, sy: int): seq<Segment> {
    LetterC(sx, sy) + LetterO(sx + 6, sy) + BarDown(sx + 13, sy)
      + LetterN(sx + 17, sy) + BarUp(sx + 23, sy)
  }

  function LogoPath(cols: int, rows: int): seq<Cell> {
    Lines(LogoSegments(StartX(cols), StartY(rows)))
  }

  /** The eighteen strokes, one per `addLine` call, in call order. */
  lemma LogoAt(sx: int, sy: int)
    ensures |LogoSegments(sx, sy)| == 18
    ensures LogoSegments(sx, sy)[0] == Segment(Cell(sx + 4, sy), Cell(sx + 1, sy))
    ensures LogoSegments(sx, sy)[1] == Segment(Cell(sx + 1, sy), Cell(sx, sy + 1))
    ensures LogoSegments(sx, sy)[2] == Segment(Cell(sx, sy + 1), Cell(sx, sy + 5))
    ensures LogoSegments(sx, sy)[3] == Segment(Cell(sx, sy + 5), Cell(sx + 1, sy + 6))
    ensures LogoSegments(sx, sy)[4] == Segment(Cell(sx + 1, sy + 6), Cell(sx + 4, sy + 6))
    ensures LogoSegments(sx, sy)[5] == Segment(Cell(sx + 7, sy), Cell(sx + 10, sy))
    ensures LogoSegments(sx, sy)[6] == Segment(Cell(sx + 10, sy), Cell(sx + 11, sy + 1))
    ensures LogoSegments(sx, sy)[7] == Segment(Cell(sx + 11, sy + 1), Cell(sx + 11, sy + 5))
    ensures LogoSegments(sx, sy)[8] == Segment(Cell(sx + 11, sy + 5), Cell(sx + 10, sy + 6))
    ensures LogoSegments(sx, sy)[9] == Segment(Cell(sx + 10, sy + 6), Cell(sx + 7, sy + 6))
    ensures LogoSegments(sx, sy)[10] == Segment(Cell(sx + 7, sy + 6), Cell(sx + 6, sy + 5))
    ensures LogoSegments(sx, sy)[11] == Segment(Cell(sx + 6, sy + 5), Cell(sx + 6, sy + 1))
    ensures LogoSegments(sx, sy)[12] == Segment(Cell(sx + 6, sy + 1), Cell(sx + 7, sy))
    ensures LogoSegments(sx, sy)[13] == Segment(Cell(sx + 14, sy), Cell(sx + 14, sy + 6))
    ensures LogoSegments(sx, sy)[14] == Segment(Cell(sx + 17, sy + 6), Cell(sx + 17, sy))
    ensures LogoSegments(sx, sy)[15] == Segment(Cell(sx + 17, sy), Cell(sx + 21, sy + 6))
    ensures LogoSegments(sx, sy)[16] == Segment(Cell(sx + 21, sy + 6), Cell(sx + 21, sy))
    ensures LogoSegments(sx, sy)[17] == Segment(Cell(sx + 24, sy + 6), Cell(sx + 24, sy))
  {
  }

  /** `getLogoPath(cols, rows)`: eighteen `addLine` calls onto one array. */
  method GetLogoPath(cols: int, rows: int) returns (path: seq<Cell>)
    ensures path == LogoPath(cols, rows)
  {
    path := [];
    var startX := cols / 10;
    var startY := 2 * rows / 5;
    ghost var segs := LogoSegments(startX, startY);
    LogoAt(startX, startY);
    var cx := startX;
    var cy := startY;
    // C
    path := AddLine(path, cx + 4, cy, cx + 1, cy);
    LinesStep(segs, 0);
    path := AddLine(path, cx + 1, cy, cx, cy + 1);
    LinesStep(segs, 1);
    path := AddLine(path, cx, cy + 1, cx, cy + 5);
    LinesStep(segs, 2);
    path := AddLine(path, cx, cy + 5, cx + 1, cy + 6);
    LinesStep(segs, 3);
    path := AddLine(path, cx + 1, cy + 6, cx + 4, cy + 6);
    LinesStep(segs, 4);
    cx := cx + 6;
    // O
    path := AddLine(path, cx + 1, cy, cx + 4, cy);
    LinesStep(segs, 5);
    path := AddLine(path, cx + 4, cy, cx + 5, cy + 1);
    LinesStep(segs, 6);
    path := AddLine(path, cx + 5, cy + 1, cx + 5, cy + 5);
    LinesStep(segs, 7);
    path := AddLine(path, cx + 5, cy + 5, cx + 4, cy + 6);
    LinesStep(segs, 8);
    path := AddLine(path, cx + 4, cy + 6, cx + 1, cy + 6);
    LinesStep(segs, 9);
    path := AddLine(path, cx + 1, cy + 6, cx, cy + 5);
    LinesStep(segs, 10);
    path := AddLine(path, cx, cy + 5, cx, cy + 1);
    LinesStep(segs, 11);
    path := AddLine(path, cx, cy + 1, cx + 1, cy);
    LinesStep(segs, 12);
    cx := cx + 7;
    // I
    path := AddLine(path, cx + 1, cy, cx + 1, cy + 6);
    LinesStep(segs, 13);
    cx := cx + 4;
    // N
    path := AddLine(path, cx, cy + 6, cx, cy);
    LinesStep(segs, 14);
    path := AddLine(path, cx, cy, cx + 4, cy + 6);
    LinesStep(segs, 15);
    path := AddLine(path, cx + 4, cy + 6, cx + 4, cy);
    LinesStep(segs, 16);
    cx := cx + 6;
    // I
    path := AddLine(path, cx + 1, cy + 6, cx + 1, cy);
    LinesLast(segs);
  }

  // ---------------------------------------------------------------------
  // What the logo path looks like.

  lemma LinesSingle(s: Segment)
    ensures Lines([s]) == Stroke(s.from, s.to)
  {
    assert [s][..0] == [];
  }

  /** The letters' cell counts, stroke by stroke: 4 + 2 + 5 + 2 + 4 for the
      "C", 4 + 2 + 5 + 2 + 4 + 2 + 5 + 2 for the "O", 7 + 7 + 7 for the "N"
      and 7 for each "I". */
  lemma LengthC(x: int, y: int)
    ensures |Lines(LetterC(x, y))| == 17
  {
    var segs := LetterC(x, y);
    LinesStep(segs, 0);
    LinesStep(segs, 1);
    LinesStep(segs, 2);
    LinesStep(segs, 3);
    LinesLast(segs);
  }

  lemma LengthO(x: int, y: int)
    ensures |Lines(LetterO(x, y))| == 26
  {
    var segs := LetterO(x, y);
    var top, bottom := segs[..4], segs[4..];
    assert segs == top + bottom;
    LinesAppend(top, bottom);
    LinesStep(top, 0);
    LinesStep(top, 1);
    LinesStep(top, 2);
    LinesLast(top);
    LinesStep(bottom, 0);
    LinesStep(bottom, 1);
    LinesStep(bottom, 2);
    LinesLast(bottom);
  }

  lemma LengthN(x: int, y: int)
    ensures |Lines(LetterN(x, y))| == 21
  {
    var segs := LetterN(x, y);
    LinesStep(segs, 0);
    LinesStep(segs, 1);
    LinesLast(segs);
  }

  lemma LengthBars(x: int, y: int)
    ensures |Lines(BarDown(x, y))| == 7 && |Lines(BarUp(x, y))| == 7
  {
    LinesSingle(BarDown(x, y)[0]);
    LinesSingle(BarUp(x, y)[0]);
  }

  /** Each letter is one unbroken pen stroke: its strokes join up, so its
      cells touch one another. */
  lemma LettersContinuous(sx: int, sy: int)
    ensures Continuous(Lines(LetterC(sx, sy)))
    ensures Continuous(Lines(LetterO(sx + 6, sy)))
    ensures Continuous(Lines(BarDown(sx + 13, sy)))
    ensures Continuous(Lines(LetterN(sx + 17, sy)))
    ensures Continuous(Lines(BarUp(sx + 23, sy)))
  {
    LinesContinuous(LetterC(sx, sy));
    LinesContinuous(LetterO(sx + 6, sy));
    LinesContinuous(BarDown(sx + 13, sy));
    LinesContinuous(LetterN(sx + 17, sy));
    LinesContinuous(BarUp(sx + 23, sy));
  }

  /** The logo path is the five letters' cells one after another: 17 + 26
      + 7 + 21 + 7 = 78 cells. */
  lemma LogoPieces(sx: int, sy: int)
    ensures var path := Lines(LogoSegments(sx, sy));
      && path == Lines(LetterC(sx, sy)) + Lines(LetterO(sx + 6, sy)) + Lines(BarDown(sx + 13, sy))
                 + Lines(LetterN(sx + 17, sy)) + Lines(BarUp(sx + 23, sy))
      && |path| == 78
  {
    var c, o, i, n, j := LetterC(sx, sy), LetterO(sx + 6, sy), BarDown(sx + 13, sy),
                         LetterN(sx + 17, sy), BarUp(sx + 23, sy);
    LinesAppend(c, o);
    LinesAppend(c + o, i);
    LinesAppend(c + o + i, n);
    LinesAppend(c + o + i + n, j);
    LengthC(sx, sy);
    LengthO(sx + 6, sy);
    LengthBars(sx + 13, sy);
    LengthN(sx + 17, sy);
    LengthBars(sx + 23, sy);
  }

  /** The cells on either side of each letter boundary, and the two ends. */
  lemma LogoJumps(sx: int, sy: int)
    ensures var path := Lines(LogoSegments(sx, sy));
      && |path| == 78
      && path[0] == Cell(sx + 4, sy) && path[77] == Cell(sx + 24, sy)
      && path[16] == Cell(sx + 4, sy + 6) && path[17] == Cell(sx + 7, sy)
      && path[42] == Cell(sx + 7, sy) && path[43] == Cell(sx + 14, sy)
      && path[49] == Cell(sx + 14, sy + 6) && path[50] == Cell(sx + 17, sy + 6)
      && path[70] == Cell(sx + 21, sy) && path[71] == Cell(sx + 24, sy + 6)
  {
    var c, o, i, n, j := Lines(LetterC(sx, sy)), Lines(LetterO(sx + 6, sy)), Lines(BarDown(sx + 13, sy)),
                         Lines(LetterN(sx + 17, sy)), Lines(BarUp(sx + 23, sy));
    LogoPieces(sx, sy);
    LengthC(sx, sy);
    LengthO(sx + 6, sy);
    LengthBars(sx + 13, sy);
    LengthN(sx + 17, sy);
    LengthBars(sx + 23, sy);
    LinesEnds(LetterC(sx, sy));
    LinesEnds(LetterO(sx + 6, sy));
    LinesEnds(BarDown(sx + 13, sy));
    LinesEnds(LetterN(sx + 17, sy));
    LinesEnds(BarUp(sx + 23, sy));
    var path := Lines(LogoSegments(sx, sy));
    assert path == (((c + o) + i) + n) + j;
    assert path[0] == c[0] && path[16] == c[16] && path[17] == o[0];
    assert path[42] == o[25] && path[43] == i[0] && path[49] == i[6] && path[50] == n[0];
    assert path[70] == n[20] && path[71] == j[0] && path[77] == j[6];
  }

  /** The logo path: 78 cells from (sx + 4, sy) to (sx + 24, sy) inside
      the box [sx, sx + 24] x [sy, sy + 6]. Inside a letter the cells
      touch, but between letters the path jumps by three or more columns,
      so as a whole it is not continuous: a snake cannot follow it. */
  lemma LogoShape(sx: int, sy: int)
    ensures var path := Lines(LogoSegments(sx, sy));
      && |path| == 78
      && path[0] == Cell(sx + 4, sy) && path[77] == Cell(sx + 24, sy)
      && AllInBox(path, Box(sx, sx + 24, sy, sy + 6))
      && !Touching(path[16], path[17]) && !Touching(path[42], path[43])
      && !Touching(path[49], path[50]) && !Touching(path[70], path[71])
      && !Continuous(path)
  {
    LogoJumps(sx, sy);
    LogoAt(sx, sy);
    LinesInBox(LogoSegments(sx, sy), Box(sx, sx + 24, sy, sy + 6));
  }
}
