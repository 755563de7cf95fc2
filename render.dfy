/** The cell-to-pixel arithmetic of `draw` in js/game.js (the same in
    dist/SnakeDemo/js/game.js): each snake cell becomes a rounded square
    inset by half the gap, and the food a disc at the cell's centre. The
    canvas calls themselves are not modelled; `Draw` returns what would be
    painted. */
module Render {
  import opened Grid

  /** `CONFIG.gridSize`, `gap` and `size = gs - gap`, in pixels. */
  const GridSize: int := 30
  const Gap: int := 2
  const Size: int := GridSize - Gap

  /** `x * gs + gap / 2`: where a cell's square starts on one axis. */
  function CellOrigin(v: int): int {
    v * GridSize + Gap / 2
  }

  /** `food.x * gs + gs / 2`: the centre of the food disc on one axis. */
  function FoodCentre(v: int): int {
    v * GridSize + GridSize / 2
  }

  /** One `roundedRect` call: top-left corner, side, and whether it is
      drawn in the head style. */
  datatype Square = Square(x: int, y: int, size: int, head: bool)

  /** The food disc's centre; its pulsing radius is floating point and is
      not modelled. */
  datatype Disc = Disc(cx: int, cy: int)

  datatype Picture = Picture(squares: seq<Square>, food: Option<Disc>)

  function SquareOf(c: Cell, head: bool): Square {
    Square(CellOrigin(c.x), CellOrigin(c.y), Size, head)
  }

  function DiscOf(c: Cell): Disc {
    Disc(FoodCentre(c.x), FoodCentre(c.y))
  }

  /** What one `draw()` paints: a square per snake cell, in order, the head
      in its own style, and the food disc when there is food. */
  function Painted(snake: seq<Cell>, food: Option<Cell>): (p: Picture)
    ensures |p.squares| == |snake|
    ensures forall i :: 0 <= i < |snake| ==> p.squares[i] == SquareOf(snake[i], i == 0)
    ensures p.food.Some? <==> food.Some?
    ensures food.Some? ==> p.food.value == DiscOf(food.value)
  {
    Picture(seq(|snake|, i requires 0 <= i < |snake| => SquareOf(snake[i], i == 0)),
            if food.Some? then Some(DiscOf(food.value)) else None)
  }

  /** `draw()`: the loop over the snake, then the food. */
  method Draw(snake: seq<Cell>, food: Option<Cell>) returns (p: Picture)
    ensures p == Painted(snake, food)
  {
    var squares: seq<Square> := [];
    for i := 0 to |snake|
      invariant |squares| == i
      invariant forall j :: 0 <= j < i ==> squares[j] == SquareOf(snake[j], j == 0)
    {
      var x := snake[i].x * GridSize + Gap / 2;
      var y := snake[i].y * GridSize + Gap / 2;
      squares := squares + [Square(x, y, Size, i == 0)];
    }
    var disc: Option<Disc> := None;
    if food.Some? {
      var fx := food.value.x * GridSize + GridSize / 2;
      var fy := food.value.y * GridSize + GridSize / 2;
      disc := Some(Disc(fx, fy));
    }
    p := Picture(squares, disc);
  }

  /** Only the first square is drawn in the head style. */
  lemma OneHead(snake: seq<Cell>, food: Option<Cell>, i: int)
    requires 0 <= i < |snake|
    ensures Painted(snake, food).squares[i].head <==> i == 0
  {
  }

  /** The pixel `(px, py)` is painted by the square `q`. */
  predicate Covers(q: Square, px: int, py: int) {
    q.x <= px < q.x + q.size && q.y <= py < q.y + q.size
  }

  /** A square sits inside its 30-pixel cell with one pixel to spare on
      each side, so neighbouring squares are two pixels apart. */
  lemma SquareInCell(v: int)
    ensures CellOrigin(v) == v * GridSize + 1
    ensures CellOrigin(v) + Size == (v + 1) * GridSize - 1
    ensures CellOrigin(v + 1) - (CellOrigin(v) + Size) == Gap
  {
  }

  /** The food disc is centred on the square the cell would get. */
  lemma FoodCentredOnSquare(v: int)
    ensures FoodCentre(v) == CellOrigin(v) + Size / 2
  {
  }

  /** Every pixel of a cell's square maps back to that cell (negative
      coordinates included). */
  lemma PixelToCell(v: int, k: int)
    requires 0 <= k < Size
    ensures (CellOrigin(v) + k) / GridSize == v
  {
    assert CellOrigin(v) + k == v * GridSize + (k + 1);
  }

  /** Squares of distinct cells never overlap: a pixel painted by two
      snake squares belongs to squares of the same cell. */
  lemma SquaresDisjoint(a: Cell, b: Cell, ha: bool, hb: bool, px: int, py: int)
    requires Covers(SquareOf(a, ha), px, py) && Covers(SquareOf(b, hb), px, py)
    ensures a == b
  {
    PixelToCell(a.x, px - CellOrigin(a.x));
    PixelToCell(b.x, px - CellOrigin(b.x));
    PixelToCell(a.y, py - CellOrigin(a.y));
    PixelToCell(b.y, py - CellOrigin(b.y));
  }
}
