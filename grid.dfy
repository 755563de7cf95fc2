/** Grid cells and the small vocabulary shared by the path generator, the
    tracing engine and the render step. */
module Grid {

  /** One grid square, addressed by column `x` and row `y`. */
  datatype Cell = Cell(x: int, y: int)

  /** A value that may be absent (the source's `null`). */
  datatype Option<T> = None | Some(value: T)

  function Abs(n: int): nat {
    if n < 0 then -n else n
  }

  function Max(a: int, b: int): int {
    if a < b then b else a
  }

  function Min(a: int, b: int): int {
    if a < b then a else b
  }

  /** `a` and `b` differ by at most one in each axis (they may be equal). */
  predicate Touching(a: Cell, b: Cell) {
    Abs(a.x - b.x) <= 1 && Abs(a.y - b.y) <= 1
  }

  /** `a` and `b` are distinct 8-neighbours: one king move apart. */
  predicate Neighbours(a: Cell, b: Cell) {
    Touching(a, b) && a != b
  }

  /** Every step is a king move to a distinct cell. */
  predicate KingSteps(path: seq<Cell>) {
    forall k :: 0 <= k < |path| - 1 ==> Neighbours(path[k], path[k + 1])
  }

  /** No teleports: every pair of consecutive cells touches. */
  predicate Continuous(path: seq<Cell>) {
    forall k :: 0 <= k < |path| - 1 ==> Touching(path[k], path[k + 1])
  }

  /** The axis-aligned rectangle [minX, maxX] x [minY, maxY]. */
  datatype Box = Box(minX: int, maxX: int, minY: int, maxY: int)

  predicate InBox(c: Cell, b: Box) {
    b.minX <= c.x <= b.maxX && b.minY <= c.y <= b.maxY
  }

  predicate AllInBox(path: seq<Cell>, b: Box) {
    forall k :: 0 <= k < |path| ==> InBox(path[k], b)
  }

  /** The bounding box of two cells. */
  function Span(p1: Cell, p2: Cell): (b: Box)
    ensures InBox(p1, b) && InBox(p2, b)
  {
    Box(Min(p1.x, p2.x), Max(p1.x, p2.x), Min(p1.y, p2.y), Max(p1.y, p2.y))
  }

  /** The sequence `s` read back to front. */
  function Reverse<T>(s: seq<T>): (r: seq<T>)
    ensures |r| == |s|
  {
    if s == [] then [] else [s[|s| - 1]] + Reverse(s[..|s| - 1])
  }

  lemma {:induction false} ReverseAt<T>(s: seq<T>, k: int)
    requires 0 <= k < |s|
    ensures Reverse(s)[k] == s[|s| - 1 - k]
  {
    if k > 0 {
      ReverseAt(s[..|s| - 1], k - 1);
    }
  }
}
