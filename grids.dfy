/** The pixel grid as a value: `width` columns, `height` rows, row 0 first.
    The in-place image (module Images) stores the same grid as one row-major
    array, pixel (col, row) at position row * width + col (Image.cpp:61-71);
    FromFlat is the view that connects the two. */
module Grids {
  import opened Colors

  lemma MulMonotone(a: int, b: int, w: nat)
    requires a <= b
    ensures a * w <= b * w
  {
  }

  /** Row-major position of pixel (col, row) in a `width` by `height` grid
      (Image.cpp:63, 68); it always falls inside the array of `width * height`. */
  function Index(col: int, row: int, width: nat, height: nat): (i: nat)
    requires 0 <= col < width && 0 <= row < height
    ensures i < width * height
  {
    MulMonotone(row + 1, height, width);
    row * width + col
  }

  /** Distinct pixels occupy distinct positions of the row-major array. */
  lemma IndexInjective(c1: int, r1: int, c2: int, r2: int, width: nat, height: nat)
    requires 0 <= c1 < width && 0 <= c2 < width && 0 <= r1 < height && 0 <= r2 < height
    requires Index(c1, r1, width, height) == Index(c2, r2, width, height)
    ensures c1 == c2 && r1 == r2
  {
    if r1 < r2 {
      MulMonotone(r1 + 1, r2, width);
    } else if r2 < r1 {
      MulMonotone(r2 + 1, r1, width);
    }
  }

  datatype Grid = Grid(width: nat, height: nat, rows: seq<seq<Color>>) {

    /** `height` rows of `width` pixels each. */
    predicate Valid() {
      |rows| == height && forall r | 0 <= r < height :: |rows[r]| == width
    }

    predicate InRange(col: int, row: int) {
      0 <= col < width && 0 <= row < height
    }

    function At(col: int, row: int): Color
      requires Valid() && InRange(col, row)
    {
      rows[row][col]
    }

    /** Every channel of every pixel lies in [0, 1]. */
    ghost predicate InUnit()
      requires Valid()
    {
      forall c, r | InRange(c, r) :: Colors.InUnit(At(c, r))
    }
  }

  /** The grid held by a row-major array of `width * height` pixels. */
  function FromFlat(flat: seq<Color>, width: nat, height: nat): (g: Grid)
    requires |flat| == width * height
    ensures g.Valid() && g.width == width && g.height == height
    ensures forall c, r | g.InRange(c, r) :: g.At(c, r) == flat[Index(c, r, width, height)]
  {
    Grid(width, height, seq(height, r requires 0 <= r < height => FlatRow(flat, width, height, r)))
  }

  function FlatRow(flat: seq<Color>, width: nat, height: nat, row: nat): (s: seq<Color>)
    requires |flat| == width * height && row < height
    ensures |s| == width
    ensures forall c | 0 <= c < width :: s[c] == flat[Index(c, row, width, height)]
  {
    seq(width, c requires 0 <= c < width => flat[Index(c, row, width, height)])
  }

  /** Two valid grids of the same size that agree at every pixel are equal. */
  lemma Ext(a: Grid, b: Grid)
    requires a.Valid() && b.Valid() && a.width == b.width && a.height == b.height
    requires forall c, r | a.InRange(c, r) :: a.At(c, r) == b.At(c, r)
    ensures a == b
  {
    forall r | 0 <= r < a.height
      ensures a.rows[r] == b.rows[r]
    {
      assert forall c | 0 <= c < a.width :: a.rows[r][c] == a.At(c, r) == b.At(c, r) == b.rows[r][c];
    }
  }
}
