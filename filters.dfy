/** The two neighbourhood filters of Image.cpp, stated on grid values:
    the normalised Gaussian kernel and the blur that samples with
    clamp-to-edge (Image.cpp:288-343), and Laplacian edge detection on the
    grayscale image with its untouched one-pixel border (Image.cpp:359-388).
    Both read a snapshot of the image only, so each output pixel is a
    function of the input grid. */
module Filters {
  import opened Colors
  import opened Grids
  import Transforms

  // ----- Kernels (Image.cpp:288-311) -----

  /** A square matrix of weights. */
  predicate Square(k: seq<seq<real>>) {
    forall a | 0 <= a < |k| :: |k[a]| == |k|
  }

  /** A kernel as GaussianBlur indexes it: square with a centre cell. */
  predicate IsKernel(k: seq<seq<real>>) {
    Square(k) && |k| % 2 == 1
  }

  /** Sum of the first n weights of one kernel row. */
  function RowTotal(row: seq<real>, n: nat): real
    requires n <= |row|
  {
    if n == 0 then 0.0 else RowTotal(row, n - 1) + row[n - 1]
  }

  /** Sum of the first n kernel rows, in the order of Image.cpp:297-303. */
  function PartialTotal(k: seq<seq<real>>, n: nat): real
    requires Square(k) && n <= |k|
  {
    if n == 0 then 0.0 else PartialTotal(k, n - 1) + RowTotal(k[n - 1], |k|)
  }

  function Total(k: seq<seq<real>>): real
    requires Square(k)
  {
    PartialTotal(k, |k|)
  }

  /** Every weight divided by the sum of all weights (Image.cpp:305-308). */
  function Normalized(k: seq<seq<real>>): (q: seq<seq<real>>)
    requires Square(k) && Total(k) != 0.0
    ensures Square(q) && |q| == |k|
  {
    seq(|k|, a requires 0 <= a < |k| => seq(|k|, b requires 0 <= b < |k| => k[a][b] / Total(k)))
  }

  predicate Positive(k: seq<seq<real>>)
    requires Square(k)
  {
    forall a, b | 0 <= a < |k| && 0 <= b < |k| :: k[a][b] > 0.0
  }

  predicate NonNegative(k: seq<seq<real>>)
    requires Square(k)
  {
    forall a, b | 0 <= a < |k| && 0 <= b < |k| :: k[a][b] >= 0.0
  }

  lemma {:induction false} RowTotalPositive(row: seq<real>, n: nat)
    requires n <= |row| && forall b | 0 <= b < |row| :: row[b] > 0.0
    ensures RowTotal(row, n) >= 0.0
    ensures n > 0 ==> RowTotal(row, n) > 0.0
  {
    if n > 0 {
      RowTotalPositive(row, n - 1);
    }
  }

  /** Positive weights, as the exponential produces, have a positive sum, so
      the normalisation never divides by zero. */
  lemma {:induction false} TotalPositive(k: seq<seq<real>>, n: nat)
    requires Square(k) && Positive(k) && n <= |k|
    ensures n > 0 ==> PartialTotal(k, n) > 0.0
    ensures PartialTotal(k, n) >= 0.0
  {
    if n > 0 {
      TotalPositive(k, n - 1);
      RowTotalPositive(k[n - 1], |k|);
    }
  }

  lemma {:induction false} RowTotalScaled(row: seq<real>, scaled: seq<real>, t: real, n: nat)
    requires t != 0.0 && |scaled| == |row| && n <= |row|
    requires forall b | 0 <= b < |row| :: scaled[b] == row[b] / t
    ensures RowTotal(scaled, n) == RowTotal(row, n) / t
  {
    if n > 0 {
      RowTotalScaled(row, scaled, t, n - 1);
    }
  }

  lemma {:induction false} PartialTotalNormalized(k: seq<seq<real>>, n: nat)
    requires Square(k) && Total(k) != 0.0 && n <= |k|
    ensures PartialTotal(Normalized(k), n) == PartialTotal(k, n) / Total(k)
  {
    if n > 0 {
      PartialTotalNormalized(k, n - 1);
      RowTotalScaled(k[n - 1], Normalized(k)[n - 1], Total(k), |k|);
    }
  }

  lemma DivSelf(t: real)
    requires t != 0.0
    ensures t / t == 1.0
  {
  }

  /** The normalised kernel sums to exactly 1 and keeps the sign of every weight. */
  lemma NormalizedSumsToOne(k: seq<seq<real>>)
    requires Square(k) && Positive(k) && |k| > 0
    ensures Total(k) > 0.0
    ensures Total(Normalized(k)) == 1.0
    ensures NonNegative(Normalized(k))
  {
    TotalPositive(k, |k|);
    PartialTotalNormalized(k, |k|);
    var t := Total(k);
    assert t == PartialTotal(k, |k|) > 0.0;
    assert Total(Normalized(k)) == PartialTotal(Normalized(k), |k|) == t / t;
    DivSelf(t);
  }

  // ----- Gaussian blur (Image.cpp:314-343) -----

  /** std::min(std::max(v, 0), n - 1): the nearest index of 0 .. n-1. */
  function Clamp(v: int, n: nat): (i: int)
    requires n > 0
    ensures 0 <= i < n
    ensures 0 <= v < n ==> i == v
    ensures v < 0 ==> i == 0
    ensures v >= n ==> i == n - 1
  {
    if v < 0 then 0 else if v > n - 1 then n - 1 else v
  }

  /** Weighted sample for kernel cell (a, b) around (x, y): the kernel's
      first index runs along columns, its second along rows (Image.cpp:326-332). */
  function BlurTerm(g: Grid, k: seq<seq<real>>, x: int, y: int, a: nat, b: nat): Color
    requires g.Valid() && g.width > 0 && g.height > 0 && Square(k) && a < |k| && b < |k|
  {
    var m := |k| / 2;
    Scale(g.At(Clamp(x + a - m, g.width), Clamp(y + b - m, g.height)), k[a][b])
  }

  /** Sum of the first n samples of kernel row a. */
  function BlurRowSum(g: Grid, k: seq<seq<real>>, x: int, y: int, a: nat, n: nat): Color
    requires g.Valid() && g.width > 0 && g.height > 0 && Square(k) && a < |k| && n <= |k|
  {
    if n == 0 then Black else Add(BlurRowSum(g, k, x, y, a, n - 1), BlurTerm(g, k, x, y, a, n - 1))
  }

  /** Sum over the first n kernel rows. */
  function BlurPartial(g: Grid, k: seq<seq<real>>, x: int, y: int, n: nat): Color
    requires g.Valid() && g.width > 0 && g.height > 0 && Square(k) && n <= |k|
  {
    if n == 0 then Black else Add(BlurPartial(g, k, x, y, n - 1), BlurRowSum(g, k, x, y, n - 1, |k|))
  }

  function BlurAt(g: Grid, k: seq<seq<real>>, x: int, y: int): Color
    requires g.Valid() && g.width > 0 && g.height > 0 && Square(k)
  {
    BlurPartial(g, k, x, y, |k|)
  }

  /** The blurred grid: every pixel is the kernel-weighted sum of the
      clamped neighbourhood of the input grid. */
  function Blurred(g: Grid, k: seq<seq<real>>): (f: Grid)
    requires g.Valid() && Square(k)
    ensures f.Valid() && f.width == g.width && f.height == g.height
    ensures forall c, r | f.InRange(c, r) :: f.At(c, r) == BlurAt(g, k, c, r)
  {
    Grid(g.width, g.height, seq(g.height, r requires 0 <= r < g.height =>
      seq(g.width, c requires 0 <= c < g.width => BlurAt(g, k, c, r))))
  }

  /** Every pixel has the same colour. */
  ghost predicate Uniform(g: Grid, col: Color)
    requires g.Valid()
  {
    forall c, r | g.InRange(c, r) :: g.At(c, r) == col
  }

  lemma {:induction false} BlurRowSumUniform(g: Grid, k: seq<seq<real>>, x: int, y: int, a: nat, n: nat, col: Color)
    requires g.Valid() && g.width > 0 && g.height > 0 && Square(k) && a < |k| && n <= |k|
    requires Uniform(g, col)
    ensures BlurRowSum(g, k, x, y, a, n) == Scale(col, RowTotal(k[a], n))
  {
    if n > 0 {
      BlurRowSumUniform(g, k, x, y, a, n - 1, col);
      ScaleAdd(col, RowTotal(k[a], n - 1), k[a][n - 1]);
    }
  }

  lemma {:induction false} BlurPartialUniform(g: Grid, k: seq<seq<real>>, x: int, y: int, n: nat, col: Color)
    requires g.Valid() && g.width > 0 && g.height > 0 && Square(k) && n <= |k|
    requires Uniform(g, col)
    ensures BlurPartial(g, k, x, y, n) == Scale(col, PartialTotal(k, n))
  {
    if n > 0 {
      BlurPartialUniform(g, k, x, y, n - 1, col);
      BlurRowSumUniform(g, k, x, y, n - 1, |k|, col);
      ScaleAdd(col, PartialTotal(k, n - 1), RowTotal(k[n - 1], |k|));
    }
  }

  /** Clamp-to-edge sampling and weights summing to 1 leave a uniform image unchanged. */
  lemma {:induction false} BlurUniform(g: Grid, k: seq<seq<real>>, col: Color)
    requires g.Valid() && Square(k) && Total(k) == 1.0 && Uniform(g, col)
    ensures Blurred(g, k) == g
  {
    forall c, r | g.InRange(c, r) ensures Blurred(g, k).At(c, r) == g.At(c, r) {
      BlurPartialUniform(g, k, c, r, |k|, col);
    }
    Ext(Blurred(g, k), g);
  }

  lemma {:induction false} BlurRowSumWithin(g: Grid, k: seq<seq<real>>, x: int, y: int, a: nat, n: nat)
    requires g.Valid() && g.width > 0 && g.height > 0 && Square(k) && a < |k| && n <= |k|
    requires g.InUnit() && NonNegative(k)
    ensures Within(BlurRowSum(g, k, x, y, a, n), RowTotal(k[a], n))
  {
    if n > 0 {
      BlurRowSumWithin(g, k, x, y, a, n - 1);
      var m := |k| / 2;
      var s := g.At(Clamp(x + a - m, g.width), Clamp(y + n - 1 - m, g.height));
      ScaleWithin(s, k[a][n - 1]);
    }
  }

  lemma {:induction false} BlurPartialWithin(g: Grid, k: seq<seq<real>>, x: int, y: int, n: nat)
    requires g.Valid() && g.width > 0 && g.height > 0 && Square(k) && n <= |k|
    requires g.InUnit() && NonNegative(k)
    ensures Within(BlurPartial(g, k, x, y, n), PartialTotal(k, n))
  {
    if n > 0 {
      BlurPartialWithin(g, k, x, y, n - 1);
      BlurRowSumWithin(g, k, x, y, n - 1, |k|);
    }
  }

  /** With non-negative weights summing to 1 every output pixel is a convex
      combination of input pixels, so the channels stay in [0, 1]. */
  lemma BlurInUnit(g: Grid, k: seq<seq<real>>)
    requires g.Valid() && Square(k) && NonNegative(k) && Total(k) == 1.0 && g.InUnit()
    ensures Blurred(g, k).InUnit()
  {
    forall c, r | g.InRange(c, r) ensures Colors.InUnit(Blurred(g, k).At(c, r)) {
      BlurPartialWithin(g, k, c, r, |k|);
    }
  }

  // ----- Laplacian edge detection (Image.cpp:359-388) -----

  /** The fixed 3x3 Laplacian kernel of Image.cpp:362-366. */
  const Laplacian: seq<seq<real>> := [[0.0, -1.0, 0.0], [-1.0, 4.0, -1.0], [0.0, -1.0, 0.0]]

  /** Pixels with a neighbour on every side; only these are recomputed. */
  predicate Interior(g: Grid, x: int, y: int) {
    1 <= x < g.width - 1 && 1 <= y < g.height - 1
  }

  /** Red channel of the neighbour at offset (a-1, b-1) times its weight. */
  function LaplaceTerm(g: Grid, x: int, y: int, a: nat, b: nat): real
    requires g.Valid() && Interior(g, x, y) && a < 3 && b < 3
  {
    g.At(x + a - 1, y + b - 1).r * Laplacian[a][b]
  }

  function LaplaceRowSum(g: Grid, x: int, y: int, a: nat, n: nat): real
    requires g.Valid() && Interior(g, x, y) && a < 3 && n <= 3
  {
    if n == 0 then 0.0 else LaplaceRowSum(g, x, y, a, n - 1) + LaplaceTerm(g, x, y, a, n - 1)
  }

  function LaplacePartial(g: Grid, x: int, y: int, n: nat): real
    requires g.Valid() && Interior(g, x, y) && n <= 3
  {
    if n == 0 then 0.0 else LaplacePartial(g, x, y, n - 1) + LaplaceRowSum(g, x, y, n - 1, 3)
  }

  /** The kernel reduces to four times the centre minus the four direct neighbours. */
  lemma EdgeStrengthFormula(g: Grid, x: int, y: int)
    requires g.Valid() && Interior(g, x, y)
    ensures LaplacePartial(g, x, y, 3) == FivePoint(g, x, y)
  {
    LaplaceRowUnrolled(g, x, y, 0);
    LaplaceRowUnrolled(g, x, y, 1);
    LaplaceRowUnrolled(g, x, y, 2);
    assert LaplacePartial(g, x, y, 1) == LaplaceRowSum(g, x, y, 0, 3);
    assert LaplacePartial(g, x, y, 2) == LaplacePartial(g, x, y, 1) + LaplaceRowSum(g, x, y, 1, 3);
  }

  lemma LaplaceRowUnrolled(g: Grid, x: int, y: int, a: nat)
    requires g.Valid() && Interior(g, x, y) && a < 3
    ensures LaplaceRowSum(g, x, y, a, 3) == LaplaceTerm(g, x, y, a, 0) + LaplaceTerm(g, x, y, a, 1) + LaplaceTerm(g, x, y, a, 2)
  {
    assert LaplaceRowSum(g, x, y, a, 1) == LaplaceTerm(g, x, y, a, 0);
    assert LaplaceRowSum(g, x, y, a, 2) == LaplaceRowSum(g, x, y, a, 1) + LaplaceTerm(g, x, y, a, 1);
  }

  /** std::min(std::max(v, 0), 1) (Image.cpp:383). */
  function Clamp01(v: real): (u: real)
    ensures 0.0 <= u <= 1.0
    ensures 0.0 <= v <= 1.0 ==> u == v
  {
    if v < 0.0 then 0.0 else if v > 1.0 then 1.0 else v
  }

  /** The gray value written at an interior pixel. */
  function EdgeValue(g: Grid, x: int, y: int): (v: real)
    requires g.Valid() && Interior(g, x, y)
    ensures 0.0 <= v <= 1.0
    ensures v == Clamp01(FivePoint(g, x, y))
  {
    EdgeStrengthFormula(g, x, y);
    Clamp01(LaplacePartial(g, x, y, 3))
  }

  /** Edge detection applied to an (already gray) grid: interior pixels
      become the clamped Laplacian of the red channel, the border is kept. */
  function EdgeDetected(g: Grid): (f: Grid)
    requires g.Valid()
    ensures f.Valid() && f.width == g.width && f.height == g.height
    ensures forall c, r | f.InRange(c, r) ::
      f.At(c, r) == if Interior(g, c, r) then Color(EdgeValue(g, c, r), EdgeValue(g, c, r), EdgeValue(g, c, r)) else g.At(c, r)
  {
    Grid(g.width, g.height, seq(g.height, r requires 0 <= r < g.height =>
      seq(g.width, c requires 0 <= c < g.width =>
        if Interior(g, c, r) then
          var v := EdgeValue(g, c, r);
          Color(v, v, v)
        else g.rows[r][c])))
  }

  /** Column x of the edge grid: its interior pixels are the gray of the
      clamped five-point sum, its two border pixels are kept. */
  lemma EdgeColumnValues(g: Grid, x: int)
    requires g.Valid() && 1 <= x < g.width - 1
    ensures forall r | 1 <= r < g.height - 1 ::
      var v := Clamp01(FivePoint(g, x, r)); EdgeDetected(g).At(x, r) == Color(v, v, v)
    ensures g.height > 0 ==> EdgeDetected(g).At(x, 0) == g.At(x, 0)
    ensures g.height > 0 ==> EdgeDetected(g).At(x, g.height - 1) == g.At(x, g.height - 1)
  {
    forall r | 1 <= r < g.height - 1
      ensures var v := Clamp01(FivePoint(g, x, r)); EdgeDetected(g).At(x, r) == Color(v, v, v)
    {
      EdgeStrengthFormula(g, x, r);
    }
  }

  /** Four times the centre minus the four direct neighbours, on the red channel. */
  function FivePoint(g: Grid, x: int, y: int): real
    requires g.Valid() && Interior(g, x, y)
  {
    4.0 * g.At(x, y).r - g.At(x - 1, y).r - g.At(x + 1, y).r - g.At(x, y - 1).r - g.At(x, y + 1).r
  }

  /** After LaplacianEdgeDetection (gray first, then edges), a border pixel
      holds its grayscale value; an interior pixel is the gray of the
      clamped five-point Laplacian of the grayscale image. */
  lemma EdgeDetectionAt(g: Grid, c: int, r: int)
    requires g.Valid() && g.InRange(c, r)
    ensures !Interior(g, c, r) ==> EdgeDetected(Transforms.Grayed(g)).At(c, r) == Gray(g.At(c, r))
    ensures Interior(g, c, r) ==>
      var v := Clamp01(FivePoint(Transforms.Grayed(g), c, r));
      EdgeDetected(Transforms.Grayed(g)).At(c, r) == Color(v, v, v) && 0.0 <= v <= 1.0
  {
    var h := Transforms.Grayed(g);
    if Interior(g, c, r) {
      assert Interior(h, c, r);
      EdgeStrengthFormula(h, c, r);
    }
  }

  /** Edge detection keeps every channel in [0, 1]. */
  lemma EdgeDetectionInUnit(g: Grid)
    requires g.Valid() && g.InUnit()
    ensures EdgeDetected(Transforms.Grayed(g)).InUnit()
  {
    forall c, r | g.InRange(c, r)
      ensures Colors.InUnit(EdgeDetected(Transforms.Grayed(g)).At(c, r))
    {
      EdgeDetectionAt(g, c, r);
    }
  }

  /** A 3 by 3 black image with one white pixel in the middle. */
  ghost predicate IsDot(g: Grid) {
    && g.Valid() && g.width == 3 && g.height == 3
    && g.At(1, 1) == Color(1.0, 1.0, 1.0)
    && forall c, r | g.InRange(c, r) && (c != 1 || r != 1) :: g.At(c, r) == Black
  }

  /** A grid of gray pixels is left as it is by the gray conversion. */
  lemma GrayedAchromatic(g: Grid)
    requires g.Valid()
    requires forall c, r | g.InRange(c, r) :: Achromatic(g.At(c, r))
    ensures Transforms.Grayed(g) == g
  {
    var h := Transforms.Grayed(g);
    forall c, r | g.InRange(c, r)
      ensures h.At(c, r) == g.At(c, r)
    {
      var p := g.At(c, r);
      assert h.At(c, r) == Gray(p);
      assert Gray(p) == Color(p.r, p.r, p.r) == p;
    }
    Ext(h, g);
  }

  /** That image is gray already, so the conversion LaplacianEdgeDetection
      starts with leaves it as it is. */
  lemma GrayedDot(g: Grid)
    requires IsDot(g)
    ensures Transforms.Grayed(g) == g
  {
    forall c, r | g.InRange(c, r)
      ensures Achromatic(g.At(c, r))
    {
      if c != 1 || r != 1 {
        assert g.At(c, r) == Black;
      }
    }
    GrayedAchromatic(g);
  }

  /** One pixel of the edge grid of that image: white in the middle, where
      the four neighbours are black, and black on the border. */
  lemma EdgeDotPixel(g: Grid, c: int, r: int)
    requires IsDot(g) && g.InRange(c, r)
    ensures EdgeDetected(Transforms.Grayed(g)).At(c, r) == if c == 1 && r == 1 then Color(1.0, 1.0, 1.0) else Black
  {
    EdgeDotPlain(g, c, r);
    GrayedDot(g);
  }

  /** The edge pass alone on that image, pixel by pixel. */
  lemma EdgeDotPlain(g: Grid, c: int, r: int)
    requires IsDot(g) && g.InRange(c, r)
    ensures EdgeDetected(g).At(c, r) == if c == 1 && r == 1 then Color(1.0, 1.0, 1.0) else Black
  {
    if c == 1 && r == 1 {
      assert g.At(c - 1, r) == Black && g.At(c + 1, r) == Black;
      assert g.At(c, r - 1) == Black && g.At(c, r + 1) == Black;
      EdgeStrengthFormula(g, c, r);
    }
  }

  /** Edge detection of that image: the white pixel, whose four neighbours
      are black, is an edge of full strength, and the eight border pixels
      keep their black. */
  lemma EdgeDetectDot(g: Grid)
    requires IsDot(g)
    ensures forall c, r | g.InRange(c, r) ::
      EdgeDetected(Transforms.Grayed(g)).At(c, r) == if c == 1 && r == 1 then Color(1.0, 1.0, 1.0) else Black
  {
    forall c, r | g.InRange(c, r)
      ensures EdgeDetected(Transforms.Grayed(g)).At(c, r) == if c == 1 && r == 1 then Color(1.0, 1.0, 1.0) else Black
    {
      EdgeDotPixel(g, c, r);
    }
  }
}
