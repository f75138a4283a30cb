/** What the geometric and colour transforms of Image.cpp compute, stated on
    grid values: the vertical and horizontal flips, colour inversion, the
    grayscale conversion and the two directional stretches. The in-place
    methods of Images.Image are proved to produce exactly these grids. */
module Transforms {
  import opened Colors
  import opened Grids

  // ----- Flips (Image.cpp:242-270) -----

  /** Upside down: row r takes the pixels of row height-1-r. */
  function FlippedV(g: Grid): (f: Grid)
    requires g.Valid()
    ensures f.Valid() && f.width == g.width && f.height == g.height
    ensures forall c, r | f.InRange(c, r) :: f.At(c, r) == g.At(c, g.height - 1 - r)
    ensures g.height % 2 == 1 ==> f.rows[g.height / 2] == g.rows[g.height / 2]
  {
    Grid(g.width, g.height, seq(g.height, r requires 0 <= r < g.height => g.rows[g.height - 1 - r]))
  }

  /** Mirror image: column c takes the pixels of column width-1-c. */
  function FlippedH(g: Grid): (f: Grid)
    requires g.Valid()
    ensures f.Valid() && f.width == g.width && f.height == g.height
    ensures forall c, r | f.InRange(c, r) :: f.At(c, r) == g.At(g.width - 1 - c, r)
    ensures g.width % 2 == 1 ==> forall r | 0 <= r < g.height :: f.At(g.width / 2, r) == g.At(g.width / 2, r)
  {
    Grid(g.width, g.height, seq(g.height, r requires 0 <= r < g.height =>
      seq(g.width, c requires 0 <= c < g.width => g.rows[r][g.width - 1 - c])))
  }

  lemma {:induction false} FlipVInvolutive(g: Grid)
    requires g.Valid()
    ensures FlippedV(FlippedV(g)) == g
  {
    Ext(FlippedV(FlippedV(g)), g);
  }

  lemma {:induction false} FlipHInvolutive(g: Grid)
    requires g.Valid()
    ensures FlippedH(FlippedH(g)) == g
  {
    Ext(FlippedH(FlippedH(g)), g);
  }

  lemma FlipVInUnit(g: Grid)
    requires g.Valid()
    ensures FlippedV(g).InUnit() <==> g.InUnit()
  {
    var f := FlippedV(g);
    if f.InUnit() {
      forall c, r | g.InRange(c, r) ensures Colors.InUnit(g.At(c, r)) {
        assert f.At(c, g.height - 1 - r) == g.At(c, r);
      }
    }
  }

  lemma FlipHInUnit(g: Grid)
    requires g.Valid()
    ensures FlippedH(g).InUnit() <==> g.InUnit()
  {
    var f := FlippedH(g);
    if f.InUnit() {
      forall c, r | g.InRange(c, r) ensures Colors.InUnit(g.At(c, r)) {
        assert f.At(g.width - 1 - c, r) == g.At(c, r);
      }
    }
  }

  // ----- Colour maps (Image.cpp:272-286, 345-356) -----

  /** Every channel c replaced by 1 - c. */
  function Inverted(g: Grid): (f: Grid)
    requires g.Valid()
    ensures f.Valid() && f.width == g.width && f.height == g.height
    ensures forall c, r | f.InRange(c, r) :: f.At(c, r) == Invert(g.At(c, r))
  {
    Grid(g.width, g.height, seq(g.height, r requires 0 <= r < g.height =>
      seq(g.width, c requires 0 <= c < g.width => Invert(g.rows[r][c]))))
  }

  /** Every pixel replaced by the gray of its luma. */
  function Grayed(g: Grid): (f: Grid)
    requires g.Valid()
    ensures f.Valid() && f.width == g.width && f.height == g.height
    ensures forall c, r | f.InRange(c, r) :: f.At(c, r) == Gray(g.At(c, r))
  {
    Grid(g.width, g.height, seq(g.height, r requires 0 <= r < g.height =>
      seq(g.width, c requires 0 <= c < g.width => Gray(g.rows[r][c]))))
  }

  lemma {:induction false} InvertInvolutive(g: Grid)
    requires g.Valid()
    ensures Inverted(Inverted(g)) == g
  {
    Ext(Inverted(Inverted(g)), g);
  }

  lemma InvertInUnit(g: Grid)
    requires g.Valid()
    ensures Inverted(g).InUnit() <==> g.InUnit()
  {
    var f := Inverted(g);
    if f.InUnit() {
      forall c, r | g.InRange(c, r) ensures Colors.InUnit(g.At(c, r)) {
        assert Colors.InUnit(f.At(c, r));
      }
    }
  }

  lemma {:induction false} GrayIdempotent(g: Grid)
    requires g.Valid()
    ensures Grayed(Grayed(g)) == Grayed(g)
  {
    Ext(Grayed(Grayed(g)), Grayed(g));
  }

  /** The result is achromatic, and in range whenever the input is. */
  lemma GrayAchromaticInUnit(g: Grid)
    requires g.Valid()
    ensures forall c, r | g.InRange(c, r) :: Achromatic(Grayed(g).At(c, r))
    ensures g.InUnit() ==> Grayed(g).InUnit()
  {
  }

  // ----- Directional stretch (Image.cpp:390-450) -----

  /** The line a stretch copies: the fraction f of n, truncated toward zero
      when the product is converted back to an integer pixel index. */
  function Anchor(n: nat, f: real): (a: int)
    requires 0.0 <= f <= 1.0
    ensures 0 <= a <= n
    ensures a as real <= n as real * f < a as real + 1.0
    ensures f < 1.0 && n > 0 ==> a < n
  {
    var x := n as real * f;
    FractionBelow(n as real, f);
    assert 0.0 <= x <= n as real && (f < 1.0 && n > 0 ==> x < n as real);
    x.Floor
  }

  /** A fraction in [0, 1] of a non-negative length lies between 0 and it. */
  lemma FractionBelow(n: real, f: real)
    requires n >= 0.0 && 0.0 <= f <= 1.0
    ensures 0.0 <= n * f <= n
    ensures f < 1.0 && n > 0.0 ==> n * f < n
  {
    assert n - n * f == n * (1.0 - f);
  }

  /** Whether a stretch overwrites line i of n: the lines strictly beyond
      n * f when `after` holds, the lines strictly before it otherwise. */
  predicate InRegion(i: int, n: nat, f: real, after: bool) {
    if after then i as real > n as real * f else (i as real) < n as real * f
  }

  /** The source reads line n when it stretches toward the start with f = 1
      over a non-empty image (Image.cpp:411-412, 442-443); every other call
      reads only lines that exist. */
  predicate StretchDefined(n: nat, other: nat, f: real, after: bool) {
    !(0.0 <= f <= 1.0) || after || f < 1.0 || n == 0 || other == 0
  }

  lemma AnchorInside(i: int, n: nat, f: real, after: bool)
    requires 0.0 <= f <= 1.0 && 0 <= i < n
    requires InRegion(i, n, f, after) && (after || f < 1.0)
    ensures 0 <= Anchor(n, f) < n
  {
    if !after {
      assert n as real * f < n as real * 1.0;
    }
  }

  /** The fraction of the height at which StretchV cuts: 1 - f upward, f downward. */
  function VFraction(f: real, up: bool): real {
    if up then 1.0 - f else f
  }

  /** StretchH(f, leftToRight): a fraction outside [0, 1] changes nothing;
      otherwise every column in the region takes the anchor column's pixel. */
  function StretchedH(g: Grid, f: real, leftToRight: bool): (s: Grid)
    requires g.Valid() && StretchDefined(g.width, g.height, f, leftToRight)
    ensures s.Valid() && s.width == g.width && s.height == g.height
    ensures !(0.0 <= f <= 1.0) ==> s == g
    ensures 0.0 <= f <= 1.0 ==> forall c, r | s.InRange(c, r) ::
      s.At(c, r) == if InRegion(c, g.width, f, leftToRight) then g.At(Anchor(g.width, f), r) else g.At(c, r)
  {
    if !(0.0 <= f <= 1.0) then g
    else
      var a := Anchor(g.width, f);
      Grid(g.width, g.height, seq(g.height, r requires 0 <= r < g.height =>
        seq(g.width, c requires 0 <= c < g.width =>
          if InRegion(c, g.width, f, leftToRight) then AnchorInside(c, g.width, f, leftToRight); g.rows[r][a]
          else g.rows[r][c])))
  }

  /** StretchV(f, up): the same along rows, cutting at VFraction(f, up). */
  function StretchedV(g: Grid, f: real, up: bool): (s: Grid)
    requires g.Valid() && StretchDefined(g.height, g.width, VFraction(f, up), up)
    ensures s.Valid() && s.width == g.width && s.height == g.height
    ensures !(0.0 <= f <= 1.0) ==> s == g
    ensures 0.0 <= f <= 1.0 ==> forall c, r | s.InRange(c, r) ::
      s.At(c, r) == if InRegion(r, g.height, VFraction(f, up), up) then g.At(c, Anchor(g.height, VFraction(f, up))) else g.At(c, r)
  {
    if !(0.0 <= f <= 1.0) then g
    else
      var p := VFraction(f, up);
      var a := Anchor(g.height, p);
      Grid(g.width, g.height, seq(g.height, r requires 0 <= r < g.height =>
        seq(g.width, c requires 0 <= c < g.width =>
          if InRegion(r, g.height, p, up) then AnchorInside(r, g.height, p, up); g.rows[a][c]
          else g.rows[r][c])))
  }

  /** The anchor column itself keeps its pixels. */
  lemma StretchHKeepsAnchor(g: Grid, f: real, leftToRight: bool, r: int)
    requires g.Valid() && StretchDefined(g.width, g.height, f, leftToRight)
    requires 0.0 <= f <= 1.0 && 0 <= r < g.height && Anchor(g.width, f) < g.width
    ensures StretchedH(g, f, leftToRight).At(Anchor(g.width, f), r) == g.At(Anchor(g.width, f), r)
  {
  }

  lemma StretchVKeepsAnchor(g: Grid, f: real, up: bool, c: int)
    requires g.Valid() && StretchDefined(g.height, g.width, VFraction(f, up), up)
    requires 0.0 <= f <= 1.0 && 0 <= c < g.width && Anchor(g.height, VFraction(f, up)) < g.height
    ensures StretchedV(g, f, up).At(c, Anchor(g.height, VFraction(f, up))) == g.At(c, Anchor(g.height, VFraction(f, up)))
  {
  }

  /** Stretching twice at the same fraction is stretching once. */
  lemma {:induction false} StretchHIdempotent(g: Grid, f: real, leftToRight: bool)
    requires g.Valid() && StretchDefined(g.width, g.height, f, leftToRight)
    ensures StretchedH(StretchedH(g, f, leftToRight), f, leftToRight) == StretchedH(g, f, leftToRight)
  {
    var s := StretchedH(g, f, leftToRight);
    if 0.0 <= f <= 1.0 {
      forall c, r | s.InRange(c, r)
        ensures StretchedH(s, f, leftToRight).At(c, r) == s.At(c, r)
      {
        if InRegion(c, g.width, f, leftToRight) {
          AnchorInside(c, g.width, f, leftToRight);
          StretchHKeepsAnchor(g, f, leftToRight, r);
        }
      }
      Ext(StretchedH(s, f, leftToRight), s);
    }
  }

  lemma {:induction false} StretchVIdempotent(g: Grid, f: real, up: bool)
    requires g.Valid() && StretchDefined(g.height, g.width, VFraction(f, up), up)
    ensures StretchedV(StretchedV(g, f, up), f, up) == StretchedV(g, f, up)
  {
    var s := StretchedV(g, f, up);
    if 0.0 <= f <= 1.0 {
      forall c, r | s.InRange(c, r)
        ensures StretchedV(s, f, up).At(c, r) == s.At(c, r)
      {
        if InRegion(r, g.height, VFraction(f, up), up) {
          AnchorInside(r, g.height, VFraction(f, up), up);
          StretchVKeepsAnchor(g, f, up, c);
        }
      }
      Ext(StretchedV(s, f, up), s);
    }
  }

  /** A stretch only copies existing pixels, so it keeps channels in range. */
  lemma StretchInUnit(g: Grid, f: real, leftToRight: bool, up: bool)
    requires g.Valid() && g.InUnit()
    requires StretchDefined(g.width, g.height, f, leftToRight)
    requires StretchDefined(g.height, g.width, VFraction(f, up), up)
    ensures StretchedH(g, f, leftToRight).InUnit()
    ensures StretchedV(g, f, up).InUnit()
  {
    if 0.0 <= f <= 1.0 {
      var s := StretchedH(g, f, leftToRight);
      forall c, r | s.InRange(c, r) ensures Colors.InUnit(s.At(c, r)) {
        if InRegion(c, g.width, f, leftToRight) {
          AnchorInside(c, g.width, f, leftToRight);
        }
      }
      var t := StretchedV(g, f, up);
      forall c, r | t.InRange(c, r) ensures Colors.InUnit(t.At(c, r)) {
        if InRegion(r, g.height, VFraction(f, up), up) {
          AnchorInside(r, g.height, VFraction(f, up), up);
        }
      }
    }
  }
}
