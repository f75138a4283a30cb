/** Pixel colours: three independent real channels (red, green, blue),
    conceptually in [0, 1] but never clamped on construction (Image.h:10-15). */
module Colors {

  datatype Color = Color(r: real, g: real, b: real)

  /** The colour every accumulator starts from (Image.cpp:322). */
  const Black := Color(0.0, 0.0, 0.0)

  predicate InUnit(c: Color) {
    0.0 <= c.r <= 1.0 && 0.0 <= c.g <= 1.0 && 0.0 <= c.b <= 1.0
  }

  /** All three channels equal: a shade of gray. */
  predicate Achromatic(c: Color) {
    c.r == c.g == c.b
  }

  /** Channel-wise complement, as written per channel at Image.cpp:280-282. */
  function Invert(c: Color): (d: Color)
    ensures InUnit(c) <==> InUnit(d)
    ensures d.r + c.r == 1.0 && d.g + c.g == 1.0 && d.b + c.b == 1.0
  {
    Color(1.0 - c.r, 1.0 - c.g, 1.0 - c.b)
  }

  /** ITU-R BT.601 luma (Image.cpp:352). The weights sum to 1, so the luma of
      a gray colour is that gray, and the luma of an in-range colour is in range. */
  function Luma(c: Color): (y: real)
    ensures InUnit(c) ==> 0.0 <= y <= 1.0
    ensures Achromatic(c) ==> y == c.r
    ensures c.r <= c.g && c.r <= c.b ==> c.r <= y
    ensures c.r >= c.g && c.r >= c.b ==> y <= c.r
  {
    0.299 * c.r + 0.587 * c.g + 0.114 * c.b
  }

  /** The gray pixel written by ColorToGray (Image.cpp:353). */
  function Gray(c: Color): (d: Color)
    ensures Achromatic(d) && d.r == Luma(c)
    ensures InUnit(c) ==> InUnit(d)
  {
    var y := Luma(c);
    Color(y, y, y)
  }

  lemma InvertInvolutive(c: Color)
    ensures Invert(Invert(c)) == c
  {
  }

  lemma GrayIdempotent(c: Color)
    ensures Gray(Gray(c)) == Gray(c)
  {
  }

  /** Channel-wise sum and scaling, the `+=` and `*` of Image.cpp:330-332. */
  function Add(x: Color, y: Color): (s: Color)
    ensures x == Black ==> s == y
    ensures y == Black ==> s == x
  {
    Color(x.r + y.r, x.g + y.g, x.b + y.b)
  }

  /** Scaling distributes over a sum of weights. */
  lemma ScaleAdd(c: Color, v: real, w: real)
    ensures Add(Scale(c, v), Scale(c, w)) == Scale(c, v + w)
  {
    assert c.r * v + c.r * w == c.r * (v + w);
    assert c.g * v + c.g * w == c.g * (v + w);
    assert c.b * v + c.b * w == c.b * (v + w);
  }

  /** Every channel of c lies in [0, t]. */
  predicate Within(c: Color, t: real) {
    0.0 <= c.r <= t && 0.0 <= c.g <= t && 0.0 <= c.b <= t
  }

  /** An in-range colour scaled by a non-negative weight w has channels in [0, w]. */
  lemma ScaleWithin(c: Color, w: real)
    requires InUnit(c) && w >= 0.0
    ensures Within(Scale(c, w), w)
  {
    ChannelScaled(c.r, w);
    ChannelScaled(c.g, w);
    ChannelScaled(c.b, w);
  }

  lemma MulNonNegative(x: real, y: real)
    requires x >= 0.0 && y >= 0.0
    ensures x * y >= 0.0
  {
  }

  lemma ChannelScaled(x: real, w: real)
    requires 0.0 <= x <= 1.0 && w >= 0.0
    ensures 0.0 <= x * w <= w
  {
    MulNonNegative(x, w);
    MulNonNegative(1.0 - x, w);
    assert (1.0 - x) * w == w - x * w;
  }

  function Scale(c: Color, w: real): (s: Color)
    ensures w == 1.0 ==> s == c
    ensures w == 0.0 ==> s == Black
  {
    Color(c.r * w, c.g * w, c.b * w)
  }
}
