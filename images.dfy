/** The Image class of Image.cpp: a width, a height and a row-major array of
    colours, with the codec and every transform as methods that change the
    array in place. Each method is proved to leave exactly the grid that the
    corresponding function of Transforms, Filters or Codec describes. */
module Images {
  import opened Colors
  import opened Grids
  import Transforms
  import Filters
  import Codec

  class Image {
    var width: nat
    var height: nat
    var colors: array<Color>

    /** The array holds one colour per pixel (Image.cpp:28, 105). */
    ghost predicate Valid()
      reads this
    {
      colors.Length == width * height
    }

    predicate InRange(col: int, row: int)
      reads this
    {
      0 <= col < width && 0 <= row < height
    }

    /** The pixel grid the array holds. */
    ghost function Contents(): (g: Grid)
      reads this, colors
      requires Valid()
      ensures g.Valid() && g.width == width && g.height == height
    {
      FromFlat(colors[..], width, height)
    }

    /** Image(): no pixels at all (Image.cpp:20-23). */
    constructor ()
      ensures Valid() && width == 0 && height == 0
    {
      width, height := 0, 0;
      colors := new Color[0];
    }

    /** Image(width, height): every pixel default-constructed black (Image.cpp:6-9, 25-29). */
    constructor Sized(w: nat, h: nat)
      ensures Valid() && width == w && height == h && fresh(colors)
      ensures Filters.Uniform(Contents(), Black)
    {
      width, height := w, h;
      colors := new Color[w * h](_ => Black);
    }

    /** The colour at (col, row), read from position row * width + col (Image.cpp:61-64). */
    function GetColor(col: int, row: int): (c: Color)
      reads this, colors
      requires Valid() && InRange(col, row)
    {
      colors[Index(col, row, width, height)]
    }

    /** Overwrites the pixel at (col, row) and no other (Image.cpp:66-71). */
    method SetColor(color: Color, col: int, row: int)
      requires Valid() && InRange(col, row)
      modifies colors
      ensures Valid()
      ensures forall c, r | InRange(c, r) ::
        GetColor(c, r) == if c == col && r == row then color else old(GetColor(c, r))
    {
      colors[Index(col, row, width, height)] := color;
      forall c, r | InRange(c, r) && (c != col || r != row)
        ensures Index(c, r, width, height) != Index(col, row, width, height)
      {
        if Index(c, r, width, height) == Index(col, row, width, height) {
          IndexInjective(c, r, col, row, width, height);
        }
      }
    }

    /** The grid and the array agree pixel by pixel. */
    lemma ContentsAt()
      requires Valid()
      ensures forall c, r | InRange(c, r) :: Contents().At(c, r) == GetColor(c, r)
    {
    }

    /** The grid is `spec` once every pixel agrees with it. */
    lemma ContentsAre(spec: Grid)
      requires Valid() && spec.Valid() && spec.width == width && spec.height == height
      requires forall c, r | InRange(c, r) :: GetColor(c, r) == spec.At(c, r)
      ensures Contents() == spec
    {
      Ext(Contents(), spec);
    }

    // ----- Codec (Image.cpp:73-240) -----

    /** Read on the bytes of a file: on a stream Decode rejects, nothing
        changes; otherwise the image takes the decoded size and pixels, in a
        freshly allocated array filled row by row. */
    method Read(bytes: seq<Codec.byte>) returns (ok: bool)
      requires Valid()
      modifies this
      ensures Valid()
      ensures ok == Codec.Decode(bytes).Some?
      ensures ok ==> fresh(colors) && Contents() == Codec.Decode(bytes).value
      ensures !ok ==> unchanged(this)
    {
      if |bytes| < Codec.HeaderSize || bytes[0] != Codec.SignatureB || bytes[1] != Codec.SignatureM {
        return false;
      }
      var w32 := Codec.Int32At(bytes, 18);
      var h32 := Codec.Int32At(bytes, 22);
      if w32 < 0 || h32 < 0 || |bytes| < Codec.DataEnd(w32, h32) {
        return false;
      }
      ReadPixels(bytes, w32, h32);
      ContentsAre(Codec.Decode(bytes).value);
      return true;
    }

    /** The pixel loop of Read: a fresh array of width * height pixels,
        filled row by row, three bytes per pixel in B, G, R order, with the
        padding after each row skipped. */
    method ReadPixels(bytes: seq<Codec.byte>, w: nat, h: nat)
      requires |bytes| >= Codec.DataEnd(w, h)
      modifies this
      ensures Valid() && width == w && height == h && fresh(colors)
      ensures forall c, r {:trigger GetColor(c, r)} | InRange(c, r) ::
        Codec.PixelOffset(c, r, w) + 3 <= |bytes| && GetColor(c, r) == Codec.ColorAt(bytes, Codec.PixelOffset(c, r, w))
    {
      MulMonotone(0, h, w);
      Codec.PixelsInRange(w, h);
      width, height := w, h;
      colors := new Color[w * h](_ => Black);
      var padding := Codec.Padding(w);
      var pos := Codec.HeaderSize;
      for y := 0 to h
        invariant Valid() && width == w && height == h && fresh(colors)
        invariant pos == Codec.PixelOffset(0, y, w)
        invariant forall c, r {:trigger GetColor(c, r)} | InRange(c, r) && r < y ::
          GetColor(c, r) == Codec.ColorAt(bytes, Codec.PixelOffset(c, r, w))
      {
        for x := 0 to w
          invariant Valid() && width == w && height == h && fresh(colors)
          invariant pos == Codec.PixelOffset(x, y, w)
          invariant forall c, r {:trigger GetColor(c, r)} | InRange(c, r) && (r < y || (r == y && c < x)) ::
            GetColor(c, r) == Codec.ColorAt(bytes, Codec.PixelOffset(c, r, w))
        {
          SetColor(Color(Codec.Channel(bytes[pos + 2]), Codec.Channel(bytes[pos + 1]), Codec.Channel(bytes[pos])), x, y);
          pos := pos + 3;
        }
        Codec.NextRowOffset(y, w);
        pos := pos + padding;
      }
      forall c, r | InRange(c, r)
        ensures Codec.PixelOffset(c, r, w) + 3 <= |bytes|
        ensures GetColor(c, r) == Codec.ColorAt(bytes, Codec.PixelOffset(c, r, w))
      {
        Codec.PixelOffsetInRange(c, r, w, h);
      }
    }

    /** Export as the bytes it writes: both headers, then every row's B, G, R
        bytes followed by the zero padding, row 0 first. */
    method Export() returns (bytes: seq<Codec.byte>)
      requires Valid() && Codec.EncodableGrid(Contents())
      ensures bytes == Codec.Encode(Contents())
    {
      ghost var g := Contents();
      ghost var rows := g.rows;
      Codec.EncodableRowsOf(g);
      var header := Codec.FileHeader(width, height) + Codec.InfoHeader(width, height);
      var data := [];
      for y := 0 to height
        invariant Codec.EncodableRows(rows[..y], width)
        invariant data == Codec.PixelData(rows[..y], width)
      {
        var row := ExportRow(y);
        Codec.PixelDataAppend(rows, width, y);
        data := data + row;
      }
      assert rows[..height] == rows;
      bytes := header + data;
    }

    /** The bytes Export writes for row y: each pixel's blue, green and red
        channel times 255 truncated to a byte, left to right, then the zero
        padding that completes the row to a multiple of four bytes. */
    method ExportRow(y: nat) returns (out: seq<Codec.byte>)
      requires Valid() && y < height && Codec.EncodableRows(Contents().rows, width)
      ensures out == Codec.RowBytes(Contents().rows[y], width)
    {
      ghost var row := Contents().rows[y];
      var paddingAmount := Codec.Padding(width);
      out := [];
      for x := 0 to width
        invariant out == Codec.PixelBytes(row[..x])
      {
        var c := GetColor(x, y);
        assert c == row[x];
        Codec.PixelBytesAppend(row, x);
        out := out + [Codec.Quantize(c.b), Codec.Quantize(c.g), Codec.Quantize(c.r)];
      }
      assert row[..width] == row;
      out := out + Codec.Zeros(paddingAmount);
    }

    // ----- Flips (Image.cpp:242-270) -----

    method FlipV()
      requires Valid()
      modifies colors
      ensures Valid() && Contents() == Transforms.FlippedV(old(Contents()))
    {
      ghost var orig := Contents();
      ContentsAt();
      for col := 0 to width
        invariant Valid() && orig.Valid() && orig.width == width && orig.height == height
        invariant forall c, r {:trigger GetColor(c, r)} | InRange(c, r) ::
          GetColor(c, r) == if c < col then orig.At(c, height - 1 - r) else orig.At(c, r)
      {
        FlipColumn(col, orig);
      }
      ContentsAre(Transforms.FlippedV(orig));
    }

    /** One pass of FlipV's outer loop: column col swaps its top and bottom
        halves; every other column keeps what it held. */
    method FlipColumn(col: nat, ghost orig: Grid)
      requires Valid() && col < width && orig.Valid() && orig.width == width && orig.height == height
      requires forall c, r {:trigger GetColor(c, r)} | InRange(c, r) ::
        GetColor(c, r) == if c < col then orig.At(c, height - 1 - r) else orig.At(c, r)
      modifies colors
      ensures Valid()
      ensures forall c, r {:trigger GetColor(c, r)} | InRange(c, r) ::
        GetColor(c, r) == if c <= col then orig.At(c, height - 1 - r) else orig.At(c, r)
    {
      for row := 0 to height / 2
        invariant Valid()
        invariant forall c, r {:trigger GetColor(c, r)} | InRange(c, r) ::
          GetColor(c, r) == if c < col || (c == col && (r < row || r > height - 1 - row))
                            then orig.At(c, height - 1 - r) else orig.At(c, r)
      {
        var oppRow := height - row - 1;
        var temp := GetColor(col, row);
        SetColor(GetColor(col, oppRow), col, row);
        SetColor(temp, col, oppRow);
      }
      forall c, r | InRange(c, r) && c == col && height / 2 <= r <= height - 1 - height / 2
        ensures GetColor(c, r) == orig.At(c, height - 1 - r)
      {
        assert r == height - 1 - r;
      }
    }

    method FlipH()
      requires Valid()
      modifies colors
      ensures Valid() && Contents() == Transforms.FlippedH(old(Contents()))
    {
      ghost var orig := Contents();
      ContentsAt();
      for col := 0 to width / 2
        invariant Valid() && orig.Valid() && orig.width == width && orig.height == height
        invariant forall c, r {:trigger GetColor(c, r)} | InRange(c, r) ::
          GetColor(c, r) == if c < col || c > width - 1 - col then orig.At(width - 1 - c, r) else orig.At(c, r)
      {
        SwapColumns(col, orig);
      }
      ContentsAre(Transforms.FlippedH(orig));
    }

    /** One pass of FlipH's outer loop: column col and its mirror column
        width - 1 - col exchange their pixels; every other column keeps
        what it held. */
    method SwapColumns(col: nat, ghost orig: Grid)
      requires Valid() && col < width / 2 && orig.Valid() && orig.width == width && orig.height == height
      requires forall c, r {:trigger GetColor(c, r)} | InRange(c, r) ::
        GetColor(c, r) == if c < col || c > width - 1 - col then orig.At(width - 1 - c, r) else orig.At(c, r)
      modifies colors
      ensures Valid()
      ensures forall c, r {:trigger GetColor(c, r)} | InRange(c, r) ::
        GetColor(c, r) == if c <= col || c >= width - 1 - col then orig.At(width - 1 - c, r) else orig.At(c, r)
    {
      for row := 0 to height
        invariant Valid()
        invariant forall c, r {:trigger GetColor(c, r)} | InRange(c, r) ::
          GetColor(c, r) == if c < col || c > width - 1 - col || ((c == col || c == width - 1 - col) && r < row)
                            then orig.At(width - 1 - c, r) else orig.At(c, r)
      {
        var oppCol := width - col - 1;
        var temp := GetColor(col, row);
        SetColor(GetColor(oppCol, row), col, row);
        SetColor(temp, oppCol, row);
      }
    }

    // ----- Colour maps (Image.cpp:272-286, 345-356) -----

    method InvertColors()
      requires Valid()
      modifies colors
      ensures Valid() && Contents() == Transforms.Inverted(old(Contents()))
    {
      ghost var orig := Contents();
      for col := 0 to width
        invariant Valid()
        invariant forall c, r | InRange(c, r) ::
          GetColor(c, r) == if c < col then Invert(orig.At(c, r)) else orig.At(c, r)
      {
        for row := 0 to height
          invariant Valid()
          invariant forall c, r | InRange(c, r) ::
            GetColor(c, r) == if c < col || (c == col && r < row) then Invert(orig.At(c, r)) else orig.At(c, r)
        {
          var ogColor := GetColor(col, row);
          var invColor := Color(1.0 - ogColor.r, 1.0 - ogColor.g, 1.0 - ogColor.b);
          SetColor(invColor, col, row);
        }
      }
      ContentsAre(Transforms.Inverted(orig));
    }

    method ColorToGray()
      requires Valid()
      modifies colors
      ensures Valid() && Contents() == Transforms.Grayed(old(Contents()))
    {
      ghost var orig := Contents();
      for col := 0 to width
        invariant Valid()
        invariant forall c, r | InRange(c, r) ::
          GetColor(c, r) == if c < col then Gray(orig.At(c, r)) else orig.At(c, r)
      {
        for row := 0 to height
          invariant Valid()
          invariant forall c, r | InRange(c, r) ::
            GetColor(c, r) == if c < col || (c == col && r < row) then Gray(orig.At(c, r)) else orig.At(c, r)
        {
          var ogColor := GetColor(col, row);
          var grayScale := Luma(ogColor);
          SetColor(Color(grayScale, grayScale, grayScale), col, row);
        }
      }
      ContentsAre(Transforms.Grayed(orig));
    }

    // ----- Stretches (Image.cpp:390-450) -----

    /** StretchH(f, leftToRight): a fraction outside [0, 1] changes nothing;
        otherwise every column strictly right of width * f (left to right)
        or strictly left of it (right to left) takes the pixels of column
        floor(width * f). */
    method StretchH(f: real, leftToRight: bool)
      requires Valid() && Transforms.StretchDefined(width, height, f, leftToRight)
      modifies colors
      ensures Valid() && Contents() == Transforms.StretchedH(old(Contents()), f, leftToRight)
    {
      if f > 1.0 || f < 0.0 {
        return;
      }
      if leftToRight {
        StretchRight(f);
      } else {
        StretchLeft(f);
      }
    }

    /** The left-to-right branch of StretchH: columns beyond width * f copy column floor(width * f). */
    method StretchRight(f: real)
      requires Valid() && 0.0 <= f <= 1.0 && Transforms.StretchDefined(width, height, f, true)
      modifies colors
      ensures Valid() && Contents() == Transforms.StretchedH(old(Contents()), f, true)
    {
      ghost var orig := Contents();
      ghost var stretched := Transforms.StretchedH(orig, f, true);
      ContentsAt();
      for col := 0 to width
        invariant Valid()
        invariant forall c, r {:trigger GetColor(c, r)} | InRange(c, r) ::
          GetColor(c, r) == if c < col then stretched.At(c, r) else orig.At(c, r)
      {
        for row := 0 to height
          invariant Valid()
          invariant forall c, r {:trigger GetColor(c, r)} | InRange(c, r) ::
            GetColor(c, r) == if c < col || (c == col && r < row) then stretched.At(c, r) else orig.At(c, r)
        {
          if Transforms.InRegion(col, width, f, true) {
            Transforms.AnchorInside(col, width, f, true);
            SetColor(GetColor(Transforms.Anchor(width, f), row), col, row);
          }
        }
      }
      ContentsAre(stretched);
    }

    /** The right-to-left branch of StretchH: columns before width * f copy column floor(width * f). */
    method StretchLeft(f: real)
      requires Valid() && 0.0 <= f <= 1.0 && Transforms.StretchDefined(width, height, f, false)
      modifies colors
      ensures Valid() && Contents() == Transforms.StretchedH(old(Contents()), f, false)
    {
      ghost var orig := Contents();
      ghost var stretched := Transforms.StretchedH(orig, f, false);
      ContentsAt();
      for col := 0 to width
        invariant Valid()
        invariant forall c, r {:trigger GetColor(c, r)} | InRange(c, r) ::
          GetColor(c, r) == if c < col then stretched.At(c, r) else orig.At(c, r)
      {
        for row := 0 to height
          invariant Valid()
          invariant forall c, r {:trigger GetColor(c, r)} | InRange(c, r) ::
            GetColor(c, r) == if c < col || (c == col && r < row) then stretched.At(c, r) else orig.At(c, r)
        {
          if Transforms.InRegion(col, width, f, false) {
            Transforms.AnchorInside(col, width, f, false);
            SetColor(GetColor(Transforms.Anchor(width, f), row), col, row);
          }
        }
      }
      ContentsAre(stretched);
    }

    /** StretchV(f, up): the same along rows; upward the rows strictly below
        height * (1 - f) take row floor(height * (1 - f)), downward the rows
        strictly above height * f take row floor(height * f). */
    method StretchV(f: real, up: bool)
      requires Valid() && Transforms.StretchDefined(height, width, Transforms.VFraction(f, up), up)
      modifies colors
      ensures Valid() && Contents() == Transforms.StretchedV(old(Contents()), f, up)
    {
      if f > 1.0 || f < 0.0 {
        return;
      }
      if up {
        StretchUp(f);
      } else {
        StretchDown(f);
      }
    }

    /** The upward branch of StretchV: rows beyond height * (1 - f) copy row floor(height * (1 - f)). */
    method StretchUp(f: real)
      requires Valid() && 0.0 <= f <= 1.0 && Transforms.StretchDefined(height, width, 1.0 - f, true)
      modifies colors
      ensures Valid() && Contents() == Transforms.StretchedV(old(Contents()), f, true)
    {
      ghost var orig := Contents();
      ghost var stretched := Transforms.StretchedV(orig, f, true);
      ContentsAt();
      for col := 0 to width
        invariant Valid()
        invariant forall c, r {:trigger GetColor(c, r)} | InRange(c, r) ::
          GetColor(c, r) == if c < col then stretched.At(c, r) else orig.At(c, r)
      {
        for row := 0 to height
          invariant Valid()
          invariant forall c, r {:trigger GetColor(c, r)} | InRange(c, r) ::
            GetColor(c, r) == if c < col || (c == col && r < row) then stretched.At(c, r) else orig.At(c, r)
        {
          if Transforms.InRegion(row, height, 1.0 - f, true) {
            Transforms.AnchorInside(row, height, 1.0 - f, true);
            SetColor(GetColor(col, Transforms.Anchor(height, 1.0 - f)), col, row);
          }
        }
      }
      ContentsAre(stretched);
    }

    /** The downward branch of StretchV: rows before height * f copy row floor(height * f). */
    method StretchDown(f: real)
      requires Valid() && 0.0 <= f <= 1.0 && Transforms.StretchDefined(height, width, f, false)
      modifies colors
      ensures Valid() && Contents() == Transforms.StretchedV(old(Contents()), f, false)
    {
      ghost var orig := Contents();
      ghost var stretched := Transforms.StretchedV(orig, f, false);
      ContentsAt();
      for col := 0 to width
        invariant Valid()
        invariant forall c, r {:trigger GetColor(c, r)} | InRange(c, r) ::
          GetColor(c, r) == if c < col then stretched.At(c, r) else orig.At(c, r)
      {
        for row := 0 to height
          invariant Valid()
          invariant forall c, r {:trigger GetColor(c, r)} | InRange(c, r) ::
            GetColor(c, r) == if c < col || (c == col && r < row) then stretched.At(c, r) else orig.At(c, r)
        {
          if Transforms.InRegion(row, height, f, false) {
            Transforms.AnchorInside(row, height, f, false);
            SetColor(GetColor(col, Transforms.Anchor(height, f)), col, row);
          }
        }
      }
      ContentsAre(stretched);
    }

    // ----- Gaussian blur (Image.cpp:288-343) -----

    /** CreateGaussianKernel with the weights given: `density[a][b]` stands
        for the Gaussian value at offset (a - size/2, b - size/2). The first
        loops copy the weights and add them up, the second divides every
        weight by that sum in place, so the result is the normalised kernel. */
    method CreateGaussianKernel(size: nat, density: seq<seq<real>>) returns (kernel: array2<real>)
      requires |density| == size && Filters.IsKernel(density) && Filters.Positive(density)
      ensures fresh(kernel) && kernel.Length0 == size && kernel.Length1 == size
      ensures (Filters.NormalizedSumsToOne(density);
        forall a, b | 0 <= a < size && 0 <= b < size :: kernel[a, b] == Filters.Normalized(density)[a][b])
    {
      var sum;
      kernel, sum := FillKernel(size, density);
      Filters.NormalizedSumsToOne(density);
      DivideKernel(kernel, sum);
    }

    /** GaussianBlur: every pixel becomes the weighted sum of its clamped
        neighbourhood in a copy taken before any pixel changed, with the
        normalised kernel as weights. */
    method GaussianBlur(kernelSize: nat, density: seq<seq<real>>)
      requires Valid() && |density| == kernelSize && Filters.IsKernel(density) && Filters.Positive(density)
      modifies colors
      ensures (Filters.NormalizedSumsToOne(density);
        Valid() && Contents() == Filters.Blurred(old(Contents()), Filters.Normalized(density)))
    {
      var kernel := CreateGaussianKernel(kernelSize, density);
      Filters.NormalizedSumsToOne(density);
      ghost var k := Filters.Normalized(density);
      ghost var orig := Contents();
      var temp := colors[..];
      assert orig == FromFlat(temp, width, height);
      ContentsAt();
      for x := 0 to width
        invariant Valid()
        invariant forall a, b | 0 <= a < kernelSize && 0 <= b < kernelSize :: kernel[a, b] == k[a][b]
        invariant forall c, r {:trigger GetColor(c, r)} | InRange(c, r) ::
          GetColor(c, r) == if c < x then Filters.BlurAt(orig, k, c, r) else orig.At(c, r)
      {
        for y := 0 to height
          invariant Valid()
          invariant forall a, b | 0 <= a < kernelSize && 0 <= b < kernelSize :: kernel[a, b] == k[a][b]
          invariant forall c, r {:trigger GetColor(c, r)} | InRange(c, r) ::
            GetColor(c, r) == if c < x || (c == x && r < y) then Filters.BlurAt(orig, k, c, r) else orig.At(c, r)
        {
          var blurredColor := BlurredColor(temp, width, height, kernel, k, x, y);
          SetColor(blurredColor, x, y);
        }
      }
      ContentsAre(Filters.Blurred(orig, k));
    }

    // ----- Laplacian edge detection (Image.cpp:359-388) -----

    /** LaplacianEdgeDetection: the image is first turned gray; then every
        pixel with a neighbour on each side takes the clamped Laplacian of
        the gray copy, and the border keeps its gray value. */
    method LaplacianEdgeDetection()
      requires Valid()
      modifies colors
      ensures Valid() && Contents() == Filters.EdgeDetected(Transforms.Grayed(old(Contents())))
    {
      ColorToGray();
      EdgePass();
    }

    /** The part of LaplacianEdgeDetection after the gray conversion: every
        pixel with a neighbour on each side takes the clamped Laplacian of a
        copy taken first, and the border is kept. */
    method EdgePass()
      requires Valid()
      modifies colors
      ensures Valid() && Contents() == Filters.EdgeDetected(old(Contents()))
    {
      ghost var gray := Contents();
      ghost var edges := Filters.EdgeDetected(gray);
      var tempImage := colors[..];
      assert gray == FromFlat(tempImage, width, height);
      ContentsAt();
      var x := 1;
      while x < width - 1
        invariant Valid() && 1 <= x && (width >= 2 ==> x <= width - 1)
        invariant forall c, r {:trigger GetColor(c, r)} | InRange(c, r) ::
          GetColor(c, r) == if c < x then edges.At(c, r) else gray.At(c, r)
      {
        Filters.EdgeColumnValues(gray, x);
        EdgeColumn(tempImage, gray, edges, x);
        x := x + 1;
      }
      ContentsAre(edges);
    }

    /** One pass of the edge pass's outer loop: the interior pixels of
        column x take the clamped Laplacian of the snapshot. */
    method EdgeColumn(tempImage: seq<Color>, ghost gray: Grid, ghost edges: Grid, x: nat)
      requires Valid() && 1 <= x < width - 1 && |tempImage| == width * height
      requires gray == FromFlat(tempImage, width, height)
      requires edges.Valid() && edges.width == width && edges.height == height
      requires forall r | 1 <= r < height - 1 ::
        var v := Filters.Clamp01(Filters.FivePoint(gray, x, r)); edges.At(x, r) == Color(v, v, v)
      requires height > 0 ==> edges.At(x, 0) == gray.At(x, 0) && edges.At(x, height - 1) == gray.At(x, height - 1)
      requires forall c, r {:trigger GetColor(c, r)} | InRange(c, r) ::
        GetColor(c, r) == if c < x then edges.At(c, r) else gray.At(c, r)
      modifies colors
      ensures Valid()
      ensures forall c, r {:trigger GetColor(c, r)} | InRange(c, r) ::
        GetColor(c, r) == if c < x + 1 then edges.At(c, r) else gray.At(c, r)
    {
      var y := 1;
      while y < height - 1
        invariant Valid() && 1 <= y && (height >= 2 ==> y <= height - 1)
        invariant forall c, r {:trigger GetColor(c, r)} | InRange(c, r) ::
          GetColor(c, r) == if c < x || (c == x && r < y) then edges.At(c, r) else gray.At(c, r)
      {
        var edgeStrength := EdgeStrength(tempImage, width, height, x, y);
        var newColorValue := Filters.Clamp01(edgeStrength);
        SetColor(Color(newColorValue, newColorValue, newColorValue), x, y);
        y := y + 1;
      }
    }
  }

  /** The first double loop of CreateGaussianKernel: copies the weights
      into a fresh size-by-size array, centre offsets -mid to mid, and sums
      them row by row. */
  method FillKernel(size: nat, density: seq<seq<real>>) returns (kernel: array2<real>, sum: real)
    requires |density| == size && Filters.IsKernel(density)
    ensures fresh(kernel) && kernel.Length0 == size && kernel.Length1 == size
    ensures sum == Filters.Total(density)
    ensures forall a, b | 0 <= a < size && 0 <= b < size :: kernel[a, b] == density[a][b]
  {
    kernel := new real[size, size];
    sum := 0.0;
    var mid := size / 2;
    for x := -mid to mid + 1
      invariant sum == Filters.PartialTotal(density, x + mid)
      invariant forall a, b | 0 <= a < x + mid && 0 <= b < size :: kernel[a, b] == density[a][b]
    {
      for y := -mid to mid + 1
        invariant sum == Filters.PartialTotal(density, x + mid) + Filters.RowTotal(density[x + mid], y + mid)
        invariant forall a, b | 0 <= a < size && 0 <= b < size && (a < x + mid || (a == x + mid && b < y + mid)) ::
          kernel[a, b] == density[a][b]
      {
        var val := density[x + mid][y + mid];
        kernel[x + mid, y + mid] := val;
        sum := sum + val;
      }
    }
  }

  /** The second double loop of CreateGaussianKernel: every weight is
      divided in place by the sum. */
  method DivideKernel(kernel: array2<real>, sum: real)
    requires sum != 0.0
    modifies kernel
    ensures forall a, b | 0 <= a < kernel.Length0 && 0 <= b < kernel.Length1 :: kernel[a, b] == old(kernel[a, b]) / sum
  {
    for x := 0 to kernel.Length0
      invariant forall a, b | 0 <= a < kernel.Length0 && 0 <= b < kernel.Length1 ::
        kernel[a, b] == if a < x then old(kernel[a, b]) / sum else old(kernel[a, b])
    {
      for y := 0 to kernel.Length1
        invariant forall a, b | 0 <= a < kernel.Length0 && 0 <= b < kernel.Length1 ::
          kernel[a, b] == if a < x || (a == x && b < y) then old(kernel[a, b]) / sum else old(kernel[a, b])
      {
        kernel[x, y] := kernel[x, y] / sum;
      }
    }
  }

  /** The two inner loops of GaussianBlur for pixel (x, y): the weighted sum
      over the kernel, kernel row by kernel row, of the snapshot's pixels at
      the offsets clamped to the image. */
  method BlurredColor(snapshot: seq<Color>, width: nat, height: nat, kernel: array2<real>,
                      ghost k: seq<seq<real>>, x: nat, y: nat) returns (blurred: Color)
    requires |snapshot| == width * height && x < width && y < height
    requires Filters.IsKernel(k) && kernel.Length0 == |k| && kernel.Length1 == |k|
    requires forall a, b | 0 <= a < |k| && 0 <= b < |k| :: kernel[a, b] == k[a][b]
    ensures blurred == Filters.BlurAt(FromFlat(snapshot, width, height), k, x, y)
  {
    ghost var g := FromFlat(snapshot, width, height);
    var half := kernel.Length0 / 2;
    assert |k| == 2 * half + 1;
    blurred := Black;
    for i := -half to half + 1
      invariant blurred == Filters.BlurPartial(g, k, x, y, i + half)
    {
      blurred := AddKernelRow(snapshot, width, height, kernel, k, x, y, i, blurred);
    }
  }

  /** The innermost loop of GaussianBlur: adds to the running sum acc the
      samples of kernel row i (an offset from -half to half) around (x, y). */
  method AddKernelRow(snapshot: seq<Color>, width: nat, height: nat, kernel: array2<real>,
                      ghost k: seq<seq<real>>, x: nat, y: nat, i: int, acc: Color) returns (blurred: Color)
    requires |snapshot| == width * height && x < width && y < height
    requires Filters.IsKernel(k) && kernel.Length0 == |k| && kernel.Length1 == |k|
    requires -(|k| / 2) <= i <= |k| / 2
    requires forall a, b | 0 <= a < |k| && 0 <= b < |k| :: kernel[a, b] == k[a][b]
    ensures blurred == Add(acc, Filters.BlurRowSum(FromFlat(snapshot, width, height), k, x, y, i + |k| / 2, |k|))
  {
    ghost var g := FromFlat(snapshot, width, height);
    var half := kernel.Length0 / 2;
    assert |k| == 2 * half + 1;
    blurred := acc;
    ghost var rowSum := Black;
    for j := -half to half + 1
      invariant rowSum == Filters.BlurRowSum(g, k, x, y, i + half, j + half)
      invariant blurred == Add(acc, rowSum)
    {
      var sampleX := Filters.Clamp(x + i, width);
      var sampleY := Filters.Clamp(y + j, height);
      var sampleColor := snapshot[Index(sampleX, sampleY, width, height)];
      var weighted := Scale(sampleColor, kernel[i + half, j + half]);
      assert weighted == Filters.BlurTerm(g, k, x, y, i + half, j + half);
      blurred := Add(blurred, weighted);
      rowSum := Add(rowSum, weighted);
    }
  }

  /** The two inner loops of LaplacianEdgeDetection for an interior pixel
      (x, y): the 3x3 Laplacian kernel applied to the red channel of the
      snapshot, which is four times the centre minus the four direct
      neighbours. */
  method EdgeStrength(snapshot: seq<Color>, width: nat, height: nat, x: int, y: int) returns (edge: real)
    requires |snapshot| == width * height && 1 <= x < width - 1 && 1 <= y < height - 1
    ensures edge == Filters.FivePoint(FromFlat(snapshot, width, height), x, y)
  {
    ghost var g := FromFlat(snapshot, width, height);
    edge := 0.0;
    for i := -1 to 2
      invariant edge == Filters.LaplacePartial(g, x, y, i + 1)
    {
      edge := AddLaplaceRow(snapshot, width, height, x, y, i, edge);
    }
    Filters.EdgeStrengthFormula(g, x, y);
  }

  /** The innermost loop of LaplacianEdgeDetection: adds to the running sum
      acc the weighted red channels of kernel row i (an offset from -1 to 1)
      around (x, y). */
  method AddLaplaceRow(snapshot: seq<Color>, width: nat, height: nat, x: int, y: int, i: int, acc: real)
    returns (edge: real)
    requires |snapshot| == width * height && 1 <= x < width - 1 && 1 <= y < height - 1 && -1 <= i <= 1
    ensures edge == acc + Filters.LaplaceRowSum(FromFlat(snapshot, width, height), x, y, i + 1, 3)
  {
    ghost var g := FromFlat(snapshot, width, height);
    edge := acc;
    ghost var rowSum := 0.0;
    for j := -1 to 2
      invariant rowSum == Filters.LaplaceRowSum(g, x, y, i + 1, j + 1)
      invariant edge == acc + rowSum
    {
      var sampleColor := snapshot[Index(x + i, y + j, width, height)];
      var intensity := sampleColor.r;
      ghost var term := intensity * Filters.Laplacian[i + 1][j + 1];
      assert term == Filters.LaplaceTerm(g, x, y, i + 1, j + 1);
      edge := edge + intensity * Filters.Laplacian[i + 1][j + 1];
      rowSum := rowSum + term;
    }
  }
}
