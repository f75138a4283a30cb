/** The 24-bit Windows bitmap layout read by Image::Read and written by
    Image::Export (Image.cpp:84-121, 137-237), as pure functions on byte
    sequences: a 14-byte file header, a 40-byte information header, then
    `height` rows of B, G, R bytes, each row padded with zeros to a multiple
    of four bytes. Rows are stored in the order of the grid, row 0 first. */
module Codec {
  import opened Colors
  import opened Grids

  newtype byte = x: int | 0 <= x < 256

  datatype Option<T> = None | Some(value: T)

  const FileHeaderSize: nat := 14
  const InfoHeaderSize: nat := 40
  /** Offset of the first pixel byte: both headers (Image.cpp:161). */
  const HeaderSize: nat := FileHeaderSize + InfoHeaderSize

  /** The signature bytes 'B' and 'M'. */
  const SignatureB: byte := 66
  const SignatureM: byte := 77

  // ----- Row layout (Image.cpp:107, 138, 142) -----

  /** Zero bytes after each row: (4 - (3 * width) % 4) % 4. */
  function Padding(width: nat): (p: nat)
    ensures p < 4
  {
    (4 - (width * 3) % 4) % 4
  }

  /** Bytes one stored row occupies. */
  function Stride(width: nat): (s: nat)
    ensures s >= 3 * width
  {
    3 * width + Padding(width)
  }

  /** The padding is the one amount below four that brings a row of pixels
      to a multiple of four bytes. */
  lemma PaddingAligns(width: nat, p: nat)
    ensures Stride(width) % 4 == 0
    ensures p < 4 && (3 * width + p) % 4 == 0 <==> p == Padding(width)
  {
    var q, m := width / 4, width % 4;
    assert 3 * width == 4 * (3 * q) + 3 * m;
    ModFour(3 * q, 3 * m);
    assert Padding(width) == m;
    ModFour(3 * q + m, 0);
    ModFour(3 * q, 3 * m + p);
  }

  lemma ModFour(k: int, a: int)
    ensures (4 * k + a) % 4 == a % 4
  {
  }

  /** The file size recorded in the header (Image.cpp:142). */
  function FileSize(width: nat, height: nat): int {
    FileHeaderSize + InfoHeaderSize + width * height * 3 + Padding(width) * height
  }

  /** The file is the two headers followed by `height` rows of Stride(width) bytes. */
  lemma FileSizeStride(width: nat, height: nat)
    ensures FileSize(width, height) == HeaderSize + height * Stride(width)
  {
    assert height * Stride(width) == width * height * 3 + Padding(width) * height;
  }

  // ----- Little-endian 32-bit fields (Image.cpp:100-103, 150-182) -----

  /** The four bytes of n, lowest first: `n`, `n >> 8`, `n >> 16`, `n >> 24`
      each stored into an unsigned char, i.e. reduced modulo 256. */
  function Le32(n: int): (s: seq<byte>)
    ensures |s| == 4
  {
    [(n % 256) as byte, (n / 0x100 % 256) as byte, (n / 0x1_0000 % 256) as byte, (n / 0x100_0000 % 256) as byte]
  }

  /** The signed 32-bit integer stored little-endian at offset o:
      b0 + (b1 << 8) + (b2 << 16) + (b3 << 24) in a two's-complement int. */
  function Int32At(s: seq<byte>, o: nat): (v: int)
    requires o + 4 <= |s|
    ensures -0x8000_0000 <= v < 0x8000_0000
  {
    var u := s[o] as int + 0x100 * s[o + 1] as int + 0x1_0000 * s[o + 2] as int + 0x100_0000 * s[o + 3] as int;
    if u >= 0x8000_0000 then u - 0x1_0000_0000 else u
  }

  /** Every 32-bit signed value is read back from its four bytes. */
  lemma Le32RoundTrip(n: int)
    requires -0x8000_0000 <= n < 0x8000_0000
    ensures Int32At(Le32(n), 0) == n
  {
    ShiftsCompose(n);
    var q1 := n / 0x100;
    var q2 := q1 / 0x100;
    var q3 := q2 / 0x100;
    assert n == q1 * 0x100 + n % 0x100;
    assert q1 == q2 * 0x100 + q1 % 0x100;
    assert q2 == q3 * 0x100 + q2 % 0x100;
    assert q3 == n / 0x100_0000;
    var q4 := q3 / 0x100;
    assert q3 == q4 * 0x100 + q3 % 0x100;
    assert q4 == -1 || q4 == 0;
  }

  /** Shifting by 16 or 24 bits is shifting by 8 bits repeatedly. */
  lemma ShiftsCompose(n: int)
    ensures n / 0x1_0000 == n / 0x100 / 0x100
    ensures n / 0x100_0000 == n / 0x1_0000 / 0x100
  {
  }

  // ----- Channels (Image.cpp:115-117, 227-229) -----

  /** A channel the float-to-unsigned-char cast of c * 255 is defined for:
      its truncation must lie in 0 .. 255. */
  predicate Encodable(v: real) {
    -1.0 < v * 255.0 < 256.0
  }

  predicate EncodableColor(c: Color) {
    Encodable(c.r) && Encodable(c.g) && Encodable(c.b)
  }

  /** static_cast<unsigned char>(v * 255): the product truncated toward zero. */
  function Quantize(v: real): (q: byte)
    requires Encodable(v)
    ensures q as real <= v * 255.0 || (q == 0 && v < 0.0)
    ensures v * 255.0 < q as real + 1.0
  {
    if v * 255.0 < 0.0 then 0 else (v * 255.0).Floor as byte
  }

  /** The channel Read stores for a byte: b / 255. */
  function Channel(b: byte): (v: real)
    ensures 0.0 <= v <= 1.0
  {
    b as real / 255.0
  }

  // ----- Encoding (Image.cpp:137-237) -----

  /** The 14-byte file header: signature, file size, two reserved zero
      fields, pixel-data offset 54 (Image.cpp:147-164). */
  function FileHeader(width: nat, height: nat): (s: seq<byte>)
    ensures |s| == FileHeaderSize
  {
    [SignatureB, SignatureM] + Le32(FileSize(width, height)) + [0, 0, 0, 0] + [HeaderSize as byte, 0, 0, 0]
  }

  /** The 40-byte information header: its size, width, height, one plane,
      24 bits per pixel, no compression, every remaining field zero
      (Image.cpp:169-218). */
  function InfoHeader(width: nat, height: nat): (s: seq<byte>)
    ensures |s| == InfoHeaderSize
  {
    [InfoHeaderSize as byte, 0, 0, 0] + Le32(width) + Le32(height) + [1, 0] + [24, 0] + Zeros(24)
  }

  function Zeros(n: nat): (s: seq<byte>)
    ensures |s| == n && forall i | 0 <= i < n :: s[i] == 0
  {
    seq(n, _ => 0)
  }

  /** One pixel as stored: blue, green, red (Image.cpp:231). */
  function ColorBytes(c: Color): (s: seq<byte>)
    requires EncodableColor(c)
    ensures |s| == 3
  {
    [Quantize(c.b), Quantize(c.g), Quantize(c.r)]
  }

  /** The pixel bytes of one row, left to right. */
  function PixelBytes(row: seq<Color>): (s: seq<byte>)
    requires forall i | 0 <= i < |row| :: EncodableColor(row[i])
    ensures |s| == 3 * |row|
  {
    if |row| == 0 then [] else PixelBytes(row[..|row| - 1]) + ColorBytes(row[|row| - 1])
  }

  /** A stored row: its pixels, then the zero padding (Image.cpp:223-237). */
  function RowBytes(row: seq<Color>, width: nat): (s: seq<byte>)
    requires |row| == width && forall i | 0 <= i < |row| :: EncodableColor(row[i])
    ensures |s| == Stride(width)
  {
    PixelBytes(row) + Zeros(Padding(width))
  }

  ghost predicate EncodableRows(rows: seq<seq<Color>>, width: nat) {
    forall y | 0 <= y < |rows| :: |rows[y]| == width && forall x | 0 <= x < width :: EncodableColor(rows[y][x])
  }

  /** All stored rows, row 0 first. */
  function PixelData(rows: seq<seq<Color>>, width: nat): (s: seq<byte>)
    requires EncodableRows(rows, width)
  {
    if |rows| == 0 then []
    else
      var n := |rows| - 1;
      assert EncodableRows(rows[..n], width) by {
        forall y | 0 <= y < n ensures rows[..n][y] == rows[y] { }
      }
      PixelData(rows[..n], width) + RowBytes(rows[n], width)
  }

  /** Every stored row takes Stride(width) bytes. */
  lemma {:induction false} PixelDataLength(rows: seq<seq<Color>>, width: nat)
    requires EncodableRows(rows, width)
    ensures |PixelData(rows, width)| == |rows| * Stride(width)
  {
    if |rows| > 0 {
      var n := |rows| - 1;
      var S := Stride(width);
      assert EncodableRows(rows[..n], width) by {
        forall y | 0 <= y < n ensures rows[..n][y] == rows[y] { }
      }
      PixelDataLength(rows[..n], width);
      assert |PixelData(rows, width)| == |PixelData(rows[..n], width)| + |RowBytes(rows[n], width)|;
      MulSucc(n, S);
    }
  }

  lemma MulSucc(n: nat, s: nat)
    ensures n * s + s == (n + 1) * s
  {
  }

  ghost predicate EncodableGrid(g: Grid)
    requires g.Valid()
  {
    forall c, r | g.InRange(c, r) :: EncodableColor(g.At(c, r))
  }

  /** The byte stream Export writes for grid g. */
  function Encode(g: Grid): (s: seq<byte>)
    requires g.Valid() && EncodableGrid(g)
  {
    EncodableRowsOf(g);
    FileHeader(g.width, g.height) + InfoHeader(g.width, g.height) + PixelData(g.rows, g.width)
  }

  /** The stream is exactly as long as the size the header records. */
  lemma EncodeLength(g: Grid)
    requires g.Valid() && EncodableGrid(g)
    ensures |Encode(g)| == FileSize(g.width, g.height)
  {
    EncodableRowsOf(g);
    PixelDataLength(g.rows, g.width);
    FileSizeStride(g.width, g.height);
  }

  // ----- Decoding (Image.cpp:84-121) -----

  /** The pixel whose B, G, R bytes start at offset o. */
  function ColorAt(s: seq<byte>, o: nat): (c: Color)
    requires o + 3 <= |s|
    ensures InUnit(c)
  {
    Color(Channel(s[o + 2]), Channel(s[o + 1]), Channel(s[o]))
  }

  /** Offset of pixel (x, y) in the stream: after the headers, y whole rows and x pixels. */
  function PixelOffset(x: nat, y: nat, width: nat): nat {
    HeaderSize + y * Stride(width) + 3 * x
  }

  /** Where the bytes Read takes from the stream end: after the last pixel
      of the last row. The padding after that row is skipped with `ignore`
      (Image.cpp:120), which stops quietly at the end of the stream, so a
      stream may lack it; with no pixels, only the headers are read. */
  function DataEnd(width: nat, height: nat): (e: nat)
    ensures HeaderSize <= e <= FileSize(width, height)
    ensures width > 0 && height > 0 ==> e == PixelOffset(width - 1, height - 1, width) + 3
  {
    if width == 0 || height == 0 then HeaderSize
    else
      LastRowInFile(width, height);
      PixelOffset(width - 1, height - 1, width) + 3
  }

  /** The last row's pixels end within the recorded file size. */
  lemma LastRowInFile(width: nat, height: nat)
    requires height > 0
    ensures PixelOffset(width, height - 1, width) <= FileSize(width, height)
  {
    FileSizeStride(width, height);
    assert (height - 1) * Stride(width) + Stride(width) == height * Stride(width);
  }

  lemma PixelOffsetInRange(x: nat, y: nat, width: nat, height: nat)
    requires x < width && y < height
    ensures PixelOffset(x, y, width) + 3 <= DataEnd(width, height) <= FileSize(width, height)
  {
    MulMonotone(y, height - 1, Stride(width));
  }

  lemma PixelsInRange(width: nat, height: nat)
    ensures forall x, y | 0 <= x < width && 0 <= y < height ::
      PixelOffset(x, y, width) + 3 <= DataEnd(width, height)
  {
    forall x, y | 0 <= x < width && 0 <= y < height
      ensures PixelOffset(x, y, width) + 3 <= DataEnd(width, height)
    {
      PixelOffsetInRange(x, y, width, height);
    }
  }

  /** Skipping the padding after the last pixel of row y lands on row y + 1. */
  lemma NextRowOffset(y: nat, width: nat)
    ensures PixelOffset(width, y, width) + Padding(width) == PixelOffset(0, y + 1, width)
  {
    assert (y + 1) * Stride(width) == y * Stride(width) + Stride(width);
  }

  /** Read as a function: None when the stream is too short for the headers,
      does not start with "BM", declares a negative size, or ends before the
      last pixel it declares; otherwise the grid of its pixel rows, every
      byte divided by 255 and the padding skipped. */
  function Decode(s: seq<byte>): (r: Option<Grid>)
    ensures r.Some? <==>
      && |s| >= HeaderSize && s[0] == SignatureB && s[1] == SignatureM
      && Int32At(s, 18) >= 0 && Int32At(s, 22) >= 0
      && |s| >= DataEnd(Int32At(s, 18), Int32At(s, 22))
    ensures r.Some? ==> r.value.Valid() && r.value.InUnit()
    ensures r.Some? ==> r.value.width == Int32At(s, 18) && r.value.height == Int32At(s, 22)
    ensures r.Some? ==> forall x, y | r.value.InRange(x, y) ::
      PixelOffset(x, y, r.value.width) + 3 <= |s| && r.value.At(x, y) == ColorAt(s, PixelOffset(x, y, r.value.width))
  {
    if |s| < HeaderSize || s[0] != SignatureB || s[1] != SignatureM then None
    else
      var w := Int32At(s, 18);
      var h := Int32At(s, 22);
      if w < 0 || h < 0 || |s| < DataEnd(w, h) then None
      else Some(DecodedGrid(s, w, h))
  }

  /** The pixel rows of a stream long enough for a w by h image. */
  function DecodedGrid(s: seq<byte>, w: nat, h: nat): (g: Grid)
    requires |s| >= DataEnd(w, h)
    ensures g.Valid() && g.InUnit() && g.width == w && g.height == h
    ensures forall x, y | g.InRange(x, y) ::
      PixelOffset(x, y, w) + 3 <= |s| && g.At(x, y) == ColorAt(s, PixelOffset(x, y, w))
  {
    var g := Grid(w, h, seq(h, y requires 0 <= y < h => DecodedRow(s, w, h, y)));
    assert forall x, y | g.InRange(x, y) :: g.At(x, y) == DecodedRow(s, w, h, y)[x];
    g
  }

  /** Row y of the pixel array, read left to right. */
  function DecodedRow(s: seq<byte>, w: nat, h: nat, y: nat): (row: seq<Color>)
    requires |s| >= DataEnd(w, h) && y < h
    ensures |row| == w
    ensures forall x | 0 <= x < w ::
      PixelOffset(x, y, w) + 3 <= |s| && row[x] == ColorAt(s, PixelOffset(x, y, w))
  {
    RowInRange(y, w, h);
    seq(w, x requires 0 <= x < w => ColorAt(s, PixelOffset(x, y, w)))
  }

  lemma RowInRange(y: nat, width: nat, height: nat)
    requires y < height
    ensures forall x | 0 <= x < width :: PixelOffset(x, y, width) + 3 <= DataEnd(width, height)
  {
    forall x | 0 <= x < width
      ensures PixelOffset(x, y, width) + 3 <= DataEnd(width, height)
    {
      PixelOffsetInRange(x, y, width, height);
    }
  }

  // ----- Round trip -----

  /** What one encode/decode cycle does to a channel. */
  function Requantize(v: real): real
    requires Encodable(v)
  {
    Channel(Quantize(v))
  }

  function RequantizeColor(c: Color): Color
    requires EncodableColor(c)
  {
    Color(Requantize(c.r), Requantize(c.g), Requantize(c.b))
  }

  /** The grid with every channel passed through one encode/decode cycle. */
  function Requantized(g: Grid): (q: Grid)
    requires g.Valid() && EncodableGrid(g)
    ensures q.Valid() && q.width == g.width && q.height == g.height
    ensures forall c, r | q.InRange(c, r) :: q.At(c, r) == RequantizeColor(g.At(c, r))
  {
    Grid(g.width, g.height, seq(g.height, r requires 0 <= r < g.height =>
      seq(g.width, c requires 0 <= c < g.width => assert g.InRange(c, r); RequantizeColor(g.rows[r][c]))))
  }

  /** A channel on the 1/255 grid inside [0, 1]. */
  predicate OnByteGrid(v: real) {
    0.0 <= v <= 1.0 && (v * 255.0).Floor as real == v * 255.0
  }

  /** One encode/decode cycle moves a channel by less than 1/255, and not
      at all when the channel is already a multiple of 1/255 in [0, 1]. */
  lemma RequantizeError(v: real)
    requires Encodable(v)
    ensures -1.0 / 255.0 < v - Requantize(v) < 1.0 / 255.0
    ensures OnByteGrid(v) ==> Requantize(v) == v
  {
  }

  lemma {:induction false} PixelBytesAt(row: seq<Color>, x: nat, k: nat)
    requires forall i | 0 <= i < |row| :: EncodableColor(row[i])
    requires x < |row| && k < 3
    ensures PixelBytes(row)[3 * x + k] == ColorBytes(row[x])[k]
  {
    var n := |row| - 1;
    if x < n {
      PixelBytesAt(row[..n], x, k);
      assert row[..n][x] == row[x];
    }
  }

  lemma {:induction false} PixelDataAt(rows: seq<seq<Color>>, width: nat, x: nat, y: nat, k: nat)
    requires EncodableRows(rows, width)
    requires x < width && y < |rows| && k < 3
    ensures y * Stride(width) + 3 * x + k < |PixelData(rows, width)|
    ensures PixelData(rows, width)[y * Stride(width) + 3 * x + k] == ColorBytes(rows[y][x])[k]
  {
    var n := |rows| - 1;
    var S := Stride(width);
    if y < n {
      MulMonotone(y + 1, n, S);
      PixelDataAt(rows[..n], width, x, y, k);
      assert rows[..n][y] == rows[y];
    } else {
      PixelDataLength(rows[..n], width);
      PixelBytesAt(rows[y], x, k);
    }
  }

  /** Every prefix of encodable rows is encodable. */
  lemma PrefixesEncodable(rows: seq<seq<Color>>, width: nat)
    requires EncodableRows(rows, width)
    ensures forall y | 0 <= y <= |rows| :: EncodableRows(rows[..y], width)
  {
    forall y | 0 <= y <= |rows|
      ensures EncodableRows(rows[..y], width)
    {
      assert forall i | 0 <= i < y :: rows[..y][i] == rows[i];
    }
  }

  /** Writing row y after the rows before it. */
  lemma PixelDataAppend(rows: seq<seq<Color>>, width: nat, y: nat)
    requires EncodableRows(rows, width) && y < |rows|
    ensures EncodableRows(rows[..y], width) && EncodableRows(rows[..y + 1], width)
    ensures PixelData(rows[..y + 1], width) == PixelData(rows[..y], width) + RowBytes(rows[y], width)
  {
    PrefixesEncodable(rows, width);
    assert rows[..y + 1][..y] == rows[..y];
  }

  /** Writing pixel x after the pixels before it in its row. */
  lemma PixelBytesAppend(row: seq<Color>, x: nat)
    requires x < |row| && forall i | 0 <= i < |row| :: EncodableColor(row[i])
    ensures PixelBytes(row[..x + 1]) == PixelBytes(row[..x]) + ColorBytes(row[x])
  {
    assert row[..x + 1][..x] == row[..x];
  }

  lemma EncodableRowsOf(g: Grid)
    requires g.Valid() && EncodableGrid(g)
    ensures EncodableRows(g.rows, g.width)
  {
    forall y, x | 0 <= y < |g.rows| && 0 <= x < g.width ensures EncodableColor(g.rows[y][x]) {
      assert EncodableColor(g.At(x, y));
    }
  }

  lemma ConcatAt(a: seq<byte>, b: seq<byte>, i: nat)
    requires i < |b|
    ensures (a + b)[|a| + i] == b[i]
  {
  }

  /** Encode stores pixel (c, r) as its B, G, R bytes at PixelOffset(c, r). */
  lemma EncodePixel(g: Grid, c: int, r: int, k: nat)
    requires g.Valid() && EncodableGrid(g) && g.InRange(c, r) && k < 3
    ensures PixelOffset(c, r, g.width) + k < |Encode(g)|
    ensures Encode(g)[PixelOffset(c, r, g.width) + k] == ColorBytes(g.At(c, r))[k]
  {
    EncodableRowsOf(g);
    PixelDataAt(g.rows, g.width, c, r, k);
    var head := FileHeader(g.width, g.height) + InfoHeader(g.width, g.height);
    var data := PixelData(g.rows, g.width);
    var j := r * Stride(g.width) + 3 * c + k;
    assert |head| == HeaderSize;
    assert Encode(g) == head + data;
    ConcatAt(head, data, j);
  }

  /** Encode stores width and height where Decode reads them back. */
  lemma EncodeSize(g: Grid)
    requires g.Valid() && EncodableGrid(g)
    requires g.width < 0x8000_0000 && g.height < 0x8000_0000
    ensures |Encode(g)| >= HeaderSize
    ensures Int32At(Encode(g), 18) == g.width && Int32At(Encode(g), 22) == g.height
  {
    var s := Encode(g);
    EncodableRowsOf(g);
    assert |FileHeader(g.width, g.height) + InfoHeader(g.width, g.height)| == HeaderSize;
    assert s[18..22] == Le32(g.width);
    assert s[22..26] == Le32(g.height);
    Le32RoundTrip(g.width);
    Le32RoundTrip(g.height);
    assert Int32At(s, 18) == Int32At(s[18..22], 0);
    assert Int32At(s, 22) == Int32At(s[22..26], 0);
  }

  /** decode(encode(g)) has g's width and height, and every channel after
      one quantisation cycle; for widths and heights that fit the header's
      signed 32-bit fields. */
  lemma DecodeEncode(g: Grid)
    requires g.Valid() && EncodableGrid(g)
    requires g.width < 0x8000_0000 && g.height < 0x8000_0000
    ensures Decode(Encode(g)) == Some(Requantized(g))
  {
    var s := Encode(g);
    EncodeSize(g);
    EncodeLength(g);
    assert s[0] == SignatureB && s[1] == SignatureM;
    var d := Decode(s);
    var q := Requantized(g);
    forall c, r | q.InRange(c, r) ensures d.value.At(c, r) == q.At(c, r) {
      EncodePixel(g, c, r, 0);
      EncodePixel(g, c, r, 1);
      EncodePixel(g, c, r, 2);
    }
    Ext(d.value, q);
  }

  /** The exact round trip: channels on the 1/255 grid come back unchanged. */
  lemma DecodeEncodeExact(g: Grid)
    requires g.Valid() && g.width < 0x8000_0000 && g.height < 0x8000_0000
    requires forall c, r | g.InRange(c, r) :: OnByteGrid(g.At(c, r).r) && OnByteGrid(g.At(c, r).g) && OnByteGrid(g.At(c, r).b)
    ensures EncodableGrid(g) && Decode(Encode(g)) == Some(g)
  {
    DecodeEncode(g);
    forall c, r | g.InRange(c, r) ensures Requantized(g).At(c, r) == g.At(c, r) {
      var p := g.At(c, r);
      RequantizeError(p.r);
      RequantizeError(p.g);
      RequantizeError(p.b);
    }
    Ext(Requantized(g), g);
  }

  /** The header Export writes: "BM", the file size, zero reserved fields,
      pixel offset 54, header size 40, width and height at information-header
      offsets 4 and 8, one plane, 24 bits per pixel, no compression, and
      zero in every remaining field. */
  lemma EncodeHeader(g: Grid)
    requires g.Valid() && EncodableGrid(g)
    requires FileSize(g.width, g.height) < 0x8000_0000
    requires g.width < 0x8000_0000 && g.height < 0x8000_0000
    ensures var s := Encode(g);
      && s[0] == SignatureB && s[1] == SignatureM
      && Int32At(s, 2) == FileSize(g.width, g.height) == |s|
      && s[6..10] == [0, 0, 0, 0]
      && Int32At(s, 10) == HeaderSize
      && Int32At(s, 14) == InfoHeaderSize
      && Int32At(s, 18) == g.width && Int32At(s, 22) == g.height
      && s[26..28] == [1, 0] && s[28..30] == [24, 0]
      && forall i | 30 <= i < HeaderSize :: s[i] == 0
  {
    var s := Encode(g);
    EncodeSize(g);
    EncodeLength(g);
    assert s[2..6] == Le32(FileSize(g.width, g.height));
    Le32RoundTrip(FileSize(g.width, g.height));
    assert Int32At(s, 2) == Int32At(s[2..6], 0);
  }

  // ----- A concrete stream -----

  /** One stored row of a 2-pixel-wide white image: six 255 bytes and two
      padding bytes, since 2 * 3 = 6 is not a multiple of 4. */
  const WhiteRow: seq<byte> := [255, 255, 255, 255, 255, 255, 0, 0]

  /** A hand-made 2 by 2 all-white bitmap of 70 bytes. */
  const WhiteBitmap: seq<byte> :=
    [SignatureB, SignatureM, 70, 0, 0, 0, 0, 0, 0, 0, 54, 0, 0, 0]
    + [40, 0, 0, 0, 2, 0, 0, 0, 2, 0, 0, 0, 1, 0, 24, 0] + Zeros(24)
    + WhiteRow + WhiteRow

  /** The fields of the white bitmap that Decode reads. */
  lemma WhiteBitmapFields()
    ensures |WhiteBitmap| == 70 && WhiteBitmap[0] == SignatureB && WhiteBitmap[1] == SignatureM
    ensures WhiteBitmap[18..22] == [2, 0, 0, 0] && WhiteBitmap[22..26] == [2, 0, 0, 0]
    ensures forall k | 54 <= k < 60 || 62 <= k < 68 :: WhiteBitmap[k] == 255
  {
    var head := [SignatureB, SignatureM, 70, 0, 0, 0, 0, 0, 0, 0, 54, 0, 0, 0]
      + [40, 0, 0, 0, 2, 0, 0, 0, 2, 0, 0, 0, 1, 0, 24, 0] + Zeros(24);
    assert |head| == 54;
    assert WhiteBitmap == head + (WhiteRow + WhiteRow);
    assert head[18..22] == [2, 0, 0, 0] && head[22..26] == [2, 0, 0, 0];
    forall k | 54 <= k < 60 || 62 <= k < 68
      ensures WhiteBitmap[k] == 255
    {
      assert WhiteBitmap[k] == (WhiteRow + WhiteRow)[k - 54];
    }
  }

  /** What Decode reads from the first n bytes of the white bitmap. */
  lemma WhitePrefixFields(n: nat)
    requires HeaderSize <= n <= |WhiteBitmap|
    ensures var s := WhiteBitmap[..n];
      && s[0] == SignatureB && s[1] == SignatureM
      && Int32At(s, 18) == 2 && Int32At(s, 22) == 2
      && forall k | (54 <= k < 60 || 62 <= k < 68) && k < n :: s[k] == 255
  {
    WhiteBitmapFields();
    var s := WhiteBitmap[..n];
    assert s[18..22] == WhiteBitmap[18..22] && s[22..26] == WhiteBitmap[22..26];
    assert Int32At(s, 18) == Int32At(s[18..22], 0) == 2;
    assert Int32At(s, 22) == Int32At(s[22..26], 0) == 2;
  }

  /** Decoding the 2 by 2 white bitmap gives four pixels with every channel
      1, also when the stream stops after the last pixel and lacks the
      final row's two padding bytes; one byte fewer and it is rejected. */
  lemma DecodeWhiteBitmap(n: nat)
    requires n <= |WhiteBitmap|
    ensures var d := Decode(WhiteBitmap[..n]);
      && (d.Some? <==> n >= 68)
      && (d.Some? ==> d.value.width == 2 && d.value.height == 2)
      && (d.Some? ==> forall c, r | d.value.InRange(c, r) :: d.value.At(c, r) == Color(1.0, 1.0, 1.0))
  {
    WhiteBitmapFields();
    assert DataEnd(2, 2) == 68;
    if n >= HeaderSize {
      WhitePrefixFields(n);
    }
    if n >= 68 {
      var s := WhiteBitmap[..n];
      var d := Decode(s).value;
      assert Channel(255) == 1.0;
      forall c, r | d.InRange(c, r)
        ensures d.At(c, r) == Color(1.0, 1.0, 1.0)
      {
        var o := PixelOffset(c, r, 2);
        assert o == 54 + 8 * r + 3 * c;
        assert s[o] == 255 && s[o + 1] == 255 && s[o + 2] == 255;
      }
    }
  }
}
