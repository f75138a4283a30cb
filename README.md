# BMP image processor — a Dafny model of `Image.cpp`

The system is a small C++ image processor. Its `Image` class holds a width,
a height and a row-major array of `Color` values, each holding three float
channels. The class reads and writes 24-bit Windows bitmaps. It also flips,
inverts, converts to gray and stretches an image, blurs it with a normalised
Gaussian kernel, and detects edges with a 3x3 Laplacian. Every operation
changes the image in place.

The model follows the same shape. The class `Images.Image` has fields
`width`, `height` and `colors: array<Color>`. Each of its methods is a loop
that updates the array as the C++ code does, pixel by pixel through
`GetColor`/`SetColor`. Each method is proved to leave exactly the grid that a
pure specification function computes from the old grid. The specification
functions, and the properties proved about them, live in five modules:

- `Colors`: the `Color` value, inversion, the BT.601 luma and gray.
- `Grids`: the grid value (`width`, `height`, `rows`), the row-major index
  `row * width + col`, and `FromFlat`. `FromFlat` is the abstraction from the
  class's array to a grid.
- `Transforms`: the two flips, colour inversion, the gray conversion and the
  two directional stretches.
- `Filters`: kernel totals and normalisation, the clamp-to-edge blur, and the
  Laplacian edge detection.
- `Codec`: the byte layout. `Encode` is what `Export` writes, and `Decode` is
  what `Read` accepts and builds. It covers little-endian 32-bit fields,
  channel quantisation, row padding and the round trip.

Channels are real numbers, so float rounding is not modelled. `Read` and
`Export` work on a byte sequence in place of a file path. The Gaussian's
`exp(-(x²+y²)/(2σ²)) / (2πσ²)` values are an input matrix `density` of
positive weights. Everything the code does with those weights is modelled:
copying, summing, dividing by the sum, and the convolution.

Three behaviours of the code are easy to misread:

- Rows are stored with row 0 first. The code writes and reads them in that
  order, not bottom row first.
- A channel is written as `c * 255` truncated toward zero, not rounded. The
  round trip therefore moves a channel by less than 1/255. It is exact for
  multiples of 1/255 in [0, 1].
- The weights are divided by their sum only. The code has no guard for a
  zero sigma. Here that case cannot arise, because the weights are positive.

## Model

| member | source | states |
|---|---|---|
| Colors.Invert | Image.cpp:278-283 | each channel of the inverted colour plus the original channel is 1; the result is in [0,1] exactly when the input is |
| Colors.Luma | Image.cpp:352 | the BT.601 luma of an in-range colour is in [0,1]; a gray colour's luma is its own value; when red is the smallest channel the luma is at least red, and when it is the largest the luma is at most red |
| Colors.Gray | Image.cpp:351-353 | the written pixel is achromatic, carries the luma, and is in range when the input is |
| Colors.InvertInvolutive | Image.cpp:280-282 | inverting a colour twice gives it back |
| Colors.GrayIdempotent | Image.cpp:352-353 | gray of a gray colour is unchanged |
| Colors.ScaleAdd | Image.cpp:330-332 | scaling a colour by two weights and adding equals scaling by the sum of the weights |
| Colors.ScaleWithin | Image.cpp:330-332 | an in-range colour times a non-negative weight w has every channel in [0, w] |
| Colors.Scale | Image.cpp:330-332 | weight 1 keeps the colour, weight 0 gives black |
| Colors.Add | Image.cpp:330-332 | the channel-wise `+=` of the accumulator; adding black on either side changes nothing, so the sum starting from `{0, 0, 0}` is the sum of the samples |
| Grids.Index | Image.cpp:61-71 | the row-major position row*width+col of an in-range pixel lies inside the width*height array |
| Grids.IndexInjective | Image.cpp:61-71 | two different in-range pixels never share an array position, so SetColor touches one pixel only |
| Grids.FromFlat | Image.cpp:61-64 | the grid read from the flat array has pixel (c, r) equal to element r*width+c |
| Grids.Ext | Image.cpp:61-64 | two valid grids of the same size that agree on every pixel are equal |
| Transforms.FlippedV | Image.cpp:242-255 | row r of the result is row height-1-r of the input; with an odd height the middle row is untouched |
| Transforms.FlippedH | Image.cpp:257-270 | column c of the result is column width-1-c of the input; with an odd width the middle column is untouched |
| Transforms.FlipVInvolutive | Image.cpp:242-255 | flipping vertically twice restores the grid |
| Transforms.FlipHInvolutive | Image.cpp:257-270 | flipping horizontally twice restores the grid |
| Transforms.FlipVInUnit | Image.cpp:242-255 | a vertical flip keeps all channels in [0,1] exactly when the input has them there |
| Transforms.FlipHInUnit | Image.cpp:257-270 | a horizontal flip keeps all channels in [0,1] exactly when the input has them there |
| Transforms.Inverted | Image.cpp:272-286 | every pixel of the result is the inverse of the input pixel at the same place |
| Transforms.Grayed | Image.cpp:345-356 | every pixel of the result is the gray of the input pixel at the same place |
| Transforms.InvertInvolutive | Image.cpp:272-286 | inverting a grid twice restores it |
| Transforms.InvertInUnit | Image.cpp:272-286 | inversion keeps channels in [0,1] exactly when the input has them there |
| Transforms.GrayIdempotent | Image.cpp:345-356 | converting a gray grid to gray again changes nothing |
| Transforms.GrayAchromaticInUnit | Image.cpp:345-356 | every converted pixel is achromatic, and in range when the input is |
| Transforms.Anchor | Image.cpp:399-400 | the copied line is width*f truncated: it lies in 0..n, within 1 below n*f, and below n when f < 1 and n > 0 |
| Transforms.AnchorInside | Image.cpp:399-412 | whenever a line is overwritten, the anchor line the code reads exists |
| Transforms.InRegion | Image.cpp:399-442 | the lines a stretch overwrites: those strictly beyond n*f in one direction, strictly before it in the other; StretchedH and StretchedV state which pixels change through it |
| Transforms.StretchedH | Image.cpp:390-419 | a fraction outside [0,1] leaves the grid unchanged; otherwise a column beyond width*f (left to right) or before it (right to left) takes the anchor column's pixel and every other column is kept |
| Transforms.StretchedV | Image.cpp:421-450 | the same along rows: upward, rows beyond height*(1-f) take row floor(height*(1-f)); downward, rows before height*f take row floor(height*f) |
| Transforms.StretchHKeepsAnchor | Image.cpp:390-419 | the anchor column itself keeps its pixels |
| Transforms.StretchVKeepsAnchor | Image.cpp:421-450 | the anchor row itself keeps its pixels |
| Transforms.StretchHIdempotent | Image.cpp:390-419 | stretching a second time with the same arguments changes nothing |
| Transforms.StretchVIdempotent | Image.cpp:421-450 | stretching a second time with the same arguments changes nothing |
| Transforms.StretchInUnit | Image.cpp:390-450 | both stretches keep every channel in [0,1] when the input has them there |
| Filters.RowTotal | Image.cpp:297-303 | the weights of one kernel row summed over the first n entries, in the order of the inner loop; RowTotalPositive and RowTotalScaled state its sign and its scaling |
| Filters.PartialTotal | Image.cpp:297-303 | the `sum` after the first n passes of the outer loop; TotalPositive and PartialTotalNormalized state its sign and its value after the division |
| Filters.Total | Image.cpp:294-303 | the `sum` the first loops leave, by which every weight is divided; TotalPositive proves it positive for positive weights |
| Filters.RowTotalPositive | Image.cpp:297-303 | positive weights in a kernel row have a non-negative partial sum, positive once non-empty |
| Filters.TotalPositive | Image.cpp:297-303 | a non-empty kernel of positive weights has a positive sum, so the normalisation never divides by zero |
| Filters.RowTotalScaled | Image.cpp:306-308 | dividing every weight of a row by t divides the row's sum by t |
| Filters.PartialTotalNormalized | Image.cpp:306-308 | after the division, the sum of the first n rows is their old sum divided by the total |
| Filters.Normalized | Image.cpp:305-308 | every weight divided by the total, giving a square kernel of the same size; NormalizedSumsToOne proves it sums to 1 with non-negative weights |
| Filters.NormalizedSumsToOne | Image.cpp:294-308 | the kernel's total is positive, the normalised kernel sums to exactly 1, and every normalised weight is non-negative |
| Filters.Clamp | Image.cpp:326-327 | min(max(v, 0), n-1) is the nearest index in 0..n-1, and v itself when v is already in range |
| Filters.BlurTerm | Image.cpp:326-332 | one sample of the blur: the snapshot pixel at the clamped offset (i, j), scaled by kernel[i + mid][j + mid]; the first kernel index runs along columns |
| Filters.BlurRowSum | Image.cpp:325-333 | the samples of kernel row i accumulated over the first n values of j; BlurRowSumUniform and BlurRowSumWithin state its value on a uniform grid and its bounds |
| Filters.BlurPartial | Image.cpp:324-333 | the accumulator after the first n values of i; BlurPartialUniform and BlurPartialWithin state its value on a uniform grid and its bounds |
| Filters.BlurAt | Image.cpp:322-334 | the colour written at (x, y): the accumulator after the whole kernel; BlurUniform and BlurInUnit state what it keeps |
| Filters.Blurred | Image.cpp:320-337 | same size as the input; every pixel is the kernel-weighted sum of the input's clamped neighbourhood |
| Filters.BlurRowSumUniform | Image.cpp:324-333 | over a uniform grid, a kernel row's weighted sum is the colour scaled by that row's total |
| Filters.BlurPartialUniform | Image.cpp:324-333 | over a uniform grid, the sum over the first n kernel rows is the colour scaled by their total |
| Filters.BlurUniform | Image.cpp:320-337 | with weights summing to 1, blurring a uniform grid of any size leaves it unchanged |
| Filters.BlurRowSumWithin | Image.cpp:324-333 | with non-negative weights and in-range input, a kernel row's weighted sum has channels in [0, row total] |
| Filters.BlurPartialWithin | Image.cpp:324-333 | the same bound for the sum over the first n kernel rows |
| Filters.BlurInUnit | Image.cpp:320-337 | non-negative weights summing to 1 keep every blurred channel in [0,1] |
| Filters.EdgeStrengthFormula | Image.cpp:362-380 | the 3x3 kernel sum equals four times the centre's red channel minus its four direct neighbours |
| Filters.LaplaceRowUnrolled | Image.cpp:374-380 | one kernel row's sum is the sum of its three weighted samples |
| Filters.LaplaceTerm | Image.cpp:376-378 | the red channel of the snapshot pixel at offset (i, j) times the Laplacian weight at [i + 1][j + 1] |
| Filters.LaplaceRowSum | Image.cpp:375-379 | the edge-strength accumulator over the first n values of j for row i; LaplaceRowUnrolled gives its three terms |
| Filters.LaplacePartial | Image.cpp:374-380 | the accumulator over the first n values of i; EdgeStrengthFormula proves the full sum is FivePoint |
| Filters.FivePoint | Image.cpp:362-366 | the independent closed form of the kernel: four times the centre's red channel minus those of its four direct neighbours; the corner weights are zero |
| Filters.Clamp01 | Image.cpp:383 | the clamped value is in [0,1] and equals the input when that is already in [0,1] |
| Filters.EdgeValue | Image.cpp:381-384 | the gray value written at an interior pixel is in [0,1] and equals the clamped five-point value |
| Filters.EdgeDetected | Image.cpp:368-387 | same size; an interior pixel is the gray of the clamped kernel sum over the snapshot, and a border pixel keeps its value |
| Filters.EdgeColumnValues | Image.cpp:370-387 | in column x, interior pixels are the gray of the clamped five-point sum and the top and bottom pixels are kept |
| Filters.GrayedAchromatic | Image.cpp:345-356 | an image whose every pixel is already gray is left unchanged by ColorToGray |
| Filters.EdgeDetectDot | Image.cpp:359-388 | in the 3x3 image with a white centre and eight black pixels, gray-then-edges makes the centre pure white (its four neighbours are black, so the clamped five-point value is 1) and leaves all eight border pixels black |
| Filters.GrayedDot | Image.cpp:360 | the 3x3 image with a white centre and eight black pixels is unchanged by the gray conversion LaplacianEdgeDetection starts with |
| Filters.EdgeDotPlain | Image.cpp:368-387 | on that image the edge pass makes the centre white and keeps each border pixel black |
| Filters.EdgeDotPixel | Image.cpp:359-388 | each pixel of gray-then-edges of that image: white at the centre, black elsewhere |
| Filters.EdgeDetectionAt | Image.cpp:359-388 | after gray-then-edges, a border pixel holds its grayscale value and an interior pixel the gray of the clamped five-point Laplacian of the gray image, in [0,1] |
| Filters.EdgeDetectionInUnit | Image.cpp:359-388 | edge detection of an in-range image keeps every channel in [0,1] |
| Codec.Padding | Image.cpp:107 | the padding after a row is below 4 bytes |
| Codec.Stride | Image.cpp:107 | a stored row is at least three bytes per pixel |
| Codec.PaddingAligns | Image.cpp:138 | the padding brings a row to a multiple of 4 bytes, and it is the only amount below 4 that does |
| Codec.FileSizeStride | Image.cpp:142 | the recorded file size is 54 plus height times the padded row length |
| Codec.FileSize | Image.cpp:142 | the size Export records: 54 header bytes, three bytes per pixel and each row's padding; FileSizeStride and EncodeLength show it is 54 + height*Stride and the length of the written stream |
| Codec.Le32 | Image.cpp:150-153 | a 32-bit field is written as four bytes |
| Codec.Int32At | Image.cpp:100-103 | the four bytes read back form a signed 32-bit value |
| Codec.Le32RoundTrip | Image.cpp:102-103 | a signed 32-bit value written as in Export is read back unchanged as in Read |
| Codec.Quantize | Image.cpp:227-229 | the byte written is c*255 truncated toward zero |
| Codec.Channel | Image.cpp:115-117 | a byte read becomes byte/255, in [0,1] |
| Codec.FileHeader | Image.cpp:144-164 | the file header is 14 bytes |
| Codec.InfoHeader | Image.cpp:166-218 | the information header is 40 bytes |
| Codec.Zeros | Image.cpp:137 | the padding written is that many zero bytes |
| Codec.ColorBytes | Image.cpp:231-233 | a pixel is stored as three bytes |
| Codec.RowBytes | Image.cpp:225-236 | a stored row is exactly Stride(width) bytes |
| Codec.PixelDataLength | Image.cpp:223-237 | the pixel data is height times the padded row length |
| Codec.PixelBytes | Image.cpp:225-235 | a row's pixels are written as three bytes each, left to right |
| Codec.PixelData | Image.cpp:223-237 | the pixel area Export writes, row 0 first, each row followed by its padding; PixelDataLength, PixelDataAt and PixelDataAppend state its length, the place of every byte and the loop order |
| Codec.EncodeLength | Image.cpp:142 | the written stream is exactly as long as the file size recorded in its header |
| Codec.Encode | Image.cpp:137-237 | the stream Export writes: file header, information header, pixel data; DecodeEncode proves Decode inverts it up to one quantisation, EncodeHeader and EncodeLength state its header fields and length |
| Codec.PixelOffsetInRange | Image.cpp:109-121 | every pixel's three bytes end by DataEnd, which lies within the recorded file size |
| Codec.PixelsInRange | Image.cpp:109-121 | the same, for all pixels at once |
| Codec.NextRowOffset | Image.cpp:120 | skipping the padding after a row's last pixel lands on the next row's first pixel |
| Codec.RowInRange | Image.cpp:111-119 | every pixel of one row ends by DataEnd |
| Codec.PixelOffset | Image.cpp:109-120 | where Read stands when it reads pixel (x, y): 54 + y*Stride + 3x; NextRowOffset shows the padding skip lands on the next row and PixelOffsetInRange that every pixel ends by DataEnd |
| Codec.ColorAt | Image.cpp:113-117 | the pixel read from three bytes in B, G, R order, each divided by 255, so every channel is in [0,1] |
| Codec.DataEnd | Image.cpp:107-120 | Read consumes the headers and then every byte up to the last pixel's third one, since the final `ignore` of padding may hit the end of the stream; this is at least 54 and at most the recorded file size |
| Codec.LastRowInFile | Image.cpp:142 | the last row's pixels end within the recorded file size |
| Codec.Decode | Image.cpp:84-121 | a stream is accepted exactly when it holds both headers, starts with "BM", declares a non-negative width and height, and reaches the last pixel's third byte (the last row's padding may be missing); the grid then has the declared size, channels in [0,1], and every pixel is the B, G, R bytes at its offset divided by 255 |
| Codec.DecodedGrid | Image.cpp:105-121 | given every byte up to the last pixel, the grid read has the given size, channels in [0,1], and every pixel is read from its offset |
| Codec.DecodedRow | Image.cpp:111-119 | row y has width pixels, each read from its offset |
| Codec.Requantized | Image.cpp:115-117 | every pixel goes through one write-and-read cycle of its channels |
| Codec.RequantizeError | Image.cpp:227-229 | one write-and-read cycle moves a channel by less than 1/255, and not at all on the 1/255 grid in [0,1] |
| Codec.PixelBytesAt | Image.cpp:225-233 | byte 3x+k of a row's pixel bytes is byte k of pixel x |
| Codec.PixelDataAt | Image.cpp:223-237 | byte y*stride+3x+k of the pixel data is byte k of pixel (x, y) |
| Codec.PrefixesEncodable | Image.cpp:223-237 | every prefix of writable rows is writable |
| Codec.PixelDataAppend | Image.cpp:223-237 | writing row y appends its bytes to the rows before it |
| Codec.PixelBytesAppend | Image.cpp:225-235 | writing pixel x appends its three bytes to the pixels before it |
| Codec.EncodableRowsOf | Image.cpp:223-237 | a grid whose every channel can be written has writable rows |
| Codec.ConcatAt | Image.cpp:220-237 | a byte of the second part of a concatenation sits after the first part |
| Codec.EncodePixel | Image.cpp:223-237 | pixel (c, r) is written as its B, G, R bytes at the offset Read takes it from |
| Codec.EncodeSize | Image.cpp:174-182 | the written width and height are read back from offsets 18 and 22 |
| Codec.DecodeEncode | Image.cpp:73-240 | reading what Export wrote gives the same width and height and every channel after one write-and-read cycle |
| Codec.DecodeEncodeExact | Image.cpp:73-240 | for channels that are multiples of 1/255 in [0,1], reading what Export wrote gives the identical grid |
| Codec.WhiteBitmapFields | Image.cpp:84-121 | the fixed 70-byte stream of a 2x2 white image carries the "BM" signature, width 2, height 2 and 255 in every channel byte |
| Codec.WhitePrefixFields | Image.cpp:88-103 | the first n bytes of that stream (n at least 54) carry the "BM" signature, width 2, height 2, and 255 in every channel byte they contain |
| Codec.DecodeWhiteBitmap | Image.cpp:84-121 | the first n bytes of that stream are accepted exactly when n >= 68, so also without the final row's two padding bytes, and decode to a 2x2 image whose every pixel is white |
| Codec.EncodeHeader | Image.cpp:144-218 | the header holds "BM", the file size (equal to the stream length), zero reserved fields, offset 54, size 40, width, height, one plane, 24 bits per pixel, and zeros from compression on |
| Images.Image.constructor | Image.cpp:20-23 | the default image is 0 by 0 |
| Images.Image.Sized | Image.cpp:25-29 | a w by h image of default-constructed (black) pixels |
| Images.Image.GetColor | Image.cpp:61-64 | reads pixel (col, row) from array position row*width+col, which Grids.Index proves lies inside the array; Contents is the grid of these reads |
| Images.Image.SetColor | Image.cpp:66-71 | pixel (col, row) takes the colour and every other pixel is unchanged |
| Images.Image.Read | Image.cpp:73-125 | Read succeeds exactly when Decode accepts the bytes, and the image then holds the decoded grid in a fresh array; on failure nothing changes |
| Images.Image.ReadPixels | Image.cpp:105-121 | a fresh w by h array whose pixel (c, r) is the B, G, R bytes at its offset divided by 255 |
| Images.Image.Export | Image.cpp:127-240 | the bytes written are exactly Encode of the image's grid |
| Images.Image.ExportRow | Image.cpp:225-236 | the bytes written for row y are its pixels' B, G, R bytes followed by the zero padding |
| Images.Image.FlipV | Image.cpp:242-255 | the new grid is FlippedV of the old one |
| Images.Image.FlipColumn | Image.cpp:247-253 | one outer-loop pass flips column col and leaves the other columns as they were |
| Images.Image.FlipH | Image.cpp:257-270 | the new grid is FlippedH of the old one |
| Images.Image.SwapColumns | Image.cpp:262-268 | one outer-loop pass swaps column col with its mirror column and leaves the other columns as they were |
| Images.Image.InvertColors | Image.cpp:272-286 | the new grid is Inverted of the old one |
| Images.Image.ColorToGray | Image.cpp:345-356 | the new grid is Grayed of the old one |
| Images.Image.StretchH | Image.cpp:390-419 | the new grid is StretchedH of the old one, so a fraction outside [0,1] changes nothing |
| Images.Image.StretchRight | Image.cpp:393-404 | the left-to-right branch produces StretchedH(old, f, true) |
| Images.Image.StretchLeft | Image.cpp:405-416 | the right-to-left branch produces StretchedH(old, f, false) |
| Images.Image.StretchV | Image.cpp:421-450 | the new grid is StretchedV of the old one, so a fraction outside [0,1] changes nothing |
| Images.Image.StretchUp | Image.cpp:424-435 | the upward branch produces StretchedV(old, f, true) |
| Images.Image.StretchDown | Image.cpp:436-447 | the downward branch produces StretchedV(old, f, false) |
| Images.Image.CreateGaussianKernel | Image.cpp:288-311 | the returned size-by-size array is fresh and holds every weight divided by the weights' positive total, which is the normalised kernel |
| Images.FillKernel | Image.cpp:294-303 | the first loops copy every weight into a fresh array and leave their total in sum |
| Images.DivideKernel | Image.cpp:305-308 | every array entry is divided in place by the sum |
| Images.Image.GaussianBlur | Image.cpp:314-343 | the new grid is Blurred of the old one with the normalised kernel |
| Images.BlurredColor | Image.cpp:322-334 | the colour computed for (x, y) is BlurAt of the snapshot: the weighted sum over the clamped neighbourhood |
| Images.AddKernelRow | Image.cpp:325-333 | one pass of the loop over j adds kernel row i's weighted samples to the running sum |
| Images.Image.LaplacianEdgeDetection | Image.cpp:359-388 | the new grid is EdgeDetected of the gray of the old one |
| Images.Image.EdgePass | Image.cpp:368-387 | after the gray conversion, the new grid is EdgeDetected of the grid before this pass |
| Images.Image.EdgeColumn | Image.cpp:371-386 | one outer-loop pass writes the edge values of column x's interior pixels and keeps the rest |
| Images.EdgeStrength | Image.cpp:372-380 | the kernel sum computed for an interior pixel is four times the centre minus its four neighbours on the red channel of the snapshot |
| Images.AddLaplaceRow | Image.cpp:375-379 | one pass of the loop over j adds kernel row i's weighted red channels to the running sum |

## Left out

- File I/O: `Read` takes the file's bytes and `Export` returns the bytes it would write. The "could not be opened" path and every console message are not modelled.
- Images.Image.Read: it also rejects three kinds of stream on which the code does something the model cannot represent or does not follow. A stream shorter than 54 bytes, or one that ends before the third byte of the last pixel, makes the code read bytes the stream never supplied (the arrays are left uninitialised), so there is nothing defined to model. A negative width or height is rejected because the model's sizes are naturals: in the code, two negative sizes, or a negative one with a zero, give a non-negative array size and loops that never run, so Read yields an image with negative dimensions and no pixels read; a negative size with a positive one makes `new[]` throw `std::bad_array_new_length`. A stream that stops after the last pixel, without the last row's padding, is accepted as the code accepts it. The unused `fileSize` field (Image.cpp:100) is not read.
- Images.Image.Read: the old pixel array is never freed, as in the code. The model replaces it with a fresh array and says nothing about the old one.
- Channels are mathematical reals. Float rounding, the double luma constants, the float channels and float-to-int conversion of `width * f` are modelled exactly, not in binary floating point.
- `int` overflow of `width * height`, of `width * height * 3` and of the file size is not modelled; sizes are unbounded naturals. EncodeHeader and DecodeEncode require sizes that fit the 32-bit signed header fields.
- Codec.Quantize: it is defined only where the cast of `c * 255` to `unsigned char` is defined (truncation in 0..255). Export therefore requires every channel to be in that range.
- Images.Image.CreateGaussianKernel: `exp`, `M_PI` and `sigma` are not modelled. The caller supplies the positive Gaussian values as a `density` matrix. An even kernel size is excluded by the precondition, because the loops from -mid to mid then read past the kernel.
- Images.Image.StretchH and Images.Image.StretchV: the right-to-left (or downward) stretch with fraction exactly 1 on a non-empty image reads column `width` (or row `height`), which lies outside the image. The precondition `StretchDefined` excludes that call.
- GaussianBlur and LaplacianEdgeDetection copy the whole image (`Image temp = *this`). The model takes that copy as the sequence `colors[..]`. The copy constructor, copy assignment and destructor (Image.cpp:31-59) are not part of this model, and neither are the `delete[]` calls.
- Images.Image.GetColor has no contract of its own: it is the array read that every method's contract is stated with, and Grids.Index states that the position it reads lies inside the array.
- `main.cpp`, the command-line driver, is not part of this model.
- `Image.h` declares only `FlipV`, `FlipH`, `InvertColors`, `CreateGaussianKernel` and `GaussianBlur`. The model follows `Image.cpp`, which also defines `ColorToGray`, `LaplacianEdgeDetection`, `StretchH` and `StretchV` as members.
