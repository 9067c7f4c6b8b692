# image-to-ascii renderer, modelled in Dafny

This project models the core of a small Go command-line tool. The tool turns a
raster image into ASCII art. `convertToASCII` walks the image bounds row by row.
For each pixel it does four things:

- it reduces the 16-bit RGBA sample to 8-bit channels;
- it gives fully transparent pixels maximum brightness, and all other pixels
  the Rec. 709 luminosity `0.2126 R + 0.7152 G + 0.0722 B`;
- it divides that luminosity by 3.65 to get an index into a fixed ramp of 70
  glyphs, from `'$'` (densest) to `' '` (lightest);
- it prints the glyph.

A newline follows every row. `resizeImage` passes the image through unchanged
when both requested dimensions are -1. Otherwise it hands the image to a
resampling library.

Everything is in `ascii.dfy`, module `Ascii`:

- An image is a `datatype`. It holds a bounds rectangle, whose minimum need not
  be the origin, and a total function from a point to its 16-bit,
  alpha-premultiplied `Rgba` sample. This is the value `At(x, y).RGBA()`
  returns.
- The per-pixel steps are pure functions: `To8Bit`, `Luminosity`,
  `CharPosition` and `Glyph`. Lemmas about them prove the ramp bounds, the
  transparency rule, monotonicity, and the glyphs for black, white and grey.
- `ConvertToASCII` is a method with the source's nested `y`/`x` loops. It
  recomputes the same local variables and appends one character at a time to
  the output sequence, which stands for standard output. It is proved equal to
  the specification function `Render`, which is built row by row. `Render` is
  also proved equal to an independent positional layout, `ExpectedAt`: position
  `p` is in line `p / (W+1)` at column `p % (W+1)`.

Luminosity is exact integer arithmetic scaled by 10000, not float32. With
`S = 2126 r8 + 7152 g8 + 722 b8`, the source's `int(luminosity / 3.65)` is
`S / 36500`. A transparent pixel has `S = 2550000`, which gives index 69.

The loops run `for y := Min.Y; y < Max.Y` and `for x := Min.X; x < Max.X`. So
the model emits `max(0, Max.Y - Min.Y)` lines of `max(0, Max.X - Min.X)`
glyphs. When the rectangle is empty only in x, the code still prints one bare
newline per row. The model follows the code here.

## Model

| member | source | states |
|---|---|---|
| Ascii.To8Bit | ascii.go:95-96 | `c >> 8` of a 16-bit sample lies in 0..255 and is the 256-wide bucket holding the sample (`r*256 <= c < r*256 + 256`) |
| Ascii.Luminosity | ascii.go:100-105 | luminosity (×10000) is always within 0..255·10000; a pixel with alpha 0 gets the maximum 255 whatever its RGB |
| Ascii.CharPosition | ascii.go:100-108 | the ramp index is always in 0..69, inside the 70-glyph ramp, and is the floor of luminosity/3.65 (`k*Step <= L < (k+1)*Step`) |
| Ascii.Glyph | ascii.go:108-111 | the glyph printed for a pixel is never a newline, so newlines only come from row ends |
| Ascii.CharPositionMonotone | ascii.go:103-108 | if pixel p's luminosity is at least q's, p's index is at least q's |
| Ascii.ChannelsMonotone | ascii.go:95-108 | raising any channel of an opaque pixel never lowers its index |
| Ascii.TransparentIsBlank | ascii.go:100-108 | a pixel with alpha 0 maps to index 69, the space, and no pixel gets a higher index |
| Ascii.GreyLevel | ascii.go:96-108 | an opaque grey pixel with 8-bit level v has luminosity exactly v (weights sum to one) and index floor(20v/73) |
| Ascii.OpaqueBlackIsDollar | ascii.go:103-108 | opaque black maps to index 0, the first ramp glyph `'$'` (ramp at ascii.go:83) |
| Ascii.OpaqueWhiteIsBlank | ascii.go:103-108 | an opaque pixel whose channels are all at least 0xff00 (white) maps to index 69, the space |
| Ascii.IntervalMembers | ascii.go:91-92 | `Interval(lo, hi)` holds exactly the values v with lo <= v < hi that `for v := lo; v < hi; v++` visits |
| Ascii.IntervalSize | ascii.go:91-92 | when lo <= hi the loop visits exactly hi - lo values |
| Ascii.Span | ascii.go:91-92 | the trip count of `for v := lo; v < hi; v++` is the number of values it visits, and is zero when hi <= lo |
| Ascii.Rows | ascii.go:90-91 | the outer loop runs once per y with Min.Y <= y < Max.Y |
| Ascii.Cols | ascii.go:90-92 | the inner loop runs once per x with Min.X <= x < Max.X |
| Ascii.RowGlyphs | ascii.go:92-112 | the inner loop prints one glyph per column visited, W in all |
| Ascii.RenderRows | ascii.go:90-114 | the output of the first n rows ends with a newline whenever n > 0 |
| Ascii.Render | ascii.go:90-114 | the whole output is empty exactly when the outer loop does not run |
| Ascii.RenderRowsLength | ascii.go:90-114 | n rows of output take n·(W+1) characters |
| Ascii.RenderRowsAt | ascii.go:88-114 | every character of the first n rows is what the row-major layout puts there |
| Ascii.RenderLength | ascii.go:90-114 | the output has H·(W+1) characters, and is empty when there are no rows |
| Ascii.RenderAt | ascii.go:88-114 | each output position holds the layout's character: a newline in the last column, otherwise the glyph of its pixel |
| Ascii.RenderLayout | ascii.go:88-114 | the whole output equals the positional layout, position by position |
| Ascii.RenderGlyphAt | ascii.go:88-111 | column i of line j is the glyph of pixel (Min.X+i, Min.Y+j): y is the outer loop, so the output is not transposed |
| Ascii.RenderNewlineAt | ascii.go:91-114 | line j ends with a newline right after its W glyphs |
| Ascii.RenderLineCount | ascii.go:90-114 | n rows produce exactly n newlines, and the output ends with a newline when it is not empty |
| Ascii.ConvertToASCII | ascii.go:76-115 | the nested loops emit exactly `Render(img)`: H·(W+1) characters laid out row-major, with exactly H newlines |
| Ascii.ToUint | ascii.go:67 | Go's `uint(v)` for a 64-bit v: a value in 0..2^64-1, congruent to v mod 2^64, equal to v when v >= 0 |
| Ascii.ResizeImage | ascii.go:62-68 | width == -1 and height == -1 returns the input image unchanged; any other pair goes to the resampler after conversion to `uint` |

## Left out

- `main`, `commandLineArgs` and `errorCheck`: flag parsing, opening and decoding the file, format registration and process exit are I/O glue.
- `resize.Resize` with Lanczos3 is a foreign library that resamples in floating point. `ResizeImage` takes it as a function parameter. How it handles zero or huge dimensions is not modelled.
- `ToUint` assumes Go's `uint` is 64 bits wide, as on 64-bit platforms.
- `At(x, y).RGBA()` and the colour-model conversion behind it are not modelled. The image is given directly as 16-bit alpha-premultiplied samples. The code never un-premultiplies, despite its comment, and neither does the model.
- `Luminosity` uses exact integer arithmetic instead of float32. The two can differ only where `S` is an exact multiple of 36500, for example opaque greys 73, 146 and 219. There float32 rounding may give the index one lower than the model's.
- `fmt.Print` to standard output is modelled only as appending to the returned sequence. Buffering and write errors are not modelled.
