/*
 * A model of the image-to-ASCII renderer of ascii.go.
 *
 * An image is a rectangle of 16-bit, alpha-premultiplied RGBA samples. Each
 * pixel is reduced to 8-bit channels, given a Rec. 709 luminosity (or the
 * maximum when it is fully transparent), quantized into one of the 70 glyphs
 * of a fixed ramp, and emitted row by row, each row ended by a newline.
 *
 * Luminosity is kept in exact integer arithmetic, scaled by 10000: the weights
 * 0.2126, 0.7152, 0.0722 become 2126, 7152, 722, the transparent value 255
 * becomes 2550000, and the quantization step 3.65 becomes 36500.
 */
module Ascii {

  // ---------------------------------------------------------------------------
  // Data model
  // ---------------------------------------------------------------------------

  /** A colour sample as returned by RGBA(): a 16-bit value held in a uint32. */
  type uint16 = x: int | 0 <= x < 0x1_0000

  type int64 = x: int | -0x8000_0000_0000_0000 <= x < 0x8000_0000_0000_0000
  type uint64 = x: int | 0 <= x < 0x1_0000_0000_0000_0000

  /** Alpha-premultiplied red, green, blue and alpha of one pixel. */
  datatype Rgba = Rgba(r: uint16, g: uint16, b: uint16, a: uint16)

  datatype Point = Point(x: int, y: int)

  /** The points p with min.x <= p.x < max.x and min.y <= p.y < max.y. */
  datatype Rectangle = Rectangle(min: Point, max: Point)

  /** A read-only image: its bounds and the colour at each point. */
  datatype Image = Image(bounds: Rectangle, at: (int, int) -> Rgba)

  /**
   * The glyph ramp, from densest (index 0) to lightest (index 69, a space),
   * written in groups of ten.
   */
  const AsciiChars: string :=
    "$@B%8&WM#*" + "oahkbdpqwm" + "ZO0QLCJUYX" + "zcvunxrjft" +
    "/\\|()1{}[]" + "?-_+~<>i!l" + "I;:,\"^`'. "

  /** Luminosity given to a fully transparent pixel: 255, in units of 1/10000. */
  const TransparentLuminosity := 2550000

  /** The quantization step 3.65, in units of 1/10000. */
  const Step := 36500

  // ---------------------------------------------------------------------------
  // Per-pixel mapping
  // ---------------------------------------------------------------------------

  /** A 16-bit sample shifted right by 8: the 256-wide bucket it falls into. */
  function To8Bit(c: uint16): (r: int)
    ensures 0 <= r <= 255
    ensures r * 256 <= c < r * 256 + 256
  {
    c / 256
  }

  /**
   * Luminosity of a pixel in units of 1/10000: maximum brightness when the
   * pixel is fully transparent, otherwise the Rec. 709 weighting of its 8-bit
   * channels.
   */
  function Luminosity(p: Rgba): (s: int)
    ensures 0 <= s <= TransparentLuminosity
    ensures p.a == 0 ==> s == TransparentLuminosity
  {
    if p.a == 0 then TransparentLuminosity
    else 2126 * To8Bit(p.r) + 7152 * To8Bit(p.g) + 722 * To8Bit(p.b)
  }

  /** The index into the ramp: luminosity divided by 3.65, rounded down. */
  function CharPosition(p: Rgba): (k: int)
    ensures 0 <= k < |AsciiChars|
    ensures k * Step <= Luminosity(p) < (k + 1) * Step
  {
    Luminosity(p) / Step
  }

  /** The glyph a pixel is rendered as. */
  function Glyph(p: Rgba): (c: char)
    ensures c != '\n'
  {
    AsciiChars[CharPosition(p)]
  }

  /** A brighter pixel never gets a denser glyph than a darker one. */
  lemma {:induction false} CharPositionMonotone(p: Rgba, q: Rgba)
    requires Luminosity(q) <= Luminosity(p)
    ensures CharPosition(q) <= CharPosition(p)
  {
  }

  /** Raising any channel of an opaque pixel never makes its glyph denser. */
  lemma {:induction false} ChannelsMonotone(p: Rgba, q: Rgba)
    requires p.a != 0 && q.a != 0
    requires q.r <= p.r && q.g <= p.g && q.b <= p.b
    ensures CharPosition(q) <= CharPosition(p)
  {
    CharPositionMonotone(p, q);
  }

  /** A fully transparent pixel is a space, whatever its colour channels say. */
  lemma TransparentIsBlank(p: Rgba)
    requires p.a == 0
    ensures CharPosition(p) == |AsciiChars| - 1
    ensures forall q: Rgba :: CharPosition(q) <= CharPosition(p)
    ensures Glyph(p) == ' '
  {
  }

  /**
   * An opaque grey pixel, whose three 8-bit channels are all v, has
   * luminosity v (the weights sum to one) and index floor(v / 3.65).
   */
  lemma {:induction false} GreyLevel(p: Rgba, v: int)
    requires p.a != 0
    requires To8Bit(p.r) == v && To8Bit(p.g) == v && To8Bit(p.b) == v
    ensures Luminosity(p) == 10000 * v
    ensures CharPosition(p) == (20 * v) / 73
  {
    assert Luminosity(p) == 10000 * v;
    assert 10000 * v / Step == (20 * v) / 73 by {
      var k := (20 * v) / 73;
      assert k * 73 <= 20 * v < k * 73 + 73;
      assert k * Step <= 10000 * v < k * Step + Step;
    }
  }

  /** Opaque black is the densest glyph, '$'. */
  lemma OpaqueBlackIsDollar(a: uint16)
    requires a != 0
    ensures CharPosition(Rgba(0, 0, 0, a)) == 0
    ensures Glyph(Rgba(0, 0, 0, a)) == '$'
  {
  }

  /** Opaque white is the lightest glyph, a space. */
  lemma {:induction false} OpaqueWhiteIsBlank(p: Rgba)
    requires p.a != 0
    requires p.r >= 0xff00 && p.g >= 0xff00 && p.b >= 0xff00
    ensures CharPosition(p) == |AsciiChars| - 1
    ensures Glyph(p) == ' '
  {
    GreyLevel(p, 255);
  }

  // ---------------------------------------------------------------------------
  // Row-major rendering
  // ---------------------------------------------------------------------------

  /** The integers v with lo <= v < hi: the values a `for v := lo; v < hi; v++` visits. */
  function Interval(lo: int, hi: int): set<int>
    decreases hi - lo
  {
    if hi <= lo then {} else Interval(lo, hi - 1) + {hi - 1}
  }

  lemma {:induction false} IntervalMembers(lo: int, hi: int, v: int)
    ensures v in Interval(lo, hi) <==> lo <= v < hi
    decreases hi - lo
  {
    if lo < hi {
      IntervalMembers(lo, hi - 1, v);
    }
  }

  lemma {:induction false} IntervalSize(lo: int, hi: int)
    requires lo <= hi
    ensures |Interval(lo, hi)| == hi - lo
    decreases hi - lo
  {
    if lo < hi {
      IntervalSize(lo, hi - 1);
      IntervalMembers(lo, hi - 1, hi - 1);
    }
  }

  /** How many times `for v := lo; v < hi; v++` runs: once per value it visits. */
  function Span(lo: int, hi: int): (n: nat)
    ensures n == |Interval(lo, hi)|
  {
    if lo <= hi then
      IntervalSize(lo, hi);
      hi - lo
    else
      assert Interval(lo, hi) == {};
      0
  }

  /** Number of rows walked: one per y with Min.Y <= y < Max.Y. */
  function Rows(img: Image): (n: nat)
    ensures n == |Interval(img.bounds.min.y, img.bounds.max.y)|
  {
    Span(img.bounds.min.y, img.bounds.max.y)
  }

  /** Number of columns walked: one per x with Min.X <= x < Max.X. */
  function Cols(img: Image): (n: nat)
    ensures n == |Interval(img.bounds.min.x, img.bounds.max.x)|
  {
    Span(img.bounds.min.x, img.bounds.max.x)
  }

  /** The glyphs of row y, left to right, without the newline. */
  function RowGlyphs(img: Image, y: int): (line: seq<char>)
    ensures |line| == Cols(img)
  {
    seq(Cols(img), i => Glyph(img.at(img.bounds.min.x + i, y)))
  }

  lemma RowGlyphsPrefix(img: Image, y: int, k: nat)
    requires k < Cols(img)
    ensures RowGlyphs(img, y)[..k + 1]
         == RowGlyphs(img, y)[..k] + [Glyph(img.at(img.bounds.min.x + k, y))]
  {
  }

  /** The text of the first n rows, each followed by a newline. */
  function RenderRows(img: Image, n: nat): (text: seq<char>)
    ensures n > 0 ==> |text| > 0 && text[|text| - 1] == '\n'
  {
    if n == 0 then []
    else RenderRows(img, n - 1) + RowGlyphs(img, img.bounds.min.y + n - 1) + ['\n']
  }

  /** The whole rendering of an image. */
  function Render(img: Image): (text: seq<char>)
    ensures text == [] <==> Rows(img) == 0
  {
    RenderRows(img, Rows(img))
  }

  /**
   * Independent, positional description of the rendering: with lines of
   * Cols + 1 characters, position p is in line p / (Cols + 1) at column
   * p % (Cols + 1); the last column is the newline, any other column i of
   * line j is the glyph of pixel (Min.X + i, Min.Y + j).
   */
  function ExpectedAt(img: Image, p: nat): char
  {
    var w := Cols(img) + 1;
    var j, i := p / w, p % w;
    if i == Cols(img) then '\n'
    else Glyph(img.at(img.bounds.min.x + i, img.bounds.min.y + j))
  }

  lemma {:induction false} MultipleInOpenRange(d: int, w: int)
    requires 0 < w && -w < d * w < w
    ensures d == 0
  {
  }

  lemma {:induction false} RowMajorDivMod(j: int, i: int, w: int)
    requires 0 <= j && 0 <= i < w
    ensures (j * w + i) / w == j && (j * w + i) % w == i
  {
    var p := j * w + i;
    var q, r := p / w, p % w;
    assert p == q * w + r && 0 <= r < w;
    assert (q - j) * w == q * w - j * w;
    MultipleInOpenRange(q - j, w);
  }

  lemma {:induction false} RowFitsBelow(j: int, n: int, w: int)
    requires 0 <= j < n && 0 <= w
    ensures j * w + w <= n * w
    decreases n - j
  {
    assert (j + 1) * w == j * w + w;
    if j + 1 < n {
      RowFitsBelow(j + 1, n, w);
    }
  }

  lemma {:induction false} ExpectedAtRowCol(img: Image, j: nat, i: nat)
    requires i <= Cols(img)
    ensures ExpectedAt(img, j * (Cols(img) + 1) + i)
         == if i == Cols(img) then '\n'
            else Glyph(img.at(img.bounds.min.x + i, img.bounds.min.y + j))
  {
    RowMajorDivMod(j, i, Cols(img) + 1);
  }

  lemma {:induction false} RenderRowsLength(img: Image, n: nat)
    ensures |RenderRows(img, n)| == n * (Cols(img) + 1)
  {
    if n > 0 {
      RenderRowsLength(img, n - 1);
    }
  }

  lemma {:induction false} RenderRowsAt(img: Image, n: nat, p: nat)
    requires p < n * (Cols(img) + 1)
    ensures |RenderRows(img, n)| == n * (Cols(img) + 1)
    ensures RenderRows(img, n)[p] == ExpectedAt(img, p)
  {
    RenderRowsLength(img, n);
    var w := Cols(img) + 1;
    var prefix := RenderRows(img, n - 1);
    RenderRowsLength(img, n - 1);
    if p < (n - 1) * w {
      RenderRowsAt(img, n - 1, p);
    } else {
      var i := p - (n - 1) * w;
      RowMajorDivMod(n - 1, i, w);
      var y := img.bounds.min.y + n - 1;
      assert RenderRows(img, n) == prefix + (RowGlyphs(img, y) + ['\n']);
      assert RenderRows(img, n)[p] == (RowGlyphs(img, y) + ['\n'])[i];
    }
  }

  /** The rendering is Rows lines of Cols glyphs and a newline each. */
  lemma {:induction false} RenderLength(img: Image)
    ensures |Render(img)| == Rows(img) * (Cols(img) + 1)
    ensures Rows(img) == 0 ==> Render(img) == []
  {
    RenderRowsLength(img, Rows(img));
  }

  /** Every position of the rendering holds what the positional layout says. */
  lemma {:induction false} RenderAt(img: Image, p: nat)
    requires p < |Render(img)|
    ensures Render(img)[p] == ExpectedAt(img, p)
  {
    RenderRowsLength(img, Rows(img));
    RenderRowsAt(img, Rows(img), p);
  }

  /** The rendering, as a whole, is the positional layout. */
  lemma {:induction false} RenderLayout(img: Image)
    ensures |Render(img)| == Rows(img) * (Cols(img) + 1)
    ensures forall p :: 0 <= p < |Render(img)| ==> Render(img)[p] == ExpectedAt(img, p)
  {
    RenderLength(img);
    forall p | 0 <= p < |Render(img)|
      ensures Render(img)[p] == ExpectedAt(img, p)
    {
      RenderAt(img, p);
    }
  }

  /**
   * Row-major order, not transposed: column i of line j is the glyph of pixel
   * (Min.X + i, Min.Y + j).
   */
  lemma {:induction false} RenderGlyphAt(img: Image, j: nat, i: nat)
    requires j < Rows(img) && i < Cols(img)
    ensures j * (Cols(img) + 1) + i < |Render(img)|
    ensures Render(img)[j * (Cols(img) + 1) + i]
         == Glyph(img.at(img.bounds.min.x + i, img.bounds.min.y + j))
  {
    var w := Cols(img) + 1;
    RenderLength(img);
    RowFitsBelow(j, Rows(img), w);
    ExpectedAtRowCol(img, j, i);
    RenderAt(img, j * w + i);
  }

  /** Line j, for every row j, ends with a newline after its Cols glyphs. */
  lemma {:induction false} RenderNewlineAt(img: Image, j: nat)
    requires j < Rows(img)
    ensures j * (Cols(img) + 1) + Cols(img) < |Render(img)|
    ensures Render(img)[j * (Cols(img) + 1) + Cols(img)] == '\n'
  {
    var w := Cols(img) + 1;
    RenderLength(img);
    RowFitsBelow(j, Rows(img), w);
    ExpectedAtRowCol(img, j, Cols(img));
    RenderAt(img, j * w + Cols(img));
  }

  /** Number of newline characters in s. */
  function Newlines(s: seq<char>): nat
  {
    if s == [] then 0
    else Newlines(s[..|s| - 1]) + (if s[|s| - 1] == '\n' then 1 else 0)
  }

  lemma {:induction false} NewlinesAppend(s: seq<char>, t: seq<char>)
    ensures Newlines(s + t) == Newlines(s) + Newlines(t)
  {
    if t != [] {
      assert (s + t)[..|s + t| - 1] == s + t[..|t| - 1];
      NewlinesAppend(s, t[..|t| - 1]);
    } else {
      assert s + t == s;
    }
  }

  /** Appending a newline-free line and its newline adds exactly one newline. */
  lemma {:induction false} NewlinesOfLine(prefix: seq<char>, line: seq<char>)
    requires Newlines(line) == 0
    ensures Newlines(prefix + line + ['\n']) == Newlines(prefix) + 1
  {
    NewlinesAppend(prefix, line);
    NewlinesAppend(prefix + line, ['\n']);
    assert ['\n'][..0] == [];
  }

  lemma {:induction false} NoNewlinesInRow(img: Image, y: int, k: nat)
    requires k <= Cols(img)
    ensures Newlines(RowGlyphs(img, y)[..k]) == 0
  {
    if k > 0 {
      var row := RowGlyphs(img, y);
      assert row[..k][..k - 1] == row[..k - 1];
      assert row[..k][k - 1] == Glyph(img.at(img.bounds.min.x + k - 1, y));
      NoNewlinesInRow(img, y, k - 1);
    }
  }

  /**
   * Exactly Rows newline-terminated lines: the rendering holds Rows newlines,
   * and ends with one unless it is empty.
   */
  lemma {:induction false} RenderLineCount(img: Image, n: nat)
    ensures Newlines(RenderRows(img, n)) == n
    ensures n > 0 ==> RenderRows(img, n)[|RenderRows(img, n)| - 1] == '\n'
  {
    if n > 0 {
      var prefix, row := RenderRows(img, n - 1), RowGlyphs(img, img.bounds.min.y + n - 1);
      assert RenderRows(img, n) == prefix + row + ['\n'];
      RenderLineCount(img, n - 1);
      NoNewlinesInRow(img, img.bounds.min.y + n - 1, Cols(img));
      assert row[..Cols(img)] == row;
      NewlinesOfLine(prefix, row);
    }
  }

  // ---------------------------------------------------------------------------
  // convertToASCII
  // ---------------------------------------------------------------------------

  /**
   * Walks the image bounds with y as the outer loop and x as the inner one,
   * appending each pixel's glyph and a newline after every row. What the
   * source prints to standard output is the returned sequence.
   */
  method ConvertToASCII(img: Image) returns (out: seq<char>)
    ensures out == Render(img)
    ensures |out| == Rows(img) * (Cols(img) + 1)
    ensures forall p :: 0 <= p < |out| ==> out[p] == ExpectedAt(img, p)
    ensures Newlines(out) == Rows(img)
  {
    out := [];
    var width, height := img.bounds.max.x, img.bounds.max.y;
    var y := img.bounds.min.y;
    while y < height
      invariant img.bounds.min.y <= y <= img.bounds.min.y + Rows(img)
      invariant out == RenderRows(img, y - img.bounds.min.y)
    {
      var x := img.bounds.min.x;
      while x < width
        invariant img.bounds.min.x <= x <= img.bounds.min.x + Cols(img)
        invariant out == RenderRows(img, y - img.bounds.min.y)
                         + RowGlyphs(img, y)[..x - img.bounds.min.x]
      {
        var pixel := img.at(x, y);
        var red, green, blue, alpha := pixel.r, pixel.g, pixel.b, pixel.a;
        var red8bit: int, green8bit: int, blue8bit: int := red / 256, green / 256, blue / 256;
        var luminosity: int;
        if alpha == 0 {
          luminosity := TransparentLuminosity;
        } else {
          luminosity := 2126 * red8bit + 7152 * green8bit + 722 * blue8bit;
        }
        assert luminosity == Luminosity(pixel);
        var charPosition := luminosity / Step;
        RowGlyphsPrefix(img, y, x - img.bounds.min.x);
        out := out + [AsciiChars[charPosition]];
        x := x + 1;
      }
      assert RowGlyphs(img, y)[..x - img.bounds.min.x] == RowGlyphs(img, y);
      out := out + ['\n'];
      y := y + 1;
    }
    assert out == Render(img);
    RenderLayout(img);
    RenderLineCount(img, Rows(img));
  }

  // ---------------------------------------------------------------------------
  // resizeImage
  // ---------------------------------------------------------------------------

  /** Go's uint(v) for a 64-bit signed v: two's-complement reinterpretation. */
  function ToUint(v: int64): (u: uint64)
    ensures (u - v) % 0x1_0000_0000_0000_0000 == 0
    ensures 0 <= v ==> u == v
  {
    if v < 0 then v + 0x1_0000_0000_0000_0000 else v
  }

  /**
   * Passes the image through untouched when both dimensions are -1; any
   * other request, zero and negative values included, goes to the resampler.
   */
  function ResizeImage(img: Image, width: int64, height: int64,
                       resize: (uint64, uint64, Image) -> Image): (r: Image)
    ensures width == -1 && height == -1 ==> r == img
    ensures !(width == -1 && height == -1) ==> r == resize(ToUint(width), ToUint(height), img)
  {
    if width == -1 && height == -1 then img
    else resize(ToUint(width), ToUint(height), img)
  }
}
