/** The grid walk that turns the RGBA raster of the traced image into text:
    one text row every lineHeight pixels, and along each row one glyph per
    cell, the cell's width being the glyph's advance plus the letter spacing,
    at least one pixel. Each cell samples the pixel at its top-left corner,
    picks the glyph whose rank in the density table matches the luminance,
    and with dithering on passes the quantisation error on to later pixels. */
module Compositor {
  import opened Numeric
  import opened Density
  import opened Charset
  import opened Dither

  /** The geometry and settings of one run: the image's natural size, the
      text layer's line height and letter spacing, and the dithering mode. */
  datatype Layout = Layout(width: nat, height: nat, lineHeight: nat, letterSpacing: real, mode: DitherMode)

  /** What a pass over the raster produces, together with the raster as the
      pass leaves it (dithering writes into it). */
  datatype Pass<T> = Pass(out: T, raster: seq<byte>)

  /** What the walk needs: a positive line height, a raster of exactly
      width * height RGBA pixels, and a non-empty glyph table. */
  predicate Fits(L: Layout, s: seq<byte>, table: seq<Glyph>) {
    L.lineHeight >= 1 && |s| == 4 * L.width * L.height && |table| >= 1
  }

  /** Rec. 709 luma of an RGB triple, the weighting used for every pixel. */
  function Luminance(r: byte, g: byte, b: byte): (gray: real)
    ensures 0.0 <= gray <= 255.0
    ensures r == g == b ==> gray == r as real
  {
    0.2126 * r as real + 0.7152 * g as real + 0.0722 * b as real
  }

  /** The rank in a table of n glyphs chosen for a luminance: gray / 255 scaled
      to [0, n - 1], rounded by Math.round and clamped into the table. */
  function GlyphIndex(gray: real, n: nat): (k: nat)
    requires n >= 1
    ensures k < n
  {
    MaxInt(0, MinInt(n - 1, JsRound(Scaled(gray / 255.0, n - 1))))
  }

  /** q * k, written as k additions of q (ScaledIsProduct) so that unfolding
      it never puts a product of two unknowns before the solver. */
  function Scaled(q: real, k: nat): real {
    if k == 0 then 0.0 else Scaled(q, k - 1) + q
  }

  lemma {:induction false} ScaledIsProduct(q: real, k: nat)
    ensures Scaled(q, k) == q * k as real
  {
    if k > 0 {
      ScaledIsProduct(q, k - 1);
      assert q * k as real == q * (k - 1) as real + q;
    }
  }

  /** The characters a glyph table can put into the text. */
  function TableChars(table: seq<Glyph>): set<char> {
    set g | g in table :: g.ch
  }

  /** One cell at column xInt of the row starting at pixel row yInt: the glyph
      picked for the pixel there, and the raster after its diffusion step. */
  function Cell(s: seq<byte>, L: Layout, table: seq<Glyph>, xInt: nat, yInt: nat): (c: Pass<Glyph>)
    requires Fits(L, s, table) && xInt < L.width && yInt < L.height
    ensures c.out in table && |c.raster| == |s|
  {
    PixelInRaster(L.width, L.height, xInt, yInt);
    var idx := PixelIndex(L.width, xInt, yInt);
    var gray := Luminance(s[idx], s[idx + 1], s[idx + 2]);
    var g := table[GlyphIndex(gray, |table|)];
    if L.mode == NoDither then Pass(g, s)
    else
      var quantError := gray - Reconstruct(table, g);
      Pass(g, DiffuseSpec(s, L.width, xInt, yInt, L.lineHeight, quantError, Kernel(L.mode)))
  }

  /** How many more cells can start at or after x on a row of the given width. */
  function CellsLeft(width: nat, x: real): nat {
    if x < width as real then Ceil(width as real - x) else 0
  }

  /** The width of a cell holding c: the glyph's advance plus the letter
      spacing, never less than one pixel. */
  function Step(L: Layout, advance: char -> real, c: char): (w: real)
    ensures w >= 1.0
  {
    MaxReal(1.0, advance(c) + L.letterSpacing)
  }

  /** The rest of the text row at pixel row yInt from horizontal position x. */
  function Row(s: seq<byte>, L: Layout, table: seq<Glyph>, advance: char -> real, yInt: nat, x: real): (r: Pass<string>)
    requires Fits(L, s, table) && yInt < L.height && x >= 0.0
    ensures |r.raster| == |s|
    decreases CellsLeft(L.width, x)
  {
    if x >= L.width as real then Pass("", s)
    else
      var c := Cell(s, L, table, x.Floor, yInt);
      var x' := x + Step(L, advance, c.out.ch);
      var rest := Row(c.raster, L, table, advance, yInt, x');
      Pass([c.out.ch] + rest.out, rest.raster)
  }

  /** The text rows from pixel row y down: a row is laid out only where all
      lineHeight pixels of it fit in the image. */
  function Grid(s: seq<byte>, L: Layout, table: seq<Glyph>, advance: char -> real, y: nat): (g: Pass<seq<string>>)
    requires Fits(L, s, table)
    ensures |g.raster| == |s|
    decreases L.height - y
  {
    if y >= L.height || y + L.lineHeight > L.height then Pass([], s)
    else
      var r := Row(s, L, table, advance, y, 0.0);
      var rest := Grid(r.raster, L, table, advance, y + L.lineHeight);
      Pass([r.out] + rest.out, rest.raster)
  }

  /** The text of the layer: every row followed by a line break. */
  function Text(rows: seq<string>): (t: string)
  {
    if rows == [] then "" else rows[0] + "\n" + Text(rows[1..])
  }

  /** Splits a text into its newline-terminated lines; a trailing piece
      without a line break is a last line. */
  function Lines(t: string): seq<string>
    decreases |t|
  {
    if t == [] then []
    else
      var k := LineEnd(t, 0);
      if k == |t| then [t] else [t[..k]] + Lines(t[k + 1..])
  }

  /** The position of the first line break in t at or after i, or |t|. */
  function LineEnd(t: string, i: nat): (k: nat)
    requires i <= |t|
    ensures i <= k <= |t| && (k < |t| ==> t[k] == '\n')
    ensures forall j :: i <= j < k ==> t[j] != '\n'
    decreases |t| - i
  {
    if i == |t| || t[i] == '\n' then i else LineEnd(t, i + 1)
  }

  // ---------------------------------------------------------------------------
  // Glyph choice.

  /** A luminance in [0, 255] is not clamped: the rank is the nearest one to
      gray / 255 * (n - 1), halves rounded up. */
  lemma GlyphIndexNearest(gray: real, n: nat)
    requires n >= 1 && 0.0 <= gray <= 255.0
    ensures var t := gray / 255.0 * (n - 1) as real;
              GlyphIndex(gray, n) == JsRound(t) &&
              t - 0.5 < GlyphIndex(gray, n) as real <= t + 0.5
  {
    ScaleBelow(gray / 255.0, n - 1);
    ScaledIsProduct(gray / 255.0, n - 1);
  }

  /** Scaling k by a factor in [0, 1] stays in [0, k]. */
  lemma {:induction false} ScaleBelow(q: real, k: nat)
    requires 0.0 <= q <= 1.0
    ensures 0.0 <= Scaled(q, k) <= k as real
  {
    if k > 0 {
      ScaleBelow(q, k - 1);
    }
  }

  lemma {:induction false} ScaleMonotone(a: real, b: real, k: nat)
    requires a <= b
    ensures Scaled(a, k) <= Scaled(b, k)
  {
    if k > 0 {
      ScaleMonotone(a, b, k - 1);
    }
  }

  /** Black picks the first (least dense) glyph, white the last. */
  lemma GlyphIndexEnds(n: nat)
    requires n >= 1
    ensures GlyphIndex(0.0, n) == 0
    ensures GlyphIndex(255.0, n) == n - 1
  {
    ScaledIsProduct(0.0, n - 1);
    ScaledIsProduct(1.0, n - 1);
  }

  /** A brighter pixel never picks an earlier glyph. */
  lemma GlyphIndexMonotone(g1: real, g2: real, n: nat)
    requires n >= 1 && g1 <= g2
    ensures GlyphIndex(g1, n) <= GlyphIndex(g2, n)
  {
    ScaleMonotone(g1 / 255.0, g2 / 255.0, n - 1);
  }

  /** A table of one glyph always picks it. */
  lemma GlyphIndexSingle(gray: real)
    ensures GlyphIndex(gray, 1) == 0
  {
  }

  // ---------------------------------------------------------------------------
  // The shape of the text.

  /** The text holds one row per whole line height that fits in the image:
      k rows where k * lineHeight <= height - y < (k + 1) * lineHeight. */
  lemma {:induction false} GridRowCount(s: seq<byte>, L: Layout, table: seq<Glyph>, advance: char -> real, y: nat)
    requires Fits(L, s, table) && y <= L.height
    ensures var k := |Grid(s, L, table, advance, y).out|;
              k * L.lineHeight <= L.height - y < (k + 1) * L.lineHeight
    decreases L.height - y
  {
    var lh := L.lineHeight;
    if y + lh <= L.height {
      var r := Row(s, L, table, advance, y, 0.0);
      GridRowCount(r.raster, L, table, advance, y + lh);
      var k := |Grid(r.raster, L, table, advance, y + lh).out|;
      assert (k + 1) * lh == k * lh + lh && (k + 2) * lh == (k + 1) * lh + lh;
    }
  }

  /** The row count is height / lineHeight. */
  lemma RowCountIsQuotient(s: seq<byte>, L: Layout, table: seq<Glyph>, advance: char -> real)
    requires Fits(L, s, table)
    ensures |Grid(s, L, table, advance, 0).out| == L.height / L.lineHeight
  {
    GridRowCount(s, L, table, advance, 0);
    QuotientUnique(L.height, L.lineHeight, |Grid(s, L, table, advance, 0).out|);
  }

  /** A row starting at x has at most CellsLeft(width, x) cells. */
  lemma {:induction false} RowLength(s: seq<byte>, L: Layout, table: seq<Glyph>, advance: char -> real, yInt: nat, x: real)
    requires Fits(L, s, table) && yInt < L.height && x >= 0.0
    ensures |Row(s, L, table, advance, yInt, x).out| <= CellsLeft(L.width, x)
    decreases CellsLeft(L.width, x)
  {
    if x < L.width as real {
      var c := Cell(s, L, table, x.Floor, yInt);
      var x' := x + Step(L, advance, c.out.ch);
      RowLength(c.raster, L, table, advance, yInt, x');
      if x' < L.width as real {
        assert Ceil(L.width as real - x') <= Ceil(L.width as real - x) - 1;
      }
    }
  }

  /** When every glyph's cell is exactly one pixel wide, a row starting at
      column k has exactly width - k cells. */
  lemma {:induction false} RowLengthUnitSteps(s: seq<byte>, L: Layout, table: seq<Glyph>, advance: char -> real, yInt: nat, k: nat)
    requires Fits(L, s, table) && yInt < L.height && k <= L.width
    requires forall g :: g in table ==> advance(g.ch) + L.letterSpacing <= 1.0
    ensures |Row(s, L, table, advance, yInt, k as real).out| == L.width - k
    decreases L.width - k
  {
    if k < L.width {
      var c := Cell(s, L, table, k, yInt);
      assert (k as real).Floor == k;
      assert Step(L, advance, c.out.ch) == 1.0;
      RowLengthUnitSteps(c.raster, L, table, advance, yInt, k + 1);
    }
  }

  /** Every character of a row is a glyph of the table. */
  lemma {:induction false} RowChars(s: seq<byte>, L: Layout, table: seq<Glyph>, advance: char -> real, yInt: nat, x: real)
    requires Fits(L, s, table) && yInt < L.height && x >= 0.0
    ensures forall i :: 0 <= i < |Row(s, L, table, advance, yInt, x).out| ==>
              Row(s, L, table, advance, yInt, x).out[i] in TableChars(table)
    decreases CellsLeft(L.width, x)
  {
    if x < L.width as real {
      var c := Cell(s, L, table, x.Floor, yInt);
      var x' := x + Step(L, advance, c.out.ch);
      RowChars(c.raster, L, table, advance, yInt, x');
      assert c.out.ch in TableChars(table);
    }
  }

  /** Every row has at most width characters, all of them glyphs of the table. */
  lemma {:induction false} GridRows(s: seq<byte>, L: Layout, table: seq<Glyph>, advance: char -> real, y: nat)
    requires Fits(L, s, table)
    ensures forall i :: 0 <= i < |Grid(s, L, table, advance, y).out| ==>
              |Grid(s, L, table, advance, y).out[i]| <= L.width &&
              forall j :: 0 <= j < |Grid(s, L, table, advance, y).out[i]| ==>
                Grid(s, L, table, advance, y).out[i][j] in TableChars(table)
    decreases L.height - y
  {
    if !(y >= L.height || y + L.lineHeight > L.height) {
      var r := Row(s, L, table, advance, y, 0.0);
      RowLength(s, L, table, advance, y, 0.0);
      RowChars(s, L, table, advance, y, 0.0);
      assert CellsLeft(L.width, 0.0) <= L.width;
      GridRows(r.raster, L, table, advance, y + L.lineHeight);
    }
  }

  lemma {:induction false} TextAppend(a: seq<string>, b: seq<string>)
    ensures Text(a + b) == Text(a) + Text(b)
  {
    if a == [] {
      assert a + b == b;
    } else {
      assert (a + b)[0] == a[0] && (a + b)[1..] == a[1..] + b;
      TextAppend(a[1..], b);
      assert Text(a + b) == a[0] + "\n" + Text(a[1..] + b);
    }
  }

  /** Where no row holds a line break, splitting the text at its line breaks
      gives back the rows. */
  lemma {:induction false} LinesOfText(rows: seq<string>)
    requires forall i :: 0 <= i < |rows| ==> '\n' !in rows[i]
    ensures Lines(Text(rows)) == rows
  {
    if rows != [] {
      var t := Text(rows);
      var r := rows[0];
      assert t == r + ("\n" + Text(rows[1..]));
      LineEndOfRow(r, "\n" + Text(rows[1..]));
      assert t[..|r|] == r;
      assert t[|r| + 1..] == Text(rows[1..]);
      assert t != [] && LineEnd(t, 0) == |r| < |t|;
      assert Lines(t) == [r] + Lines(Text(rows[1..]));
      LinesOfText(rows[1..]);
    }
  }

  /** The first line break after a row without one is the one right after it. */
  lemma LineEndOfRow(r: string, rest: string)
    requires '\n' !in r && rest != [] && rest[0] == '\n'
    ensures LineEnd(r + rest, 0) == |r|
  {
    assert (r + rest)[|r|] == '\n';
    assert forall j :: 0 <= j < |r| ==> (r + rest)[j] == r[j];
  }

  // ---------------------------------------------------------------------------
  // The raster.

  /** Without dithering the walk leaves the raster as it found it. */
  lemma {:induction false} RowNoDitherKeepsRaster(s: seq<byte>, L: Layout, table: seq<Glyph>, advance: char -> real, yInt: nat, x: real)
    requires Fits(L, s, table) && yInt < L.height && x >= 0.0 && L.mode == NoDither
    ensures Row(s, L, table, advance, yInt, x).raster == s
    decreases CellsLeft(L.width, x)
  {
    if x < L.width as real {
      var c := Cell(s, L, table, x.Floor, yInt);
      RowNoDitherKeepsRaster(c.raster, L, table, advance, yInt, x + Step(L, advance, c.out.ch));
    }
  }

  lemma {:induction false} GridNoDitherKeepsRaster(s: seq<byte>, L: Layout, table: seq<Glyph>, advance: char -> real, y: nat)
    requires Fits(L, s, table) && L.mode == NoDither
    ensures Grid(s, L, table, advance, y).raster == s
    decreases L.height - y
  {
    if !(y >= L.height || y + L.lineHeight > L.height) {
      RowNoDitherKeepsRaster(s, L, table, advance, y, 0.0);
      GridNoDitherKeepsRaster(s, L, table, advance, y + L.lineHeight);
    }
  }

  /** The alpha bytes of the raster survive the walk. */
  predicate SameAlpha(a: seq<byte>, b: seq<byte>) {
    |a| == |b| && forall i :: 0 <= i < |a| && i % 4 == 3 ==> a[i] == b[i]
  }

  lemma CellKeepsAlpha(s: seq<byte>, L: Layout, table: seq<Glyph>, xInt: nat, yInt: nat)
    requires Fits(L, s, table) && xInt < L.width && yInt < L.height
    ensures SameAlpha(Cell(s, L, table, xInt, yInt).raster, s)
  {
    if L.mode != NoDither {
      PixelInRaster(L.width, L.height, xInt, yInt);
      var idx := PixelIndex(L.width, xInt, yInt);
      var gray := Luminance(s[idx], s[idx + 1], s[idx + 2]);
      var g := table[GlyphIndex(gray, |table|)];
      KernelsForward(L.mode);
      DiffuseFrame(s, L.width, xInt, yInt, L.lineHeight, gray - Reconstruct(table, g), Kernel(L.mode));
    }
  }

  lemma {:induction false} RowKeepsAlpha(s: seq<byte>, L: Layout, table: seq<Glyph>, advance: char -> real, yInt: nat, x: real)
    requires Fits(L, s, table) && yInt < L.height && x >= 0.0
    ensures SameAlpha(Row(s, L, table, advance, yInt, x).raster, s)
    decreases CellsLeft(L.width, x)
  {
    if x < L.width as real {
      var c := Cell(s, L, table, x.Floor, yInt);
      CellKeepsAlpha(s, L, table, x.Floor, yInt);
      RowKeepsAlpha(c.raster, L, table, advance, yInt, x + Step(L, advance, c.out.ch));
    }
  }

  lemma {:induction false} GridKeepsAlpha(s: seq<byte>, L: Layout, table: seq<Glyph>, advance: char -> real, y: nat)
    requires Fits(L, s, table)
    ensures SameAlpha(Grid(s, L, table, advance, y).raster, s)
    decreases L.height - y
  {
    if !(y >= L.height || y + L.lineHeight > L.height) {
      var r := Row(s, L, table, advance, y, 0.0);
      RowKeepsAlpha(s, L, table, advance, y, 0.0);
      GridKeepsAlpha(r.raster, L, table, advance, y + L.lineHeight);
    }
  }

  /** A black image without dithering becomes rows of the least dense glyph. */
  lemma {:induction false} RowOfBlack(s: seq<byte>, L: Layout, table: seq<Glyph>, advance: char -> real, yInt: nat, x: real)
    requires Fits(L, s, table) && yInt < L.height && x >= 0.0 && L.mode == NoDither
    requires forall i :: 0 <= i < |s| && i % 4 != 3 ==> s[i] == 0
    ensures forall j :: 0 <= j < |Row(s, L, table, advance, yInt, x).out| ==>
              Row(s, L, table, advance, yInt, x).out[j] == table[0].ch
    decreases CellsLeft(L.width, x)
  {
    if x < L.width as real {
      var xInt := x.Floor;
      PixelInRaster(L.width, L.height, xInt, yInt);
      var idx := PixelIndex(L.width, xInt, yInt);
      assert idx % 4 == 0;
      assert Luminance(s[idx], s[idx + 1], s[idx + 2]) == 0.0;
      GlyphIndexEnds(|table|);
      var c := Cell(s, L, table, xInt, yInt);
      RowOfBlack(s, L, table, advance, yInt, x + Step(L, advance, c.out.ch));
    }
  }

  // ---------------------------------------------------------------------------
  // The walk as the source writes it.

  /** The grid walk of generateAscii over the raster data: the rows in order
      of increasing y, the cells of a row left to right, each read after the
      diffusion of all earlier cells. */
  method GenerateAscii(data: array<byte>, L: Layout, table: seq<Glyph>, advance: char -> real) returns (result: string)
    requires Fits(L, data[..], table)
    modifies data
    ensures result == Text(Grid(old(data[..]), L, table, advance, 0).out)
    ensures data[..] == Grid(old(data[..]), L, table, advance, 0).raster
  {
    ghost var G0 := Grid(data[..], L, table, advance, 0);
    ghost var done: seq<string> := [];
    result := "";
    var y: nat := 0;
    while y < L.height
      invariant Fits(L, data[..], table)
      invariant done + Grid(data[..], L, table, advance, y).out == G0.out
      invariant Grid(data[..], L, table, advance, y).raster == G0.raster
      invariant result == Text(done)
      decreases L.height - y
    {
      if y + L.lineHeight > L.height {
        break;
      }
      ghost var s := data[..];
      GridStep(s, L, table, advance, y);
      var line := WalkRow(data, L, table, advance, y);
      ghost var rest := Grid(data[..], L, table, advance, y + L.lineHeight);
      assert done + [line] + rest.out == done + ([line] + rest.out);
      assert Text([line]) == line + "\n" + Text([]);
      TextAppend(done, [line]);
      done := done + [line];
      result := result + line + "\n";
      y := y + L.lineHeight;
    }
    assert done == G0.out;
  }

  /** The inner loop of generateAscii: the cells of the text row at pixel
      row y, left to right, from currentX = 0 while currentX < width. */
  method WalkRow(data: array<byte>, L: Layout, table: seq<Glyph>, advance: char -> real, y: nat) returns (line: string)
    requires Fits(L, data[..], table) && y < L.height
    modifies data
    ensures line == Row(old(data[..]), L, table, advance, y, 0.0).out
    ensures data[..] == Row(old(data[..]), L, table, advance, y, 0.0).raster
  {
    ghost var R0 := Row(data[..], L, table, advance, y, 0.0);
    ghost var s := data[..];
    line := "";
    var currentX: real := 0.0;
    while currentX < L.width as real
      invariant s == data[..] && currentX >= 0.0 && Fits(L, s, table)
      invariant RowSplit(s, L, table, advance, y, currentX, line, R0)
      decreases CellsLeft(L.width, currentX)
    {
      var ch := CellStep(data, L, table, currentX.Floor, y);
      var step := Step(L, advance, ch);
      ghost var s0, line0, x0 := s, line, currentX;
      s := data[..];
      line := line + [ch];
      currentX := currentX + step;
      WalkRowStep(s0, L, table, advance, y, x0, line0, ch, s, currentX, line, R0);
      CellsLeftShrinks(L.width, x0, step);
    }
  }

  /** One iteration of the inner loop keeps its invariant: with ch and s'
      the glyph and raster of the cell at x, the text so far with ch plus the
      rest of the row from the next cell x' is still the whole row, on the
      same final raster. */
  lemma WalkRowStep(s: seq<byte>, L: Layout, table: seq<Glyph>, advance: char -> real, y: nat,
                    x: real, line: string, ch: char, s': seq<byte>, x': real, line': string, R0: Pass<string>)
    requires Fits(L, s, table) && y < L.height && 0.0 <= x < L.width as real
    requires ch == Cell(s, L, table, x.Floor, y).out.ch && s' == Cell(s, L, table, x.Floor, y).raster
    requires x' == x + Step(L, advance, ch) && line' == line + [ch]
    requires RowSplit(s, L, table, advance, y, x, line, R0)
    ensures Fits(L, s', table) && RowSplit(s', L, table, advance, y, x', line', R0)
  {
    var c := Cell(s, L, table, x.Floor, y);
    RowCell(s, L, table, advance, y, x);
    SplitStep(s, L, table, advance, y, x, line, c, s', x', line', R0);
  }

  /** The step of WalkRowStep for any cell c that heads the row at x. */
  lemma SplitStep(s: seq<byte>, L: Layout, table: seq<Glyph>, advance: char -> real, y: nat,
                  x: real, line: string, c: Pass<Glyph>, s': seq<byte>, x': real, line': string, R0: Pass<string>)
    requires Fits(L, s, table) && y < L.height && 0.0 <= x < L.width as real
    requires Fits(L, c.raster, table) && s' == c.raster
    requires x' == x + Step(L, advance, c.out.ch) && line' == line + [c.out.ch]
    requires RowHead(s, L, table, advance, y, x, c)
    requires RowSplit(s, L, table, advance, y, x, line, R0)
    ensures RowSplit(s', L, table, advance, y, x', line', R0)
  {
    MoveHead(line, line', Row(s, L, table, advance, y, x).out, Row(s', L, table, advance, y, x').out, c.out.ch, R0.out);
  }

  /** The row from x is the glyph of c followed by the row from the cell
      after it, on the raster c leaves. */
  ghost predicate RowHead(s: seq<byte>, L: Layout, table: seq<Glyph>, advance: char -> real, y: nat,
                          x: real, c: Pass<Glyph>)
    requires Fits(L, s, table) && y < L.height && 0.0 <= x < L.width as real && Fits(L, c.raster, table)
  {
    var rest := Row(c.raster, L, table, advance, y, x + Step(L, advance, c.out.ch));
    Row(s, L, table, advance, y, x) == Pass([c.out.ch] + rest.out, rest.raster)
  }

  /** The text line read so far followed by the rest of the row from x is
      the whole row R0, and the rest of the row leaves R0's raster. */
  ghost predicate RowSplit(s: seq<byte>, L: Layout, table: seq<Glyph>, advance: char -> real, y: nat,
                           x: real, line: string, R0: Pass<string>)
    requires Fits(L, s, table) && y < L.height && x >= 0.0
  {
    line + Row(s, L, table, advance, y, x).out == R0.out && Row(s, L, table, advance, y, x).raster == R0.raster
  }

  /** Moving the head of the unread part onto the end of the read part keeps
      their concatenation. */
  lemma MoveHead(read: string, read': string, unread: string, unread': string, c: char, whole: string)
    requires read + unread == whole && unread == [c] + unread' && read' == read + [c]
    ensures read' + unread' == whole
  {
    assert read' + unread' == read + ([c] + unread');
  }

  /** The row from x is the glyph of the cell at x followed by the row from
      the next cell, on the raster that cell leaves. */
  lemma RowCell(s: seq<byte>, L: Layout, table: seq<Glyph>, advance: char -> real, y: nat, x: real)
    requires Fits(L, s, table) && y < L.height && 0.0 <= x < L.width as real
    ensures Fits(L, Cell(s, L, table, x.Floor, y).raster, table)
    ensures RowHead(s, L, table, advance, y, x, Cell(s, L, table, x.Floor, y))
  {
  }

  /** A step of at least one pixel leaves fewer cells to walk. */
  lemma CellsLeftShrinks(width: nat, x: real, step: real)
    requires 0.0 <= x < width as real && step >= 1.0
    ensures CellsLeft(width, x + step) < CellsLeft(width, x)
  {
  }

  /** One text row of the grid: the rows from y are the row at y followed by
      the rows from y + lineHeight, on the raster the row leaves. */
  lemma GridStep(s: seq<byte>, L: Layout, table: seq<Glyph>, advance: char -> real, y: nat)
    requires Fits(L, s, table) && y + L.lineHeight <= L.height
    ensures var r := Row(s, L, table, advance, y, 0.0);
            var rest := Grid(r.raster, L, table, advance, y + L.lineHeight);
              Grid(s, L, table, advance, y) == Pass([r.out] + rest.out, rest.raster)
  {
  }

  /** The body of the inner loop for the cell at (xInt, yInt): sample the
      pixel, pick the glyph and, with dithering on, diffuse the error. */
  method CellStep(data: array<byte>, L: Layout, table: seq<Glyph>, xInt: nat, yInt: nat) returns (ch: char)
    requires Fits(L, data[..], table) && xInt < L.width && yInt < L.height
    modifies data
    ensures ch == Cell(old(data[..]), L, table, xInt, yInt).out.ch
    ensures data[..] == Cell(old(data[..]), L, table, xInt, yInt).raster
  {
    PixelInRaster(L.width, L.height, xInt, yInt);
    var idx := (yInt * L.width + xInt) * 4;
    var gray := Luminance(data[idx], data[idx + 1], data[idx + 2]);
    var charObj := table[GlyphIndex(gray, |table|)];
    if L.mode != NoDither {
      var quantError := gray - Reconstruct(table, charObj);
      Diffuse(data, L.width, xInt, yInt, L.lineHeight, quantError, L.mode);
    }
    ch := charObj.ch;
  }

  /** The magic-wand action: analyse the active character set into a glyph
      table, then walk the raster with it. */
  method MagicWand(data: array<byte>, L: Layout, preset: Preset, customChars: string,
                   density: char -> real, advance: char -> real) returns (result: string, ghost table: seq<Glyph>)
    requires L.lineHeight >= 1 && data.Length == 4 * L.width * L.height
    modifies data
    ensures SortedByDensity(table) && |table| == |ActiveCharSet(preset, customChars)|
    ensures forall g :: g in table ==> g.ch in ActiveCharSet(preset, customChars) && g.density == density(g.ch)
    ensures multiset(table) == multiset(Entries(ActiveCharSet(preset, customChars), density))
    ensures forall v :: Ties(table, v) == Ties(Entries(ActiveCharSet(preset, customChars), density), v)
    ensures result == Text(Grid(old(data[..]), L, table, advance, 0).out)
    ensures data[..] == Grid(old(data[..]), L, table, advance, 0).raster
  {
    var charSet := ActiveCharSet(preset, customChars);
    var sorted := AnalyzeCharacters(charSet, density);
    table := sorted;
    result := GenerateAscii(data, L, sorted, advance);
  }
}
