/** Error diffusion into the RGBA raster. The quantisation error of a cell is
    added, weighted, to the R, G and B bytes of neighbouring pixels; "below"
    means one text row (lineHeight pixels) further down. */
module Dither {
  import opened Numeric
  import opened Density

  datatype DitherMode = NoDither | FloydSteinberg | Stucki

  /** `data[i] += amount` on a Uint8ClampedArray: the sum is clamped and rounded
      by ToUint8Clamp, and a write outside the array is silently ignored. */
  function AddAt(s: seq<byte>, i: int, amount: real): (r: seq<byte>)
    ensures |r| == |s|
  {
    if 0 <= i < |s| then s[i := ToUint8Clamp(s[i] as real + amount)] else s
  }

  /** The bounds test of addError, passed when the target is inside the raster:
      a column in [0, width) and a row below length / (4 * width), here with
      the division multiplied out (InRasterAsWritten is the test as written). */
  predicate InRaster(len: nat, width: nat, x: int, y: int) {
    0 <= x < width && y * (4 * width) < len
  }

  /** The bounds test with the source's floating-point division. */
  predicate InRasterAsWritten(len: nat, width: nat, x: int, y: int) {
    0 <= x < width && (y as real) < (len as real) / ((4 * width) as real)
  }

  /** Index of the R byte of pixel (x, y). */
  function PixelIndex(width: nat, x: int, y: int): int {
    (y * width + x) * 4
  }

  /** The raster after addError(data, width, x, y, err, factor): err * factor
      added to the R, G and B bytes of pixel (x, y). */
  function AddErrorSpec(s: seq<byte>, width: nat, x: int, y: int, err: real, factor: real): (r: seq<byte>)
    ensures |r| == |s|
  {
    if !InRaster(|s|, width, x, y) then s
    else
      var idx, amount := PixelIndex(width, x, y), err * factor;
      AddAt(AddAt(AddAt(s, idx, amount), idx + 1, amount), idx + 2, amount)
  }

  /** The bounds test in integer terms: y < len / (4 * width) exactly when
      y * 4 * width < len. */
  lemma InRasterInteger(len: nat, width: nat, x: int, y: int)
    ensures InRasterAsWritten(len, width, x, y) <==> InRaster(len, width, x, y)
  {
    if 0 <= x < width {
      var W := (4 * width) as real;
      var q := len as real / W;
      assert q * W == len as real;
      assert (y * (4 * width)) as real == (y as real) * W;
      if y as real < q {
        assert (q - y as real) * W > 0.0;
      } else {
        assert (y as real - q) * W >= 0.0;
      }
    }
  }

  lemma RowBelowRaster(len: nat, width: nat, height: nat, x: int, y: int)
    requires len == 4 * width * height && 0 <= y
    requires InRaster(len, width, x, y)
    ensures y < height && PixelIndex(width, x, y) + 3 < len
  {
    MulMonotone(MinInt(height, y), y, 4 * width);
    PixelInRaster(width, height, x, y);
  }

  /** Every pixel of a width x height image lies inside its raster. */
  lemma PixelInRaster(width: nat, height: nat, x: nat, y: nat)
    requires x < width && y < height
    ensures 0 <= PixelIndex(width, x, y) && PixelIndex(width, x, y) + 3 < 4 * width * height
  {
    MulMonotone(y + 1, height, width);
    assert (y + 1) * width == y * width + width;
    assert 0 <= y * width;
  }

  /** addError changes nothing outside the R, G and B bytes of its target pixel,
      never touches an alpha byte, and ignores a target outside the raster. */
  lemma AddErrorFrame(s: seq<byte>, width: nat, x: int, y: int, err: real, factor: real)
    ensures !InRaster(|s|, width, x, y) ==> AddErrorSpec(s, width, x, y, err, factor) == s
    ensures y < 0 ==> AddErrorSpec(s, width, x, y, err, factor) == s
    ensures forall i :: 0 <= i < |s| && !(InRaster(|s|, width, x, y) && 0 <= i - PixelIndex(width, x, y) < 3)
              ==> AddErrorSpec(s, width, x, y, err, factor)[i] == s[i]
    ensures forall i :: 0 <= i < |s| && i % 4 == 3 ==> AddErrorSpec(s, width, x, y, err, factor)[i] == s[i]
  {
    if InRaster(|s|, width, x, y) {
      Add3Frame(s, y * width + x, err * factor);
      if y < 0 {
        NegativeRow(width, x, y);
      }
    }
  }

  /** A pixel on a row above the raster has a negative index. */
  lemma NegativeRow(width: nat, x: int, y: int)
    requires 0 <= x < width && y < 0
    ensures y * width + x < 0
  {
    MulMonotone(y + 1, 0, width);
    assert (y + 1) * width == y * width + width;
  }

  /** The three writes of addError at pixel n leave every other byte, and
      every alpha byte, as it was. */
  lemma Add3Frame(s: seq<byte>, n: int, amount: real)
    ensures var r := AddAt(AddAt(AddAt(s, n * 4, amount), n * 4 + 1, amount), n * 4 + 2, amount);
              (n < 0 ==> r == s) &&
              (forall i :: 0 <= i < |s| && !(0 <= i - n * 4 < 3) ==> r[i] == s[i]) &&
              (forall i :: 0 <= i < |s| && i % 4 == 3 ==> r[i] == s[i])
  {
  }

  /** A target inside the raster gets its three colour bytes increased by
      err * factor, each clamped and rounded as the typed array stores it. */
  lemma AddErrorWrites(s: seq<byte>, width: nat, height: nat, x: int, y: int, err: real, factor: real)
    requires |s| == 4 * width * height && 0 <= y
    requires InRaster(|s|, width, x, y)
    ensures PixelIndex(width, x, y) + 3 < |s|
    ensures var idx := PixelIndex(width, x, y);
              forall i :: idx <= i < idx + 3 ==>
                AddErrorSpec(s, width, x, y, err, factor)[i] == ToUint8Clamp(s[i] as real + err * factor)
  {
    RowBelowRaster(|s|, width, height, x, y);
  }

  /** Writes `data[idx..idx+3] += err * factor` as the source does. */
  method AddError(data: array<byte>, width: nat, x: int, y: int, err: real, factor: real)
    modifies data
    ensures data[..] == AddErrorSpec(old(data[..]), width, x, y, err, factor)
  {
    InRasterInteger(data.Length, width, x, y);
    if x < 0 || x >= width || (y as real) >= (data.Length as real) / ((4 * width) as real) {
      return;
    }
    var idx := (y * width + x) * 4;
    AddClamped(data, idx, err * factor);
    AddClamped(data, idx + 1, err * factor);
    AddClamped(data, idx + 2, err * factor);
  }

  /** One `data[i] += amount` on the typed array. */
  method AddClamped(data: array<byte>, i: int, amount: real)
    modifies data
    ensures data[..] == AddAt(old(data[..]), i, amount)
  {
    if 0 <= i < data.Length {
      data[i] := ToUint8Clamp(data[i] as real + amount);
    }
  }

  /** One term of a diffusion kernel: a column offset in pixels, whether the
      target is on the next text row, and a weight. */
  datatype Tap = Tap(dx: int, below: bool, weight: real)

  function Kernel(mode: DitherMode): (k: seq<Tap>)
    ensures mode == NoDither <==> k == []
    ensures forall i :: 0 <= i < |k| ==> k[i].weight > 0.0 && -2 <= k[i].dx <= 2
  {
    match mode
    case NoDither => []
    case FloydSteinberg =>
      [Tap(1, false, 7.0 / 16.0), Tap(-1, true, 3.0 / 16.0), Tap(0, true, 5.0 / 16.0), Tap(1, true, 1.0 / 16.0)]
    case Stucki =>
      [Tap(1, false, 8.0 / 42.0), Tap(2, false, 4.0 / 42.0),
       Tap(-2, true, 2.0 / 42.0), Tap(-1, true, 4.0 / 42.0), Tap(0, true, 8.0 / 42.0),
       Tap(1, true, 4.0 / 42.0), Tap(2, true, 2.0 / 42.0)]
  }

  /** The row a tap targets from a cell on row y. */
  function TapRow(t: Tap, y: int, lineHeight: nat): int {
    if t.below then y + lineHeight else y
  }

  function WeightSum(taps: seq<Tap>): real {
    if taps == [] then 0.0 else taps[0].weight + WeightSum(taps[1..])
  }

  /** Floyd-Steinberg passes on the whole error; the truncated Stucki kernel
      passes on 32/42 of it; "none" has no taps. */
  lemma KernelWeights()
    ensures WeightSum(Kernel(FloydSteinberg)) == 1.0
    ensures WeightSum(Kernel(Stucki)) == 32.0 / 42.0
    ensures Kernel(NoDither) == []
  {
    var f := Kernel(FloydSteinberg);
    assert WeightSum(f[3..]) == 1.0 / 16.0;
    assert WeightSum(f[2..]) == 6.0 / 16.0;
    assert WeightSum(f[1..]) == 9.0 / 16.0;
    var k := Kernel(Stucki);
    assert WeightSum(k[6..]) == 2.0 / 42.0;
    assert WeightSum(k[5..]) == 6.0 / 42.0;
    assert WeightSum(k[4..]) == 14.0 / 42.0;
    assert WeightSum(k[3..]) == 18.0 / 42.0;
    assert WeightSum(k[2..]) == 20.0 / 42.0;
    assert WeightSum(k[1..]) == 24.0 / 42.0;
  }

  /** The raster after the addError call of one tap of the cell at (x, y). */
  function ApplyTap(s: seq<byte>, width: nat, x: int, y: int, lineHeight: nat, err: real, t: Tap): seq<byte> {
    AddErrorSpec(s, width, x + t.dx, TapRow(t, y, lineHeight), err, t.weight)
  }

  /** The raster after the addError calls of a kernel made in order from the
      cell at (x, y). */
  function DiffuseSpec(s: seq<byte>, width: nat, x: int, y: int, lineHeight: nat, err: real, taps: seq<Tap>): (r: seq<byte>)
    ensures |r| == |s|
    decreases |taps|
  {
    if taps == [] then s
    else DiffuseSpec(ApplyTap(s, width, x, y, lineHeight, err, taps[0]), width, x, y, lineHeight, err, taps[1..])
  }

  /** The taps of both kernels point forward: to the right on the cell's own
      row, or to a later row. */
  predicate Forward(taps: seq<Tap>) {
    forall i :: 0 <= i < |taps| ==> taps[i].below || taps[i].dx >= 1
  }

  lemma KernelsForward(mode: DitherMode)
    ensures Forward(Kernel(mode))
  {
  }

  lemma TapForward(width: nat, x: int, y: int, lineHeight: nat, t: Tap, len: nat)
    requires t.below || t.dx >= 1
    requires 0 <= x < width && 0 <= y && lineHeight >= 1
    requires InRaster(len, width, x + t.dx, TapRow(t, y, lineHeight))
    ensures PixelIndex(width, x + 1, y) <= PixelIndex(width, x + t.dx, TapRow(t, y, lineHeight))
  {
    if t.below {
      assert (y + lineHeight) * width >= (y + 1) * width;
    }
  }

  /** Diffusion keeps the raster's length and alpha bytes, and never changes a
      pixel at or before the cell in scan order. */
  lemma {:induction false} DiffuseFrame(s: seq<byte>, width: nat, x: int, y: int, lineHeight: nat, err: real, taps: seq<Tap>)
    requires Forward(taps) && 0 <= x < width && 0 <= y && lineHeight >= 1
    ensures |DiffuseSpec(s, width, x, y, lineHeight, err, taps)| == |s|
    ensures forall i :: 0 <= i < |s| && i % 4 == 3 ==> DiffuseSpec(s, width, x, y, lineHeight, err, taps)[i] == s[i]
    ensures forall i :: 0 <= i < |s| && i < PixelIndex(width, x + 1, y) ==>
              DiffuseSpec(s, width, x, y, lineHeight, err, taps)[i] == s[i]
    decreases |taps|
  {
    if taps != [] {
      var t := taps[0];
      var tx, ty := x + t.dx, TapRow(t, y, lineHeight);
      var s1 := ApplyTap(s, width, x, y, lineHeight, err, t);
      AddErrorFrame(s, width, tx, ty, err, t.weight);
      if InRaster(|s|, width, tx, ty) {
        TapForward(width, x, y, lineHeight, t, |s|);
      }
      assert Forward(taps[1..]);
      DiffuseFrame(s1, width, x, y, lineHeight, err, taps[1..]);
    }
  }

  lemma DiffuseUnfold(s: seq<byte>, width: nat, x: int, y: int, lineHeight: nat, err: real, taps: seq<Tap>, i: nat)
    requires i < |taps|
    ensures DiffuseSpec(s, width, x, y, lineHeight, err, taps[i..]) ==
            DiffuseSpec(ApplyTap(s, width, x, y, lineHeight, err, taps[i]), width, x, y, lineHeight, err, taps[i + 1..])
  {
    assert taps[i..][0] == taps[i] && taps[i..][1..] == taps[i + 1..];
  }

  /** One addError call of the diffusion step: the tap's share of the error
      added to the target pixel. */
  method DiffuseTap(data: array<byte>, width: nat, xInt: int, yInt: int, lineHeight: nat, quantError: real, t: Tap)
    modifies data
    ensures data[..] == ApplyTap(old(data[..]), width, xInt, yInt, lineHeight, quantError, t)
  {
    AddError(data, width, xInt + t.dx, TapRow(t, yInt, lineHeight), quantError, t.weight);
  }

  /** The diffusion step of one cell: the source's two branches of addError
      calls, one per tap of the kernel, in the source's order. */
  method Diffuse(data: array<byte>, width: nat, xInt: int, yInt: int, lineHeight: nat, quantError: real, mode: DitherMode)
    modifies data
    ensures data[..] == DiffuseSpec(old(data[..]), width, xInt, yInt, lineHeight, quantError, Kernel(mode))
  {
    ghost var K := Kernel(mode);
    ghost var s0 := data[..];
    if mode == FloydSteinberg {
      DiffuseTap(data, width, xInt, yInt, lineHeight, quantError, Tap(1, false, 7.0 / 16.0));
      ghost var s1 := data[..];
      DiffuseTap(data, width, xInt, yInt, lineHeight, quantError, Tap(-1, true, 3.0 / 16.0));
      ghost var s2 := data[..];
      DiffuseTap(data, width, xInt, yInt, lineHeight, quantError, Tap(0, true, 5.0 / 16.0));
      ghost var s3 := data[..];
      DiffuseTap(data, width, xInt, yInt, lineHeight, quantError, Tap(1, true, 1.0 / 16.0));
      DiffuseChain4(s0, s1, s2, s3, data[..], width, xInt, yInt, lineHeight, quantError, K);
    } else if mode == Stucki {
      DiffuseTap(data, width, xInt, yInt, lineHeight, quantError, Tap(1, false, 8.0 / 42.0));
      ghost var s1 := data[..];
      DiffuseTap(data, width, xInt, yInt, lineHeight, quantError, Tap(2, false, 4.0 / 42.0));
      ghost var s2 := data[..];
      DiffuseTap(data, width, xInt, yInt, lineHeight, quantError, Tap(-2, true, 2.0 / 42.0));
      ghost var s3 := data[..];
      DiffuseTap(data, width, xInt, yInt, lineHeight, quantError, Tap(-1, true, 4.0 / 42.0));
      ghost var s4 := data[..];
      DiffuseTap(data, width, xInt, yInt, lineHeight, quantError, Tap(0, true, 8.0 / 42.0));
      ghost var s5 := data[..];
      DiffuseTap(data, width, xInt, yInt, lineHeight, quantError, Tap(1, true, 4.0 / 42.0));
      ghost var s6 := data[..];
      DiffuseTap(data, width, xInt, yInt, lineHeight, quantError, Tap(2, true, 2.0 / 42.0));
      DiffuseChain4(s3, s4, s5, s6, data[..], width, xInt, yInt, lineHeight, quantError, K[3..]);
      DiffuseChain3(s0, s1, s2, s3, width, xInt, yInt, lineHeight, quantError, K);
    }
  }

  /** Four taps applied one after the other give the diffusion of four taps. */
  lemma DiffuseChain4(s0: seq<byte>, s1: seq<byte>, s2: seq<byte>, s3: seq<byte>, s4: seq<byte>,
                      width: nat, x: int, y: int, lineHeight: nat, err: real, taps: seq<Tap>)
    requires |taps| == 4
    requires s1 == ApplyTap(s0, width, x, y, lineHeight, err, taps[0])
    requires s2 == ApplyTap(s1, width, x, y, lineHeight, err, taps[1])
    requires s3 == ApplyTap(s2, width, x, y, lineHeight, err, taps[2])
    requires s4 == ApplyTap(s3, width, x, y, lineHeight, err, taps[3])
    ensures s4 == DiffuseSpec(s0, width, x, y, lineHeight, err, taps)
  {
    assert taps[0..] == taps;
    DiffuseUnfold(s0, width, x, y, lineHeight, err, taps, 0);
    DiffuseUnfold(s1, width, x, y, lineHeight, err, taps, 1);
    DiffuseUnfold(s2, width, x, y, lineHeight, err, taps, 2);
    DiffuseUnfold(s3, width, x, y, lineHeight, err, taps, 3);
    assert taps[4..] == [];
  }

  /** The first three taps of a kernel, followed by the diffusion of the rest. */
  lemma DiffuseChain3(s0: seq<byte>, s1: seq<byte>, s2: seq<byte>, s3: seq<byte>,
                      width: nat, x: int, y: int, lineHeight: nat, err: real, taps: seq<Tap>)
    requires |taps| >= 3
    requires s1 == ApplyTap(s0, width, x, y, lineHeight, err, taps[0])
    requires s2 == ApplyTap(s1, width, x, y, lineHeight, err, taps[1])
    requires s3 == ApplyTap(s2, width, x, y, lineHeight, err, taps[2])
    ensures DiffuseSpec(s3, width, x, y, lineHeight, err, taps[3..]) == DiffuseSpec(s0, width, x, y, lineHeight, err, taps)
  {
    assert taps[0..] == taps;
    DiffuseUnfold(s0, width, x, y, lineHeight, err, taps, 0);
    DiffuseUnfold(s1, width, x, y, lineHeight, err, taps, 1);
    DiffuseUnfold(s2, width, x, y, lineHeight, err, taps, 2);
  }

  /** The luminance the chosen glyph stands for: its density rescaled so that
      the lightest glyph of the table maps to 0 and the densest to 255; a
      zero density span divides by 1 instead. */
  function Reconstruct(table: seq<Glyph>, g: Glyph): (v: real)
    requires |table| >= 1
    ensures g.density == table[0].density ==> v == 0.0
  {
    var minD := table[0].density;
    var maxD := table[|table| - 1].density;
    var span := maxD - minD;
    (g.density - minD) / (if span == 0.0 then 1.0 else span) * 255.0
  }

  /** For a sorted table every entry reconstructs to a value in [0, 255], the
      ends of the table to 0 and 255, and a table of one density to 0. */
  lemma ReconstructRange(table: seq<Glyph>, k: nat)
    requires SortedByDensity(table) && k < |table|
    ensures 0.0 <= Reconstruct(table, table[k]) <= 255.0
    ensures table[0].density == table[|table| - 1].density ==> Reconstruct(table, table[k]) == 0.0
    ensures table[0].density < table[|table| - 1].density ==>
              Reconstruct(table, table[0]) == 0.0 && Reconstruct(table, table[|table| - 1]) == 255.0
  {
    var minD, maxD := table[0].density, table[|table| - 1].density;
    var d := table[k].density;
    assert minD <= d <= maxD;
    if minD < maxD {
      var q := (d - minD) / (maxD - minD);
      assert 0.0 <= q;
      assert q * (maxD - minD) == d - minD;
      assert q <= 1.0;
    }
  }

  /** The quantisation error of a luminance in [0, 255] lies in [-255, 255]. */
  lemma QuantErrorRange(table: seq<Glyph>, k: nat, gray: real)
    requires SortedByDensity(table) && k < |table| && 0.0 <= gray <= 255.0
    ensures -255.0 <= gray - Reconstruct(table, table[k]) <= 255.0
  {
    ReconstructRange(table, k);
  }
}
