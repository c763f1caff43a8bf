/** Rotation about the image centre with bilinear interpolation, in 8-bit
    fixed point. Every output pixel is mapped back to a source position;
    when the 2 x 2 neighbourhood of that position lies inside the input,
    the four neighbours are blended with integer weights, otherwise the
    output pixel is left as it was. */
module RotationFixPoint {
  import opened ImageProc
  import opened FixedPoint
  import Arith

  /** FR_BITS: fractional bits of the fixed-point numbers. */
  const FrBits: nat := 8
  /** ONE_FIXP: 1.0 in fixed point. */
  const OneFixp: int := 256
  /** The square of ONE_FIXP: the total of the four interpolation weights. */
  const OneSquared: int := 0x1_0000

  /** Largest width and height for which every intermediate of the kernel
      fits a 32-bit `int`: |cos_th * (row - half_height)| and the other
      products stay below 2^29, their sums below 2^30. */
  const MaxDim: nat := 0x20_0000

  /** The fixed-point sine and cosine the kernel is handed: a value in
      [-1, 1] scaled by 256 and truncated towards zero. */
  predicate ValidTrig(sinTh: int, cosTh: int)
  {
    -OneFixp <= sinTh <= OneFixp && -OneFixp <= cosTh <= OneFixp
  }

  predicate ValidDims(width: nat, height: nat)
  {
    width <= MaxDim && height <= MaxDim
  }

  /** `n >> 1` on an unsigned size: the centre row (column) index. */
  function HalfDim(n: nat): (h: nat)
    ensures 2 * h <= n <= 2 * h + 1
  {
    n / 2
  }

  /** idx_fract[0] of line 49: the source row, relative to the centre and
      scaled by 256, of output pixel (`row`, `col`). */
  function FixedRow(sinTh: int, cosTh: int, width: nat, height: nat, row: int, col: int): int
  {
    cosTh * (row - HalfDim(height)) - sinTh * (col - HalfDim(width))
  }

  /** idx_fract[1] of line 50: the source column, likewise. */
  function FixedCol(sinTh: int, cosTh: int, width: nat, height: nat, row: int, col: int): int
  {
    sinTh * (row - HalfDim(height)) + cosTh * (col - HalfDim(width))
  }

  /** Inside the image the scaled source coordinates fit a 32-bit `int`. */
  lemma FixedFits(sinTh: int, cosTh: int, width: nat, height: nat, row: nat, col: nat)
    requires ValidTrig(sinTh, cosTh) && ValidDims(width, height)
    requires row < height && col < width
    ensures IsInt32(FixedRow(sinTh, cosTh, width, height, row, col))
    ensures IsInt32(FixedCol(sinTh, cosTh, width, height, row, col))
  {
    var dr, dc := row - HalfDim(height), col - HalfDim(width);
    Arith.AbsMulBound(cosTh, dr, OneFixp, MaxDim);
    Arith.AbsMulBound(sinTh, dc, OneFixp, MaxDim);
    Arith.AbsMulBound(sinTh, dr, OneFixp, MaxDim);
    Arith.AbsMulBound(cosTh, dc, OneFixp, MaxDim);
  }

  /** Where an output pixel samples the input: the integer row and column
      of the top-left neighbour, and the fractions (in 1/256) towards the
      next row and column. */
  datatype Source = Source(intRow: int, intCol: int, fracRow: int, fracCol: int)

  /** Lines 49-59: the inverse rotation of output pixel (`row`, `col`),
      split by `>> 8` and `& 255` into integer part and fraction. The two
      parts together are exactly the scaled source position, with the
      fraction in [0, 256): the integer part is its floor. */
  function MapPixel(sinTh: int, cosTh: int, width: nat, height: nat, row: nat, col: nat): (s: Source)
    requires ValidTrig(sinTh, cosTh) && ValidDims(width, height)
    requires row < height && col < width
    ensures 0 <= s.fracRow < OneFixp && 0 <= s.fracCol < OneFixp
    ensures (s.intRow - HalfDim(height)) * OneFixp + s.fracRow == FixedRow(sinTh, cosTh, width, height, row, col)
    ensures (s.intCol - HalfDim(width)) * OneFixp + s.fracCol == FixedCol(sinTh, cosTh, width, height, row, col)
  {
    FixedFits(sinTh, cosTh, width, height, row, col);
    Pow2Word();
    var fr := FixedRow(sinTh, cosTh, width, height, row, col);
    var fc := FixedCol(sinTh, cosTh, width, height, row, col);
    SplitFixed(fr, FrBits);
    SplitFixed(fc, FrBits);
    Source(ShiftRight(fr, FrBits) + HalfDim(height), ShiftRight(fc, FrBits) + HalfDim(width),
           LowBits(fr, FrBits), LowBits(fc, FrBits))
  }

  /** The guard of lines 55-56: the 2 x 2 neighbourhood starting at the
      source position lies inside the image. The last row and column are
      never a top-left neighbour. */
  predicate Inside(s: Source, width: nat, height: nat)
  {
    0 <= s.intRow < height - 1 && 0 <= s.intCol < width - 1
  }

  /** Under the guard all four neighbours read by lines 67-74 are samples
      of the input. */
  lemma NeighboursInBounds(img: Image, s: Source, d: nat)
    requires img.Valid() && Inside(s, img.width, img.height) && d < img.depth
    ensures 0 <= Loc(s.intRow, s.intCol, img.width, img.depth, d) < |img.data|
    ensures 0 <= Loc(s.intRow, s.intCol + 1, img.width, img.depth, d) < |img.data|
    ensures 0 <= Loc(s.intRow + 1, s.intCol, img.width, img.depth, d) < |img.data|
    ensures 0 <= Loc(s.intRow + 1, s.intCol + 1, img.width, img.depth, d) < |img.data|
  {
    LocInBounds(s.intRow, s.intCol, img.width, img.height, img.depth, d);
    LocInBounds(s.intRow, s.intCol + 1, img.width, img.height, img.depth, d);
    LocInBounds(s.intRow + 1, s.intCol, img.width, img.height, img.depth, d);
    LocInBounds(s.intRow + 1, s.intCol + 1, img.width, img.height, img.depth, d);
  }

  /** weight[0..3] of lines 61-64, for the neighbours (r, c), (r, c + 1),
      (r + 1, c) and (r + 1, c + 1). */
  datatype Weights = Weights(w00: int, w01: int, w10: int, w11: int)

  predicate ValidWeights(w: Weights)
  {
    && 0 <= w.w00 && 0 <= w.w01 && 0 <= w.w10 && 0 <= w.w11
    && w.w00 + w.w01 + w.w10 + w.w11 == OneSquared
  }

  /** Lines 61-64: products of the complementary fractions. They are
      non-negative and total 65536 (1.0 squared), and they put exactly the
      fractions' share on the next column and on the next row; with both
      fractions zero all weight is on the top-left neighbour. */
  function BilinearWeights(fracRow: int, fracCol: int): (w: Weights)
    requires 0 <= fracRow < OneFixp && 0 <= fracCol < OneFixp
    ensures ValidWeights(w)
    ensures w.w01 + w.w11 == OneFixp * fracCol
    ensures w.w10 + w.w11 == OneFixp * fracRow
    ensures fracRow == 0 && fracCol == 0 ==> w == Weights(OneSquared, 0, 0, 0)
  {
    var w := Weights((OneFixp - fracRow) * (OneFixp - fracCol), (OneFixp - fracRow) * fracCol,
                     fracRow * (OneFixp - fracCol), fracRow * fracCol);
    Arith.MulMono(0, OneFixp - fracRow, OneFixp - fracCol);
    Arith.MulMono(0, OneFixp - fracRow, fracCol);
    Arith.MulMono(0, fracRow, OneFixp - fracCol);
    Arith.MulMono(0, fracRow, fracCol);
    assert w.w00 + w.w01 == (OneFixp - fracRow) * OneFixp;
    assert w.w10 + w.w11 == fracRow * OneFixp;
    w
  }

  function Min4(a: int, b: int, c: int, d: int): int
  {
    Min(Min(a, b), Min(c, d))
  }

  function Max4(a: int, b: int, c: int, d: int): int
  {
    Max(Max(a, b), Max(c, d))
  }

  /** The weighted sum of lines 78-79. With weights totalling 65536 it lies
      between 65536 times the smallest and 65536 times the largest sample,
      so it fits a 32-bit `int`. */
  function Accumulate(p00: Byte, p01: Byte, p10: Byte, p11: Byte, w: Weights): (acc: int)
    requires ValidWeights(w)
    ensures Min4(p00, p01, p10, p11) * OneSquared <= acc <= Max4(p00, p01, p10, p11) * OneSquared
    ensures 0 <= acc < SignBit
  {
    var acc := p00 * w.w00 + p01 * w.w01 + p10 * w.w10 + p11 * w.w11;
    AccumulateBounds(p00, p01, p10, p11, w, Min4(p00, p01, p10, p11), Max4(p00, p01, p10, p11));
    acc
  }

  lemma AccumulateBounds(p00: int, p01: int, p10: int, p11: int, w: Weights, lo: int, hi: int)
    requires ValidWeights(w)
    requires lo <= p00 <= hi && lo <= p01 <= hi && lo <= p10 <= hi && lo <= p11 <= hi
    ensures lo * OneSquared <= p00 * w.w00 + p01 * w.w01 + p10 * w.w10 + p11 * w.w11 <= hi * OneSquared
  {
    var a00, a01, a10, a11 := p00 * w.w00, p01 * w.w01, p10 * w.w10, p11 * w.w11;
    Arith.MulMono(lo, p00, w.w00);
    Arith.MulMono(lo, p01, w.w01);
    Arith.MulMono(lo, p10, w.w10);
    Arith.MulMono(lo, p11, w.w11);
    Arith.MulMono(p00, hi, w.w00);
    Arith.MulMono(p01, hi, w.w01);
    Arith.MulMono(p10, hi, w.w10);
    Arith.MulMono(p11, hi, w.w11);
    ScaleSum(lo, w);
    ScaleSum(hi, w);
  }

  lemma ScaleSum(c: int, w: Weights)
    requires ValidWeights(w)
    ensures c * w.w00 + c * w.w01 + c * w.w10 + c * w.w11 == c * OneSquared
  {
  }

  /** Lines 77-80: the weighted sum shifted right by 16 bits and cast to
      `unsigned char`. The result never leaves the range of the four
      samples, so the cast never truncates, and a weight set concentrated
      on one neighbour returns that neighbour. */
  function Interpolate(p00: Byte, p01: Byte, p10: Byte, p11: Byte, w: Weights): (r: Byte)
    requires ValidWeights(w)
    ensures Min4(p00, p01, p10, p11) <= r <= Max4(p00, p01, p10, p11)
    ensures w == Weights(OneSquared, 0, 0, 0) ==> r == p00
  {
    var acc := Accumulate(p00, p01, p10, p11, w);
    Pow2Word();
    var q := ShiftRight(acc, 2 * FrBits);
    ScaledBounds(acc, q, Min4(p00, p01, p10, p11), Max4(p00, p01, p10, p11));
    ToByte(q)
  }

  lemma ScaledBounds(acc: int, q: int, lo: int, hi: int)
    requires lo * OneSquared <= acc <= hi * OneSquared && q == acc / OneSquared
    ensures lo <= q <= hi
  {
    var r := acc % OneSquared;
    assert acc == q * OneSquared + r;
    if q < lo {
      Arith.MulStrictMono(q, lo, OneSquared);
    }
    if q > hi {
      Arith.MulStrictMono(hi, q, OneSquared);
    }
  }

  /** Specification of one output sample: the interpolated value when the
      source neighbourhood is inside the input, `prior` (the sample the
      output buffer already held) otherwise. */
  function RotatedValue(img: Image, sinTh: int, cosTh: int, prior: Byte, row: nat, col: nat, d: nat): Byte
    requires ValidTrig(sinTh, cosTh) && ValidDims(img.width, img.height)
    requires row < img.height && col < img.width && d < img.depth
  {
    var s := MapPixel(sinTh, cosTh, img.width, img.height, row, col);
    if Inside(s, img.width, img.height) then
      Interpolate(img.At(s.intRow, s.intCol, d), img.At(s.intRow, s.intCol + 1, d),
                  img.At(s.intRow + 1, s.intCol, d), img.At(s.intRow + 1, s.intCol + 1, d),
                  BilinearWeights(s.fracRow, s.fracCol))
    else prior
  }

  /** A written sample lies between the smallest and the largest of the
      four neighbours it blends: interpolation never overshoots. */
  lemma RotatedWithinNeighbours(img: Image, sinTh: int, cosTh: int, prior: Byte, row: nat, col: nat, d: nat)
    requires ValidTrig(sinTh, cosTh) && ValidDims(img.width, img.height)
    requires row < img.height && col < img.width && d < img.depth
    requires Inside(MapPixel(sinTh, cosTh, img.width, img.height, row, col), img.width, img.height)
    ensures var s := MapPixel(sinTh, cosTh, img.width, img.height, row, col);
      var a, b, c, e := img.At(s.intRow, s.intCol, d), img.At(s.intRow, s.intCol + 1, d),
                        img.At(s.intRow + 1, s.intCol, d), img.At(s.intRow + 1, s.intCol + 1, d);
      Min4(a, b, c, e) <= RotatedValue(img, sinTh, cosTh, prior, row, col, d) <= Max4(a, b, c, e)
  {
  }

  /** A sample whose source neighbourhood is not inside the input is
      never written: it keeps whatever the output held. */
  lemma UntouchedOutside(img: Image, sinTh: int, cosTh: int, prior: Byte, row: nat, col: nat, d: nat)
    requires ValidTrig(sinTh, cosTh) && ValidDims(img.width, img.height)
    requires row < img.height && col < img.width && d < img.depth
    requires !Inside(MapPixel(sinTh, cosTh, img.width, img.height, row, col), img.width, img.height)
    ensures RotatedValue(img, sinTh, cosTh, prior, row, col, d) == prior
  {
  }

  // ---------------------------------------------------------------------
  // The kernel (lines 25-85)
  // ---------------------------------------------------------------------

  /** The specified output sample at flat index `i`, over the prior output. */
  ghost function RotatedAt(img: Image, sinTh: int, cosTh: int, prior: seq<Byte>, i: int): Byte
    requires img.Valid() && ValidTrig(sinTh, cosTh) && ValidDims(img.width, img.height)
    requires |prior| == |img.data| && 0 <= i < |img.data|
  {
    var q := PosOf(i, img.width, img.height, img.depth);
    RotatedValue(img, sinTh, cosTh, prior[i], q.row, q.col, q.chan)
  }

  /** Samples before flat index `p` are final, the others still hold the
      prior output. */
  ghost predicate Done(img: Image, sinTh: int, cosTh: int, prior: seq<Byte>, out: seq<Byte>, p: int)
    requires img.Valid() && ValidTrig(sinTh, cosTh) && ValidDims(img.width, img.height)
    requires |prior| == |img.data|
  {
    && |out| == |prior|
    && forall i :: 0 <= i < |out| ==> out[i] == if i < p then RotatedAt(img, sinTh, cosTh, prior, i) else prior[i]
  }

  /** Lines 49-81 for one pixel: map it back, and when the guard holds
      write every channel of the interpolated value; otherwise write
      nothing. */
  method RotatePixel(img: Image, sinTh: int, cosTh: int, prior: seq<Byte>, row: nat, col: nat, out: seq<Byte>)
    returns (res: seq<Byte>)
    requires img.Valid() && ValidTrig(sinTh, cosTh) && ValidDims(img.width, img.height)
    requires row < img.height && col < img.width && |prior| == |img.data|
    requires Done(img, sinTh, cosTh, prior, out, Loc(row, col, img.width, img.depth, 0))
    ensures Done(img, sinTh, cosTh, prior, res, Loc(row, col + 1, img.width, img.depth, 0))
  {
    var width, depth := img.width, img.depth;
    var s := MapPixel(sinTh, cosTh, width, img.height, row, col);
    res := out;
    LocNextColumn(row, col, width, depth);
    if Inside(s, width, img.height) {
      var w := BilinearWeights(s.fracRow, s.fracCol);
      var d := 0;
      while d < depth
        invariant 0 <= d <= depth
        invariant Done(img, sinTh, cosTh, prior, res, Loc(row, col, width, depth, d))
      {
        NeighboursInBounds(img, s, d);
        img.AtIsLoc(s.intRow, s.intCol, d);
        img.AtIsLoc(s.intRow, s.intCol + 1, d);
        img.AtIsLoc(s.intRow + 1, s.intCol, d);
        img.AtIsLoc(s.intRow + 1, s.intCol + 1, d);
        var v := Interpolate(img.data[Loc(s.intRow, s.intCol, width, depth, d)],
                             img.data[Loc(s.intRow, s.intCol + 1, width, depth, d)],
                             img.data[Loc(s.intRow + 1, s.intCol, width, depth, d)],
                             img.data[Loc(s.intRow + 1, s.intCol + 1, width, depth, d)], w);
        WriteSample(img, sinTh, cosTh, prior, row, col, d, res, v);
        res := res[Loc(row, col, width, depth, d) := v];
        LocNextChannel(row, col, width, depth, d);
        d := d + 1;
      }
    } else {
      ghost var d := 0;
      while d < depth
        invariant 0 <= d <= depth
        invariant Done(img, sinTh, cosTh, prior, res, Loc(row, col, width, depth, d))
      {
        KeepSample(img, sinTh, cosTh, prior, row, col, d, res);
        LocNextChannel(row, col, width, depth, d);
        d := d + 1;
      }
    }
  }

  /** Writing the specified value at the next flat index keeps Done. */
  lemma WriteSample(img: Image, sinTh: int, cosTh: int, prior: seq<Byte>, row: nat, col: nat, d: nat, out: seq<Byte>, v: Byte)
    requires img.Valid() && ValidTrig(sinTh, cosTh) && ValidDims(img.width, img.height)
    requires row < img.height && col < img.width && d < img.depth && |prior| == |img.data|
    requires Done(img, sinTh, cosTh, prior, out, Loc(row, col, img.width, img.depth, d))
    requires Inside(MapPixel(sinTh, cosTh, img.width, img.height, row, col), img.width, img.height)
    requires var s := MapPixel(sinTh, cosTh, img.width, img.height, row, col);
      v == Interpolate(img.At(s.intRow, s.intCol, d), img.At(s.intRow, s.intCol + 1, d),
                       img.At(s.intRow + 1, s.intCol, d), img.At(s.intRow + 1, s.intCol + 1, d),
                       BilinearWeights(s.fracRow, s.fracCol))
    ensures 0 <= Loc(row, col, img.width, img.depth, d) < |out|
    ensures Done(img, sinTh, cosTh, prior, out[Loc(row, col, img.width, img.depth, d) := v], Loc(row, col, img.width, img.depth, d) + 1)
  {
    img.AtIsLoc(row, col, d);
    PosOfLoc(row, col, img.width, img.height, img.depth, d);
  }

  /** Leaving the next flat index alone keeps Done when the guard fails. */
  lemma KeepSample(img: Image, sinTh: int, cosTh: int, prior: seq<Byte>, row: nat, col: nat, d: nat, out: seq<Byte>)
    requires img.Valid() && ValidTrig(sinTh, cosTh) && ValidDims(img.width, img.height)
    requires row < img.height && col < img.width && d < img.depth && |prior| == |img.data|
    requires Done(img, sinTh, cosTh, prior, out, Loc(row, col, img.width, img.depth, d))
    requires !Inside(MapPixel(sinTh, cosTh, img.width, img.height, row, col), img.width, img.height)
    ensures Done(img, sinTh, cosTh, prior, out, Loc(row, col, img.width, img.depth, d) + 1)
  {
    img.AtIsLoc(row, col, d);
    PosOfLoc(row, col, img.width, img.height, img.depth, d);
  }

  /** Lines 47-83: one row of the output, column by column. */
  method RotateRow(img: Image, sinTh: int, cosTh: int, prior: seq<Byte>, row: nat, out: seq<Byte>)
    returns (res: seq<Byte>)
    requires img.Valid() && ValidTrig(sinTh, cosTh) && ValidDims(img.width, img.height)
    requires row < img.height && |prior| == |img.data|
    requires Done(img, sinTh, cosTh, prior, out, Loc(row, 0, img.width, img.depth, 0))
    ensures Done(img, sinTh, cosTh, prior, res, Loc(row + 1, 0, img.width, img.depth, 0))
  {
    res := out;
    var col := 0;
    while col < img.width
      invariant 0 <= col <= img.width
      invariant Done(img, sinTh, cosTh, prior, res, Loc(row, col, img.width, img.depth, 0))
    {
      res := RotatePixel(img, sinTh, cosTh, prior, row, col, res);
      col := col + 1;
    }
    LocNextRow(row, img.width, img.depth);
  }

  /** The fixed-point rotation for `depth` interleaved channels (the
      template of lines 25-85): an output sample whose source
      neighbourhood is inside the input becomes the interpolated value,
      every other keeps the value `output` held. */
  method Kernel(input: seq<Byte>, output: seq<Byte>, width: nat, height: nat, depth: nat, sinTh: int, cosTh: int)
    returns (result: seq<Byte>)
    requires |input| == width * height * depth && |output| == |input|
    requires ValidTrig(sinTh, cosTh) && ValidDims(width, height)
    ensures |result| == |output|
    ensures forall row, col, d :: 0 <= row < height && 0 <= col < width && 0 <= d < depth ==>
      Image(width, height, depth, result).At(row, col, d)
        == RotatedValue(Image(width, height, depth, input), sinTh, cosTh, Image(width, height, depth, output).At(row, col, d), row, col, d)
  {
    var img := Image(width, height, depth, input);
    result := output;
    var row := 0;
    while row < height
      invariant 0 <= row <= height
      invariant Done(img, sinTh, cosTh, output, result, Loc(row, 0, width, depth, 0))
    {
      result := RotateRow(img, sinTh, cosTh, output, row, result);
      row := row + 1;
    }
    assert Loc(height, 0, width, depth, 0) == |result|;
    forall row, col, d | 0 <= row < height && 0 <= col < width && 0 <= d < depth
      ensures Image(width, height, depth, result).At(row, col, d)
        == RotatedValue(img, sinTh, cosTh, Image(width, height, depth, output).At(row, col, d), row, col, d)
    {
      Image(width, height, depth, result).AtIsLoc(row, col, d);
      Image(width, height, depth, output).AtIsLoc(row, col, d);
      PosOfLoc(row, col, width, height, depth, d);
    }
  }

  /** The public entry point (lines 14-23), with the angle already
      converted to fixed point: grey-scale and RGB images are rotated, any
      other depth leaves `output` as it was. */
  method Apply(input: seq<Byte>, output: seq<Byte>, width: nat, height: nat, depth: nat, sinTh: int, cosTh: int)
    returns (result: seq<Byte>)
    requires |input| == width * height * depth && |output| == |input|
    requires ValidTrig(sinTh, cosTh) && ValidDims(width, height)
    ensures |result| == |output|
    ensures depth != 1 && depth != 3 ==> result == output
    ensures depth == 1 || depth == 3 ==>
      forall row, col, d :: 0 <= row < height && 0 <= col < width && 0 <= d < depth ==>
        Image(width, height, depth, result).At(row, col, d)
          == RotatedValue(Image(width, height, depth, input), sinTh, cosTh, Image(width, height, depth, output).At(row, col, d), row, col, d)
  {
    if depth == 1 || depth == 3 {
      result := Kernel(input, output, width, height, depth, sinTh, cosTh);
    } else {
      result := output;
    }
  }

  // ---------------------------------------------------------------------
  // Properties of the mapping
  // ---------------------------------------------------------------------

  /** A scaled coordinate that is a whole number of pixels maps to that
      pixel with a zero fraction. */
  lemma WholeSource(x: int, intPart: int, frac: int, whole: int)
    requires x == intPart * OneFixp + frac && 0 <= frac < OneFixp && x == whole * OneFixp
    ensures intPart == whole && frac == 0
  {
    Arith.DivModUnique(x, intPart, frac, OneFixp);
    Arith.DivModUnique(x, whole, 0, OneFixp);
  }

  /** An output pixel whose scaled source position is a whole pixel maps
      onto that pixel with zero fractions. */
  lemma MapWhole(sinTh: int, cosTh: int, width: nat, height: nat, row: nat, col: nat, srcRow: int, srcCol: int)
    requires ValidTrig(sinTh, cosTh) && ValidDims(width, height) && row < height && col < width
    requires FixedRow(sinTh, cosTh, width, height, row, col) == (srcRow - HalfDim(height)) * OneFixp
    requires FixedCol(sinTh, cosTh, width, height, row, col) == (srcCol - HalfDim(width)) * OneFixp
    ensures MapPixel(sinTh, cosTh, width, height, row, col) == Source(srcRow, srcCol, 0, 0)
  {
    var s := MapPixel(sinTh, cosTh, width, height, row, col);
    WholeSource(FixedRow(sinTh, cosTh, width, height, row, col), s.intRow - HalfDim(height), s.fracRow, srcRow - HalfDim(height));
    WholeSource(FixedCol(sinTh, cosTh, width, height, row, col), s.intCol - HalfDim(width), s.fracCol, srcCol - HalfDim(width));
  }

  /** The centre pixel (height / 2, width / 2) maps onto itself, exactly,
      whatever the angle: the rotation is about the centre. */
  lemma CentreIsFixed(sinTh: int, cosTh: int, width: nat, height: nat)
    requires ValidTrig(sinTh, cosTh) && ValidDims(width, height) && 0 < width && 0 < height
    ensures HalfDim(height) < height && HalfDim(width) < width
    ensures MapPixel(sinTh, cosTh, width, height, HalfDim(height), HalfDim(width))
         == Source(HalfDim(height), HalfDim(width), 0, 0)
  {
    MapWhole(sinTh, cosTh, width, height, HalfDim(height), HalfDim(width), HalfDim(height), HalfDim(width));
  }

  /** cos = 1.0, sin = 0: every pixel maps onto itself, exactly. */
  lemma IdentityMap(width: nat, height: nat, row: nat, col: nat)
    requires ValidDims(width, height) && row < height && col < width
    ensures MapPixel(0, OneFixp, width, height, row, col) == Source(row, col, 0, 0)
  {
    MapWhole(0, OneFixp, width, height, row, col, row, col);
  }

  /** Rotation by angle 0 copies every pixel that is not in the last row
      or column and leaves the last row and column untouched. */
  lemma RotateZeroIsIdentity(img: Image, prior: Byte, row: nat, col: nat, d: nat)
    requires ValidDims(img.width, img.height)
    requires row < img.height && col < img.width && d < img.depth
    ensures row < img.height - 1 && col < img.width - 1 ==> RotatedValue(img, 0, OneFixp, prior, row, col, d) == img.At(row, col, d)
    ensures row == img.height - 1 || col == img.width - 1 ==> RotatedValue(img, 0, OneFixp, prior, row, col, d) == prior
  {
    IdentityMap(img.width, img.height, row, col);
  }

  /** cos = -1.0, sin = 0: pixel (row, col) maps onto its mirror image
      through the centre, exactly. */
  lemma HalfTurnMap(width: nat, height: nat, row: nat, col: nat)
    requires ValidDims(width, height) && row < height && col < width
    ensures MapPixel(0, -OneFixp, width, height, row, col)
         == Source(2 * HalfDim(height) - row, 2 * HalfDim(width) - col, 0, 0)
  {
    MapWhole(0, -OneFixp, width, height, row, col, 2 * HalfDim(height) - row, 2 * HalfDim(width) - col);
  }

  /** Rotation by half a turn copies the mirrored pixel wherever that
      pixel is a valid top-left neighbour. */
  lemma RotateHalfTurn(img: Image, prior: Byte, row: nat, col: nat, d: nat)
    requires ValidDims(img.width, img.height)
    requires row < img.height && col < img.width && d < img.depth
    requires 2 * HalfDim(img.height) - row < img.height - 1 && 2 * HalfDim(img.width) - col < img.width - 1
    ensures 0 <= 2 * HalfDim(img.height) - row && 0 <= 2 * HalfDim(img.width) - col
    ensures RotatedValue(img, 0, -OneFixp, prior, row, col, d)
         == img.At(2 * HalfDim(img.height) - row, 2 * HalfDim(img.width) - col, d)
  {
    HalfTurnMap(img.width, img.height, row, col);
  }
}
