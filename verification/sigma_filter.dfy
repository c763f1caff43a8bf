/** The sigma filter: every output sample is the rounded mean of those
    samples of its (2k+1) x (2k+1) neighbourhood, clipped at the image
    border, whose value lies within `sigma` of its own. The kernel computes
    it with a per-row sliding histogram (module Histogram). */
module SigmaFilter {
  import opened ImageProc
  import opened Histogram
  import Arith

  /** The default `kernel_size` of the public entry point: a 3 x 3 window. */
  const DefaultKernelSize: nat := 1

  // ---------------------------------------------------------------------
  // Reference definition
  // ---------------------------------------------------------------------

  /** The samples of `s` whose value lies in [lo, hi], in order. */
  function Select(s: seq<Byte>, lo: int, hi: int): (r: seq<Byte>)
    ensures forall i :: 0 <= i < |r| ==> lo <= r[i] <= hi
    decreases |s|
  {
    if |s| == 0 then []
    else
      var rest := Select(s[..|s| - 1], lo, hi);
      if lo <= s[|s| - 1] <= hi then rest + [s[|s| - 1]] else rest
  }

  /** Selection keeps every sample inside the range and drops every other:
      per value, the count is the original count or zero. */
  lemma {:induction false} SelectCount(s: seq<Byte>, lo: int, hi: int, v: Byte)
    ensures Count(Select(s, lo, hi), v) == if lo <= v <= hi then Count(s, v) else 0
    decreases |s|
  {
    if |s| > 0 {
      var init, last := s[..|s| - 1], s[|s| - 1];
      SelectCount(init, lo, hi, v);
      assert s == init + [last];
      CountSnoc(init, last, v);
      if lo <= last <= hi {
        CountSnoc(Select(init, lo, hi), last, v);
      }
    }
  }

  function Sum(s: seq<Byte>): int
    decreases |s|
  {
    if |s| == 0 then 0 else Sum(s[..|s| - 1]) + s[|s| - 1]
  }

  /** The mean of `s` rounded to the nearest integer, halves upwards:
      the one integer m with m - 1/2 <= mean < m + 1/2. The kernel
      computes it as (sum + n / 2) / n (line 104-105). */
  function RoundedMean(s: seq<Byte>): (m: int)
    requires |s| > 0
    ensures |s| * (2 * m - 1) <= 2 * Sum(s) < |s| * (2 * m + 1)
  {
    var n, total := |s|, Sum(s);
    var m := (total + n / 2) / n;
    assert total + n / 2 == m * n + (total + n / 2) % n;
    assert n == 2 * (n / 2) + n % 2;
    assert n * (2 * m - 1) == 2 * (m * n) - n;
    assert n * (2 * m + 1) == 2 * (m * n) + n;
    m
  }

  /** First row (column) of the window around `x`: max(0, x - k). */
  function SpanLo(x: nat, k: nat): nat
  {
    Max(0, x - k)
  }

  /** One past the last row (column) of the window around `x` in an image
      `size` rows (columns) long: min(size - 1, x + k) + 1. */
  function SpanEnd(x: nat, k: nat, size: nat): nat
  {
    Min(size, x + k + 1)
  }

  /** Channel `d` of the neighbourhood of pixel (`row`, `col`) for radius `k`. */
  function Neighbourhood(img: Image, k: nat, row: nat, col: nat, d: nat): seq<Byte>
    requires d < img.depth
  {
    WindowSamples(img, d, SpanLo(row, k), SpanEnd(row, k, img.height), SpanLo(col, k), SpanEnd(col, k, img.width))
  }

  /** The samples the filter averages for channel `d` of (`row`, `col`):
      those of its neighbourhood within `sigma` of its own value, clipped
      to [0, 255]. */
  function Similar(img: Image, sigma: Byte, k: nat, row: nat, col: nat, d: nat): seq<Byte>
    requires row < img.height && col < img.width && d < img.depth
  {
    var v := img.At(row, col, d);
    Select(Neighbourhood(img, k, row, col, d), Max(0, v - sigma), Min(255, v + sigma))
  }

  /** The pixel itself is always among the samples averaged. */
  lemma CentreIsSimilar(img: Image, sigma: Byte, k: nat, row: nat, col: nat, d: nat)
    requires row < img.height && col < img.width && d < img.depth
    ensures Count(Similar(img, sigma, k, row, col, d), img.At(row, col, d)) >= 1
    ensures |Similar(img, sigma, k, row, col, d)| > 0
  {
    var v := img.At(row, col, d);
    var rowLo, rowHi := SpanLo(row, k), SpanEnd(row, k, img.height);
    var colLo, colHi := SpanLo(col, k), SpanEnd(col, k, img.width);
    CountsOwnPixel(img, d, rowLo, rowHi, colLo, colHi, row, col);
    WindowSamplesCount(img, d, rowLo, rowHi, colLo, colHi, v);
    SelectCount(Neighbourhood(img, k, row, col, d), Max(0, v - sigma), Min(255, v + sigma), v);
    CountNonEmpty(Similar(img, sigma, k, row, col, d), v);
  }

  /** The mean of samples that all lie in [lo, hi] lies in [lo, hi]. */
  lemma {:induction false} SumBounds(s: seq<Byte>, lo: int, hi: int)
    requires forall i :: 0 <= i < |s| ==> lo <= s[i] <= hi
    ensures |s| * lo <= Sum(s) <= |s| * hi
    decreases |s|
  {
    if |s| > 0 {
      SumBounds(s[..|s| - 1], lo, hi);
      assert |s| * lo == (|s| - 1) * lo + lo;
      assert |s| * hi == (|s| - 1) * hi + hi;
    }
  }

  lemma MeanWithin(s: seq<Byte>, lo: int, hi: int)
    requires |s| > 0
    requires forall i :: 0 <= i < |s| ==> lo <= s[i] <= hi
    ensures lo <= RoundedMean(s) <= hi
  {
    SumBounds(s, lo, hi);
    RoundedAbove(|s|, RoundedMean(s), Sum(s), lo);
    RoundedBelow(|s|, RoundedMean(s), Sum(s), hi);
  }

  lemma RoundedAbove(n: int, m: int, total: int, lo: int)
    requires 0 < n && n * lo <= total && 2 * total < n * (2 * m + 1)
    ensures lo <= m
  {
    assert (2 * lo - 1) * n == 2 * (n * lo) - n;
    assert n * (2 * m + 1) == (2 * m + 1) * n;
    if m < lo {
      Arith.MulMono(2 * m + 1, 2 * lo - 1, n);
    }
  }

  lemma RoundedBelow(n: int, m: int, total: int, hi: int)
    requires 0 < n && total <= n * hi && n * (2 * m - 1) <= 2 * total
    ensures m <= hi
  {
    assert (2 * hi + 1) * n == 2 * (n * hi) + n;
    assert n * (2 * m - 1) == (2 * m - 1) * n;
    if m > hi {
      Arith.MulMono(2 * hi + 1, 2 * m - 1, n);
    }
  }

  /** Specification of one output sample: the round-half-up mean of the
      similar samples of its neighbourhood. It never leaves the intensity
      window [v - sigma, v + sigma] of the input sample v, so it moves a
      sample by at most `sigma` and fits a byte. */
  function SigmaValue(img: Image, sigma: Byte, k: nat, row: nat, col: nat, d: nat): (out: Byte)
    requires row < img.height && col < img.width && d < img.depth
    ensures Max(0, img.At(row, col, d) - sigma) <= out <= Min(255, img.At(row, col, d) + sigma)
  {
    var v := img.At(row, col, d);
    var s := Similar(img, sigma, k, row, col, d);
    CentreIsSimilar(img, sigma, k, row, col, d);
    MeanWithin(s, Max(0, v - sigma), Min(255, v + sigma));
    RoundedMean(s)
  }

  /** With sigma = 0 only samples equal to the centre are averaged, so the
      filter is the identity. */
  lemma SigmaZeroIsIdentity(img: Image, k: nat, row: nat, col: nat, d: nat)
    requires row < img.height && col < img.width && d < img.depth
    ensures SigmaValue(img, 0, k, row, col, d) == img.At(row, col, d)
  {
  }

  lemma {:induction false} SelectAll(s: seq<Byte>)
    ensures Select(s, 0, 255) == s
    decreases |s|
  {
    if |s| > 0 {
      SelectAll(s[..|s| - 1]);
      assert s == s[..|s| - 1] + [s[|s| - 1]];
    }
  }

  /** With sigma = 255 every sample of the neighbourhood is averaged: the
      filter is a plain box mean over the clipped window. */
  lemma SigmaFullIsBoxMean(img: Image, k: nat, row: nat, col: nat, d: nat)
    requires row < img.height && col < img.width && d < img.depth
    ensures |Neighbourhood(img, k, row, col, d)| > 0
    ensures SigmaValue(img, 255, k, row, col, d) == RoundedMean(Neighbourhood(img, k, row, col, d))
  {
    CentreIsSimilar(img, 255, k, row, col, d);
    SelectAll(Neighbourhood(img, k, row, col, d));
  }

  /** Away from the border the default radius gives the 3 x 3 block
      around the pixel: 9 candidate samples, of which the filter averages
      those similar to the centre. */
  lemma DefaultWindowIsThreeByThree(img: Image, row: nat, col: nat, d: nat)
    requires 1 <= row < img.height - 1 && 1 <= col < img.width - 1 && d < img.depth
    ensures Neighbourhood(img, DefaultKernelSize, row, col, d) == WindowSamples(img, d, row - 1, row + 2, col - 1, col + 2)
    ensures |Neighbourhood(img, DefaultKernelSize, row, col, d)| == 9
  {
    WindowSamplesSize(img, d, row - 1, row + 2, col - 1, col + 2);
  }

  /** Every window the kernel visits is non-empty and at most
      (2k+1) x (2k+1), clipped at the border. */
  lemma NeighbourhoodSize(img: Image, k: nat, row: nat, col: nat, d: nat)
    requires row < img.height && col < img.width && d < img.depth
    ensures |Neighbourhood(img, k, row, col, d)|
         == (SpanEnd(row, k, img.height) - SpanLo(row, k)) * (SpanEnd(col, k, img.width) - SpanLo(col, k))
    ensures SpanLo(row, k) <= row < SpanEnd(row, k, img.height) <= row + k + 1
    ensures SpanLo(col, k) <= col < SpanEnd(col, k, img.width) <= col + k + 1
  {
    WindowSamplesSize(img, d, SpanLo(row, k), SpanEnd(row, k, img.height), SpanLo(col, k), SpanEnd(col, k, img.width));
  }

  // ---------------------------------------------------------------------
  // Summing the histogram bins (lines 91-105)
  // ---------------------------------------------------------------------

  lemma SumSnoc(r: seq<Byte>, x: Byte)
    ensures Sum(r + [x]) == Sum(r) + x
  {
    assert (r + [x])[..|r|] == r;
  }

  /** An empty intensity range selects nothing. */
  lemma {:induction false} SelectEmpty(s: seq<Byte>, lo: int, hi: int)
    requires hi < lo
    ensures Select(s, lo, hi) == []
    decreases |s|
  {
    if |s| > 0 {
      SelectEmpty(s[..|s| - 1], lo, hi);
    }
  }

  /** Widening the range [lo, p - 1] to [lo, p] adds the samples equal to
      p: their number to the count, p times it to the sum. This is what one
      pass of the bin loop of lines 99-102 adds. */
  lemma {:induction false} SelectStep(s: seq<Byte>, lo: int, p: Byte)
    requires lo <= p
    ensures |Select(s, lo, p)| == |Select(s, lo, p - 1)| + Count(s, p)
    ensures Sum(Select(s, lo, p)) == Sum(Select(s, lo, p - 1)) + p * Count(s, p)
    decreases |s|
  {
    if |s| > 0 {
      var init := s[..|s| - 1];
      SelectStep(init, lo, p);
      CountLast(s, p);
      SelectLast(s, lo, p);
      SelectLast(s, lo, p - 1);
      var c := Count(init, p);
      if s[|s| - 1] == p {
        assert Count(s, p) == c + 1;
        Arith.MulSucc(p, c);
      } else {
        assert Count(s, p) == c;
      }
    }
  }

  /** Selecting from `s` is selecting from all but its last sample, then
      appending that sample if it is in range. */
  lemma SelectLast(s: seq<Byte>, lo: int, hi: int)
    requires |s| > 0
    ensures var rest := Select(s[..|s| - 1], lo, hi);
      if lo <= s[|s| - 1] <= hi
      then |Select(s, lo, hi)| == |rest| + 1 && Sum(Select(s, lo, hi)) == Sum(rest) + s[|s| - 1]
      else |Select(s, lo, hi)| == |rest| && Sum(Select(s, lo, hi)) == Sum(rest)
  {
    if lo <= s[|s| - 1] <= hi {
      SumSnoc(Select(s[..|s| - 1], lo, hi), s[|s| - 1]);
    }
  }

  lemma CountLast(s: seq<Byte>, v: Byte)
    requires |s| > 0
    ensures Count(s, v) == Count(s[..|s| - 1], v) + if s[|s| - 1] == v then 1 else 0
  {
    assert s == s[..|s| - 1] + [s[|s| - 1]];
    CountSnoc(s[..|s| - 1], s[|s| - 1], v);
  }

  /** The bin loop of lines 99-102 for channel `d`: the number and the sum
      of the samples with values in [lo, hi], read off histogram bins that
      hold the value counts of `s`. */
  method SumBins(hist: array2<nat>, d: nat, lo: Byte, hi: Byte, ghost s: seq<Byte>) returns (sum: int, n: int)
    requires d < hist.Length0 && hist.Length1 == 256
    requires forall v: Byte :: hist[d, v] == Count(s, v)
    ensures n == |Select(s, lo, hi)|
    ensures sum == Sum(Select(s, lo, hi))
  {
    sum, n := 0, 0;
    SelectEmpty(s, lo, lo - 1);
    var p: int := lo;
    while p <= hi
      invariant lo <= p <= Max(lo, hi + 1)
      invariant n == |Select(s, lo, p - 1)|
      invariant sum == Sum(Select(s, lo, p - 1))
    {
      SelectStep(s, lo, p);
      var c := hist[d, p];
      sum := sum + p * c;
      n := n + c;
      p := p + 1;
    }
    if hi < lo {
      SelectEmpty(s, lo, hi);
    }
  }

  /** One pass of the channel loop of lines 91-105: the output sample for
      channel `d` of (`row`, `col`), from a histogram of its window. An empty
      selection would fall back to the input sample, but the sample itself
      is always selected. */
  method SigmaSample(hist: array2<nat>, img: Image, sigma: Byte, k: nat, row: nat, col: nat, d: nat) returns (out: Byte)
    requires img.Valid() && row < img.height && col < img.width && d < img.depth
    requires Holds(hist, img, SpanLo(row, k), SpanEnd(row, k, img.height), SpanLo(col, k), SpanEnd(col, k, img.width))
    ensures out == SigmaValue(img, sigma, k, row, col, d)
  {
    img.AtIsLoc(row, col, d);
    var pixVal: Byte := img.data[Loc(row, col, img.width, img.depth, d)];
    var pixMin := Max(0, pixVal - sigma);
    var pixMax := Min(255, pixVal + sigma);
    ghost var s := Neighbourhood(img, k, row, col, d);
    HoldsCounts(hist, img, d, SpanLo(row, k), SpanEnd(row, k, img.height), SpanLo(col, k), SpanEnd(col, k, img.width));
    var sum, n := SumBins(hist, d, pixMin, pixMax, s);
    SigmaValueIsMean(img, sigma, k, row, col, d);
    if n > 0 {
      MeanOfSums(Similar(img, sigma, k, row, col, d), sum, n);
      out := ToByte((sum + n / 2) / n);
    } else {
      out := pixVal;
    }
  }

  /** The output sample is the rounded mean of a non-empty selection. */
  lemma SigmaValueIsMean(img: Image, sigma: Byte, k: nat, row: nat, col: nat, d: nat)
    requires row < img.height && col < img.width && d < img.depth
    ensures |Similar(img, sigma, k, row, col, d)| > 0
    ensures SigmaValue(img, sigma, k, row, col, d) == RoundedMean(Similar(img, sigma, k, row, col, d))
  {
    CentreIsSimilar(img, sigma, k, row, col, d);
  }

  /** The kernel's expression (sum + n / 2) / n of line 105 is the rounded
      mean once n and sum are the selection's size and sum. */
  lemma MeanOfSums(s: seq<Byte>, sum: int, n: int)
    requires n == |s| > 0 && sum == Sum(s)
    ensures (sum + n / 2) / n == RoundedMean(s)
  {
  }

  // ---------------------------------------------------------------------
  // The kernel (lines 35-109)
  // ---------------------------------------------------------------------

  /** The specified output sample at flat index `i`. */
  ghost function SigmaAt(img: Image, sigma: Byte, k: nat, i: int): Byte
    requires img.Valid() && 0 <= i < |img.data|
  {
    var q := PosOf(i, img.width, img.height, img.depth);
    SigmaValue(img, sigma, k, q.row, q.col, q.chan)
  }

  /** Every output sample before flat index `p` is final: the kernel writes
      the buffer in increasing index order. */
  ghost predicate Filled(img: Image, sigma: Byte, k: nat, out: seq<Byte>, p: int)
    requires img.Valid()
  {
    forall i :: 0 <= i < p && i < |out| && i < |img.data| ==> out[i] == SigmaAt(img, sigma, k, i)
  }

  /** Lines 72-88: move the window of column `col - 1` one column right.
      The leftmost column leaves when it is inside the image, and the new
      rightmost one enters when it is. */
  method Slide(hist: array2<nat>, img: Image, k: nat, row: nat, col: nat)
    requires img.Valid() && row < img.height && 0 < col < img.width
    requires Holds(hist, img, SpanLo(row, k), SpanEnd(row, k, img.height), SpanLo(col - 1, k), SpanEnd(col - 1, k, img.width))
    modifies hist
    ensures Holds(hist, img, SpanLo(row, k), SpanEnd(row, k, img.height), SpanLo(col, k), SpanEnd(col, k, img.width))
  {
    var rowLo, rowHi := SpanLo(row, k), SpanEnd(row, k, img.height);
    var colMinus := col - k - 1;
    var colPlus := col + k;
    if colMinus >= 0 {
      forall d: nat, v: Byte | d < img.depth {
        WindowDropFirst(img, d, rowLo, rowHi, colMinus, SpanEnd(col - 1, k, img.width), v);
      }
      RemoveColumn(hist, img, colMinus, rowLo, rowHi);
    }
    assert Holds(hist, img, rowLo, rowHi, SpanLo(col, k), SpanEnd(col - 1, k, img.width));
    if colPlus < img.width {
      AddColumn(hist, img, colPlus, rowLo, rowHi);
    }
  }

  /** Lines 91-105 for one pixel: write every channel of (`row`, `col`). */
  method EmitPixel(hist: array2<nat>, img: Image, sigma: Byte, k: nat, row: nat, col: nat, out: seq<Byte>) returns (res: seq<Byte>)
    requires img.Valid() && row < img.height && col < img.width
    requires Holds(hist, img, SpanLo(row, k), SpanEnd(row, k, img.height), SpanLo(col, k), SpanEnd(col, k, img.width))
    requires |out| == |img.data| && Filled(img, sigma, k, out, Loc(row, col, img.width, img.depth, 0))
    ensures |res| == |img.data| && Filled(img, sigma, k, res, Loc(row, col + 1, img.width, img.depth, 0))
    ensures SameFrom(res, out, Loc(row, col + 1, img.width, img.depth, 0))
  {
    ghost var base := Loc(row, col, img.width, img.depth, 0);
    res := out;
    var d := 0;
    while d < img.depth
      invariant 0 <= d <= img.depth
      invariant |res| == |img.data| && Filled(img, sigma, k, res, Loc(row, col, img.width, img.depth, d))
      invariant Loc(row, col, img.width, img.depth, d) == base + d
      invariant SameFrom(res, out, base + d)
    {
      var v := SigmaSample(hist, img, sigma, k, row, col, d);
      img.AtIsLoc(row, col, d);
      PosOfLoc(row, col, img.width, img.height, img.depth, d);
      var at := Loc(row, col, img.width, img.depth, d);
      TailKept(res, out, at, v);
      res := res[at := v];
      LocNextChannel(row, col, img.width, img.depth, d);
      d := d + 1;
    }
    LocNextColumn(row, col, img.width, img.depth);
  }

  /** `a` and `b` have the same length and agree from offset `from` on:
      nothing at or after `from` has been written. */
  predicate SameFrom(a: seq<Byte>, b: seq<Byte>, from: int)
  {
    |a| == |b| && forall i :: 0 <= i && from <= i < |a| ==> a[i] == b[i]
  }

  /** Writing offset `at` keeps every sample after it. */
  lemma TailKept(s: seq<Byte>, orig: seq<Byte>, at: nat, v: Byte)
    requires at < |s| && SameFrom(s, orig, at)
    ensures SameFrom(s[at := v], orig, at + 1)
  {
  }

  /** Lines 55-107: one row of the image, column by column; the window is
      built from scratch at column 0 and slid afterwards. */
  method FilterRow(hist: array2<nat>, img: Image, sigma: Byte, k: nat, row: nat, out: seq<Byte>) returns (res: seq<Byte>)
    requires img.Valid() && row < img.height
    requires hist.Length0 == img.depth && hist.Length1 == 256
    requires |out| == |img.data| && Filled(img, sigma, k, out, Loc(row, 0, img.width, img.depth, 0))
    modifies hist
    ensures |res| == |img.data| && Filled(img, sigma, k, res, Loc(row + 1, 0, img.width, img.depth, 0))
  {
    var rowLo, rowHi := SpanLo(row, k), SpanEnd(row, k, img.height);
    res := out;
    var col := 0;
    while col < img.width
      invariant 0 <= col <= img.width
      invariant hist.Length0 == img.depth && hist.Length1 == 256
      invariant 0 < col ==> Holds(hist, img, rowLo, rowHi, SpanLo(col - 1, k), SpanEnd(col - 1, k, img.width))
      invariant |res| == |img.data| && Filled(img, sigma, k, res, Loc(row, col, img.width, img.depth, 0))
    {
      if col == 0 {
        InitHistogram(hist, img, rowLo, rowHi, InitColumnEnd(k, img.width));
      } else {
        Slide(hist, img, k, row, col);
      }
      res := EmitPixel(hist, img, sigma, k, row, col, res);
      col := col + 1;
    }
    LocNextRow(row, img.width, img.depth);
  }

  /** The sigma filter for `depth` interleaved channels (the template of
      lines 35-109): every sample of `output` becomes the sigma-filtered
      value of the same sample of `input`. */
  method Kernel(input: seq<Byte>, output: seq<Byte>, width: nat, height: nat, depth: nat, sigma: Byte, k: nat)
    returns (result: seq<Byte>)
    requires |input| == width * height * depth && |output| == |input|
    ensures |result| == |output|
    ensures forall row, col, d :: 0 <= row < height && 0 <= col < width && 0 <= d < depth ==>
      Image(width, height, depth, result).At(row, col, d) == SigmaValue(Image(width, height, depth, input), sigma, k, row, col, d)
  {
    var img := Image(width, height, depth, input);
    var hist := new nat[depth, 256];
    result := output;
    var row := 0;
    while row < height
      invariant 0 <= row <= height
      invariant |result| == |input| && Filled(img, sigma, k, result, Loc(row, 0, width, depth, 0))
    {
      result := FilterRow(hist, img, sigma, k, row, result);
      row := row + 1;
    }
    assert Loc(height, 0, width, depth, 0) == |result|;
    forall row, col, d | 0 <= row < height && 0 <= col < width && 0 <= d < depth
      ensures Image(width, height, depth, result).At(row, col, d) == SigmaValue(img, sigma, k, row, col, d)
    {
      Image(width, height, depth, result).AtIsLoc(row, col, d);
      PosOfLoc(row, col, width, height, depth, d);
    }
  }

  /** The public entry point (lines 14-25): grey-scale and RGB images are
      filtered, any other depth leaves `output` as it was. A call that
      omits the radius uses `DefaultKernelSize`. */
  method Apply(input: seq<Byte>, output: seq<Byte>, width: nat, height: nat, depth: nat, sigma: Byte,
               kernelSize: nat := DefaultKernelSize)
    returns (result: seq<Byte>)
    requires |input| == width * height * depth && |output| == |input|
    ensures depth != 1 && depth != 3 ==> result == output
    ensures |result| == |output|
    ensures depth == 1 || depth == 3 ==>
      forall row, col, d :: 0 <= row < height && 0 <= col < width && 0 <= d < depth ==>
        Image(width, height, depth, result).At(row, col, d) == SigmaValue(Image(width, height, depth, input), sigma, kernelSize, row, col, d)
  {
    if depth == 1 || depth == 3 {
      result := Kernel(input, output, width, height, depth, sigma, kernelSize);
    } else {
      result := output;
    }
  }

  // ---------------------------------------------------------------------
  // The first window of a row (lines 59-71)
  // ---------------------------------------------------------------------

  /** One past the last column the initial window counts, as the source
      writes it: columns 0 ..= col_plus = k, whatever the width. */
  function InitColumnEndAsWritten(k: nat): nat
  {
    k + 1
  }

  /** When the radius reaches the width, the initial window of the last
      row reads past the end of the input: with width 2, height 1, depth 1
      and k = 2 it reads sample 2 of a 2-sample buffer. */
  lemma InitReadsOutsideBuffer(width: nat, height: nat, depth: nat, k: nat)
    requires 0 < width <= k && 0 < height && 0 < depth
    ensures Loc(height - 1, InitColumnEndAsWritten(k) - 1, width, depth, 0) >= width * height * depth
  {
    Arith.MulMono(width * height, (height - 1) * width + k, depth);
  }

  /** The evidently intended end of the initial window: the column span of
      column 0, min(width - 1, k) + 1. It agrees with the source whenever
      k < width. */
  function InitColumnEnd(k: nat, width: nat): (e: nat)
    ensures e <= width
    ensures k < width ==> e == InitColumnEndAsWritten(k)
    ensures e == SpanEnd(0, k, width)
  {
    Min(width, k + 1)
  }
}
