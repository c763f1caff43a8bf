/** The sliding histogram window of the sigma filter: per-channel value
    counts of a rectangle of the image, and the in-place updates that keep a
    `depth x 256` counter array equal to them. */
module Histogram {
  import opened ImageProc

  /** 1 when channel `d` of pixel (`r`, `c`) has value `v`, else 0. */
  function Hit(img: Image, r: nat, c: nat, d: nat, v: Byte): nat
    requires r < img.height && c < img.width && d < img.depth
  {
    if img.At(r, c, d) == v then 1 else 0
  }

  /** How many of rows [rowLo, rowHi) of column `c` hold `v` in channel `d`. */
  function ColumnCount(img: Image, d: nat, c: nat, rowLo: nat, rowHi: nat, v: Byte): nat
    requires d < img.depth && c < img.width && rowHi <= img.height
    decreases rowHi
  {
    if rowHi <= rowLo then 0 else ColumnCount(img, d, c, rowLo, rowHi - 1, v) + Hit(img, rowHi - 1, c, d, v)
  }

  /** How many of columns [colLo, colHi) of row `r` hold `v` in channel `d`. */
  function RowCount(img: Image, d: nat, r: nat, colLo: nat, colHi: nat, v: Byte): nat
    requires d < img.depth && r < img.height && colHi <= img.width
    decreases colHi
  {
    if colHi <= colLo then 0 else RowCount(img, d, r, colLo, colHi - 1, v) + Hit(img, r, colHi - 1, d, v)
  }

  /** How many pixels of rows [rowLo, rowHi) x columns [colLo, colHi) hold
      `v` in channel `d`. */
  function WindowCount(img: Image, d: nat, rowLo: nat, rowHi: nat, colLo: nat, colHi: nat, v: Byte): nat
    requires d < img.depth && rowHi <= img.height && colHi <= img.width
    decreases colHi
  {
    if colHi <= colLo then 0
    else WindowCount(img, d, rowLo, rowHi, colLo, colHi - 1, v) + ColumnCount(img, d, colHi - 1, rowLo, rowHi, v)
  }

  /** A column's count only grows as rows are added at its bottom. */
  lemma {:induction false} ColumnCountMono(img: Image, d: nat, c: nat, rowLo: nat, mid: nat, rowHi: nat, v: Byte)
    requires d < img.depth && c < img.width && rowHi <= img.height && mid <= rowHi
    ensures ColumnCount(img, d, c, rowLo, mid, v) <= ColumnCount(img, d, c, rowLo, rowHi, v)
    decreases rowHi
  {
    if mid < rowHi {
      ColumnCountMono(img, d, c, rowLo, mid, rowHi - 1, v);
    }
  }

  /** Sliding right takes the leftmost column out of the window. */
  lemma {:induction false} WindowDropFirst(img: Image, d: nat, rowLo: nat, rowHi: nat, colLo: nat, colHi: nat, v: Byte)
    requires d < img.depth && rowHi <= img.height && colHi <= img.width
    requires colLo < colHi
    ensures WindowCount(img, d, rowLo, rowHi, colLo, colHi, v)
         == ColumnCount(img, d, colLo, rowLo, rowHi, v) + WindowCount(img, d, rowLo, rowHi, colLo + 1, colHi, v)
    decreases colHi
  {
    if colLo + 1 < colHi {
      WindowDropFirst(img, d, rowLo, rowHi, colLo, colHi - 1, v);
    }
  }

  /** Growing the window by one row at the bottom adds that row's count. */
  lemma {:induction false} WindowAddRow(img: Image, d: nat, rowLo: nat, r: nat, colLo: nat, colHi: nat, v: Byte)
    requires d < img.depth && r < img.height && colHi <= img.width
    requires rowLo <= r
    ensures WindowCount(img, d, rowLo, r + 1, colLo, colHi, v)
         == WindowCount(img, d, rowLo, r, colLo, colHi, v) + RowCount(img, d, r, colLo, colHi, v)
    decreases colHi
  {
    if colLo < colHi {
      WindowAddRow(img, d, rowLo, r, colLo, colHi - 1, v);
    }
  }

  /** A window with no rows counts nothing. */
  lemma {:induction false} WindowNoRows(img: Image, d: nat, rowLo: nat, colLo: nat, colHi: nat, v: Byte)
    requires d < img.depth && rowLo <= img.height && colHi <= img.width
    ensures WindowCount(img, d, rowLo, rowLo, colLo, colHi, v) == 0
    decreases colHi
  {
    if colLo < colHi {
      WindowNoRows(img, d, rowLo, colLo, colHi - 1, v);
    }
  }

  /** Every pixel of the rectangle is counted under its own value. */
  lemma {:induction false} CountsOwnPixel(img: Image, d: nat, rowLo: nat, rowHi: nat, colLo: nat, colHi: nat, row: nat, col: nat)
    requires d < img.depth && rowHi <= img.height && colHi <= img.width
    requires rowLo <= row < rowHi && colLo <= col < colHi
    ensures WindowCount(img, d, rowLo, rowHi, colLo, colHi, img.At(row, col, d)) >= 1
    decreases colHi
  {
    var v := img.At(row, col, d);
    if col == colHi - 1 {
      ColumnCountMono(img, d, col, rowLo, row + 1, rowHi, v);
    } else {
      CountsOwnPixel(img, d, rowLo, rowHi, colLo, colHi - 1, row, col);
    }
  }

  /** Number of occurrences of `v` in `s`. */
  function Count(s: seq<Byte>, v: Byte): nat
    decreases |s|
  {
    if |s| == 0 then 0 else Count(s[..|s| - 1], v) + if s[|s| - 1] == v then 1 else 0
  }

  /** Count is the multiplicity of `v` in the multiset of `s`. */
  lemma {:induction false} CountIsMultiplicity(s: seq<Byte>, v: Byte)
    ensures Count(s, v) == multiset(s)[v]
    decreases |s|
  {
    if |s| > 0 {
      CountIsMultiplicity(s[..|s| - 1], v);
      assert s == s[..|s| - 1] + [s[|s| - 1]];
    }
  }

  /** Appending a sample adds one to its own count and nothing else. */
  lemma CountSnoc(s: seq<Byte>, x: Byte, v: Byte)
    ensures Count(s + [x], v) == Count(s, v) + if x == v then 1 else 0
  {
    assert (s + [x])[..|s|] == s;
  }

  /** The count of a concatenation is the sum of the counts. */
  lemma {:induction false} CountAppend(a: seq<Byte>, b: seq<Byte>, v: Byte)
    ensures Count(a + b, v) == Count(a, v) + Count(b, v)
    decreases |b|
  {
    if |b| > 0 {
      var init := b[..|b| - 1];
      CountAppend(a, init, v);
      assert a + b == (a + init) + [b[|b| - 1]];
      CountSnoc(a + init, b[|b| - 1], v);
    } else {
      assert a + b == a;
    }
  }

  /** A value that occurs in `s` makes `s` non-empty. */
  lemma CountNonEmpty(s: seq<Byte>, v: Byte)
    requires Count(s, v) > 0
    ensures |s| > 0
  {
  }

  /** Channel `d` of column `c`, rows [rowLo, rowHi), top to bottom. */
  function ColumnSamples(img: Image, d: nat, c: nat, rowLo: nat, rowHi: nat): seq<Byte>
    requires d < img.depth && c < img.width && rowHi <= img.height
    decreases rowHi
  {
    if rowHi <= rowLo then [] else ColumnSamples(img, d, c, rowLo, rowHi - 1) + [img.At(rowHi - 1, c, d)]
  }

  /** Channel `d` of the rectangle rows [rowLo, rowHi) x columns
      [colLo, colHi), column by column: the samples the window holds. */
  function WindowSamples(img: Image, d: nat, rowLo: nat, rowHi: nat, colLo: nat, colHi: nat): seq<Byte>
    requires d < img.depth && rowHi <= img.height && colHi <= img.width
    decreases colHi
  {
    if colHi <= colLo then []
    else WindowSamples(img, d, rowLo, rowHi, colLo, colHi - 1) + ColumnSamples(img, d, colHi - 1, rowLo, rowHi)
  }

  lemma {:induction false} ColumnSamplesCount(img: Image, d: nat, c: nat, rowLo: nat, rowHi: nat, v: Byte)
    requires d < img.depth && c < img.width && rowHi <= img.height
    ensures Count(ColumnSamples(img, d, c, rowLo, rowHi), v) == ColumnCount(img, d, c, rowLo, rowHi, v)
    decreases rowHi
  {
    if rowLo < rowHi {
      ColumnSamplesCount(img, d, c, rowLo, rowHi - 1, v);
      CountSnoc(ColumnSamples(img, d, c, rowLo, rowHi - 1), img.At(rowHi - 1, c, d), v);
    }
  }

  /** The counts are the value counts of the window's samples. */
  lemma {:induction false} WindowSamplesCount(img: Image, d: nat, rowLo: nat, rowHi: nat, colLo: nat, colHi: nat, v: Byte)
    requires d < img.depth && rowHi <= img.height && colHi <= img.width
    ensures Count(WindowSamples(img, d, rowLo, rowHi, colLo, colHi), v) == WindowCount(img, d, rowLo, rowHi, colLo, colHi, v)
    decreases colHi
  {
    if colLo < colHi {
      WindowSamplesCount(img, d, rowLo, rowHi, colLo, colHi - 1, v);
      ColumnSamplesCount(img, d, colHi - 1, rowLo, rowHi, v);
      CountAppend(WindowSamples(img, d, rowLo, rowHi, colLo, colHi - 1), ColumnSamples(img, d, colHi - 1, rowLo, rowHi), v);
    }
  }

  lemma {:induction false} ColumnSamplesSize(img: Image, d: nat, c: nat, rowLo: nat, rowHi: nat)
    requires d < img.depth && c < img.width && rowLo <= rowHi <= img.height
    ensures |ColumnSamples(img, d, c, rowLo, rowHi)| == rowHi - rowLo
    decreases rowHi
  {
    if rowLo < rowHi {
      ColumnSamplesSize(img, d, c, rowLo, rowHi - 1);
    }
  }

  /** The window holds one sample per pixel of its rectangle. */
  lemma {:induction false} WindowSamplesSize(img: Image, d: nat, rowLo: nat, rowHi: nat, colLo: nat, colHi: nat)
    requires d < img.depth && rowLo <= rowHi <= img.height && colLo <= colHi <= img.width
    ensures |WindowSamples(img, d, rowLo, rowHi, colLo, colHi)| == (rowHi - rowLo) * (colHi - colLo)
    decreases colHi
  {
    if colLo < colHi {
      WindowSamplesSize(img, d, rowLo, rowHi, colLo, colHi - 1);
      ColumnSamplesSize(img, d, colHi - 1, rowLo, rowHi);
      assert (rowHi - rowLo) * (colHi - colLo) == (rowHi - rowLo) * (colHi - 1 - colLo) + (rowHi - rowLo);
    }
  }

  /** `hist[d, v]` counts, per channel `d`, the samples equal to `v` in the
      window rows [rowLo, rowHi) x columns [colLo, colHi). */
  ghost predicate Holds(hist: array2<nat>, img: Image, rowLo: nat, rowHi: nat, colLo: nat, colHi: nat)
    requires rowHi <= img.height && colHi <= img.width
    reads hist
  {
    && hist.Length0 == img.depth && hist.Length1 == 256
    && forall d: nat, v: Byte | d < img.depth ::
         hist[d, v] == WindowCount(img, d, rowLo, rowHi, colLo, colHi, v)
  }

  /** The innermost loops of lines 67-69 and 84-86: count every channel of
      pixel (`r`, `c`) once. */
  method AddPixel(hist: array2<nat>, img: Image, r: nat, c: nat)
    requires img.Valid() && r < img.height && c < img.width
    requires hist.Length0 == img.depth && hist.Length1 == 256
    modifies hist
    ensures forall d: nat, v: Byte | d < img.depth :: hist[d, v] == old(hist[d, v]) + Hit(img, r, c, d, v)
  {
    var d := 0;
    while d < img.depth
      invariant 0 <= d <= img.depth
      invariant forall d': nat, v: Byte | d' < img.depth ::
        hist[d', v] == old(hist[d', v]) + (if d' < d then Hit(img, r, c, d', v) else 0)
    {
      var v := img.At(r, c, d);
      hist[d, v] := hist[d, v] + 1;
      d := d + 1;
    }
  }

  /** The innermost loop of lines 76-78: uncount every channel of pixel
      (`r`, `c`). No decremented bin is empty, as each holds at least that
      sample. */
  method RemovePixel(hist: array2<nat>, img: Image, r: nat, c: nat)
    requires img.Valid() && r < img.height && c < img.width
    requires hist.Length0 == img.depth && hist.Length1 == 256
    requires forall d: nat, v: Byte | d < img.depth :: hist[d, v] >= Hit(img, r, c, d, v)
    modifies hist
    ensures forall d: nat, v: Byte | d < img.depth :: hist[d, v] + Hit(img, r, c, d, v) == old(hist[d, v])
  {
    var d := 0;
    while d < img.depth
      invariant 0 <= d <= img.depth
      invariant forall d': nat, v: Byte | d' < img.depth ::
        hist[d', v] + (if d' < d then Hit(img, r, c, d', v) else 0) == old(hist[d', v])
    {
      var v := img.At(r, c, d);
      assert Hit(img, r, c, d, v) == 1;
      hist[d, v] := hist[d, v] - 1;
      d := d + 1;
    }
  }

  /** Lines 60-63: every bin back to zero. */
  method ClearHistogram(hist: array2<nat>)
    modifies hist
    ensures forall d, v :: 0 <= d < hist.Length0 && 0 <= v < hist.Length1 ==> hist[d, v] == 0
  {
    var d := 0;
    while d < hist.Length0
      invariant 0 <= d <= hist.Length0
      invariant forall d', v :: 0 <= d' < d && 0 <= v < hist.Length1 ==> hist[d', v] == 0
    {
      var i := 0;
      while i < hist.Length1
        invariant 0 <= i <= hist.Length1
        invariant forall d', v :: 0 <= d' < d && 0 <= v < hist.Length1 ==> hist[d', v] == 0
        invariant forall v :: 0 <= v < i ==> hist[d, v] == 0
      {
        hist[d, i] := 0;
        i := i + 1;
      }
      d := d + 1;
    }
  }

  /** Lines 59-71: clear every bin, then count rows [rowLo, rowHi) x
      columns [0, colHi), row by row. */
  method InitHistogram(hist: array2<nat>, img: Image, rowLo: nat, rowHi: nat, colHi: nat)
    requires img.Valid() && rowLo <= rowHi <= img.height && colHi <= img.width
    requires hist.Length0 == img.depth && hist.Length1 == 256
    modifies hist
    ensures Holds(hist, img, rowLo, rowHi, 0, colHi)
  {
    ClearHistogram(hist);
    forall d: nat, v: Byte | d < img.depth
      ensures WindowCount(img, d, rowLo, rowLo, 0, colHi, v) == 0
    {
      WindowNoRows(img, d, rowLo, 0, colHi, v);
    }
    var r := rowLo;
    while r < rowHi
      invariant rowLo <= r <= rowHi
      invariant Holds(hist, img, rowLo, r, 0, colHi)
    {
      CountRow(hist, img, rowLo, r, colHi);
      r := r + 1;
    }
  }

  /** One pass of the row loop of lines 65-71: count columns [0, colHi) of
      row `r`, growing the window by that row. */
  method CountRow(hist: array2<nat>, img: Image, rowLo: nat, r: nat, colHi: nat)
    requires img.Valid() && rowLo <= r < img.height && colHi <= img.width
    requires Holds(hist, img, rowLo, r, 0, colHi)
    modifies hist
    ensures Holds(hist, img, rowLo, r + 1, 0, colHi)
  {
    var c := 0;
    while c < colHi
      invariant 0 <= c <= colHi
      invariant forall d: nat, v: Byte | d < img.depth ::
        hist[d, v] == WindowCount(img, d, rowLo, r, 0, colHi, v) + RowCount(img, d, r, 0, c, v)
    {
      AddPixel(hist, img, r, c);
      c := c + 1;
    }
    forall d: nat, v: Byte | d < img.depth {
      WindowAddRow(img, d, rowLo, r, 0, colHi, v);
    }
  }

  /** Lines 82-88: add column `c`, rows [rowLo, rowHi), to every channel. */
  method AddColumn(hist: array2<nat>, img: Image, c: nat, rowLo: nat, rowHi: nat)
    requires img.Valid() && c < img.width && rowLo <= rowHi <= img.height
    requires hist.Length0 == img.depth && hist.Length1 == 256
    modifies hist
    ensures forall d: nat, v: Byte | d < img.depth ::
      hist[d, v] == old(hist[d, v]) + ColumnCount(img, d, c, rowLo, rowHi, v)
  {
    var r := rowLo;
    while r < rowHi
      invariant rowLo <= r <= rowHi
      invariant forall d: nat, v: Byte | d < img.depth ::
        hist[d, v] == old(hist[d, v]) + ColumnCount(img, d, c, rowLo, r, v)
    {
      AddPixel(hist, img, r, c);
      r := r + 1;
    }
  }

  /** Lines 74-80: remove column `c`, rows [rowLo, rowHi), from every
      channel. When the counters hold at least that column's samples, no
      decrement ever meets an empty bin. */
  method RemoveColumn(hist: array2<nat>, img: Image, c: nat, rowLo: nat, rowHi: nat)
    requires img.Valid() && c < img.width && rowLo <= rowHi <= img.height
    requires hist.Length0 == img.depth && hist.Length1 == 256
    requires forall d: nat, v: Byte | d < img.depth ::
      hist[d, v] >= ColumnCount(img, d, c, rowLo, rowHi, v)
    modifies hist
    ensures forall d: nat, v: Byte | d < img.depth ::
      hist[d, v] + ColumnCount(img, d, c, rowLo, rowHi, v) == old(hist[d, v])
  {
    var r := rowLo;
    while r < rowHi
      invariant rowLo <= r <= rowHi
      invariant forall d: nat, v: Byte | d < img.depth ::
        hist[d, v] + ColumnCount(img, d, c, rowLo, r, v) == old(hist[d, v])
    {
      forall d: nat, v: Byte | d < img.depth {
        ColumnCountMono(img, d, c, rowLo, r + 1, rowHi, v);
      }
      RemovePixel(hist, img, r, c);
      r := r + 1;
    }
  }

  /** Channel `d` of a histogram of a window counts the window's samples. */
  lemma HoldsCounts(hist: array2<nat>, img: Image, d: nat, rowLo: nat, rowHi: nat, colLo: nat, colHi: nat)
    requires rowHi <= img.height && colHi <= img.width && d < img.depth
    requires Holds(hist, img, rowLo, rowHi, colLo, colHi)
    ensures forall v: Byte :: hist[d, v] == Count(WindowSamples(img, d, rowLo, rowHi, colLo, colHi), v)
  {
    forall v: Byte
      ensures hist[d, v] == Count(WindowSamples(img, d, rowLo, rowHi, colLo, colHi), v)
    {
      WindowSamplesCount(img, d, rowLo, rowHi, colLo, colHi, v);
    }
  }
}
