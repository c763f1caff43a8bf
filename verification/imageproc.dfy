/** The flat row-major, channel-interleaved pixel layout shared by every
    kernel: the LOC offset macro, its inverse, and the 8-bit sample type. */
module ImageProc {
  import Arith

  /** An `unsigned char` sample. */
  type Byte = x: int | 0 <= x < 256

  /** `static_cast<unsigned char>`: keeps the low eight bits. */
  function ToByte(x: int): (b: Byte)
    ensures 0 <= x < 256 ==> b == x
    ensures (x - b) % 256 == 0
  {
    x % 256
  }

  function Max(a: int, b: int): int { if a < b then b else a }
  function Min(a: int, b: int): int { if a < b then a else b }

  /** The LOC macro: offset of channel `d` of pixel (`row`, `col`) in a buffer
      whose rows hold `ld` pixels of `depth` interleaved channels. */
  function Loc(row: int, col: int, ld: int, depth: int, d: int): int
  {
    (row * ld + col) * depth + d
  }

  /** A (row, column, channel) triple. */
  datatype Pos = Pos(row: nat, col: nat, chan: nat)

  /** Every offset of a width x height x depth buffer is the LOC of exactly
      one in-range triple; this is that triple. */
  function PosOf(i: int, width: nat, height: nat, depth: nat): (p: Pos)
    requires 0 <= i < width * height * depth
    ensures p.row < height && p.col < width && p.chan < depth
    ensures Loc(p.row, p.col, width, depth, p.chan) == i
  {
    NonZeroFactors(i, width, height, depth);
    Decompose(i, width, height, depth);
    Pos((i / depth) / width, (i / depth) % width, i % depth)
  }

  lemma Decompose(i: int, width: nat, height: nat, depth: nat)
    requires 0 <= i < width * height * depth && 0 < width && 0 < depth
    ensures 0 <= (i / depth) / width < height
    ensures 0 <= (i / depth) % width < width && 0 <= i % depth < depth
    ensures Loc((i / depth) / width, (i / depth) % width, width, depth, i % depth) == i
  {
    var q, d := i / depth, i % depth;
    var r, c := q / width, q % width;
    QuotientBelow(i, q, d, depth, width * height);
    assert width * height == height * width;
    QuotientBelow(q, r, c, width, height);
  }

  /** x = q * m + r with 0 <= r and x < bound * m bounds the quotient: 0 <= q < bound. */
  lemma QuotientBelow(x: int, q: int, r: int, m: int, bound: int)
    requires 0 < m && 0 <= r < m && 0 <= x && x == q * m + r && x < bound * m
    ensures 0 <= q < bound
  {
    if q < 0 {
      Arith.MulMono(q, -1, m);
    }
    if q >= bound {
      Arith.MulMono(bound, q, m);
    }
  }

  lemma NonZeroFactors(i: int, width: nat, height: nat, depth: nat)
    requires 0 <= i < width * height * depth
    ensures 0 < width && 0 < height && 0 < depth
  {
  }

  lemma LocInBounds(row: int, col: int, width: nat, height: nat, depth: nat, d: int)
    requires 0 <= row < height && 0 <= col < width && 0 <= d < depth
    ensures 0 <= row * width + col < width * height
    ensures 0 <= Loc(row, col, width, depth, d) < width * height * depth
  {
    Arith.MulMono(0, row, width);
    Arith.MulMono(row, height - 1, width);
    Arith.MulMono(0, row * width + col, depth);
    Arith.MulMono(row * width + col, width * height - 1, depth);
  }

  /** PosOf undoes LOC on the in-bounds domain. */
  lemma PosOfLoc(row: int, col: int, width: nat, height: nat, depth: nat, d: int)
    requires 0 <= row < height && 0 <= col < width && 0 <= d < depth
    ensures 0 <= Loc(row, col, width, depth, d) < width * height * depth
    ensures PosOf(Loc(row, col, width, depth, d), width, height, depth) == Pos(row, col, d)
  {
    LocInBounds(row, col, width, height, depth, d);
    var i := Loc(row, col, width, depth, d);
    Arith.DivModUnique(i, row * width + col, d, depth);
    Arith.DivModUnique(row * width + col, row, col, width);
  }

  /** Distinct in-range (row, col, channel) triples never share an offset. */
  lemma LocInjective(r1: int, c1: int, d1: int, r2: int, c2: int, d2: int, width: nat, height: nat, depth: nat)
    requires 0 <= r1 < height && 0 <= c1 < width && 0 <= d1 < depth
    requires 0 <= r2 < height && 0 <= c2 < width && 0 <= d2 < depth
    ensures Loc(r1, c1, width, depth, d1) == Loc(r2, c2, width, depth, d2) <==> (r1, c1, d1) == (r2, c2, d2)
  {
    PosOfLoc(r1, c1, width, height, depth, d1);
    PosOfLoc(r2, c2, width, height, depth, d2);
  }

  /** Channels of one pixel are adjacent. */
  lemma LocNextChannel(row: int, col: int, ld: int, depth: int, d: int)
    ensures Loc(row, col, ld, depth, d + 1) == Loc(row, col, ld, depth, d) + 1
  {
  }

  /** Pixels of one row are `depth` samples apart. */
  lemma LocNextColumn(row: int, col: int, ld: int, depth: int)
    ensures Loc(row, col + 1, ld, depth, 0) == Loc(row, col, ld, depth, 0) + depth
  {
  }

  /** Rows are `ld * depth` samples apart, and the sample after the last one
      of a row is the first one of the next row. */
  lemma LocNextRow(row: int, ld: int, depth: int)
    ensures Loc(row + 1, 0, ld, depth, 0) == Loc(row, 0, ld, depth, 0) + ld * depth
    ensures Loc(row + 1, 0, ld, depth, 0) == Loc(row, ld, ld, depth, 0)
  {
    assert (row + 1) * ld == row * ld + ld;
    assert (row * ld + ld) * depth == row * ld * depth + ld * depth;
  }

  /** A pixel buffer of `width * height * depth` samples. */
  datatype Image = Image(width: nat, height: nat, depth: nat, data: seq<Byte>)
  {
    predicate Valid()
    {
      |data| == width * height * depth
    }

    /** `input[LOC(row, col, width, depth, d)]`. For a valid image the
        offset is always in range (AtIsLoc), so the fallback 0 is never
        read. It is a guard rather than `requires Valid()` only because the
        bound proof is nonlinear and would otherwise be needed in every
        caller's context. On a buffer of the wrong length the 0 is made up.
        The kernels only ever apply `At` to valid images. */
    function At(row: int, col: int, d: int): Byte
      requires 0 <= row < height && 0 <= col < width && 0 <= d < depth
    {
      var i := Loc(row, col, width, depth, d);
      if 0 <= i < |data| then data[i] else 0
    }

    lemma AtIsLoc(row: int, col: int, d: int)
      requires Valid() && 0 <= row < height && 0 <= col < width && 0 <= d < depth
      ensures 0 <= Loc(row, col, width, depth, d) < |data|
      ensures At(row, col, d) == data[Loc(row, col, width, depth, d)]
    {
      LocInBounds(row, col, width, height, depth, d);
    }
  }
}
