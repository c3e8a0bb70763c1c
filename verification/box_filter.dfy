/** The 4×4 block average of the canvas program. The image is cut into
    blocks of 4×4 pixels from the top-left corner; the loop visits the
    blocks that start before `width - 5` and `height - 5`, reads the
    block's 16 pixels, takes the integer mean of the packed 24-bit values
    (a 32-bit sum divided by 16), and writes that mean to all 16 pixels. */
module BoxFilter {
  import opened Pixels

  /** `constexpr int each = 4`. */
  const Each := 4

  /** The first row or column of the block holding `v`. */
  function BlockStart(v: int): int {
    v - v % Each
  }

  /** The pixel lies in a block the loop visits. The bounds are the
      loop's: `y < height - each - 1` and `x < width - each - 1`. */
  predicate Visited(c: Canvas, x: int, y: int) {
    BlockStart(x) < c.width - Each - 1 && BlockStart(y) < c.height - Each - 1
  }

  /** The 16 pixels of the block at `(left, top)`, in the order `r[iy * each + ix]`
      holds them: row by row. */
  function Block(c: Canvas, left: int, top: int): (r: seq<u32>)
    requires Valid(c)
    ensures |r| == Each * Each
  {
    seq(Each * Each, j requires 0 <= j < Each * Each => GetAbs(c, left + j % Each, top + j / Each))
  }

  function Sum(s: seq<int>): int
    decreases |s|
  {
    if |s| == 0 then 0 else Sum(s[..|s| - 1]) + s[|s| - 1]
  }

  /** The value every pixel of a visited block ends up holding. */
  function BlockMean(c: Canvas, left: int, top: int): int
    requires Valid(c)
  {
    Sum(Block(c, left, top)) / (Each * Each)
  }

  /** A sum of values below `bound` stays below `|s| * bound`. */
  lemma {:induction false} SumBelow(s: seq<int>, bound: int)
    requires |s| > 0 && forall i | 0 <= i < |s| :: 0 <= s[i] < bound
    ensures 0 <= Sum(s) < |s| * bound
    decreases |s|
  {
    if |s| > 1 {
      var front := s[..|s| - 1];
      assert forall i | 0 <= i < |front| :: front[i] == s[i];
      SumBelow(front, bound);
    }
  }

  /** The sum of `n` copies of `v`. */
  lemma {:induction false} SumConstant(s: seq<int>, v: int)
    requires forall i | 0 <= i < |s| :: s[i] == v
    ensures Sum(s) == |s| * v
    decreases |s|
  {
    if |s| > 0 {
      var front := s[..|s| - 1];
      assert forall i | 0 <= i < |front| :: front[i] == s[i];
      SumConstant(front, v);
    }
  }

  lemma SumSnoc(s: seq<int>, k: nat)
    requires k < |s|
    ensures Sum(s[..k + 1]) == Sum(s[..k]) + s[k]
  {
    assert s[..k + 1][..k] == s[..k];
  }

  /** The mean of a block is a 24-bit colour, and the 32-bit sum the loop
      accumulates never wraps: it stays below 2^28. */
  lemma MeanFits(c: Canvas, left: int, top: int)
    requires Valid(c)
    ensures 0 <= Sum(Block(c, left, top)) < 0x1000_0000
    ensures 0 <= BlockMean(c, left, top) < 0x100_0000
  {
    SumBelow(Block(c, left, top), 0x100_0000);
  }

  /** A block of one colour keeps that colour. */
  lemma UniformBlock(c: Canvas, left: int, top: int, v: int)
    requires Valid(c)
    requires forall j | 0 <= j < Each * Each :: GetAbs(c, left + j % Each, top + j / Each) == v
    ensures BlockMean(c, left, top) == v
  {
    SumConstant(Block(c, left, top), v);
  }

  /** Slot `iy * each + ix` of a block is column `ix` of row `iy`. */
  lemma BlockIndex(iy: int, ix: int)
    requires 0 <= ix < Each
    ensures (iy * Each + ix) % Each == ix && (iy * Each + ix) / Each == iy
  {
  }

  /** The first loop pair: `r[iy * each + ix] = getabs(ix + x, iy + y)`.
      The array is filled in index order, so it is built top appending. */
  method ReadBlock(c: Canvas, x: int, y: int) returns (r: seq<u32>)
    requires Valid(c) && 0 <= x && x + Each <= c.width && 0 <= y && y + Each <= c.height
    ensures r == Block(c, x, y)
  {
    r := [];
    var iy := 0;
    while iy < Each
      invariant 0 <= iy <= Each && |r| == iy * Each
      invariant forall j | 0 <= j < |r| :: r[j] == GetAbs(c, x + j % Each, y + j / Each)
    {
      var ix := 0;
      while ix < Each
        invariant 0 <= ix <= Each && |r| == iy * Each + ix
        invariant forall j | 0 <= j < |r| :: r[j] == GetAbs(c, x + j % Each, y + j / Each)
      {
        BlockIndex(iy, ix);
        r := r + [GetAbs(c, ix + x, iy + y)];
        ix := ix + 1;
      }
      iy := iy + 1;
    }
  }

  /** The second loop pair and the division: a `uint32_t` sum of the 16
      values, then `/= each * each`. */
  method Average(r: seq<u32>) returns (average: u32)
    requires |r| == Each * Each && forall j | 0 <= j < |r| :: r[j] < 0x100_0000
    ensures average == Sum(r) / (Each * Each)
    ensures average < 0x100_0000
  {
    SumBelow(r, 0x100_0000);
    average := 0;
    var iy := 0;
    while iy < Each
      invariant 0 <= iy <= Each
      invariant average == Sum(r[..iy * Each])
    {
      var ix := 0;
      while ix < Each
        invariant 0 <= ix <= Each
        invariant average == Sum(r[..iy * Each + ix])
      {
        var k := iy * Each + ix;
        SumSnoc(r, k);
        SumBelow(r[..k + 1], 0x100_0000);
        average := (average + r[k]) % 0x1_0000_0000;
        ix := ix + 1;
      }
      iy := iy + 1;
    }
    assert r[..|r|] == r;
    average := average / (Each * Each);
  }

  /** The block at `(x, y)` is painted with `average` in its first
      `rows` rows and the first `cols` pixels of the next row; every other
      pixel is as in `c`. */
  ghost predicate Painted(c: Canvas, out: Canvas, x: int, y: int, rows: int, cols: int, average: int)
    requires Valid(c) && Valid(out)
  {
    forall px, py {:trigger GetAbs(out, px, py)} | InBounds(c, px, py) ::
      GetAbs(out, px, py) ==
        if x <= px < x + Each && (y <= py < y + rows || (py == y + rows && px < x + cols)) then average
        else GetAbs(c, px, py)
  }

  lemma PaintOne(c: Canvas, before: Canvas, x: int, y: int, rows: int, cols: int, average: u32)
    requires Valid(c) && Valid(before) && before.width == c.width && before.height == c.height
    requires 0 <= cols < Each && average < 0x100_0000
    requires Painted(c, before, x, y, rows, cols, average)
    ensures Painted(c, SetAbs(before, x + cols, y + rows, average).1, x, y, rows, cols + 1, average)
  {
    var out := SetAbs(before, x + cols, y + rows, average).1;
    forall px, py | InBounds(c, px, py)
      ensures GetAbs(out, px, py) ==
        if x <= px < x + Each && (y <= py < y + rows || (py == y + rows && px < x + cols + 1)) then average
        else GetAbs(c, px, py)
    {
      PaintPixel(c, before, x, y, rows, cols, average, px, py);
    }
  }

  /** `PaintOne` at one pixel. */
  lemma PaintPixel(c: Canvas, before: Canvas, x: int, y: int, rows: int, cols: int, average: u32, px: int, py: int)
    requires Valid(c) && Valid(before) && before.width == c.width && before.height == c.height
    requires 0 <= cols < Each && average < 0x100_0000 && InBounds(c, px, py)
    requires GetAbs(before, px, py) ==
      if x <= px < x + Each && (y <= py < y + rows || (py == y + rows && px < x + cols)) then average
      else GetAbs(c, px, py)
    ensures GetAbs(SetAbs(before, x + cols, y + rows, average).1, px, py) ==
      if x <= px < x + Each && (y <= py < y + rows || (py == y + rows && px < x + cols + 1)) then average
      else GetAbs(c, px, py)
  {
    GetAfterSetAny(before, x + cols, y + rows, average, px, py);
    OneMore(x, y, rows, cols, px, py);
    Overwrite(
      GetAbs(SetAbs(before, x + cols, y + rows, average).1, px, py), GetAbs(before, px, py), GetAbs(c, px, py), average,
      px == x + cols && py == y + rows,
      x <= px < x + Each && (y <= py < y + rows || (py == y + rows && px < x + cols)),
      x <= px < x + Each && (y <= py < y + rows || (py == y + rows && px < x + cols + 1)));
  }

  /** Painting one more pixel of a row grows the painted region by that
      pixel only. */
  lemma OneMore(x: int, y: int, rows: int, cols: int, px: int, py: int)
    requires 0 <= cols < Each
    ensures (x <= px < x + Each && (y <= py < y + rows || (py == y + rows && px < x + cols + 1))) <==>
            (x <= px < x + Each && (y <= py < y + rows || (py == y + rows && px < x + cols))) || (px == x + cols && py == y + rows)
  {
  }

  /** A value overwritten with `v` where `here` holds, over one that was
      `v` where `was` holds, is `v` exactly where either holds. */
  lemma Overwrite(a: int, b: int, g: int, v: int, here: bool, was: bool, now: bool)
    requires a == (if here then v else b) && b == (if was then v else g)
    requires now <==> was || here
    ensures a == if now then v else g
  {
  }

  lemma RowPainted(c: Canvas, out: Canvas, x: int, y: int, rows: int, average: int)
    requires Valid(c) && Valid(out) && 0 <= rows
    ensures Painted(c, out, x, y, rows, Each, average) <==> Painted(c, out, x, y, rows + 1, 0, average)
  {
    forall px, py | InBounds(c, px, py)
      ensures (x <= px < x + Each && (y <= py < y + rows || (py == y + rows && px < x + Each))) <==>
              (x <= px < x + Each && (y <= py < y + rows + 1 || (py == y + rows + 1 && px < x)))
    {
    }
  }

  /** The third loop pair: `setabs(ix + x, iy + y, average)` over the
      block, which lies inside the image. */
  method WriteBlock(c: Canvas, x: int, y: int, average: u32) returns (out: Canvas)
    requires Valid(c) && 0 <= x && x + Each <= c.width && 0 <= y && y + Each <= c.height
    requires average < 0x100_0000
    ensures Valid(out) && out.width == c.width && out.height == c.height
    ensures forall px, py {:trigger GetAbs(out, px, py)} | InBounds(c, px, py) ::
      GetAbs(out, px, py) == if x <= px < x + Each && y <= py < y + Each then average else GetAbs(c, px, py)
  {
    out := c;
    var iy := 0;
    while iy < Each
      invariant 0 <= iy <= Each
      invariant Valid(out) && out.width == c.width && out.height == c.height
      invariant Painted(c, out, x, y, iy, 0, average)
    {
      var ix := 0;
      while ix < Each
        invariant 0 <= ix <= Each
        invariant Valid(out) && out.width == c.width && out.height == c.height
        invariant Painted(c, out, x, y, iy, ix, average)
      {
        PaintOne(c, out, x, y, iy, ix, average);
        out := SetAbs(out, ix + x, iy + y, average).1;
        ix := ix + 1;
      }
      RowPainted(c, out, x, y, iy, average);
      iy := iy + 1;
    }
  }

  /** Where a coordinate stands against its block start and against a
      multiple of four: block starts are multiples of four, so they are
      four apart at least. */
  lemma Aligned(v: int, b: int)
    requires b % Each == 0
    ensures BlockStart(v) <= v < BlockStart(v) + Each
    ensures 0 <= v ==> 0 <= BlockStart(v)
    ensures BlockStart(v) == b <==> b <= v < b + Each
    ensures BlockStart(v) < b ==> BlockStart(v) + Each <= b
    ensures b < BlockStart(v) ==> b + Each <= BlockStart(v)
  {
  }

  /** Where the block loop stands: the blocks before row `y`, and those
      before column `x` in row `y`, hold their means. */
  predicate Done(c: Canvas, x: int, y: int, px: int, py: int) {
    Visited(c, px, py) && (BlockStart(py) < y || (BlockStart(py) == y && BlockStart(px) < x))
  }

  /** `out` is `c` with the blocks done by `(x, y)` averaged. */
  ghost predicate Filtered(c: Canvas, out: Canvas, x: int, y: int)
    requires Valid(c)
  {
    && Valid(out) && out.width == c.width && out.height == c.height
    && forall px, py {:trigger GetAbs(out, px, py)} | InBounds(c, px, py) ::
         GetAbs(out, px, py) == if Done(c, x, y, px, py) then BlockMean(c, BlockStart(px), BlockStart(py)) else GetAbs(c, px, py)
  }

  /** The whole loop, lines 119-138: each pixel of a visited block holds
      the mean of its block as it was before the loop, every other pixel
      is left alone. The blocks do not overlap, so every block is read
      before anything is written to it. */
  method BoxAverage(c: Canvas) returns (out: Canvas)
    requires Valid(c)
    ensures Valid(out) && out.width == c.width && out.height == c.height
    ensures forall px, py {:trigger GetAbs(out, px, py)} | InBounds(c, px, py) ::
      GetAbs(out, px, py) == if Visited(c, px, py) then BlockMean(c, BlockStart(px), BlockStart(py)) else GetAbs(c, px, py)
  {
    out := c;
    var y := 0;
    Start(c);
    while y < c.height - Each - 1
      invariant 0 <= y && y % Each == 0
      invariant Filtered(c, out, 0, y)
    {
      var x := 0;
      while x < c.width - Each - 1
        invariant 0 <= x && x % Each == 0
        invariant Filtered(c, out, x, y)
      {
        out := Step(c, out, x, y);
        x := x + Each;
      }
      RowDone(c, out, x, y);
      y := y + Each;
    }
    Finished(c, out, y);
  }

  /** Before the loop no block is done. */
  lemma Start(c: Canvas)
    requires Valid(c)
    ensures Filtered(c, c, 0, 0)
  {
    forall px, py | InBounds(c, px, py)
      ensures !Done(c, 0, 0, px, py)
    {
      Aligned(px, 0);
      Aligned(py, 0);
    }
  }

  /** Past the last block of a row, the row is done. */
  lemma RowDone(c: Canvas, out: Canvas, x: int, y: int)
    requires Valid(c) && y % Each == 0 && x >= c.width - Each - 1
    requires Filtered(c, out, x, y)
    ensures Filtered(c, out, 0, y + Each)
  {
    forall px, py | InBounds(c, px, py)
      ensures GetAbs(out, px, py) ==
        if Done(c, 0, y + Each, px, py) then BlockMean(c, BlockStart(px), BlockStart(py)) else GetAbs(c, px, py)
    {
      Aligned(px, 0);
      Aligned(py, y);
      assert Done(c, x, y, px, py) <==> Done(c, 0, y + Each, px, py);
    }
  }

  /** Past the last row of blocks, every visited block is done. */
  lemma Finished(c: Canvas, out: Canvas, y: int)
    requires Valid(c) && y >= c.height - Each - 1
    requires Filtered(c, out, 0, y)
    ensures forall px, py {:trigger GetAbs(out, px, py)} | InBounds(c, px, py) ::
      GetAbs(out, px, py) == if Visited(c, px, py) then BlockMean(c, BlockStart(px), BlockStart(py)) else GetAbs(c, px, py)
  {
    forall px, py | InBounds(c, px, py)
      ensures GetAbs(out, px, py) == if Visited(c, px, py) then BlockMean(c, BlockStart(px), BlockStart(py)) else GetAbs(c, px, py)
    {
      Aligned(px, 0);
      Aligned(py, 0);
      assert Done(c, 0, y, px, py) <==> Visited(c, px, py);
    }
  }

  /** A block not yet done still reads as in `c`. */
  lemma Untouched(c: Canvas, cur: Canvas, x: int, y: int)
    requires Valid(c) && x % Each == 0 && y % Each == 0
    requires Filtered(c, cur, x, y)
    ensures Block(cur, x, y) == Block(c, x, y)
  {
    forall j | 0 <= j < Each * Each
      ensures Block(cur, x, y)[j] == Block(c, x, y)[j]
    {
      UntouchedPixel(c, cur, x, y, x + j % Each, y + j / Each);
    }
  }

  lemma UntouchedPixel(c: Canvas, cur: Canvas, x: int, y: int, px: int, py: int)
    requires Valid(c) && x % Each == 0 && y % Each == 0
    requires Filtered(c, cur, x, y)
    requires x <= px < x + Each && y <= py < y + Each
    ensures GetAbs(cur, px, py) == GetAbs(c, px, py)
  {
    Aligned(px, x);
    Aligned(py, y);
    assert !Done(c, x, y, px, py);
  }

  /** Writing the mean over the block at `(x, y)` finishes it. */
  lemma Written(c: Canvas, cur: Canvas, out: Canvas, x: int, y: int)
    requires Valid(c) && Valid(out) && out.width == c.width && out.height == c.height
    requires 0 <= x < c.width - Each - 1 && x % Each == 0
    requires 0 <= y < c.height - Each - 1 && y % Each == 0
    requires Filtered(c, cur, x, y)
    requires forall px, py {:trigger GetAbs(out, px, py)} | InBounds(c, px, py) ::
      GetAbs(out, px, py) == if x <= px < x + Each && y <= py < y + Each then BlockMean(c, x, y) else GetAbs(cur, px, py)
    ensures Filtered(c, out, x + Each, y)
  {
    forall px, py | InBounds(c, px, py)
      ensures GetAbs(out, px, py) ==
        if Done(c, x + Each, y, px, py) then BlockMean(c, BlockStart(px), BlockStart(py)) else GetAbs(c, px, py)
    {
      Aligned(px, x);
      Aligned(py, y);
    }
  }

  /** One visit of the loop body: read the block at `(x, y)`, untouched so
      far, average it and write it back. */
  method Step(c: Canvas, cur: Canvas, x: int, y: int) returns (out: Canvas)
    requires Valid(c)
    requires 0 <= x < c.width - Each - 1 && x % Each == 0
    requires 0 <= y < c.height - Each - 1 && y % Each == 0
    requires Filtered(c, cur, x, y)
    ensures Filtered(c, out, x + Each, y)
  {
    var r := ReadBlock(cur, x, y);
    Untouched(c, cur, x, y);
    MeanFits(c, x, y);
    var average := Average(r);
    out := WriteBlock(cur, x, y, average);
    Written(c, cur, out, x, y);
  }
}
