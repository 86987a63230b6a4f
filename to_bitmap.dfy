/** Writing any pixel buffer out as a bitmap: rows of `4 * width` bytes, each
    pixel encoded in a chosen channel format. */
module ToBitmap {
  import opened Colors
  import opened Bitmap
  import opened ColorBufs
  import opened Arith

  /** The stride of the written bitmap: four bytes per pixel whatever the
      format, so an RGB row ends in `width` bytes that no pixel uses. */
  function OutputStride(buf: ColorBuf): nat {
    4 * buf.GetWidth()
  }

  /** Where output pixel (x, y) begins. */
  function OutputOffset(buf: ColorBuf, format: ColorFormat, depth: BitDepth, x: nat, y: nat): nat {
    Mul(y, OutputStride(buf)) + Mul(x, BppFactor(format, depth))
  }

  /** `s` with the first `n` of `pixels` stored side by side from `base`,
      each taking `size` bytes: one row of output, written left to right. */
  function WriteRun(s: seq<byte>, base: nat, size: nat, pixels: seq<seq<byte>>, n: nat): (r: seq<byte>)
    requires n <= |pixels|
    ensures |r| == |s|
    decreases n
  {
    if n == 0 then s
    else Store(WriteRun(s, base, size, pixels, n - 1), base + Mul(n - 1, size), pixels[n - 1])
  }

  /** `s` with the first `m` rows of `grid` written, top to bottom, row `y`
      starting `y` strides in. */
  function WriteRows(s: seq<byte>, stride: nat, size: nat, grid: seq<seq<seq<byte>>>, m: nat): (r: seq<byte>)
    requires m <= |grid|
    ensures |r| == |s|
    decreases m
  {
    if m == 0 then s
    else WriteRun(WriteRows(s, stride, size, grid, m - 1), Mul(m - 1, stride), size, grid[m - 1],
                  |grid[m - 1]|)
  }

  /** Writing one more pixel of a run stores its bytes after the others. */
  lemma RunStep(s: seq<byte>, base: nat, size: nat, pixels: seq<seq<byte>>, n: nat)
    requires 0 < n <= |pixels|
    ensures WriteRun(s, base, size, pixels, n) ==
            Store(WriteRun(s, base, size, pixels, n - 1), base + Mul(n - 1, size), pixels[n - 1])
  {
  }

  /** Writing one more row writes its run after the others. */
  lemma RowsStep(s: seq<byte>, stride: nat, size: nat, grid: seq<seq<seq<byte>>>, m: nat)
    requires m < |grid|
    ensures WriteRows(s, stride, size, grid, m + 1) ==
            WriteRun(WriteRows(s, stride, size, grid, m), Mul(m, stride), size, grid[m], |grid[m]|)
  {
  }

  /** Every row of `grid` holds `width` pixels of `size` bytes each. */
  ghost predicate Uniform(grid: seq<seq<seq<byte>>>, width: nat, size: nat) {
    forall y | 0 <= y < |grid| ::
      |grid[y]| == width && forall x | 0 <= x < width :: |grid[y][x]| == size
  }

  /** The encoding, in `format`, of every pixel of the buffer, row by row,
      when the bytes of its leaf bitmap are `leaf`. */
  ghost function Grid(buf: ColorBuf, leaf: seq<byte>, format: ColorFormat): (g: seq<seq<seq<byte>>>)
    requires buf.Valid() && |leaf| == buf.Leaf().data.Length
    ensures |g| == buf.GetHeight()
  {
    seq(buf.GetHeight(), y requires 0 <= y < buf.GetHeight() =>
      seq(buf.GetWidth(), x requires 0 <= x < buf.GetWidth() =>
        EncodePixel(buf.PixelIn(leaf, x, y), format)))
  }

  /** Every row of the grid holds one encoded pixel per column. */
  lemma GridUniform(buf: ColorBuf, leaf: seq<byte>, format: ColorFormat)
    requires buf.Valid() && |leaf| == buf.Leaf().data.Length
    ensures Uniform(Grid(buf, leaf, format), buf.GetWidth(), BppFactor(format, Eight))
  {
  }

  /** Row `y` of the grid is the encoding of the buffer's row `y`. */
  lemma GridRow(buf: ColorBuf, leaf: seq<byte>, format: ColorFormat, y: nat)
    requires buf.Valid() && |leaf| == buf.Leaf().data.Length && y < buf.GetHeight()
    ensures RowOf(buf, leaf, format, y, Grid(buf, leaf, format)[y])
  {
  }

  /** `row` holds, column by column, the encoding of row `y` of the buffer. */
  ghost predicate RowOf(buf: ColorBuf, leaf: seq<byte>, format: ColorFormat, y: nat, row: seq<seq<byte>>)
    requires buf.Valid() && |leaf| == buf.Leaf().data.Length && y < buf.GetHeight()
  {
    |row| == buf.GetWidth() &&
    forall x | 0 <= x < |row| :: row[x] == EncodePixel(buf.PixelIn(leaf, x, y), format)
  }

  /** The output of a successful `to_bitmap` over bytes `before`. */
  ghost function Rendered(buf: ColorBuf, leaf: seq<byte>, format: ColorFormat, depth: BitDepth,
                          before: seq<byte>): seq<byte>
    requires buf.Valid() && |leaf| == buf.Leaf().data.Length
  {
    WriteRows(before, OutputStride(buf), BppFactor(format, depth), Grid(buf, leaf, format),
              buf.GetHeight())
  }

  /** Every output pixel lies within the first `height` strides. */
  lemma PixelFits(buf: ColorBuf, format: ColorFormat, depth: BitDepth, x: nat, y: nat)
    requires InBounds(x, y, buf.GetWidth(), buf.GetHeight())
    ensures OutputOffset(buf, format, depth, x, y) + BppFactor(format, depth) <=
            Mul(buf.GetHeight(), OutputStride(buf))
  {
    var bpp := BppFactor(format, depth);
    BlockBefore(x, buf.GetWidth(), bpp);
    StrideHoldsRow(buf, format, depth);
    BlockBefore(y, buf.GetHeight(), OutputStride(buf));
  }

  /** The writer's index of pixel (x, y) is its output offset. */
  lemma IndexIsOffset(buf: ColorBuf, format: ColorFormat, depth: BitDepth, x: nat, y: nat)
    ensures y * OutputStride(buf) + BppFactor(format, depth) * x == OutputOffset(buf, format, depth, x, y)
  {
    MulIsProduct(y, OutputStride(buf));
    MulIsProduct(x, BppFactor(format, depth));
  }

  /** The pixels of a row fit in the output stride. */
  lemma StrideHoldsRow(buf: ColorBuf, format: ColorFormat, depth: BitDepth)
    ensures Mul(buf.GetWidth(), BppFactor(format, depth)) <= OutputStride(buf)
  {
    MulMonoSize(buf.GetWidth(), BppFactor(format, depth), 4);
    MulIsProduct(buf.GetWidth(), 4);
  }

  /** The body of the writer's inner loop: quantises all four channels and
      stores the pixel's bytes at `index` in `format`'s order. */
  method WriteEncodedPixel(output: array<byte>, index: nat, color: Color, format: ColorFormat,
                           depth: BitDepth)
    requires index + BppFactor(format, depth) <= output.Length
    modifies output
    ensures output[..] == Store(old(output[..]), index, EncodePixel(color, format))
  {
    match depth {
      case Eight =>
        var rByte, gByte, bByte, aByte :=
          Quantize(color.r), Quantize(color.g), Quantize(color.b), Quantize(color.a);
        match format {
          case RGBA =>
            output[index] := rByte;
            output[index + 1] := gByte;
            output[index + 2] := bByte;
            output[index + 3] := aByte;
          case ARGB =>
            output[index] := aByte;
            output[index + 1] := rByte;
            output[index + 2] := gByte;
            output[index + 3] := bByte;
          case RGB =>
            output[index] := rByte;
            output[index + 1] := gByte;
            output[index + 2] := bByte;
        }
    }
    assert output[..] == Store(old(output[..]), index, EncodePixel(color, format));
  }

  /** One pass of the writer's inner loop: reads pixel (x, y) of the buffer
      and stores its encoding in `format` at the pixel's place in the output,
      extending the row written so far, `row[..x]`, by `row[x]`. */
  method WritePixel(buf: ColorBuf, format: ColorFormat, depth: BitDepth, output: array<byte>,
                    x: nat, y: nat, stride: nat, ghost leaf: seq<byte>, ghost row: seq<seq<byte>>,
                    ghost before: seq<byte>)
    requires buf.Valid() && output != buf.Leaf().data && leaf == buf.Leaf().data[..]
    requires InBounds(x, y, buf.GetWidth(), buf.GetHeight()) && stride == OutputStride(buf)
    requires Mul(buf.GetHeight(), stride) <= output.Length
    requires x < |row| && row[x] == EncodePixel(buf.PixelIn(leaf, x, y), format)
    requires output[..] == WriteRun(before, Mul(y, stride), BppFactor(format, depth), row, x)
    modifies output
    ensures output[..] == WriteRun(before, Mul(y, stride), BppFactor(format, depth), row, x + 1)
  {
    var color := buf.GetPixel(x, y).value;
    var index := y * stride + BppFactor(format, depth) * x;
    GetPixelFromLeaf(buf, x, y);
    IndexIsOffset(buf, format, depth, x, y);
    PixelFits(buf, format, depth, x, y);
    WriteEncodedPixel(output, index, color, format, depth);
    RunStep(before, Mul(y, stride), BppFactor(format, depth), row, x + 1);
  }

  /** The writer's inner loop: writes every pixel of row `y`, left to right,
      as the run of encoded pixels `row` starting `y` strides in. */
  method WritePixels(buf: ColorBuf, format: ColorFormat, depth: BitDepth, output: array<byte>,
                     y: nat, stride: nat, ghost leaf: seq<byte>, ghost row: seq<seq<byte>>)
    requires buf.Valid() && output != buf.Leaf().data && leaf == buf.Leaf().data[..]
    requires y < buf.GetHeight() && stride == OutputStride(buf)
    requires Mul(buf.GetHeight(), stride) <= output.Length
    requires RowOf(buf, leaf, format, y, row)
    modifies output
    ensures output[..] == WriteRun(old(output[..]), Mul(y, stride), BppFactor(format, depth), row, |row|)
  {
    LeafAllocated(buf);
    ghost var start := output[..];
    for x := 0 to buf.GetWidth()
      invariant output[..] == WriteRun(start, Mul(y, stride), BppFactor(format, depth), row, x)
    {
      WritePixel(buf, format, depth, output, x, y, stride, leaf, row, start);
    }
  }

  /** One pass of the writer's outer loop: extends the rows written so far
      by row `y` of the buffer's encoding. */
  method WriteRow(buf: ColorBuf, format: ColorFormat, depth: BitDepth, output: array<byte>,
                  y: nat, stride: nat, ghost leaf: seq<byte>, ghost before: seq<byte>)
    requires buf.Valid() && output != buf.Leaf().data && leaf == buf.Leaf().data[..]
    requires y < buf.GetHeight() && stride == OutputStride(buf)
    requires Mul(buf.GetHeight(), stride) <= output.Length
    requires output[..] == WriteRows(before, stride, BppFactor(format, depth), Grid(buf, leaf, format), y)
    modifies output
    ensures output[..] == WriteRows(before, stride, BppFactor(format, depth), Grid(buf, leaf, format), y + 1)
  {
    ghost var grid := Grid(buf, leaf, format);
    GridRow(buf, leaf, format, y);
    WritePixels(buf, format, depth, output, y, stride, leaf, grid[y]);
    RowsStep(before, stride, BppFactor(format, depth), grid, y);
  }

  /** `to_bitmap`: sets the stride to `4 * width` whatever the format, refuses
      an output shorter than `height * stride` before writing anything, and
      otherwise writes every pixel, row by row, in `format`. */
  method ToBitmap(buf: ColorBuf, format: ColorFormat, depth: BitDepth, output: array<byte>)
    returns (stride: nat, r: Result<(), BitmapError>)
    requires buf.Valid() && output != buf.Leaf().data
    modifies output
    ensures stride == 4 * buf.GetWidth()
    ensures r.Err? <==> buf.GetHeight() * stride > output.Length
    ensures r.Err? ==> r.error == ByteArrayTooSmall && output[..] == old(output[..])
    ensures r.Ok? ==> output[..] == Rendered(buf, buf.Leaf().data[..], format, depth, old(output[..]))
  {
    stride := 4 * buf.GetWidth();
    var reqBitmapLen := buf.GetHeight() * stride;
    if reqBitmapLen > output.Length {
      return stride, Err(ByteArrayTooSmall);
    }
    MulIsProduct(buf.GetHeight(), stride);
    LeafAllocated(buf);
    ghost var leaf, before := buf.Leaf().data[..], output[..];
    for y := 0 to buf.GetHeight()
      invariant buf.Leaf().data[..] == leaf
      invariant output[..] == WriteRows(before, stride, BppFactor(format, depth), Grid(buf, leaf, format), y)
    {
      WriteRow(buf, format, depth, output, y, stride, leaf, before);
    }
    return stride, Ok(());
  }

  // ---------------------------------------------------------------------------
  // Where each byte of a run and of a sequence of rows comes from
  // ---------------------------------------------------------------------------

  /** Writing the first `n` pixels of a run changes no byte outside the
      `n` blocks of `size` bytes from `base`. */
  lemma {:induction false} RunFrame(s: seq<byte>, base: nat, size: nat, pixels: seq<seq<byte>>,
                                    n: nat, i: nat)
    requires n <= |pixels| && forall j | 0 <= j < |pixels| :: |pixels[j]| == size
    requires i < |s| && (i < base || base + Mul(n, size) <= i)
    ensures WriteRun(s, base, size, pixels, n)[i] == s[i]
    decreases n
  {
    if n > 0 {
      RunFrame(s, base, size, pixels, n - 1, i);
    }
  }

  /** After the first `n` pixels of a run are written, byte `k` of pixel `x`
      holds byte `k` of `pixels[x]`. */
  lemma {:induction false} RunPixel(s: seq<byte>, base: nat, size: nat, pixels: seq<seq<byte>>,
                                    n: nat, x: nat, k: nat)
    requires n <= |pixels| && forall j | 0 <= j < |pixels| :: |pixels[j]| == size
    requires x < n && k < size && base + Mul(n, size) <= |s|
    ensures base + Mul(x, size) + k < |s|
    ensures WriteRun(s, base, size, pixels, n)[base + Mul(x, size) + k] == pixels[x][k]
    decreases n
  {
    var prev, at := WriteRun(s, base, size, pixels, n - 1), base + Mul(n - 1, size);
    assert WriteRun(s, base, size, pixels, n) == Store(prev, at, pixels[n - 1]);
    if x < n - 1 {
      BlockBefore(x, n - 1, size);
      RunPixel(s, base, size, pixels, n - 1, x, k);
      StoreOutside(prev, at, pixels[n - 1], base + Mul(x, size) + k);
    } else {
      StoreInside(prev, at, pixels[n - 1], k);
    }
  }

  /** Writing the first `m` rows changes no byte at or past `m` strides. */
  lemma {:induction false} RowsFrameBelow(s: seq<byte>, stride: nat, size: nat, grid: seq<seq<seq<byte>>>,
                                          width: nat, m: nat, i: nat)
    requires Uniform(grid, width, size) && Mul(width, size) <= stride
    requires m <= |grid| && Mul(m, stride) <= i < |s|
    ensures WriteRows(s, stride, size, grid, m)[i] == s[i]
    decreases m
  {
    if m > 0 {
      RunFrame(WriteRows(s, stride, size, grid, m - 1), Mul(m - 1, stride), size, grid[m - 1], width, i);
      RowsFrameBelow(s, stride, size, grid, width, m - 1, i);
    }
  }

  /** After the first `m` rows are written, byte `k` of pixel (x, y), for a
      row `y` among them, holds byte `k` of `grid[y][x]`. */
  lemma {:induction false} RowsPixel(s: seq<byte>, stride: nat, size: nat, grid: seq<seq<seq<byte>>>,
                                     width: nat, m: nat, x: nat, y: nat, k: nat)
    requires Uniform(grid, width, size) && Mul(width, size) <= stride
    requires m <= |grid| && Mul(|grid|, stride) <= |s|
    requires x < width && y < m && k < size
    ensures Mul(y, stride) + Mul(x, size) + k < |s|
    ensures WriteRows(s, stride, size, grid, m)[Mul(y, stride) + Mul(x, size) + k] == grid[y][x][k]
    decreases m
  {
    var prev := WriteRows(s, stride, size, grid, m - 1);
    BlockBefore(x, width, size);
    BlockBefore(y, |grid|, stride);
    if y == m - 1 {
      RunPixel(prev, Mul(y, stride), size, grid[y], width, x, k);
    } else {
      BlockBefore(y, m - 1, stride);
      RunFrame(prev, Mul(m - 1, stride), size, grid[m - 1], width, Mul(y, stride) + Mul(x, size) + k);
      RowsPixel(s, stride, size, grid, width, m - 1, x, y, k);
    }
  }

  /** Writing rows leaves the bytes of every row past its last pixel as
      they were. */
  lemma {:induction false} RowsPadding(s: seq<byte>, stride: nat, size: nat, grid: seq<seq<seq<byte>>>,
                                       width: nat, m: nat, y: nat, j: nat)
    requires Uniform(grid, width, size) && m <= |grid|
    requires Mul(width, size) <= j < stride && Mul(y, stride) + j < |s|
    ensures WriteRows(s, stride, size, grid, m)[Mul(y, stride) + j] == s[Mul(y, stride) + j]
    decreases m
  {
    if m > 0 {
      var prev := WriteRows(s, stride, size, grid, m - 1);
      if y < m - 1 {
        BlockBefore(y, m - 1, stride);
      } else if m - 1 < y {
        BlockBefore(m - 1, y, stride);
      }
      RunFrame(prev, Mul(m - 1, stride), size, grid[m - 1], width, Mul(y, stride) + j);
      RowsPadding(s, stride, size, grid, width, m - 1, y, j);
    }
  }

  // ---------------------------------------------------------------------------
  // What the written bitmap holds
  // ---------------------------------------------------------------------------

  /** Byte `k` of output pixel (x, y) holds byte `k` of the encoding of the
      buffer's pixel (x, y), in the chosen format. */
  lemma RenderedPixel(buf: ColorBuf, leaf: seq<byte>, format: ColorFormat, depth: BitDepth,
                      before: seq<byte>, x: nat, y: nat, k: nat)
    requires buf.Valid() && |leaf| == buf.Leaf().data.Length
    requires InBounds(x, y, buf.GetWidth(), buf.GetHeight())
    requires |before| >= buf.GetHeight() * OutputStride(buf)
    requires k < BppFactor(format, depth)
    ensures OutputOffset(buf, format, depth, x, y) + k < |before|
    ensures Rendered(buf, leaf, format, depth, before)[OutputOffset(buf, format, depth, x, y) + k] ==
            EncodePixel(buf.PixelIn(leaf, x, y), format)[k]
  {
    MulIsProduct(buf.GetHeight(), OutputStride(buf));
    StrideHoldsRow(buf, format, depth);
    GridUniform(buf, leaf, format);
    RowsPixel(before, OutputStride(buf), BppFactor(format, depth), Grid(buf, leaf, format),
              buf.GetWidth(), buf.GetHeight(), x, y, k);
  }

  /** The bytes of a row past its last pixel (for RGB, the last `width`
      bytes of every row) keep their value. */
  lemma RowPaddingUntouched(buf: ColorBuf, leaf: seq<byte>, format: ColorFormat, depth: BitDepth,
                            before: seq<byte>, y: nat, j: nat)
    requires buf.Valid() && |leaf| == buf.Leaf().data.Length
    requires BppFactor(format, depth) * buf.GetWidth() <= j < OutputStride(buf)
    requires y * OutputStride(buf) + j < |before|
    ensures Rendered(buf, leaf, format, depth, before)[y * OutputStride(buf) + j] ==
            before[y * OutputStride(buf) + j]
  {
    MulIsProduct(buf.GetWidth(), BppFactor(format, depth));
    MulIsProduct(y, OutputStride(buf));
    GridUniform(buf, leaf, format);
    RowsPadding(before, OutputStride(buf), BppFactor(format, depth), Grid(buf, leaf, format),
                buf.GetWidth(), buf.GetHeight(), y, j);
  }

  /** Bytes past the first `height * stride` keep their value. */
  lemma RenderedTailUntouched(buf: ColorBuf, leaf: seq<byte>, format: ColorFormat, depth: BitDepth,
                              before: seq<byte>, i: nat)
    requires buf.Valid() && |leaf| == buf.Leaf().data.Length
    requires buf.GetHeight() * OutputStride(buf) <= i < |before|
    ensures Rendered(buf, leaf, format, depth, before)[i] == before[i]
  {
    MulIsProduct(buf.GetHeight(), OutputStride(buf));
    StrideHoldsRow(buf, format, depth);
    GridUniform(buf, leaf, format);
    RowsFrameBelow(before, OutputStride(buf), BppFactor(format, depth), Grid(buf, leaf, format),
                   buf.GetWidth(), buf.GetHeight(), i);
  }

  /** Writing a bitmap buffer out in its own format copies each pixel's bytes
      unchanged to the pixel's place in the output, whatever the source stride. */
  lemma SameFormatCopiesPixel(b: BitmapColorBuf, before: seq<byte>, x: nat, y: nat, k: nat)
    requires b.Valid() && x < b.pixelsPerRow && y < b.rows && k < BppFactor(b.format, b.depth)
    requires |before| >= b.rows * (4 * b.pixelsPerRow)
    ensures b.GetOffset(x, y) + k < b.data.Length
    ensures OutputOffset(Bitmap(b), b.format, b.depth, x, y) + k < |before|
    ensures Rendered(Bitmap(b), b.data[..], b.format, b.depth, before)
              [OutputOffset(Bitmap(b), b.format, b.depth, x, y) + k] == b.data[b.GetOffset(x, y) + k]
  {
    b.OffsetFits(x, y);
    RenderedPixel(Bitmap(b), b.data[..], b.format, b.depth, before, x, y, k);
    var off := b.GetOffset(x, y);
    PixelInLeaf(Bitmap(b), b.data[..], x, y);
    assert Bitmap(b).Leaf() == b && Bitmap(b).OriginX() == 0 && Bitmap(b).OriginY() == 0;
    assert Bitmap(b).PixelIn(b.data[..], x, y) == DecodeAt(b.data[..], off, b.format);
    EncodeDecodeAt(b.data[..], off, b.format);
  }

  /** A pixel decoded in place reads the colour of the bytes found there. */
  lemma DecodeAtCopy(s: seq<byte>, off: nat, px: seq<byte>, format: ColorFormat)
    requires |px| == BppFactor(format, Eight) && off + |px| <= |s|
    requires forall k | 0 <= k < |px| :: s[off + k] == px[k]
    ensures DecodeAt(s, off, format) == DecodePixel(px, format)
  {
    assert s[off] == px[0] && s[off + 1] == px[1] && s[off + 2] == px[2];
    if format != RGB {
      assert s[off + 3] == px[3];
    }
  }

  /** Output pixel (x, y), decoded in the output format, is the buffer's
      pixel (x, y) encoded and decoded again. */
  lemma RenderedDecodes(buf: ColorBuf, leaf: seq<byte>, format: ColorFormat, depth: BitDepth,
                        before: seq<byte>, x: nat, y: nat)
    requires buf.Valid() && |leaf| == buf.Leaf().data.Length
    requires InBounds(x, y, buf.GetWidth(), buf.GetHeight())
    requires |before| >= buf.GetHeight() * OutputStride(buf)
    ensures OutputOffset(buf, format, depth, x, y) + BppFactor(format, Eight) <= |before|
    ensures DecodeAt(Rendered(buf, leaf, format, depth, before), OutputOffset(buf, format, depth, x, y), format) ==
            DecodePixel(EncodePixel(buf.PixelIn(leaf, x, y), format), format)
  {
    var s := Rendered(buf, leaf, format, depth, before);
    var e := EncodePixel(buf.PixelIn(leaf, x, y), format);
    var off := OutputOffset(buf, format, depth, x, y);
    PixelFits(buf, format, depth, x, y);
    MulIsProduct(buf.GetHeight(), OutputStride(buf));
    assert off + |e| <= |s|;
    forall k | 0 <= k < |e|
      ensures s[off + k] == e[k]
    {
      RenderedPixel(buf, leaf, format, depth, before, x, y, k);
    }
    DecodeAtCopy(s, off, e, format);
  }

  /** The output, read back by a bitmap buffer of the same format laid out as
      `to_bitmap` reports it (`height` rows of `width` pixels, `4 * width`
      bytes apart), holds every pixel whose channels lie in [0, 1] to within
      one quantisation step below its colour; an RGB pixel reads back opaque. */
  lemma RenderedReadsBack(buf: ColorBuf, leaf: seq<byte>, out: BitmapColorBuf, before: seq<byte>,
                          x: nat, y: nat)
    requires buf.Valid() && |leaf| == buf.Leaf().data.Length
    requires out.Valid() && out.rows == buf.GetHeight() && out.pixelsPerRow == buf.GetWidth()
    requires out.stride == OutputStride(buf)
    requires |before| == out.data.Length && |before| >= buf.GetHeight() * OutputStride(buf)
    requires x < out.pixelsPerRow && y < out.rows
    requires var c := buf.PixelIn(leaf, x, y);
      0.0 <= c.r <= 1.0 && 0.0 <= c.g <= 1.0 && 0.0 <= c.b <= 1.0 && 0.0 <= c.a <= 1.0
    ensures var c := buf.PixelIn(leaf, x, y);
      var d := out.PixelAt(Rendered(buf, leaf, out.format, out.depth, before), x, y);
      d.r <= c.r < d.r + 1.0 / 255.0 &&
      d.g <= c.g < d.g + 1.0 / 255.0 &&
      d.b <= c.b < d.b + 1.0 / 255.0 &&
      (if out.format == RGB then d.a == 1.0 else d.a <= c.a < d.a + 1.0 / 255.0)
  {
    RenderedDecodes(buf, leaf, out.format, out.depth, before, x, y);
    assert out.GetOffset(x, y) == OutputOffset(buf, out.format, out.depth, x, y);
    DecodeEncodeWithinQuantum(buf.PixelIn(leaf, x, y), out.format);
  }

  /** Splits an index below `height` strides of `4 * width` bytes into its
      row, its pixel and the byte within a four-byte pixel. */
  lemma {:induction false} Decompose(i: nat, width: nat, height: nat) returns (x: nat, y: nat, k: nat)
    requires i < Mul(height, 4 * width)
    ensures x < width && y < height && k < 4
    ensures i == Mul(y, 4 * width) + Mul(x, 4) + k
    decreases height
  {
    if i < 4 * width {
      x, y, k := i / 4, 0, i % 4;
      MulIsProduct(x, 4);
    } else {
      x, y, k := Decompose(i - 4 * width, width, height - 1);
      y := y + 1;
    }
  }

  /** A tightly packed RGBA or ARGB bitmap written out in its own format is
      reproduced byte for byte over its `rows * stride` bytes. */
  lemma ToBitmapReproducesBitmap(b: BitmapColorBuf, before: seq<byte>)
    requires b.Valid() && b.format != RGB && b.stride == 4 * b.pixelsPerRow
    requires b.rows * b.stride <= |before|
    ensures b.rows * b.stride <= b.data.Length
    ensures Rendered(Bitmap(b), b.data[..], b.format, b.depth, before)[..b.rows * b.stride] ==
            b.data[..b.rows * b.stride]
  {
    var n := b.rows * b.stride;
    MulIsProduct(b.rows, b.stride);
    if n > 0 {
      CopiedByte(b, before, n - 1);
    }
    var after := Rendered(Bitmap(b), b.data[..], b.format, b.depth, before);
    forall i | 0 <= i < n
      ensures after[i] == b.data[i]
    {
      CopiedByte(b, before, i);
    }
  }

  /** Byte `i` of a tightly packed RGBA or ARGB bitmap, within its first
      `rows` strides, is copied to byte `i` of the output. */
  lemma CopiedByte(b: BitmapColorBuf, before: seq<byte>, i: nat)
    requires b.Valid() && b.format != RGB && b.stride == 4 * b.pixelsPerRow
    requires i < Mul(b.rows, b.stride) <= |before|
    ensures i < b.data.Length && i < |before|
    ensures Rendered(Bitmap(b), b.data[..], b.format, b.depth, before)[i] == b.data[i]
  {
    MulIsProduct(b.rows, b.stride);
    var x, y, k := Decompose(i, b.pixelsPerRow, b.rows);
    SameFormatCopiesPixel(b, before, x, y, k);
  }
}
