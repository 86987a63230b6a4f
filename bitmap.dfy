/** A pixel buffer over a raw bitmap: the byte layout of a pixel for each
    channel format, the conversion between bytes and channel values, and
    `BitmapColorBuf`, which reads and writes pixels in a caller-supplied
    byte array. */
module Bitmap {
  import opened Colors
  import opened Arith

  newtype byte = b: int | 0 <= b < 256

  /** Which byte of a pixel holds which channel. */
  datatype ColorFormat =
    | RGBA  // red in the first byte, alpha in the last
    | ARGB  // alpha in the first byte, blue in the last
    | RGB   // red in the first byte, blue in the last; no alpha byte

  /** Bits per channel; eight is the only depth there is. */
  datatype BitDepth = Eight

  datatype BitmapError = ByteArrayTooSmall

  /** Bytes per pixel: four for the formats with an alpha byte, three for RGB,
      whatever the depth. */
  function BppFactor(format: ColorFormat, depth: BitDepth): nat {
    match format
    case RGBA => 4
    case ARGB => 4
    case RGB => 3
  }

  // ---------------------------------------------------------------------------
  // Channel values and bytes
  // ---------------------------------------------------------------------------

  /** A stored byte read as a channel value, `b / 255`, in exact arithmetic. */
  function ChannelOf(b: byte): real {
    (b as int) as real / 255.0
  }

  /** A channel value written as a byte, `(v * 255) as u8`: the cast truncates
      toward zero and saturates, so anything at or below zero gives 0 and
      anything at or above 255 gives 255. */
  function Quantize(v: real): byte {
    var t := v * 255.0;
    if t <= 0.0 then 0
    else if t >= 255.0 then 255
    else t.Floor as byte
  }

  /** The byte the RGB layout stores for channel `v` of a colour with alpha `a`:
      `((v / a) * 255) as u8`. Dividing by a zero alpha gives an infinity for a
      positive channel (saturating to 255) and NaN or minus infinity otherwise
      (both cast to 0). */
  function UnpremultipliedByte(v: real, a: real): byte {
    if a == 0.0 then (if v > 0.0 then 255 else 0)
    else Quantize(v / a)
  }

  /** The bytes of one pixel in the order `format` stores them, each channel
      quantised as it is; this is how the bitmap writer encodes a pixel. */
  function EncodePixel(c: Color, format: ColorFormat): (px: seq<byte>)
    ensures |px| == BppFactor(format, Eight)
  {
    match format
    case RGBA => [Quantize(c.r), Quantize(c.g), Quantize(c.b), Quantize(c.a)]
    case ARGB => [Quantize(c.a), Quantize(c.r), Quantize(c.g), Quantize(c.b)]
    case RGB => [Quantize(c.r), Quantize(c.g), Quantize(c.b)]
  }

  /** The bytes `set_pixel` stores for one pixel. It differs from `EncodePixel`
      only for RGB, where the colour channels are first divided by alpha. */
  function StoredPixel(c: Color, format: ColorFormat): (px: seq<byte>)
    ensures |px| == BppFactor(format, Eight)
    ensures format != RGB ==> px == EncodePixel(c, format)
  {
    match format
    case RGB =>
      [UnpremultipliedByte(c.r, c.a), UnpremultipliedByte(c.g, c.a), UnpremultipliedByte(c.b, c.a)]
    case _ => EncodePixel(c, format)
  }

  /** The colour held by the bytes of one pixel; RGB has no alpha byte and
      reads as fully opaque. */
  function DecodePixel(px: seq<byte>, format: ColorFormat): Color
    requires |px| == BppFactor(format, Eight)
  {
    DecodeAt(px, 0, format)
  }

  /** The colour held by the pixel whose bytes start at `off` in `s`. */
  function DecodeAt(s: seq<byte>, off: nat, format: ColorFormat): Color
    requires off + BppFactor(format, Eight) <= |s|
  {
    match format
    case RGBA => Color(ChannelOf(s[off]), ChannelOf(s[off + 1]), ChannelOf(s[off + 2]), ChannelOf(s[off + 3]))
    case ARGB => Color(ChannelOf(s[off + 1]), ChannelOf(s[off + 2]), ChannelOf(s[off + 3]), ChannelOf(s[off]))
    case RGB => Color(ChannelOf(s[off]), ChannelOf(s[off + 1]), ChannelOf(s[off + 2]), 1.0)
  }

  /** `s` with `bytes` written over `[off, off + |bytes|)`; every other byte is kept. */
  function Store(s: seq<byte>, off: nat, bytes: seq<byte>): (r: seq<byte>)
    ensures |r| == |s|
  {
    seq(|s|, i requires 0 <= i < |s| => if off <= i < off + |bytes| then bytes[i - off] else s[i])
  }

  /** Byte `k` of the stored bytes lands at `off + k`. */
  lemma StoreInside(s: seq<byte>, off: nat, bytes: seq<byte>, k: nat)
    requires k < |bytes| && off + |bytes| <= |s|
    ensures Store(s, off, bytes)[off + k] == bytes[k]
  {
  }

  /** A byte outside the stored range keeps its value. */
  lemma StoreOutside(s: seq<byte>, off: nat, bytes: seq<byte>, i: nat)
    requires i < |s| && (i < off || off + |bytes| <= i)
    ensures Store(s, off, bytes)[i] == s[i]
  {
  }

  // ---------------------------------------------------------------------------
  // Round trips between bytes and colours
  // ---------------------------------------------------------------------------

  /** A byte read as a channel and quantised again is the same byte. */
  lemma QuantizeChannelOf(b: byte)
    ensures Quantize(ChannelOf(b)) == b
  {
    var t := ChannelOf(b) * 255.0;
    assert t == (b as int) as real;
    if 0 < b < 255 {
      assert t.Floor == b as int;
    }
  }

  /** Quantising a channel in [0, 1] loses less than one step of 1/255, and
      never rounds up. */
  lemma QuantizeWithinQuantum(v: real)
    requires 0.0 <= v <= 1.0
    ensures ChannelOf(Quantize(v)) <= v < ChannelOf(Quantize(v)) + 1.0 / 255.0
  {
    var t := v * 255.0;
    var q := Quantize(v);
    if t <= 0.0 {
      assert v == 0.0;
    } else if t >= 255.0 {
      assert v == 1.0;
    } else {
      assert (q as int) as real <= t < (q as int) as real + 1.0;
    }
  }

  /** Decoding the bytes of a pixel and encoding the colour again reproduces
      the bytes, for every format, both as the bitmap writer encodes and as
      `set_pixel` stores (a decoded RGB pixel is opaque, so its division by
      alpha changes nothing). */
  lemma EncodeDecode(px: seq<byte>, format: ColorFormat)
    requires |px| == BppFactor(format, Eight)
    ensures EncodePixel(DecodePixel(px, format), format) == px
    ensures StoredPixel(DecodePixel(px, format), format) == px
  {
    forall k | 0 <= k < |px| {
      QuantizeChannelOf(px[k]);
    }
  }

  /** The same round trip for a pixel read in place: decoding the bytes at
      `off` and encoding the colour again gives those bytes back. */
  lemma EncodeDecodeAt(s: seq<byte>, off: nat, format: ColorFormat)
    requires off + BppFactor(format, Eight) <= |s|
    ensures EncodePixel(DecodeAt(s, off, format), format) == s[off..off + BppFactor(format, Eight)]
  {
    QuantizeChannelOf(s[off]);
    QuantizeChannelOf(s[off + 1]);
    QuantizeChannelOf(s[off + 2]);
    if format != RGB {
      QuantizeChannelOf(s[off + 3]);
    }
  }

  /** Encoding a colour whose channels lie in [0, 1] and decoding it again
      gives every channel back up to one quantisation step below it; RGB
      comes back opaque. */
  lemma DecodeEncodeWithinQuantum(c: Color, format: ColorFormat)
    requires 0.0 <= c.r <= 1.0 && 0.0 <= c.g <= 1.0 && 0.0 <= c.b <= 1.0 && 0.0 <= c.a <= 1.0
    ensures var d := DecodePixel(EncodePixel(c, format), format);
      d.r <= c.r < d.r + 1.0 / 255.0 &&
      d.g <= c.g < d.g + 1.0 / 255.0 &&
      d.b <= c.b < d.b + 1.0 / 255.0 &&
      (if format == RGB then d.a == 1.0 else d.a <= c.a < d.a + 1.0 / 255.0)
  {
    QuantizeWithinQuantum(c.r);
    QuantizeWithinQuantum(c.g);
    QuantizeWithinQuantum(c.b);
    QuantizeWithinQuantum(c.a);
  }

  /** For an opaque colour `set_pixel` and the bitmap writer store the same bytes. */
  lemma StoredIsEncodedWhenOpaque(c: Color, format: ColorFormat)
    requires c.a == 1.0
    ensures StoredPixel(c, format) == EncodePixel(c, format)
  {
    assert c.r / c.a == c.r && c.g / c.a == c.g && c.b / c.a == c.b;
  }

  // ---------------------------------------------------------------------------
  // The bitmap-backed pixel buffer
  // ---------------------------------------------------------------------------

  /** A pixel buffer over a byte array it owns. Its layout never changes after
      construction; only the bytes of `data` do. */
  class BitmapColorBuf {
    const data: array<byte>
    const format: ColorFormat
    const depth: BitDepth
    const rows: nat
    const pixelsPerRow: nat
    /** Bytes from the start of one row to the start of the next. */
    const stride: nat

    /** Every in-range pixel lies inside `data`. `new` validates nothing, so an
        out-of-range byte index would panic; `Valid()` rules that out. */
    ghost predicate Valid() {
      rows == 0 || pixelsPerRow == 0 ||
      Mul(rows - 1, stride) + Mul(pixelsPerRow, BppFactor(format, depth)) <= data.Length
    }

    /** The pixels of a row fit in its stride, so no two pixels share a byte. */
    ghost predicate RowsApart() {
      Mul(pixelsPerRow, BppFactor(format, depth)) <= stride
    }

    constructor (format: ColorFormat, depth: BitDepth, rows: nat, pixelsPerRow: nat, stride: nat,
                 data: array<byte>)
      requires rows == 0 || pixelsPerRow == 0 ||
               Mul(rows - 1, stride) + Mul(pixelsPerRow, BppFactor(format, depth)) <= data.Length
      ensures Valid()
      ensures this.format == format && this.depth == depth && this.data == data
      ensures this.rows == rows && this.pixelsPerRow == pixelsPerRow && this.stride == stride
    {
      this.data := data;
      this.format := format;
      this.depth := depth;
      this.rows := rows;
      this.pixelsPerRow := pixelsPerRow;
      this.stride := stride;
    }

    /** Byte offset of pixel (x, y): whole rows of `stride` bytes, then `x` pixels. */
    function GetOffset(x: nat, y: nat): nat {
      Mul(y, stride) + Mul(x, BppFactor(format, depth))
    }

    function GetWidth(): nat {
      pixelsPerRow
    }

    function GetHeight(): nat {
      rows
    }

    /** The bytes of every in-range pixel lie inside `data`. */
    lemma OffsetFits(x: nat, y: nat)
      requires Valid() && x < pixelsPerRow && y < rows
      ensures GetOffset(x, y) + BppFactor(format, depth) <= data.Length
    {
      MulMono(y, rows - 1, stride);
      BlockBefore(x, pixelsPerRow, BppFactor(format, depth));
    }

    /** Two different pixels of a row-apart layout occupy disjoint bytes. */
    lemma OffsetsApart(x1: nat, y1: nat, x2: nat, y2: nat)
      requires RowsApart()
      requires x1 < pixelsPerRow && x2 < pixelsPerRow
      requires x1 != x2 || y1 != y2
      ensures GetOffset(x1, y1) + BppFactor(format, depth) <= GetOffset(x2, y2) ||
              GetOffset(x2, y2) + BppFactor(format, depth) <= GetOffset(x1, y1)
    {
      if y1 < y2 {
        RowEndsBeforeNext(x1, y1, y2);
      } else if y2 < y1 {
        RowEndsBeforeNext(x2, y2, y1);
      } else if x1 < x2 {
        BlockBefore(x1, x2, BppFactor(format, depth));
      } else {
        BlockBefore(x2, x1, BppFactor(format, depth));
      }
    }

    /** The bytes of a pixel end before any later row starts. */
    lemma RowEndsBeforeNext(x: nat, y: nat, y': nat)
      requires RowsApart() && x < pixelsPerRow && y < y'
      ensures GetOffset(x, y) + BppFactor(format, depth) <= GetOffset(0, y')
    {
      BlockBefore(x, pixelsPerRow, BppFactor(format, depth));
      BlockBefore(y, y', stride);
    }

    /** The colour of in-range pixel (x, y) when `data` holds `s`. */
    function PixelAt(s: seq<byte>, x: nat, y: nat): Color
      requires Valid() && |s| == data.Length && x < pixelsPerRow && y < rows
    {
      OffsetFits(x, y);
      var off := GetOffset(x, y);
      DecodeAt(s, off, format)
    }

    /** The contents of `data`, when it held `s`, after the bytes `px` of
        one pixel are stored at pixel (x, y). */
    function Placed(s: seq<byte>, x: nat, y: nat, px: seq<byte>): seq<byte> {
      Store(s, GetOffset(x, y), px)
    }

    /** The contents of `data` after `set_pixel(x, y, c)` when it held `s`. */
    function Written(s: seq<byte>, x: nat, y: nat, c: Color): seq<byte> {
      Placed(s, x, y, StoredPixel(c, format))
    }

    /** Reading a pixel fails with `InvalidCoordinate` exactly when it is out of
        range, and otherwise decodes the pixel's bytes in this format. */
    function GetPixel(x: nat, y: nat): (r: Result<Color, ColorBufError>)
      requires Valid()
      reads data
      ensures r.Err? <==> !InBounds(x, y, pixelsPerRow, rows)
      ensures r.Err? ==> r.error == InvalidCoordinate
      ensures r.Ok? ==> r.value == PixelAt(data[..], x, y)
    {
      if x >= pixelsPerRow || y >= rows then Err(InvalidCoordinate)
      else Ok(PixelAt(data[..], x, y))
    }

    /** Writing a pixel fails with `InvalidCoordinate`, changing nothing, exactly
        when it is out of range; otherwise it stores the pixel's bytes at its
        offset and leaves every other byte as it was. */
    method SetPixel(x: nat, y: nat, color: Color) returns (r: Result<(), ColorBufError>)
      requires Valid()
      modifies data
      ensures r.Err? <==> !InBounds(x, y, pixelsPerRow, rows)
      ensures r.Err? ==> r.error == InvalidCoordinate && data[..] == old(data[..])
      ensures r.Ok? ==> data[..] == Written(old(data[..]), x, y, color)
    {
      if x >= pixelsPerRow || y >= rows {
        return Err(InvalidCoordinate);
      }
      var index := GetOffset(x, y);
      OffsetFits(x, y);
      match format {
        case RGBA =>
          var rByte, gByte, bByte, aByte :=
            Quantize(color.r), Quantize(color.g), Quantize(color.b), Quantize(color.a);
          data[index] := rByte;
          data[index + 1] := gByte;
          data[index + 2] := bByte;
          data[index + 3] := aByte;
        case ARGB =>
          var rByte, gByte, bByte, aByte :=
            Quantize(color.r), Quantize(color.g), Quantize(color.b), Quantize(color.a);
          data[index] := aByte;
          data[index + 1] := rByte;
          data[index + 2] := gByte;
          data[index + 3] := bByte;
        case RGB =>
          var rByte, gByte, bByte := UnpremultipliedByte(color.r, color.a),
            UnpremultipliedByte(color.g, color.a), UnpremultipliedByte(color.b, color.a);
          data[index] := rByte;
          data[index + 1] := gByte;
          data[index + 2] := bByte;
      }
      assert data[..] == Written(old(data[..]), x, y, color);
      return Ok(());
    }

    /** Pixel (x, y) reads as the bytes last stored there, decoded. */
    lemma ReadBack(s: seq<byte>, x: nat, y: nat, px: seq<byte>)
      requires Valid() && |s| == data.Length && x < pixelsPerRow && y < rows
      requires |px| == BppFactor(format, depth)
      ensures |Placed(s, x, y, px)| == data.Length
      ensures PixelAt(Placed(s, x, y, px), x, y) == DecodePixel(px, format)
    {
      OffsetFits(x, y);
    }

    /** Storing pixel (x, y) leaves every other pixel reading as before, when
        rows do not overlap. */
    lemma OthersUnchanged(s: seq<byte>, x: nat, y: nat, px: seq<byte>, x2: nat, y2: nat)
      requires Valid() && RowsApart() && |s| == data.Length
      requires x < pixelsPerRow && y < rows && x2 < pixelsPerRow && y2 < rows
      requires |px| == BppFactor(format, depth) && (x2 != x || y2 != y)
      ensures |Placed(s, x, y, px)| == data.Length
      ensures PixelAt(Placed(s, x, y, px), x2, y2) == PixelAt(s, x2, y2)
    {
      OffsetFits(x, y);
      OffsetFits(x2, y2);
      OffsetsApart(x, y, x2, y2);
    }

    /** After `set_pixel(x, y, c)` the pixel reads back as the colour of the
        bytes it stored (`DecodeEncodeWithinQuantum` bounds how far that lies
        from `c` when no division by alpha is involved). */
    lemma SetThenGet(s: seq<byte>, x: nat, y: nat, c: Color)
      requires Valid() && |s| == data.Length && x < pixelsPerRow && y < rows
      ensures |Written(s, x, y, c)| == data.Length
      ensures PixelAt(Written(s, x, y, c), x, y) == DecodePixel(StoredPixel(c, format), format)
    {
      ReadBack(s, x, y, StoredPixel(c, format));
    }
  }
}
