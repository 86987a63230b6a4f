# colorbuf-rs in Dafny

This project models the core of `colorbuf-rs`, a small Rust library that gives a
rectangular grid of colour pixels one contract, `ColorBuf`, with two
implementations, and proves properties of the model:

- **The `ColorBuf` contract and `Color`** (`src/lib.rs`). Pixels are read and
  written by coordinate, with `(0, 0)` at the top-left and `(width - 1, height - 1)`
  at the bottom-right. A coordinate outside that range gives
  `InvalidCoordinate`. A `Color` is four straight-alpha channels.
- **`BitmapColorBuf`** (`src/bitmap/mod.rs`). This is a codec over a byte array
  it owns. Pixel `(x, y)` starts at byte `y * stride + bpp * x`. `bpp` is 4 for
  RGBA and ARGB and 3 for RGB. Reading decodes each byte as `byte / 255`, in the
  format's channel order. Writing stores `(v * 255) as u8` per channel. For RGB,
  each colour channel is first divided by alpha and no alpha byte is written.
- **`to_bitmap`** (`src/bitmap/mod.rs`). This writes any `ColorBuf` into a
  caller-supplied byte slice:
  - it reports a stride of `4 * width` in every format;
  - it refuses a slice shorter than `height * stride` before writing anything;
  - otherwise it fills the slice row by row.
- **`SubRegionColorBuf`** (`src/ops/mod.rs`). This is a view of a rectangle of
  any `ColorBuf`:
  - it refuses a rectangle that does not end strictly inside the backing buffer;
  - it bounds-checks its own coordinates;
  - it passes every in-range access to the backing buffer, with the coordinate
    shifted by the view's origin.

  Views nest.

How the model is laid out:

- `color.dfy` (module `Colors`) holds the shared values: `Color`,
  `ColorBufError`, `Result` and the coordinate-range predicate `InBounds`.
- `arith.dfy` (module `Arith`) holds `Mul` and its lemmas. Byte offsets are
  built from `Mul`, whose value is the product.
- `bitmap.dfy` (module `Bitmap`) holds the following:
  - the layouts and `BppFactor` (`get_bpp_factor`);
  - the byte/channel conversions;
  - the `BitmapColorBuf` class. Its one mutable piece of state is `data`, an
    `array<byte>`. `GetWidth` and `GetHeight` return `pixelsPerRow` and `rows`.
- `colorbuf.dfy` (module `ColorBufs`) holds two things:
  - **The contract as a closed sum**, `ColorBuf = Bitmap(...) | SubRegion(...)`.
    Each operation dispatches on the case.
  - **The `SubRegionColorBuf` class.** A view holds its backing buffer. At the
    bottom of every chain of views is one bitmap, its `Leaf()`, and
    `OriginX()`/`OriginY()` are the summed offsets down the chain. The leaf's
    bytes are the only thing any operation changes.
- `to_bitmap.dfy` (module `ToBitmap`) holds the writer and its specification:
  - `ToBitmap` has the same nested loops as the source, one method per loop
    level. The outer loop calls `WriteRow`, the inner loop is `WritePixels`,
    and one pass of the inner loop is `WritePixel`.
  - The result is specified by `Rendered`. `Rendered` is the input bytes with
    every row of the buffer's encoding (`Grid`) stored in turn.
  - Lemmas then say what each byte of `Rendered` holds.
  - The `unwrap()` on each read never panics: `GetPixelFromLeaf` shows that an
    in-range read of any buffer succeeds, and `WritePixel` relies on it.

## Model

| member | source | states |
|---|---|---|
| Bitmap.BitmapColorBuf.constructor | src/bitmap/mod.rs:172-186 | keeps the format, depth, rows, pixels per row, stride and byte array as given; the layout must fit in the array |
| Bitmap.BitmapColorBuf.OffsetFits | src/bitmap/mod.rs:188-190 | the `bpp` bytes from `y * stride + bpp * x` of every in-range pixel lie inside `data` |
| Bitmap.BitmapColorBuf.OffsetsApart | src/bitmap/mod.rs:188-209 | two different in-range pixels occupy disjoint byte ranges whenever a row of pixels fits in the stride |
| Bitmap.BitmapColorBuf.GetPixel | src/bitmap/mod.rs:43-87 | fails with `InvalidCoordinate` exactly when `x >= pixels_per_row` or `y >= rows`; otherwise returns the pixel decoded from its offset in the format's channel order, each channel `byte / 255`, and alpha 1 for RGB |
| Bitmap.BitmapColorBuf.SetPixel | src/bitmap/mod.rs:89-149 | fails with `InvalidCoordinate` exactly when out of range, leaving `data` unchanged; otherwise `data` becomes the old bytes with the pixel's stored bytes at its offset and every other byte kept |
| Bitmap.StoredPixel | src/bitmap/mod.rs:99-147 | `set_pixel` stores exactly `bpp` bytes; for RGBA and ARGB they are the bytes the bitmap writer produces |
| Bitmap.BitmapColorBuf.ReadBack | src/bitmap/mod.rs:43-149 | after any pixel bytes are stored at (x, y), that pixel reads as those bytes decoded |
| Bitmap.BitmapColorBuf.OthersUnchanged | src/bitmap/mod.rs:99-147 | storing pixel (x, y) leaves every other pixel reading as before, when rows do not overlap |
| Bitmap.BitmapColorBuf.SetThenGet | src/bitmap/mod.rs:43-149 | after `set_pixel(x, y, c)` the pixel reads as the decoding of exactly the bytes `set_pixel` stored for `c` |
| Bitmap.QuantizeChannelOf | src/bitmap/mod.rs:57-60 | a byte read as a channel (`b / 255`) and written again (`(v * 255) as u8`) is the same byte |
| Bitmap.QuantizeWithinQuantum | src/bitmap/mod.rs:103-106 | for a channel in [0, 1] the truncating cast loses less than 1/255 and never rounds up |
| Bitmap.EncodeDecode | src/bitmap/mod.rs:53-147 | decoding the bytes of a pixel and encoding the colour again gives the same bytes, both as the writer encodes and as `set_pixel` stores, in every format |
| Bitmap.EncodeDecodeAt | src/bitmap/mod.rs:250-273 | the bytes of a pixel read in place and encoded again by the writer are the bytes that were there |
| Bitmap.DecodeEncodeWithinQuantum | src/bitmap/mod.rs:53-106 | a colour with channels in [0, 1], encoded and decoded, comes back with each channel at most one step of 1/255 below; an RGB pixel comes back opaque |
| Bitmap.StoredIsEncodedWhenOpaque | src/bitmap/mod.rs:130-145 | for an opaque colour the RGB division by alpha changes nothing: `set_pixel` stores the writer's bytes |
| ColorBufs.ColorBuf.GetPixel | src/lib.rs:24-28 | any buffer's read fails with `InvalidCoordinate` exactly when `x >= width` or `y >= height` |
| ColorBufs.ColorBuf.SetPixel | src/lib.rs:30-34 | any buffer's write fails with `InvalidCoordinate` exactly when out of range, changing no byte; in range, the leaf bitmap's bytes become the old ones with the pixel stored at the translated coordinate and all other bytes kept |
| ColorBufs.SubRegionColorBuf.constructor | src/ops/mod.rs:40 | the view records its backing buffer, origin and size as given |
| ColorBufs.SubRegionColorBuf.New | src/ops/mod.rs:32-41 | fails with `InvalidDimensions` exactly when `start_x + width >= backing width` or `start_y + height >= backing height`; otherwise gives a new well-formed view with those fields |
| ColorBufs.SubRegionColorBuf.GetPixel | src/ops/mod.rs:47-52 | reports `InvalidCoordinate` exactly when `x >= width` or `y >= height`, that is, when the coordinate is outside the view's own size |
| ColorBufs.SubRegionColorBuf.SetPixel | src/ops/mod.rs:54-59 | out of range, fails with `InvalidCoordinate` and leaves the backing buffer unchanged; in range, stores the pixel at `(reg_x + x, reg_y + y)` of the backing buffer, translated down to the leaf, and keeps every other byte |
| ColorBufs.TranslateInRange | src/ops/mod.rs:37-51 | every in-range coordinate of a successfully built view, at any depth, translates to an in-range pixel of the leaf bitmap, so no backing call reports `InvalidCoordinate` |
| ColorBufs.GetPixelFromLeaf | src/ops/mod.rs:47-51 | an in-range read of any buffer returns the leaf bitmap's read at the coordinate shifted by the buffer's origin, and that read succeeds |
| ColorBufs.NestedViewTranslates | src/ops/mod.rs:44-59 | a view over a view reads the inner view's backing buffer at the coordinate shifted by the sum of both offsets |
| ColorBufs.ReadBackThrough | src/ops/mod.rs:54-58 | after a write through any chain of views, the written pixel of the view reads as the stored bytes decoded |
| ColorBufs.OthersUnchangedThrough | src/ops/mod.rs:54-58 | a write through any chain of views leaves every other pixel of the view reading as before, when the leaf bitmap's rows do not overlap (`RowsApart`) |
| ToBitmap.ToBitmap | src/bitmap/mod.rs:226-279 | the stride is `4 * width` in every format; fails with `ByteArrayTooSmall`, writing nothing, exactly when `height * stride > output.len()`; otherwise the output is the input bytes with every pixel's encoding stored row by row (`Rendered`) |
| ToBitmap.WriteRow | src/bitmap/mod.rs:243-277 | one pass of the outer loop extends the rows already written by the encoding of row `y` |
| ToBitmap.WritePixels | src/bitmap/mod.rs:244-276 | the inner loop stores the encodings of row `y`'s pixels, left to right, from `y * stride` |
| ToBitmap.WritePixel | src/bitmap/mod.rs:245-275 | one pass of the inner loop reads pixel (x, y), which cannot fail, and stores its encoding at `y * stride + bpp * x` after the pixels already written |
| ToBitmap.WriteEncodedPixel | src/bitmap/mod.rs:248-274 | the output becomes the old bytes with the colour's quantised channels stored at `index` in the format's order; RGB stores no alpha byte |
| ToBitmap.IndexIsOffset | src/bitmap/mod.rs:246 | the writer's index `y * stride + bpp * x` is the pixel's output offset |
| ToBitmap.PixelFits | src/bitmap/mod.rs:238-246 | every pixel the writer stores lies within the `height * stride` bytes the length check guarantees |
| ToBitmap.RunFrame | src/bitmap/mod.rs:244-276 | writing a row's pixels changes no byte outside the pixels' blocks |
| ToBitmap.RunPixel | src/bitmap/mod.rs:244-276 | after a row's first `n` pixels are written, every byte of each of them holds its encoding |
| ToBitmap.RowsFrameBelow | src/bitmap/mod.rs:243-277 | writing the first `m` rows changes no byte at or past `m` strides |
| ToBitmap.RowsPixel | src/bitmap/mod.rs:243-277 | after the first `m` rows are written, every byte of every pixel in them holds that pixel's encoding |
| ToBitmap.RowsPadding | src/bitmap/mod.rs:243-277 | writing rows never touches the bytes of a row past its last pixel |
| ToBitmap.RenderedPixel | src/bitmap/mod.rs:243-277 | byte `k` of output pixel (x, y), at `y * stride + bpp * x + k`, is byte `k` of the encoding of the buffer's pixel (x, y) |
| ToBitmap.RenderedDecodes | src/bitmap/mod.rs:243-277 | output pixel (x, y), decoded in the output format, is the buffer's pixel (x, y) encoded and decoded again |
| ToBitmap.RenderedReadsBack | src/bitmap/mod.rs:226-279 | the output, read back with `get_pixel` by a bitmap of the same format with `height` rows, `width` pixels per row and the reported stride `4 * width`, gives every pixel whose channels lie in [0, 1] to within one step of 1/255 below the original in each channel; an RGB pixel reads back with alpha 1 |
| ToBitmap.RowPaddingUntouched | src/bitmap/mod.rs:236-277 | the bytes of each output row past its pixels (for RGB, the last `width` bytes of every row) keep their value |
| ToBitmap.RenderedTailUntouched | src/bitmap/mod.rs:238-277 | output bytes past `height * stride` keep their value |
| ToBitmap.SameFormatCopiesPixel | src/bitmap/mod.rs:285-299 | a bitmap written out in its own format has every pixel's bytes copied unchanged to the pixel's place in the output, whatever the source stride |
| ToBitmap.CopiedByte | src/bitmap/mod.rs:325-339 | byte `i` of a tightly packed RGBA or ARGB bitmap, within its `rows * stride` bytes, is copied to byte `i` of the output |
| ToBitmap.ToBitmapReproducesBitmap | src/bitmap/mod.rs:325-339 | a tightly packed RGBA or ARGB bitmap written out in its own format is reproduced byte for byte over its `rows * stride` bytes |

## Left out

- Floating point. Channels are exact `real`s.
  - `byte as f32 / 255` is `b / 255` exactly.
  - `(v * 255) as u8` is truncation toward zero, saturating at 0 and 255 (`Quantize`).
  - f32 rounding, `-0.0` and NaN or infinite channel inputs are not modelled. The
    exception is an RGB write with alpha 0: `UnpremultipliedByte` stores the bytes
    that the IEEE division followed by the saturating cast gives.
- Integer width. Coordinates, sizes and offsets are unbounded. The overflow of
  `y * stride + bpp * x`, of `start_x + width` and of the `as usize` casts is
  not modelled.
- Bitmap.BitmapColorBuf.constructor: requires that the layout fits in the array.
  The source accepts any array and would panic on the first out-of-range
  access. Every buffer operation assumes the same condition (`Valid`).
- Bitmap.BitmapColorBuf.OthersUnchanged: assumes a row of pixels fits in the
  stride (`RowsApart`). The source does not check this. With a smaller stride,
  neighbouring pixels share bytes.
- ColorBufs.OthersUnchangedThrough: assumes the same `RowsApart` condition of
  the leaf bitmap, for the same reason: with a smaller stride, a write through
  a view can change a neighbouring pixel of that view.
- ToBitmap.ToBitmap: requires the output array to be distinct from the leaf
  bitmap's array. In the source the borrow checker guarantees this.
- Ownership and lifetimes. A view refers to its backing buffer by reference,
  with no borrow. The trait is a closed sum of its two implementations, since
  those are the only ones in the library.
- Bit depth. `Eight` is the only depth the source has, and the model keeps
  just that one.
- Behaviour kept as the code has it:
  - the cast `(v * 255) as u8` truncates toward zero; it does not round to
    the nearest byte, and `Quantize` truncates as well;
  - the stride `to_bitmap` reports is `4 * width` in every format, RGB
    included, although an RGB row holds only `3 * width` bytes of pixels; the
    model reports the same stride;
  - a sub-region rectangle that reaches the far edge of the
    backing buffer is refused, because of the `>=` comparison at
    src/ops/mod.rs:37; the model refuses it too;
  - the doc comment at src/bitmap/mod.rs:169-170 says a tight stride equals
    `pixels_per_row`, but the offset formula counts the stride in bytes (8 for
    a row of two RGBA pixels); the model follows the formula.
- Alignment advice in the `to_bitmap` comments describes no behaviour and is
  not modelled.
