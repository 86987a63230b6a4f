/** The value types shared by every pixel buffer: a straight-alpha RGBA colour,
    the error kinds of the buffer contract, and the result wrapper the
    operations return. */
module Colors {

  /** A straight (non-premultiplied) RGBA colour. Each channel is documented
      to range over [0, 1], but nothing enforces it; a datatype gives the
      copy semantics and field-wise equality of the library's `Color` struct. */
  datatype Color = Color(r: real, g: real, b: real, a: real)

  /** Errors of the pixel-buffer contract. */
  datatype ColorBufError = InvalidCoordinate | InvalidDimensions

  datatype Result<+T, +E> = Ok(value: T) | Err(error: E)

  /** The coordinate space of a `width` x `height` buffer runs from (0, 0),
      the top-left corner, to (width - 1, height - 1). */
  predicate InBounds(x: nat, y: nat, width: nat, height: nat) {
    x < width && y < height
  }
}
