/** The pixel-buffer contract and the sub-region view.

    The contract is implemented by exactly two kinds of buffer, so it is a
    closed sum: a `ColorBuf` is either a bitmap-backed buffer or a sub-region
    view, and each operation dispatches on which. A view holds its backing
    buffer by reference and may itself be the backing of another view; at the
    bottom of every chain of views is one bitmap, its `Leaf`, whose bytes are
    the only state any operation changes. */
module ColorBufs {
  import opened Colors
  import opened Bitmap

  datatype ColorBuf = Bitmap(bitmap: BitmapColorBuf) | SubRegion(view: SubRegionColorBuf)
  {
    /** How many views lie above the bitmap; it bounds every walk down the chain. */
    ghost function Level(): nat {
      match this
      case Bitmap(_) => 0
      case SubRegion(v) => v.level
    }

    ghost predicate Valid()
      decreases Level(), 1
    {
      match this
      case Bitmap(b) => b.Valid()
      case SubRegion(v) => v.Valid()
    }

    /** The bitmap at the bottom of the chain of views. */
    ghost function Leaf(): (b: BitmapColorBuf)
      requires Valid()
      decreases Level()
      ensures b.Valid()
    {
      match this
      case Bitmap(b) => b
      case SubRegion(v) => assert v.Valid(); v.backing.Leaf()
    }

    /** Where this buffer's column 0 lies in the leaf bitmap: the sum of the
        horizontal offsets of every view on the way down. */
    ghost function OriginX(): nat
      requires Valid()
      decreases Level()
    {
      match this
      case Bitmap(_) => 0
      case SubRegion(v) => assert v.Valid(); v.regX + v.backing.OriginX()
    }

    /** Where this buffer's row 0 lies in the leaf bitmap. */
    ghost function OriginY(): nat
      requires Valid()
      decreases Level()
    {
      match this
      case Bitmap(_) => 0
      case SubRegion(v) => assert v.Valid(); v.regY + v.backing.OriginY()
    }

    function GetWidth(): nat {
      match this
      case Bitmap(b) => b.GetWidth()
      case SubRegion(v) => v.GetWidth()
    }

    function GetHeight(): nat {
      match this
      case Bitmap(b) => b.GetHeight()
      case SubRegion(v) => v.GetHeight()
    }

    /** The colour of in-range pixel (x, y) of this buffer when the leaf
        bitmap's bytes are `s`. */
    ghost function PixelIn(s: seq<byte>, x: nat, y: nat): Color
      requires Valid() && |s| == Leaf().data.Length && InBounds(x, y, GetWidth(), GetHeight())
    {
      TranslateInRange(this, x, y);
      Leaf().PixelAt(s, x + OriginX(), y + OriginY())
    }

    /** Reading a pixel fails with `InvalidCoordinate` exactly when the
        coordinate is outside this buffer; in range it always succeeds. */
    function GetPixel(x: nat, y: nat): (r: Result<Color, ColorBufError>)
      requires Valid()
      reads Leaf().data
      decreases Level(), 1
      ensures r.Err? <==> !InBounds(x, y, GetWidth(), GetHeight())
      ensures r.Err? ==> r.error == InvalidCoordinate
    {
      match this
      case Bitmap(b) => b.GetPixel(x, y)
      case SubRegion(v) => v.GetPixel(x, y)
    }

    /** Writing a pixel fails with `InvalidCoordinate`, changing nothing,
        exactly when the coordinate is outside this buffer; in range it stores
        the pixel at the translated coordinate of the leaf bitmap, and no
        other byte of the leaf changes. */
    method SetPixel(x: nat, y: nat, color: Color) returns (r: Result<(), ColorBufError>)
      requires Valid()
      modifies Leaf().data
      decreases Level(), 1
      ensures r.Err? <==> !InBounds(x, y, GetWidth(), GetHeight())
      ensures r.Err? ==> r.error == InvalidCoordinate && Leaf().data[..] == old(Leaf().data[..])
      ensures r.Ok? ==>
        Leaf().data[..] == Leaf().Written(old(Leaf().data[..]), x + OriginX(), y + OriginY(), color)
    {
      match this
      case Bitmap(b) =>
        r := b.SetPixel(x, y, color);
      case SubRegion(v) =>
        r := v.SetPixel(x, y, color);
    }
  }

  /** A view of the rectangle of `backing` that starts at (regX, regY) and is
      `width` x `height` pixels. It owns nothing; every access is handed on to
      the backing buffer with the coordinate translated. */
  class SubRegionColorBuf {
    const backing: ColorBuf
    const regX: nat
    const regY: nat
    const width: nat
    const height: nat
    ghost const level: nat

    /** The rectangle lies strictly inside the backing buffer, as the
        constructor checks, and the backing buffer is itself well formed. */
    ghost predicate Valid()
      decreases level, 0
    {
      backing.Level() < level && backing.Valid() &&
      regX + width < backing.GetWidth() && regY + height < backing.GetHeight()
    }

    constructor (backing: ColorBuf, startX: nat, startY: nat, width: nat, height: nat)
      requires backing.Valid()
      requires startX + width < backing.GetWidth() && startY + height < backing.GetHeight()
      ensures Valid()
      ensures this.backing == backing && regX == startX && regY == startY
      ensures this.width == width && this.height == height
    {
      this.backing := backing;
      regX := startX;
      regY := startY;
      this.width := width;
      this.height := height;
      level := backing.Level() + 1;
    }

    /** Makes a view, failing with `InvalidDimensions` exactly when the
        rectangle does not end strictly before the far edges of `backing`; a
        rectangle that touches the far edge is refused too. */
    static method New(backing: ColorBuf, startX: nat, startY: nat, width: nat, height: nat)
      returns (r: Result<SubRegionColorBuf, ColorBufError>)
      requires backing.Valid()
      ensures r.Err? <==>
        startX + width >= backing.GetWidth() || startY + height >= backing.GetHeight()
      ensures r.Err? ==> r.error == InvalidDimensions
      ensures r.Ok? ==> fresh(r.value) && r.value.Valid() && r.value.backing == backing
      ensures r.Ok? ==> r.value.regX == startX && r.value.regY == startY
      ensures r.Ok? ==> r.value.width == width && r.value.height == height
    {
      if startX + width >= backing.GetWidth() || startY + height >= backing.GetHeight() {
        return Err(InvalidDimensions);
      }
      var view := new SubRegionColorBuf(backing, startX, startY, width, height);
      return Ok(view);
    }

    /** The view's own size, not the backing buffer's. */
    function GetWidth(): nat {
      width
    }

    function GetHeight(): nat {
      height
    }

    /** Reading fails with `InvalidCoordinate` exactly when the coordinate is
        outside the view, without consulting the backing buffer; in range the
        translated read of the backing buffer succeeds. */
    function GetPixel(x: nat, y: nat): (r: Result<Color, ColorBufError>)
      requires Valid()
      reads backing.Leaf().data
      decreases level, 0
      ensures r.Err? <==> !InBounds(x, y, width, height)
      ensures r.Err? ==> r.error == InvalidCoordinate
    {
      if x >= width || y >= height then Err(InvalidCoordinate)
      else backing.GetPixel(regX + x, regY + y)
    }

    /** Writing fails with `InvalidCoordinate`, leaving the backing buffer as
        it was, exactly when the coordinate is outside the view; in range the
        translated write of the backing buffer succeeds. */
    method SetPixel(x: nat, y: nat, color: Color) returns (r: Result<(), ColorBufError>)
      requires Valid()
      modifies backing.Leaf().data
      decreases level, 0
      ensures r.Err? <==> !InBounds(x, y, width, height)
      ensures r.Err? ==> (r.error == InvalidCoordinate &&
        backing.Leaf().data[..] == old(backing.Leaf().data[..]))
      ensures r.Ok? ==> (backing.Leaf().data[..] ==
        backing.Leaf().Written(old(backing.Leaf().data[..]),
          regX + x + backing.OriginX(), regY + y + backing.OriginY(), color))
    {
      if x >= width || y >= height {
        return Err(InvalidCoordinate);
      }
      r := backing.SetPixel(regX + x, regY + y, color);
    }
  }

  // ---------------------------------------------------------------------------
  // Translation down a chain of views
  // ---------------------------------------------------------------------------

  /** An in-range coordinate of any buffer, shifted by the buffer's origin,
      is an in-range pixel of the leaf bitmap. */
  lemma {:induction false} TranslateInRange(c: ColorBuf, x: nat, y: nat)
    requires c.Valid() && InBounds(x, y, c.GetWidth(), c.GetHeight())
    ensures InBounds(x + c.OriginX(), y + c.OriginY(), c.Leaf().pixelsPerRow, c.Leaf().rows)
    decreases c.Level()
  {
    match c
    case Bitmap(_) =>
    case SubRegion(v) =>
      TranslateInRange(v.backing, v.regX + x, v.regY + y);
  }

  /** The leaf bitmap of a buffer in hand, and its byte array, are allocated
      objects: a method's frame covers them. */
  lemma {:induction false} LeafAllocated(c: ColorBuf)
    requires c.Valid()
    ensures allocated(c.Leaf()) && allocated(c.Leaf().data)
    decreases c.Level()
  {
    match c
    case Bitmap(_) =>
    case SubRegion(v) =>
      assert v.Valid();
      LeafAllocated(v.backing);
  }

  /** Every buffer reads an in-range pixel from its leaf bitmap at the
      coordinate shifted by its origin: a view over a view translates by the
      sum of both offsets, however deep the nesting. */
  lemma {:induction false} GetPixelFromLeaf(c: ColorBuf, x: nat, y: nat)
    requires c.Valid() && InBounds(x, y, c.GetWidth(), c.GetHeight())
    ensures InBounds(x + c.OriginX(), y + c.OriginY(), c.Leaf().pixelsPerRow, c.Leaf().rows)
    ensures c.GetPixel(x, y) == c.Leaf().GetPixel(x + c.OriginX(), y + c.OriginY())
    ensures c.GetPixel(x, y) == Ok(c.PixelIn(c.Leaf().data[..], x, y))
    decreases c.Level()
  {
    TranslateInRange(c, x, y);
    match c
    case Bitmap(_) =>
    case SubRegion(v) =>
      GetPixelFromLeaf(v.backing, v.regX + x, v.regY + y);
  }

  /** A view over a view reads pixel (x, y) of the inner view's backing buffer
      at (x, y) shifted by the offsets of both views. */
  lemma NestedViewTranslates(outer: SubRegionColorBuf, inner: SubRegionColorBuf, x: nat, y: nat)
    requires outer.Valid() && outer.backing == SubRegion(inner) && inner.Valid()
    requires InBounds(x, y, outer.width, outer.height)
    ensures outer.GetPixel(x, y) ==
      inner.backing.GetPixel(inner.regX + outer.regX + x, inner.regY + outer.regY + y)
  {
    var x', y' := outer.regX + x, outer.regY + y;
    assert outer.GetPixel(x, y) == SubRegion(inner).GetPixel(x', y');
    assert SubRegion(inner).GetPixel(x', y') == inner.GetPixel(x', y');
  }

  /** After the bytes `px` are stored at pixel (x, y) of any buffer, that
      pixel reads as `px` decoded. */
  lemma ReadBackThrough(c: ColorBuf, s: seq<byte>, x: nat, y: nat, px: seq<byte>)
    requires c.Valid() && |s| == c.Leaf().data.Length
    requires InBounds(x, y, c.GetWidth(), c.GetHeight())
    requires |px| == BppFactor(c.Leaf().format, c.Leaf().depth)
    ensures |c.Leaf().Placed(s, x + c.OriginX(), y + c.OriginY(), px)| == |s|
    ensures c.PixelIn(c.Leaf().Placed(s, x + c.OriginX(), y + c.OriginY(), px), x, y) ==
            DecodePixel(px, c.Leaf().format)
  {
    var leaf, ox, oy := c.Leaf(), c.OriginX(), c.OriginY();
    TranslateInRange(c, x, y);
    leaf.ReadBack(s, x + ox, y + oy, px);
  }

  /** Storing pixel (x, y) of any buffer leaves every other pixel of the
      buffer reading as before: the write reaches no other pixel of the leaf. */
  lemma OthersUnchangedThrough(c: ColorBuf, s: seq<byte>, x: nat, y: nat, px: seq<byte>,
                               x2: nat, y2: nat)
    requires c.Valid() && c.Leaf().RowsApart() && |s| == c.Leaf().data.Length
    requires InBounds(x, y, c.GetWidth(), c.GetHeight())
    requires InBounds(x2, y2, c.GetWidth(), c.GetHeight()) && (x2 != x || y2 != y)
    requires |px| == BppFactor(c.Leaf().format, c.Leaf().depth)
    ensures |c.Leaf().Placed(s, x + c.OriginX(), y + c.OriginY(), px)| == |s|
    ensures c.PixelIn(c.Leaf().Placed(s, x + c.OriginX(), y + c.OriginY(), px), x2, y2) ==
            c.PixelIn(s, x2, y2)
  {
    var leaf, ox, oy := c.Leaf(), c.OriginX(), c.OriginY();
    TranslateInRange(c, x, y);
    TranslateInRange(c, x2, y2);
    leaf.OthersUnchanged(s, x + ox, y + oy, px, x2 + ox, y2 + oy);
  }

  /** Pixel (x, y) of a buffer is the leaf's pixel at (x, y) shifted by the
      buffer's origin. */
  lemma PixelInLeaf(c: ColorBuf, s: seq<byte>, x: nat, y: nat)
    requires c.Valid() && |s| == c.Leaf().data.Length && InBounds(x, y, c.GetWidth(), c.GetHeight())
    ensures InBounds(x + c.OriginX(), y + c.OriginY(), c.Leaf().pixelsPerRow, c.Leaf().rows)
    ensures c.PixelIn(s, x, y) == c.Leaf().PixelAt(s, x + c.OriginX(), y + c.OriginY())
  {
    TranslateInRange(c, x, y);
  }
}
