/** The part of the 2D canvas that the caricature effect uses (script.js:70-78,
    86, 104), following the pixel manipulation rules of the HTML Living
    Standard: getImageData reports transparent black for pixels outside the
    canvas, putImageData drops writes that fall outside it, and a zero width
    or height makes getImageData throw an "IndexSizeError" DOMException. */
module Canvas2D {
  import opened Bytes
  import opened Pixels
  import opened ImageBuffer

  datatype CanvasError = IndexSizeError

  datatype Result<T> = Success(value: T) | Failure(error: CanvasError)

  /** The colour that drawing `image` at (0, 0) onto a cleared canvas leaves
      at (x, y): the image's pixel where it has one, transparent black elsewhere. */
  function Drawn(image: array2<Rgba>, x: nat, y: nat): Rgba
    reads image
  {
    if y < image.Length0 && x < image.Length1 then image[y, x] else TransparentBlack
  }

  class Canvas {
    const width: nat
    const height: nat
    /** The output bitmap, indexed [y, x]. */
    const bitmap: array2<Rgba>

    ghost predicate Valid()
      reads this
    {
      bitmap.Length0 == height && bitmap.Length1 == width
    }

    /** A new canvas of the given size with `image` drawn at (0, 0)
        (script.js:70-78). */
    constructor DrawImage(image: array2<Rgba>, width: nat, height: nat)
      ensures Valid() && fresh(bitmap)
      ensures this.width == width && this.height == height
      ensures forall y, x | 0 <= y < height && 0 <= x < width :: bitmap[y, x] == Drawn(image, x, y)
    {
      var pixels := new Rgba[height, width];
      var row := 0;
      while row < height
        invariant 0 <= row <= height
        invariant forall y, x | 0 <= y < row && 0 <= x < width :: pixels[y, x] == Drawn(image, x, y)
      {
        var col := 0;
        while col < width
          invariant 0 <= col <= width
          invariant forall y, x | 0 <= y < height && 0 <= x < width && (y < row || (y == row && x < col)) ::
            pixels[y, x] == Drawn(image, x, y)
        {
          pixels[row, col] := Drawn(image, col, row);
          col := col + 1;
        }
        row := row + 1;
      }
      this.width := width;
      this.height := height;
      this.bitmap := pixels;
    }

    /** The colour getImageData reports for (x, y). */
    function ReadPixel(x: int, y: int): Rgba
      reads this, bitmap
      requires Valid()
    {
      if 0 <= x < width && 0 <= y < height then bitmap[y, x] else TransparentBlack
    }

    /** `ctx.getImageData(sx, sy, sw, sh)` (script.js:86): a fresh ImageData of
        sw by sh pixels copied from the rectangle at (sx, sy), or the
        IndexSizeError it throws for an empty rectangle. */
    method GetImageData(sx: int, sy: int, sw: nat, sh: nat) returns (res: Result<ImageData>)
      requires Valid()
      ensures res.Failure? <==> sw == 0 || sh == 0
      ensures res.Success? ==> fresh(res.value) && fresh(res.value.data)
      ensures res.Success? ==> res.value.Valid() && res.value.width == sw && res.value.height == sh
      ensures res.Success? ==> forall row, col | 0 <= row < sh && 0 <= col < sw ::
        res.value.Pixel(row, col) == ReadPixel(sx + col, sy + row)
    {
      if sw == 0 || sh == 0 {
        return Failure(IndexSizeError);
      }
      var data := new Byte[sw * sh * 4];
      var row := 0;
      while row < sh
        invariant 0 <= row <= sh
        invariant forall r, c | 0 <= r < row && 0 <= c < sw :: At(data[..], sw, sh, r, c) == ReadPixel(sx + c, sy + r)
      {
        var col := 0;
        while col < sw
          invariant 0 <= col <= sw
          invariant forall r, c | 0 <= r < sh && 0 <= c < sw && (r < row || (r == row && c < col)) ::
            At(data[..], sw, sh, r, c) == ReadPixel(sx + c, sy + r)
        {
          var px := ReadPixel(sx + col, sy + row);
          PixelIndexInBounds(sw, sh, row, col);
          var k := 4 * (row * sw + col);
          ghost var before := data[..];
          data[k], data[k + 1], data[k + 2], data[k + 3] := px.r, px.g, px.b, px.a;
          assert before[..k] == data[..k];
          forall r, c | 0 <= r < sh && 0 <= c < sw && (r < row || (r == row && c < col))
            ensures At(data[..], sw, sh, r, c) == ReadPixel(sx + c, sy + r)
          {
            PixelIndexOrder(sw, r, c, row, col);
            AtFrame(before, data[..], sw, sh, r, c, k);
          }
          assert At(data[..], sw, sh, row, col) == px;
          col := col + 1;
        }
        row := row + 1;
      }
      var image := new ImageData(sw, sh, data);
      return Success(image);
    }

    /** `ctx.putImageData(image, dx, dy)` (script.js:104): every pixel of
        `image` is written at its offset from (dx, dy); the ones that fall
        outside the canvas are dropped, and nothing else changes. */
    method PutImageData(image: ImageData, dx: int, dy: int)
      requires Valid() && image.Valid()
      modifies bitmap
      ensures forall y, x {:trigger bitmap[y, x]} | 0 <= y < height && 0 <= x < width ::
        bitmap[y, x] == if dy <= y < dy + image.height && dx <= x < dx + image.width
                        then image.Pixel(y - dy, x - dx) else old(bitmap[y, x])
    {
      var row := 0;
      while row < image.height
        invariant 0 <= row <= image.height
        invariant forall y, x {:trigger bitmap[y, x]} | 0 <= y < height && 0 <= x < width ::
          bitmap[y, x] == if dy <= y < dy + row && dx <= x < dx + image.width
                          then image.Pixel(y - dy, x - dx) else old(bitmap[y, x])
      {
        var col := 0;
        while col < image.width
          invariant 0 <= col <= image.width
          invariant forall y, x {:trigger bitmap[y, x]} | 0 <= y < height && 0 <= x < width ::
            bitmap[y, x] == if (dy <= y < dy + row && dx <= x < dx + image.width) || (y == dy + row && dx <= x < dx + col)
                            then image.Pixel(y - dy, x - dx) else old(bitmap[y, x])
        {
          var x, y := dx + col, dy + row;
          if 0 <= x < width && 0 <= y < height {
            bitmap[y, x] := image.Pixel(row, col);
          }
          col := col + 1;
        }
        row := row + 1;
      }
    }
  }
}
