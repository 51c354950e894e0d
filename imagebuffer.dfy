/** ImageData: a width-by-height rectangle of pixels held in one flat byte
    buffer, four bytes per pixel in red, green, blue, alpha order, rows one
    after another. The caricature loop (script.js:90-101) walks this buffer
    with stride 4 and rewrites it in place. */
module ImageBuffer {
  import opened Bytes
  import opened Pixels

  /** The pixel held by bytes 4q .. 4q+3 of a buffer. */
  function PixelOf(s: seq<Byte>, q: nat): Rgba
    requires 4 * q + 4 <= |s|
  {
    Rgba(s[4 * q], s[4 * q + 1], s[4 * q + 2], s[4 * q + 3])
  }

  /** The four bytes that hold a pixel. */
  function PixelBytes(p: Rgba): (s: seq<Byte>)
    ensures |s| == 4 && PixelOf(s, 0) == p
  {
    [p.r, p.g, p.b, p.a]
  }

  /** A prefix of whole pixels grows by the bytes of the next pixel. */
  lemma PrefixSnoc(s: seq<Byte>, q: nat)
    requires 4 * q + 4 <= |s|
    ensures s[..4 * q + 4] == s[..4 * q] + PixelBytes(PixelOf(s, q))
  {
  }

  /** A buffer with each whole four-byte pixel replaced by its image under
      `f`; an incomplete pixel at the end would be kept as it is. */
  function MapPixels(s: seq<Byte>, f: Rgba -> Rgba): (t: seq<Byte>)
    ensures |t| == |s|
    decreases |s|
  {
    if |s| < 4 then s else PixelBytes(f(PixelOf(s, 0))) + MapPixels(s[4..], f)
  }

  /** Mapping a buffer with one more pixel at its end appends that pixel's
      image: the pixels are processed one after another, front to back. */
  lemma {:induction false} MapPixelsSnoc(s: seq<Byte>, n: nat, p: Rgba, f: Rgba -> Rgba)
    requires |s| == 4 * n
    ensures MapPixels(s + PixelBytes(p), f) == MapPixels(s, f) + PixelBytes(f(p))
    decreases n
  {
    if |s| == 0 {
      assert s + PixelBytes(p) == PixelBytes(p);
      assert (s + PixelBytes(p))[4..] == [];
    } else {
      assert |s| >= 4;
      var t := s + PixelBytes(p);
      assert t[4..] == s[4..] + PixelBytes(p);
      assert PixelOf(t, 0) == PixelOf(s, 0);
      MapPixelsSnoc(s[4..], n - 1, p, f);
    }
  }

  /** Pixel q of the result is the image of pixel q of the input, and of
      nothing else: each pixel is visited exactly once and depends only on its
      own prior bytes. */
  lemma {:induction false} MapPixelsAt(s: seq<Byte>, q: nat, f: Rgba -> Rgba)
    requires 4 * q + 4 <= |s|
    ensures PixelOf(MapPixels(s, f), q) == f(PixelOf(s, q))
    decreases q
  {
    var head := PixelBytes(f(PixelOf(s, 0)));
    assert MapPixels(s, f) == head + MapPixels(s[4..], f);
    if q > 0 {
      MapPixelsAt(s[4..], q - 1, f);
      assert PixelOf(s[4..], q - 1) == PixelOf(s, q);
      assert PixelOf(MapPixels(s, f), q) == PixelOf(MapPixels(s[4..], f), q - 1);
    }
  }

  /** One step of a front-to-back pass: when the first n pixels of `s` have
      been mapped and the rest are untouched, replacing pixel n by its image
      leaves the first n + 1 pixels mapped. */
  lemma MapPixelsStep(s: seq<Byte>, n: nat, t: seq<Byte>, u: seq<Byte>, f: Rgba -> Rgba)
    requires 4 * n + 4 <= |s|
    requires t == MapPixels(s[..4 * n], f) + s[4 * n..]
    requires u == t[..4 * n] + PixelBytes(f(Rgba(t[4 * n], t[4 * n + 1], t[4 * n + 2], t[4 * n + 3]))) + t[4 * n + 4..]
    ensures u == MapPixels(s[..4 * n + 4], f) + s[4 * n + 4..]
  {
    var i := 4 * n;
    assert t[..i] == MapPixels(s[..i], f) && t[i + 4..] == s[i + 4..];
    assert t[i..i + 4] == s[i..i + 4];
    PrefixSnoc(s, n);
    MapPixelsSnoc(s[..i], n, PixelOf(s, n), f);
  }

  /** The buffer after the caricature loop: each pixel replaced by its transform. */
  function Caricature(s: seq<Byte>): (t: seq<Byte>)
  {
    MapPixels(s, TransformPixel)
  }

  /** The caricature loop never changes an alpha byte. */
  lemma CaricatureKeepsAlpha(s: seq<Byte>, q: nat)
    requires 4 * q + 4 <= |s|
    ensures Caricature(s)[4 * q + 3] == s[4 * q + 3]
  {
    MapPixelsAt(s, q, TransformPixel);
  }

  /** A buffer of width-by-height pixels holds the pixel at (row, col). */
  lemma PixelIndexInBounds(width: nat, height: nat, row: nat, col: nat)
    requires row < height && col < width
    ensures 4 * (row * width + col) + 4 <= width * height * 4
  {
    assert row * width + col < (row + 1) * width;
    assert (row + 1) * width <= height * width;
  }

  /** Pixels earlier in row-major order sit earlier in the buffer. */
  lemma PixelIndexOrder(width: nat, row1: nat, col1: nat, row2: nat, col2: nat)
    requires col1 < width && col2 < width
    requires row1 < row2 || (row1 == row2 && col1 < col2)
    ensures row1 * width + col1 < row2 * width + col2
  {
    if row1 < row2 {
      assert row1 * width + col1 < (row1 + 1) * width;
      assert (row1 + 1) * width <= row2 * width;
    }
  }

  /** The pixel at (row, col) of a width-by-height buffer. */
  function At(s: seq<Byte>, width: nat, height: nat, row: nat, col: nat): Rgba
    requires |s| == width * height * 4 && row < height && col < width
  {
    PixelIndexInBounds(width, height, row, col);
    PixelOf(s, row * width + col)
  }

  /** A pixel lying wholly before `lo` is the same in two buffers that agree below `lo`. */
  lemma AtFrame(s: seq<Byte>, t: seq<Byte>, width: nat, height: nat, row: nat, col: nat, lo: nat)
    requires |s| == |t| == width * height * 4 && row < height && col < width
    requires 4 * (row * width + col) + 4 <= lo <= |s| && s[..lo] == t[..lo]
    ensures At(s, width, height, row, col) == At(t, width, height, row, col)
  {
    var q := row * width + col;
    assert s[4 * q] == s[..lo][4 * q] && s[4 * q + 3] == s[..lo][4 * q + 3];
    assert s[4 * q + 1] == s[..lo][4 * q + 1] && s[4 * q + 2] == s[..lo][4 * q + 2];
  }

  /** The mapped buffer, read at (row, col), holds the image of the pixel
      that was there. */
  lemma MapPixelsCell(s: seq<Byte>, width: nat, height: nat, row: nat, col: nat, f: Rgba -> Rgba)
    requires |s| == width * height * 4 && row < height && col < width
    ensures At(MapPixels(s, f), width, height, row, col) == f(At(s, width, height, row, col))
  {
    PixelIndexInBounds(width, height, row, col);
    MapPixelsAt(s, row * width + col, f);
  }

  /** The ImageData object that getImageData returns and putImageData reads. */
  class ImageData {
    const width: nat
    const height: nat
    const data: array<Byte>

    ghost predicate Valid()
      reads this
    {
      data.Length == width * height * 4
    }

    constructor (width: nat, height: nat, data: array<Byte>)
      requires data.Length == width * height * 4
      ensures this.width == width && this.height == height && this.data == data
      ensures Valid()
    {
      this.width := width;
      this.height := height;
      this.data := data;
    }

    /** The pixel at (row, col) of this rectangle. */
    function Pixel(row: nat, col: nat): Rgba
      reads this, data
      requires Valid() && row < height && col < width
    {
      At(data[..], width, height, row, col)
    }
  }

  /** The body of the loop at script.js:91-100 for the pixel at bytes
      i .. i+3: the three contrast stores, then `avg` once from the stored
      channels, then the three saturation stores. Byte i+3 (alpha) is never
      assigned. */
  method TransformPixelAt(data: array<Byte>, i: nat)
    requires i + 4 <= data.Length
    modifies data
    ensures data[..] == old(data[..i]) + PixelBytes(TransformPixel(old(Rgba(data[i], data[i + 1], data[i + 2], data[i + 3])))) + old(data[i + 4..])
  {
    ghost var p := Rgba(data[i], data[i + 1], data[i + 2], data[i + 3]);
    ghost var q := TransformPixel(p);
    ghost var s := data[..];
    data[i] := Contrast(data[i]);
    data[i + 1] := Contrast(data[i + 1]);
    data[i + 2] := Contrast(data[i + 2]);
    var avg := Mean(data[i], data[i + 1], data[i + 2]);
    assert avg == Mean(Contrast(p.r), Contrast(p.g), Contrast(p.b));
    data[i] := Saturate(data[i], avg);
    data[i + 1] := Saturate(data[i + 1], avg);
    data[i + 2] := Saturate(data[i + 2], avg);
    assert data[i] == q.r && data[i + 1] == q.g && data[i + 2] == q.b && data[i + 3] == q.a;
    SplicePixel(s, data[..], i, q);
  }

  /** A buffer that differs from `s` only in bytes i .. i+3, which hold `q`,
      is `s` with the bytes of `q` spliced in at i. */
  lemma SplicePixel(s: seq<Byte>, t: seq<Byte>, i: nat, q: Rgba)
    requires i + 4 <= |s| == |t|
    requires t[i] == q.r && t[i + 1] == q.g && t[i + 2] == q.b && t[i + 3] == q.a
    requires forall k | 0 <= k < |s| && (k < i || i + 4 <= k) :: t[k] == s[k]
    ensures t == s[..i] + PixelBytes(q) + s[i + 4..]
  {
  }

  /** The loop at script.js:90-101 over the buffer of one ImageData: every
      four-byte pixel, front to back, rewritten in place. */
  method ApplyCaricature(data: array<Byte>)
    requires data.Length % 4 == 0
    modifies data
    ensures data[..] == Caricature(old(data[..]))
  {
    ghost var s := data[..];
    ghost var pixels := data.Length / 4;
    assert data.Length == 4 * pixels;
    var i := 0;
    ghost var done := 0;
    while i < data.Length
      invariant i == 4 * done && done <= pixels
      invariant data[..] == Caricature(s[..i]) + s[i..]
    {
      ghost var before := data[..];
      TransformPixelAt(data, i);
      MapPixelsStep(s, done, before, data[..], TransformPixel);
      i := i + 4;
      done := done + 1;
    }
    assert s[..i] == s;
  }
}
