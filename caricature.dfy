/** The face-region caricature effect of `convertToCaricature` (script.js:50-105):
    every detected face box, in detection order, is read off the canvas with
    getImageData, rewritten pixel by pixel, and put back at the same place, so
    each box sees what the earlier boxes left on the canvas. */
module Caricature {
  import opened Bytes
  import opened Pixels
  import opened ImageBuffer
  import opened Canvas2D

  /** `detection.box` (script.js:82-83), in whole pixels. */
  datatype Box = Box(x: int, y: int, width: nat, height: nat)

  datatype Option<T> = None | Some(value: T)

  /** How `convertToCaricature` ends. NoImage: nothing to convert, the
      function returns at once (script.js:51-52). NoFaceFound: the detector
      found no face and the "no face" message is shown (script.js:64-67).
      ProcessingError: something threw and the generic error message is shown
      (script.js:112-114). Converted: the canvas the result preview is encoded
      from (script.js:108-111). */
  datatype Outcome = NoImage | NoFaceFound | ProcessingError | Converted(canvas: Canvas)

  /** The box contains the pixel at (x, y). */
  predicate Covers(box: Box, x: int, y: int)
  {
    box.x <= x < box.x + box.width && box.y <= y < box.y + box.height
  }

  predicate NonEmpty(box: Box)
  {
    box.width > 0 && box.height > 0
  }

  /** The number of boxes that contain (x, y). */
  function CoverCount(boxes: seq<Box>, x: int, y: int): (n: nat)
    ensures n <= |boxes|
    decreases |boxes|
  {
    if |boxes| == 0 then 0
    else CoverCount(boxes[..|boxes| - 1], x, y) + (if Covers(boxes[|boxes| - 1], x, y) then 1 else 0)
  }

  /** The number of boxes the forEach gets through: every box up to the first
      one of zero width or height, for which getImageData throws. */
  function AppliedCount(boxes: seq<Box>): (k: nat)
    ensures k <= |boxes|
    ensures forall i | 0 <= i < k :: NonEmpty(boxes[i])
    ensures k < |boxes| ==> !NonEmpty(boxes[k])
    decreases |boxes|
  {
    if |boxes| == 0 || !NonEmpty(boxes[0]) then 0 else 1 + AppliedCount(boxes[1..])
  }

  /** getImageData on the box followed by the caricature loop over the bytes
      it returned (script.js:86-101): each pixel of the rectangle is the
      transform of the canvas pixel under it, and the canvas is not touched.
      A box of zero width or height makes getImageData throw. */
  method TransformedRegion(canvas: Canvas, box: Box) returns (res: Result<ImageData>)
    requires canvas.Valid()
    ensures res.Failure? <==> !NonEmpty(box)
    ensures res.Success? ==> fresh(res.value) && fresh(res.value.data) && res.value.Valid()
    ensures res.Success? ==> res.value.width == box.width && res.value.height == box.height
    ensures res.Success? ==> forall row, col {:trigger res.value.Pixel(row, col)} | 0 <= row < box.height && 0 <= col < box.width ::
      res.value.Pixel(row, col) == TransformPixel(canvas.ReadPixel(box.x + col, box.y + row))
  {
    res := canvas.GetImageData(box.x, box.y, box.width, box.height);
    if res.Failure? {
      return;
    }
    var face := res.value;
    ghost var fetched := face.data[..];
    forall row, col | 0 <= row < face.height && 0 <= col < face.width
      ensures At(fetched, face.width, face.height, row, col) == canvas.ReadPixel(box.x + col, box.y + row)
    {
      assert face.Pixel(row, col) == At(fetched, face.width, face.height, row, col);
    }
    ApplyCaricature(face.data);
    FaceTransformed(canvas, face, box, fetched);
  }

  /** One iteration of the forEach at script.js:81-105: getImageData on the
      box, the caricature loop over its bytes, putImageData at the same place.
      Inside the box every canvas pixel receives the transform of its own
      previous colour; every other pixel keeps its colour. A box of zero width
      or height makes getImageData throw, and nothing is changed. */
  method ApplyBox(canvas: Canvas, box: Box) returns (ok: bool)
    requires canvas.Valid()
    modifies canvas.bitmap
    ensures ok <==> NonEmpty(box)
    ensures forall y, x {:trigger canvas.bitmap[y, x]} | 0 <= y < canvas.height && 0 <= x < canvas.width ::
      canvas.bitmap[y, x] == if ok && Covers(box, x, y) then TransformPixel(old(canvas.bitmap[y, x])) else old(canvas.bitmap[y, x])
  {
    var res := TransformedRegion(canvas, box);
    if res.Failure? {
      return false;
    }
    var face := res.value;
    label transformed:
    canvas.PutImageData(face, box.x, box.y);
    ok := true;
    forall y, x | 0 <= y < canvas.height && 0 <= x < canvas.width && Covers(box, x, y)
      ensures canvas.bitmap[y, x] == TransformPixel(old(canvas.bitmap[y, x]))
    {
      var row, col := y - box.y, x - box.x;
      assert canvas.bitmap[y, x] == face.Pixel(row, col);
      assert face.Pixel(row, col) == old@transformed(face.Pixel(row, col));
      assert old@transformed(canvas.ReadPixel(box.x + col, box.y + row)) == old(canvas.bitmap[y, x]);
    }
  }

  /** After the caricature loop, each pixel of the fetched face rectangle is
      the transform of the canvas pixel it was read from. */
  lemma FaceTransformed(canvas: Canvas, face: ImageData, box: Box, fetched: seq<Byte>)
    requires canvas.Valid() && face.Valid() && face.width == box.width && face.height == box.height
    requires |fetched| == face.data.Length
    requires forall row, col | 0 <= row < face.height && 0 <= col < face.width ::
      At(fetched, face.width, face.height, row, col) == canvas.ReadPixel(box.x + col, box.y + row)
    requires face.data[..] == Caricature(fetched)
    ensures forall row, col | 0 <= row < face.height && 0 <= col < face.width ::
      face.Pixel(row, col) == TransformPixel(canvas.ReadPixel(box.x + col, box.y + row))
  {
    forall row, col | 0 <= row < face.height && 0 <= col < face.width
      ensures face.Pixel(row, col) == TransformPixel(canvas.ReadPixel(box.x + col, box.y + row))
    {
      MapPixelsCell(fetched, face.width, face.height, row, col, TransformPixel);
    }
  }

  /** The forEach at script.js:81-105: the boxes in detection order, each
      reading the canvas as the earlier ones left it. A pixel ends up with the
      transform applied once per box that covers it; pixels outside every box
      keep their colour. If a box has zero width or height the exception
      stops the loop there, and `ok` is false. */
  method ApplyEffect(canvas: Canvas, boxes: seq<Box>) returns (ok: bool)
    requires canvas.Valid()
    modifies canvas.bitmap
    ensures ok <==> AppliedCount(boxes) == |boxes|
    ensures forall y, x | 0 <= y < canvas.height && 0 <= x < canvas.width ::
      canvas.bitmap[y, x] == Repeat(CoverCount(boxes[..AppliedCount(boxes)], x, y), old(canvas.bitmap[y, x]))
  {
    var i := 0;
    while i < |boxes|
      invariant 0 <= i <= |boxes|
      invariant forall j | 0 <= j < i :: NonEmpty(boxes[j])
      invariant forall y, x | 0 <= y < canvas.height && 0 <= x < canvas.width ::
        canvas.bitmap[y, x] == Repeat(CoverCount(boxes[..i], x, y), old(canvas.bitmap[y, x]))
    {
      var applied := ApplyBox(canvas, boxes[i]);
      if !applied {
        assert AppliedCount(boxes) == i;
        return false;
      }
      forall y, x | 0 <= y < canvas.height && 0 <= x < canvas.width
        ensures canvas.bitmap[y, x] == Repeat(CoverCount(boxes[..i + 1], x, y), old(canvas.bitmap[y, x]))
      {
        CoverStep(boxes, i, x, y, old(canvas.bitmap[y, x]));
      }
      i := i + 1;
    }
    assert boxes[..i] == boxes;
    ok := true;
  }

  /** Taking one more box into account applies the effect once more where
      that box covers the pixel, and changes nothing elsewhere. */
  lemma CoverStep(boxes: seq<Box>, i: nat, x: int, y: int, p: Rgba)
    requires i < |boxes|
    ensures Repeat(CoverCount(boxes[..i + 1], x, y), p) ==
      if Covers(boxes[i], x, y) then TransformPixel(Repeat(CoverCount(boxes[..i], x, y), p)) else Repeat(CoverCount(boxes[..i], x, y), p)
  {
    var k := CoverCount(boxes[..i], x, y);
    assert boxes[..i + 1][..i] == boxes[..i];
    assert CoverCount(boxes[..i + 1], x, y) == if Covers(boxes[i], x, y) then k + 1 else k;
    if Covers(boxes[i], x, y) {
      RepeatStep(k, p);
    }
  }

  /** `convertToCaricature` (script.js:50-120) with the detector's answer as
      an input: `None` stands for a detector that threw. The image element is
      `image` (null when no image has been chosen) shown at width by height. */
  method ConvertToCaricature(image: array2?<Rgba>, width: nat, height: nat, faces: Option<seq<Box>>) returns (out: Outcome)
    ensures image == null ==> out == NoImage
    ensures image != null && faces.None? ==> out == ProcessingError
    ensures image != null && faces == Some([]) ==> out == NoFaceFound
    ensures image != null && faces.Some? && faces.value != [] ==>
      if AppliedCount(faces.value) == |faces.value| then out.Converted? else out == ProcessingError
    ensures out.Converted? ==> image != null && faces.Some?
    ensures out.Converted? ==> fresh(out.canvas) && fresh(out.canvas.bitmap) && out.canvas.Valid()
    ensures out.Converted? ==> out.canvas.width == width && out.canvas.height == height
    ensures out.Converted? && image != null && faces.Some? ==>
      forall y, x | 0 <= y < height && 0 <= x < width ::
        out.canvas.bitmap[y, x] == Repeat(CoverCount(faces.value, x, y), Drawn(image, x, y))
  {
    if image == null {
      return NoImage;
    }
    if faces.None? {
      return ProcessingError;
    }
    var boxes := faces.value;
    if |boxes| == 0 {
      return NoFaceFound;
    }
    var canvas := new Canvas.DrawImage(image, width, height);
    var ok := ApplyEffect(canvas, boxes);
    if !ok {
      return ProcessingError;
    }
    assert boxes[..AppliedCount(boxes)] == boxes;
    return Converted(canvas);
  }

  /** Coverage counts add up over a split list of detections. */
  lemma {:induction false} CoverCountAppend(a: seq<Box>, b: seq<Box>, x: int, y: int)
    ensures CoverCount(a + b, x, y) == CoverCount(a, x, y) + CoverCount(b, x, y)
    decreases |b|
  {
    if |b| == 0 {
      assert a + b == a;
    } else {
      var last := |b| - 1;
      assert (a + b)[..|a + b| - 1] == a + b[..last];
      CoverCountAppend(a, b[..last], x, y);
    }
  }

  /** Although every box reads what the earlier ones wrote, the finished
      canvas does not depend on the order of the detections: swapping two
      groups of boxes gives every pixel the same colour. */
  lemma DetectionOrderIrrelevant(a: seq<Box>, b: seq<Box>, x: int, y: int, p: Rgba)
    ensures CoverCount(a + b, x, y) == CoverCount(b + a, x, y)
    ensures Repeat(CoverCount(a + b, x, y), p) == Repeat(CoverCount(b + a, x, y), p)
  {
    CoverCountAppend(a, b, x, y);
    CoverCountAppend(b, a, x, y);
  }

  /** A pixel is left alone exactly when no box covers it. */
  lemma {:induction false} UncoveredIffZero(boxes: seq<Box>, x: int, y: int)
    ensures CoverCount(boxes, x, y) == 0 <==> forall i | 0 <= i < |boxes| :: !Covers(boxes[i], x, y)
    decreases |boxes|
  {
    if |boxes| > 0 {
      var init := boxes[..|boxes| - 1];
      UncoveredIffZero(init, x, y);
      assert forall i | 0 <= i < |init| :: init[i] == boxes[i];
    }
  }

  /** A pixel inside two overlapping boxes is transformed twice, the second
      time from the first result. */
  lemma OverlapCompounds(first: Box, second: Box, x: int, y: int, p: Rgba)
    requires Covers(first, x, y) && Covers(second, x, y)
    ensures CoverCount([first, second], x, y) == 2
    ensures Repeat(CoverCount([first, second], x, y), p) == TransformPixel(TransformPixel(p))
  {
    assert [first, second][..1] == [first];
    assert [first][..0] == [];
  }
}
