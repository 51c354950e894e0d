# Face caricature effect — a Dafny model

This project models the image-processing core of the photo caricature page
in `script.js`. The function `convertToCaricature` draws the chosen photo
onto a fresh canvas. Then, for each face box the detector returned, in
detection order, it does three things:

- reads the box's pixels with `getImageData`;
- rewrites every pixel of that copy in place: a contrast boost of each colour
  channel, then a saturation boost around the mean of the boosted channels;
- writes the copy back at the same place with `putImageData`.

If the detector finds no face, the function stops with a message and converts
nothing.

The model is organised in five modules:

- `Bytes` (`bytes.dfy`) is the byte store of a `Uint8ClampedArray`. Every
  number stored into `ImageData.data` goes through the ToUint8Clamp operation
  of ECMA-262 (section 7.1.12): clamp to [0, 255], then round to nearest,
  ties to even. Numbers are exact rationals (`real`).
- `Pixels` (`pixels.dfy`) holds the per-pixel formula as pure functions:
  `Contrast`, `Mean`, `Saturate` and `TransformPixel`. `Repeat` is the pixel
  after n passes. The module also holds the lemmas about the formula.
- `ImageBuffer` (`imagebuffer.dfy`) holds:
  - `ImageData`, a width-by-height rectangle stored as one flat byte array
    with stride 4 in RGBA order;
  - the specification function `Caricature` of one pass over such a buffer;
  - the in-place loop `ApplyCaricature`, proved equal to it.
- `Canvas2D` (`canvas.dfy`) is a canvas whose bitmap is an `array2<Rgba>`.
  It follows the pixel manipulation rules of the HTML Living Standard:
  - `getImageData` reports transparent black outside the canvas;
  - `getImageData` throws `IndexSizeError` for a zero width or height;
  - `putImageData` drops the pixels that fall outside the canvas.
- `Caricature` (`caricature.dfy`) holds the per-box step `ApplyBox`, the
  `forEach` over the detections `ApplyEffect`, and `ConvertToCaricature`
  with its four outcomes:
  - no image chosen;
  - no face found;
  - an exception caught;
  - a converted canvas.

The main result is about the canvas after the conversion. Each pixel of it
equals the transform applied k times to the pixel drawn from the photo,
where k is the number of detected boxes that contain that pixel. Pixels
outside every box are unchanged. Overlapping boxes compound. Because the
count does not depend on the order of the boxes, neither does the final
image.

Where the code and its design description disagree, the model follows the
code:

- **Boxes that cross the edge.** The design description clamps such a box by
  moving its origin to 0 and keeping its width. The code has the canvas cut
  the box to the part of [x, x + width) × [y, y + height) that lies on the
  canvas. The model does the latter.
- **Independence of boxes.** The design description calls the boxes
  independent. The code makes each box read what the earlier boxes wrote, so
  doubly covered pixels are transformed twice. The model compounds.
  `DetectionOrderIrrelevant` shows that the final canvas is nevertheless
  independent of detection order.
- **No faces.** The design description has an empty detection list return a
  copy of the image. The code returns early with the "no face" message. The
  model returns `NoFaceFound` and produces no canvas.
- **Empty boxes.** The design description skips a box of zero width or
  height. In the code, `getImageData` throws for such a box, the exception
  ends the `forEach`, and the generic error message is shown. The model
  returns `ProcessingError`.
- **Saturation overflow.** The design description leaves the out-of-range
  saturation results to "whatever the storage does". The storage is a
  `Uint8ClampedArray`, so such values are clamped and rounded, never wrapped
  or truncated. For example, 285.83 is stored as 255.

## Model

| member | source | states |
|---|---|---|
| Bytes.ToUint8Clamp | script.js:92-100 | A stored number is 0 at or below 0 and 255 at or above 255. In between it is within one half of the number. |
| Bytes.StoreMonotone | script.js:92-100 | Storing into the byte buffer never reverses the order of two numbers. |
| Bytes.StoreComparedToByte | script.js:92-100 | A number at or above a byte is stored at or above that byte. A number at or below a byte is stored at or below it. |
| Pixels.Contrast | script.js:92-94 | The stored contrast boost is never below the original channel. It is within one half of min(255, 1.3·c), so it never exceeds 255. |
| Pixels.Saturate | script.js:98-100 | A channel at or above the mean never drops. A channel at or below it never rises. |
| Pixels.TransformPixel | script.js:92-100 | The alpha channel of a pixel is never changed. |
| Pixels.ContrastMonotone | script.js:92-94 | The contrast step keeps the order of two channel values. |
| Pixels.SaturateMonotone | script.js:97-100 | With one shared mean, the saturation step keeps the order of two channel values. |
| Pixels.TransformKeepsChannelOrder | script.js:92-100 | If one colour channel is at most another before the effect, it is still at most the other afterwards. This relies on avg being computed once and shared by all three channels. |
| Pixels.TransformAroundMean | script.js:97-100 | A boosted channel at or above avg ends at least as bright as the original and as the boost. A boosted channel at or below avg ends no brighter than the boost. |
| Pixels.SaturateFixesGrey | script.js:97-100 | When the three boosted channels are equal, saturation leaves each of them unchanged. |
| Pixels.GreyStaysGrey | script.js:92-100 | A grey pixel is changed by the contrast boost alone and stays grey. |
| Pixels.BlackAndWhiteFixed | script.js:92-100 | Black and white are fixed points of the per-pixel effect, whatever their alpha. |
| Pixels.IterateFixedPoint | script.js:81-105 | A pixel one pass leaves unchanged is left unchanged by any number of passes. |
| Pixels.RepeatFixesBlackAndWhite | script.js:81-105 | Black and white pixels stay the same however many boxes cover them. |
| Pixels.IterateKeepsAlpha | script.js:81-105 | Repeated passes of a map that keeps alpha keep alpha. |
| Pixels.RepeatKeepsAlpha | script.js:81-105 | However many boxes cover a pixel, its alpha is never changed. |
| Pixels.WorkedExample | script.js:92-100 | The pixel (100, 150, 200, 255) becomes (98, 196, 255, 255). The out-of-range saturation result for blue is stored as 255. |
| Pixels.NotIdempotent | script.js:81-105 | A second pass over (100, 150, 200, 255) gives (84, 255, 255, 255), which differs from one pass. |
| ImageBuffer.MapPixels | script.js:90-101 | A per-pixel pass over a buffer keeps its length. |
| ImageBuffer.MapPixelsSnoc | script.js:90 | A front-to-back pass over a buffer with one more pixel appends that pixel's image. |
| ImageBuffer.MapPixelsAt | script.js:90-101 | Pixel q of the pass's result is the image of pixel q of the input. Every pixel is visited once, and its result depends only on its own bytes. |
| ImageBuffer.MapPixelsStep | script.js:90-101 | If the first n pixels are mapped and the rest untouched, rewriting pixel n in place leaves n + 1 pixels mapped. |
| ImageBuffer.MapPixelsCell | script.js:90-101 | Read at (row, col) of a width-by-height rectangle, the result of the pass is the image of the pixel that was there. |
| ImageBuffer.CaricatureKeepsAlpha | script.js:90-100 | The caricature loop leaves every alpha byte as it was. |
| ImageBuffer.TransformPixelAt | script.js:92-100 | The loop body makes three contrast stores, computes avg once from the stored values, then makes three saturation stores. The four bytes of the pixel then hold the transformed pixel. Byte i + 3 and every other byte keep their values. |
| ImageBuffer.ApplyCaricature | script.js:90-101 | After the loop, the buffer equals `Caricature` of its old contents, that is, every pixel replaced by its transform. |
| ImageBuffer.ImageData.constructor | script.js:86-87 | An ImageData holds width × height × 4 bytes. |
| Canvas2D.Canvas.DrawImage | script.js:70-78 | The new canvas has the element's size. Each pixel is the photo's pixel where the photo has one, and transparent black elsewhere. |
| Canvas2D.Canvas.GetImageData | script.js:86 | A zero width or height fails with IndexSizeError. Otherwise the result is a fresh sw × sh ImageData. Its pixel (row, col) is the canvas pixel at (sx + col, sy + row), or transparent black off the canvas. |
| Canvas2D.Canvas.PutImageData | script.js:104 | Each canvas pixel inside the rectangle at (dx, dy) receives the ImageData's pixel. Every other canvas pixel keeps its colour. Writes off the canvas are dropped. |
| Caricature.CoverCount | script.js:81-105 | At most one count per detected box. |
| Caricature.AppliedCount | script.js:81-86 | The forEach gets through every box before the first one of zero width or height, and stops at that box. |
| Caricature.TransformedRegion | script.js:86-101 | A zero-size box fails. Otherwise each pixel of the fetched copy ends up as the transform of the canvas pixel it was read from. The canvas is left alone. |
| Caricature.FaceTransformed | script.js:86-101 | After the loop, each pixel of the fetched rectangle is the transform of the canvas pixel beneath it. |
| Caricature.ApplyBox | script.js:82-104 | One box succeeds exactly when it is non-empty. Each canvas pixel inside it then becomes the transform of its own previous colour. Every other pixel keeps its colour. |
| Caricature.ApplyEffect | script.js:81-105 | Boxes run in detection order, each seeing the earlier writes. A pixel receives the transform once per applied box that covers it. The loop succeeds exactly when no box is empty. |
| Caricature.CoverStep | script.js:81-105 | Taking one more box into account adds one pass exactly where that box covers the pixel. |
| Caricature.ConvertToCaricature | script.js:50-119 | With no image nothing happens. A detector that throws gives the error outcome, and no face gives the "no face" outcome. Otherwise the outcome is a converted canvas if no box is empty, and the error outcome if one is. On the converted canvas, each pixel is the drawn pixel transformed once per covering box. |
| Caricature.CoverCountAppend | script.js:81-105 | Coverage counts add up over a split list of detections. |
| Caricature.DetectionOrderIrrelevant | script.js:81-105 | Swapping two groups of detections gives the same count and the same final colour at every pixel. |
| Caricature.UncoveredIffZero | script.js:81-105 | A pixel is left at its drawn colour by the count exactly when no box covers it. This holds in both directions. |
| Caricature.OverlapCompounds | script.js:81-105 | A pixel covered by two boxes gets the transform twice, the second pass starting from the result of the first. |

## Left out

- The face detector, with its model loading and inference, is not modelled. Its answer is an input of `ConvertToCaricature`: a list of boxes, or `None` when it throws.
- The page wiring is not modelled. That covers file input, FileReader decoding, preview elements, the loading indicator, button toggling, `alert` and `console` output. These are user-interface side effects.
- `canvas.toDataURL()` and the result preview are not modelled, because they need an external image encoder. The outcome returns the canvas instead.
- Box coordinates are whole numbers and box sizes are naturals. The detector's fractional and negative values, and how the canvas rounds them, are not modelled.
- Arithmetic is exact rational arithmetic rather than IEEE-754 doubles. A stored value could differ from the browser's only where a double product lands on the other side of a .5 tie. NaN, which ToUint8Clamp maps to 0, cannot arise.
- Canvas colour-space conversion and premultiplied-alpha loss are not modelled. Pixels read back exactly as they were written.
- The size the photo is drawn at is given as `width` and `height`. The photo's own bitmap is `image`, drawn at (0, 0) without scaling.
- Creating an ImageData too large for memory, which throws RangeError, is not modelled.
- `shooting_game.py` is not part of this model. It is a separate game with no connection to the caricature effect.
