/** The per-pixel caricature formula (script.js:92-100): a contrast boost of
    each colour channel, then a saturation boost around the mean of the
    boosted channels. Every intermediate result is stored into a byte, so
    each step ends in the ToUint8Clamp store. */
module Pixels {
  import opened Bytes

  datatype Rgba = Rgba(r: Byte, g: Byte, b: Byte, a: Byte)

  /** The colour a canvas reports for a pixel outside its bitmap. */
  const TransparentBlack := Rgba(0, 0, 0, 0)

  /** Channel `i` of a pixel, in the red, green, blue, alpha order of ImageData. */
  function Channel(p: Rgba, i: nat): Byte
    requires i < 4
  {
    if i == 0 then p.r else if i == 1 then p.g else if i == 2 then p.b else p.a
  }

  /** Math.min on the two numbers it is given at script.js:92-94. */
  function Min(x: real, y: real): real
  {
    if x <= y then x else y
  }

  /** The contrast boost of one channel, as stored: `Math.min(255, c * 1.3)`.
      It never darkens the channel, and it is the nearest byte to the boosted value. */
  function Contrast(c: Byte): (r: Byte)
    ensures c <= r
    ensures Min(255.0, c as real * 1.3) - 0.5 <= r as real <= Min(255.0, c as real * 1.3) + 0.5
  {
    StoreComparedToByte(c, Min(255.0, c as real * 1.3));
    ToUint8Clamp(Min(255.0, c as real * 1.3))
  }

  /** `avg` at script.js:97: the mean of the three contrast-boosted channels. */
  function Mean(r1: Byte, g1: Byte, b1: Byte): real
  {
    (r1 + g1 + b1) as real / 3.0
  }

  /** The saturation boost of one channel, as stored: `c + (c - avg) * 0.5`.
      A channel at or above the mean never drops, one at or below it never rises. */
  function Saturate(c: Byte, avg: real): (r: Byte)
    ensures avg <= c as real ==> c <= r
    ensures c as real <= avg ==> r <= c
  {
    StoreComparedToByte(c, c as real + (c as real - avg) * 0.5);
    ToUint8Clamp(c as real + (c as real - avg) * 0.5)
  }

  /** One pass of the loop body at script.js:92-100 over one pixel: the three
      contrast stores, then `avg` once from the stored values, then the three
      saturation stores; alpha is never assigned. */
  function TransformPixel(p: Rgba): (q: Rgba)
    ensures q.a == p.a
  {
    var r1, g1, b1 := Contrast(p.r), Contrast(p.g), Contrast(p.b);
    var avg := Mean(r1, g1, b1);
    Rgba(Saturate(r1, avg), Saturate(g1, avg), Saturate(b1, avg), p.a)
  }

  /** `f` applied `n` times, starting from `p`. */
  function Iterate(n: nat, f: Rgba -> Rgba, p: Rgba): Rgba
    decreases n
  {
    if n == 0 then p else f(Iterate(n - 1, f, p))
  }

  /** The pixel after `n` applications of the effect, which is what a pixel
      covered by `n` face boxes receives. */
  function Repeat(n: nat, p: Rgba): Rgba
  {
    Iterate(n, TransformPixel, p)
  }

  /** One more application is the effect applied to the previous result. */
  lemma RepeatStep(n: nat, p: Rgba)
    ensures Repeat(n + 1, p) == TransformPixel(Repeat(n, p))
  {
  }

  /** A point that `f` leaves unchanged stays unchanged under any number of applications. */
  lemma {:induction false} IterateFixedPoint(n: nat, f: Rgba -> Rgba, p: Rgba)
    requires f(p) == p
    ensures Iterate(n, f, p) == p
  {
    if n > 0 {
      IterateFixedPoint(n - 1, f, p);
    }
  }

  /** However many boxes cover a pixel, its alpha is never changed. */
  lemma RepeatKeepsAlpha(n: nat, p: Rgba)
    ensures Repeat(n, p).a == p.a
  {
    IterateKeepsAlpha(n, TransformPixel, p);
  }

  /** Iterating a map that keeps alpha keeps alpha. */
  lemma {:induction false} IterateKeepsAlpha(n: nat, f: Rgba -> Rgba, p: Rgba)
    requires forall q :: f(q).a == q.a
    ensures Iterate(n, f, p).a == p.a
  {
    if n > 0 {
      IterateKeepsAlpha(n - 1, f, p);
    }
  }

  /** The contrast boost keeps the order of two channel values. */
  lemma ContrastMonotone(c1: Byte, c2: Byte)
    requires c1 <= c2
    ensures Contrast(c1) <= Contrast(c2)
  {
    StoreMonotone(Min(255.0, c1 as real * 1.3), Min(255.0, c2 as real * 1.3));
  }

  /** The saturation boost, with one shared mean, keeps the order of two channel values. */
  lemma SaturateMonotone(c1: Byte, c2: Byte, avg: real)
    requires c1 <= c2
    ensures Saturate(c1, avg) <= Saturate(c2, avg)
  {
    StoreMonotone(c1 as real + (c1 as real - avg) * 0.5, c2 as real + (c2 as real - avg) * 0.5);
  }

  /** The effect never swaps the brightness order of two colour channels:
      the same mean is used for all three channels. */
  lemma TransformKeepsChannelOrder(p: Rgba, i: nat, j: nat)
    requires i < 3 && j < 3
    requires Channel(p, i) <= Channel(p, j)
    ensures Channel(TransformPixel(p), i) <= Channel(TransformPixel(p), j)
  {
    var ci, cj := Channel(p, i), Channel(p, j);
    var avg := Mean(Contrast(p.r), Contrast(p.g), Contrast(p.b));
    assert Channel(TransformPixel(p), i) == Saturate(Contrast(ci), avg);
    assert Channel(TransformPixel(p), j) == Saturate(Contrast(cj), avg);
    ContrastMonotone(ci, cj);
    SaturateMonotone(Contrast(ci), Contrast(cj), avg);
  }

  /** A channel whose boosted value is at or above the mean of the boosted
      channels ends at least as bright as the boost made it; one at or below
      the mean ends no brighter than the boost made it. */
  lemma TransformAroundMean(p: Rgba, i: nat)
    requires i < 3
    ensures var avg := Mean(Contrast(p.r), Contrast(p.g), Contrast(p.b));
      (avg <= Contrast(Channel(p, i)) as real ==> Channel(p, i) <= Contrast(Channel(p, i)) <= Channel(TransformPixel(p), i)) &&
      (Contrast(Channel(p, i)) as real <= avg ==> Channel(TransformPixel(p), i) <= Contrast(Channel(p, i)))
  {
    var avg := Mean(Contrast(p.r), Contrast(p.g), Contrast(p.b));
    assert Channel(TransformPixel(p), i) == Saturate(Contrast(Channel(p, i)), avg);
  }

  /** A grey pixel after the contrast step is left as it is by the saturation step. */
  lemma SaturateFixesGrey(c: Byte)
    ensures Saturate(c, Mean(c, c, c)) == c
  {
    assert Mean(c, c, c) == c as real;
    StoreByte(c);
  }

  /** A grey pixel stays grey: the effect is the contrast boost alone. */
  lemma GreyStaysGrey(p: Rgba)
    requires p.r == p.g == p.b
    ensures TransformPixel(p) == Rgba(Contrast(p.r), Contrast(p.r), Contrast(p.r), p.a)
  {
    SaturateFixesGrey(Contrast(p.r));
  }

  /** Black, whatever its alpha, is a fixed point of the effect; so is white. */
  lemma BlackAndWhiteFixed(a: Byte)
    ensures TransformPixel(Rgba(0, 0, 0, a)) == Rgba(0, 0, 0, a)
    ensures TransformPixel(Rgba(255, 255, 255, a)) == Rgba(255, 255, 255, a)
  {
    GreyStaysGrey(Rgba(0, 0, 0, a));
    GreyStaysGrey(Rgba(255, 255, 255, a));
    StoreByte(0);
  }

  /** Any number of applications leaves black black, and white white. */
  lemma RepeatFixesBlackAndWhite(n: nat, a: Byte)
    ensures Repeat(n, Rgba(0, 0, 0, a)) == Rgba(0, 0, 0, a)
    ensures Repeat(n, Rgba(255, 255, 255, a)) == Rgba(255, 255, 255, a)
  {
    BlackAndWhiteFixed(a);
    IterateFixedPoint(n, TransformPixel, Rgba(0, 0, 0, a));
    IterateFixedPoint(n, TransformPixel, Rgba(255, 255, 255, a));
  }

  /** The worked example: (100, 150, 200, 255) boosts to (130, 195, 255), the
      mean is 580/3, and the stored result is (98, 196, 255, 255). */
  lemma WorkedExample()
    ensures TransformPixel(Rgba(100, 150, 200, 255)) == Rgba(98, 196, 255, 255)
  {
    StoreByte(130);
    StoreByte(195);
    assert Contrast(100) == 130 && Contrast(150) == 195 && Contrast(200) == 255;
    var avg := Mean(130, 195, 255);
    assert avg == 580.0 / 3.0;
    StoreNearest(130.0 + (130.0 - avg) * 0.5, 98);
    StoreNearest(195.0 + (195.0 - avg) * 0.5, 196);
  }

  /** Applying the effect a second time changes the pixel again, so a pixel
      covered by two boxes is not the same as one covered once. */
  lemma NotIdempotent()
    ensures Repeat(2, Rgba(100, 150, 200, 255)) == Rgba(84, 255, 255, 255)
    ensures Repeat(2, Rgba(100, 150, 200, 255)) != Repeat(1, Rgba(100, 150, 200, 255))
  {
    WorkedExample();
    StoreNearest(98.0 * 1.3, 127);
    StoreNearest(196.0 * 1.3, 255);
    assert Contrast(98) == 127 && Contrast(196) == 255 && Contrast(255) == 255;
    var avg := Mean(127, 255, 255);
    assert avg == 637.0 / 3.0;
    StoreNearest(127.0 + (127.0 - avg) * 0.5, 84);
  }
}
