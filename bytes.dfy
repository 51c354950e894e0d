/** The byte store of a Uint8ClampedArray: every number assigned into
    ImageData.data is converted by the ToUint8Clamp abstract operation of
    ECMA-262 (section 7.1.12): clamp to [0, 255], then round to the nearest
    integer, ties to even. Numbers are exact rationals (`real`) here. */
module Bytes {

  /** One element of a Uint8ClampedArray. */
  type Byte = b: int | 0 <= b <= 255

  /** The value that is stored when the number `x` is assigned into a
      Uint8ClampedArray. */
  function ToUint8Clamp(x: real): (r: Byte)
    ensures x <= 0.0 ==> r == 0
    ensures x >= 255.0 ==> r == 255
    ensures 0.0 <= x <= 255.0 ==> x - 0.5 <= r as real <= x + 0.5
  {
    if x <= 0.0 then 0
    else if x >= 255.0 then 255
    else
      var f := x.Floor;
      if f as real + 0.5 < x then f + 1
      else if x < f as real + 0.5 then f
      else if f % 2 == 1 then f + 1
      else f
  }

  /** Storing a value that already is a byte stores that value. */
  lemma StoreByte(b: Byte)
    ensures ToUint8Clamp(b as real) == b
  {
  }

  /** A number strictly nearer to `n` than to any other integer is stored as `n`. */
  lemma StoreNearest(x: real, n: Byte)
    requires n as real - 0.5 < x < n as real + 0.5
    ensures ToUint8Clamp(x) == n
  {
  }

  /** The byte store never reverses the order of two numbers. */
  lemma StoreMonotone(x: real, y: real)
    requires x <= y
    ensures ToUint8Clamp(x) <= ToUint8Clamp(y)
  {
    if 0.0 < x && y < 255.0 {
      var fx, fy := x.Floor, y.Floor;
      assert fx <= fy;
      if fx == fy && ToUint8Clamp(x) == fx + 1 {
        assert fx as real + 0.5 <= x <= y;
      }
    }
  }

  /** A number at or above a byte is stored at or above it, and one at or
      below a byte is stored at or below it. */
  lemma StoreComparedToByte(b: Byte, x: real)
    ensures b as real <= x ==> b <= ToUint8Clamp(x)
    ensures x <= b as real ==> ToUint8Clamp(x) <= b
  {
    StoreByte(b);
    if b as real <= x {
      StoreMonotone(b as real, x);
    } else {
      StoreMonotone(x, b as real);
    }
  }
}
