/** Numeric helpers shared by the pipeline: the byte type of the RGBA raster,
    JavaScript's Math.round and Math.max/Math.min, and the conversion a
    Uint8ClampedArray applies to every value written into it. */
module Numeric {

  /** One channel of an RGBA pixel. */
  newtype byte = x: int | 0 <= x < 256

  datatype Option<T> = None | Some(value: T)

  function MaxInt(a: int, b: int): int { if a >= b then a else b }
  function MinInt(a: int, b: int): int { if a <= b then a else b }
  function MaxReal(a: real, b: real): real { if a >= b then a else b }
  function MinReal(a: real, b: real): real { if a <= b then a else b }

  /** Math.round: the nearest integer, halves rounded towards +infinity. */
  function JsRound(x: real): (n: int)
    ensures n as real - 0.5 <= x < n as real + 0.5
  {
    (x + 0.5).Floor
  }

  /** The least integer at or above x. */
  function Ceil(x: real): (n: int)
    ensures x <= n as real < x + 1.0
  {
    -((-x).Floor)
  }

  /** The conversion ToUint8Clamp of the ECMAScript language specification, applied
      by a Uint8ClampedArray to every value stored into it: values at or below 0
      become 0, values at or above 255 become 255, anything else is rounded to
      the nearest integer with halves going to the even neighbour. */
  function ToUint8Clamp(v: real): (b: byte)
    ensures v <= 0.0 ==> b == 0
    ensures v >= 255.0 ==> b == 255
    ensures 0.0 <= v <= 255.0 ==> -0.5 <= b as real - v <= 0.5
    ensures 0.0 < v < 255.0 && (b as real - v == 0.5 || v - b as real == 0.5) ==> b % 2 == 0
  {
    if v <= 0.0 then 0
    else if v >= 255.0 then 255
    else
      var f := v.Floor;
      if f as real + 0.5 < v then (f + 1) as byte
      else if v < f as real + 0.5 then f as byte
      else if f % 2 == 1 then (f + 1) as byte
      else f as byte
  }

  /** Multiplying by a natural number keeps the order. */
  lemma {:induction false} MulMonotone(a: int, b: int, c: nat)
    requires a <= b
    ensures a * c <= b * c
  {
    if c > 0 {
      MulMonotone(a, b, c - 1);
      assert a * c == a * (c - 1) + a && b * c == b * (c - 1) + b;
    }
  }

  /** k is a / d when k * d <= a < (k + 1) * d. */
  lemma QuotientUnique(a: nat, d: nat, k: nat)
    requires d >= 1 && k * d <= a < (k + 1) * d
    ensures a / d == k
  {
    var q, r := a / d, a % d;
    assert a == q * d + r && 0 <= r < d;
    MulMonotone(MinInt(q + 1, k), k, d);
    MulMonotone(MinInt(k + 1, q), q, d);
  }
}
