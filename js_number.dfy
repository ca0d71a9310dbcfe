/** The JavaScript numbers the tool reads from its form fields, and `Math.round`. */
module JsNumber {

  /** The result of `Number(field.value)`: a finite value, `NaN` (unparsable
      input), or one of the two infinities. Finite values are exact reals. */
  datatype Num = Finite(v: real) | NaN | Infinity(negative: bool)

  /** `Math.round`: the nearest integer, halves rounded up (towards +infinity). */
  function Round(x: real): (r: int)
    ensures x - 0.5 < r as real <= x + 0.5
  {
    (x + 0.5).Floor
  }
}
