/** The constants and the facts about products that the real-valued modules share. */
module Arithmetic {

  const PI: real := 3.141592654
  const TWO_PI: real := 6.283185307

  function Sq(x: real): real {
    x * x
  }

  lemma Square(w: real, x: real)
    ensures w * x * x == w * Sq(x)
  {
  }

  lemma Times(a: real, b: real, c: real)
    requires a <= b && 0.0 <= c
    ensures a * c <= b * c
  {
  }

  lemma Positive(a: real, b: real)
    requires 0.0 < a && 0.0 < b
    ensures 0.0 < a * b
  {
  }
}
