/** The one use the game makes of a random source: `Math.floor(Math.random() * m)`. */
module Randomness {

  /** A draw of `Math.random()`: a real in [0, 1). */
  predicate IsDraw(r: real)
  {
    0.0 <= r < 1.0
  }

  /** `Math.floor(r * m)` for a draw r: an index below m. */
  function RandomIndex(r: real, m: nat): (j: nat)
    requires IsDraw(r) && m > 0
    ensures j < m
  {
    var x := r * (m as real);
    DrawScaled(r, m);
    x.Floor
  }

  /** A draw scaled by m lies in [0, m); by induction on m, one step of r at a time. */
  lemma {:induction false} DrawScaled(r: real, m: nat)
    requires IsDraw(r) && m > 0
    ensures 0.0 <= r * (m as real) < m as real
  {
    if m > 1 {
      DrawScaled(r, m - 1);
      assert r * (m as real) == r * ((m - 1) as real) + r;
    }
  }
}
