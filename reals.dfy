/** Real-number helpers shared by the curve preparation and the server. */
module Reals {
  /** `abs(x)` (Python's `abs`, `np.abs`, `tf.abs`). */
  function Abs(x: real): (r: real)
    ensures r >= 0.0 && (r == x || r == -x)
  {
    if x < 0.0 then -x else x
  }
}
