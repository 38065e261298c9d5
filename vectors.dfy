/** The vector arithmetic that the scorers apply to their precomputed rows. */
module Vectors {

  /** `np.dot(u, v)` over the positions both vectors have. */
  function Dot(u: seq<real>, v: seq<real>): real {
    if |u| == 0 || |v| == 0 then 0.0 else u[0] * v[0] + Dot(u[1..], v[1..])
  }

  lemma {:induction false} DotSymmetric(u: seq<real>, v: seq<real>)
    ensures Dot(u, v) == Dot(v, u)
  {
    if |u| != 0 && |v| != 0 {
      DotSymmetric(u[1..], v[1..]);
    }
  }

  /** A zero row (a chapter with no vocabulary) scores 0 against every row. */
  lemma {:induction false} DotZero(u: seq<real>, v: seq<real>)
    requires forall i | 0 <= i < |u| :: u[i] == 0.0
    ensures Dot(u, v) == 0.0
  {
    if |u| != 0 && |v| != 0 {
      DotZero(u[1..], v[1..]);
    }
  }
}
