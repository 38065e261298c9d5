/** `normalize_progress`: a completion percentage clamped into a fraction in [0, 1]. */
module Progress {

  /** `max(0.0, min(percent / 100.0, 1.0))` over the reals. */
  function NormalizeProgress(percent: real): (r: real)
    ensures 0.0 <= r <= 1.0
    ensures 0.0 <= percent <= 100.0 ==> r == percent / 100.0
    ensures percent <= 0.0 ==> r == 0.0
    ensures percent >= 100.0 ==> r == 1.0
  {
    var fraction := percent / 100.0;
    var capped := if fraction < 1.0 then fraction else 1.0;
    if 0.0 < capped then capped else 0.0
  }

  lemma NormalizeProgressMonotone(p: real, q: real)
    requires p <= q
    ensures NormalizeProgress(p) <= NormalizeProgress(q)
  {
  }
}
