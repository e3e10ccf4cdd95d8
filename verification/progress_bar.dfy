/** The progress bar's clamping of the percentage it is asked to draw. */
module ProgressBar {

  /** `Math.min(Math.max(progress, 0), 100)`. */
  function Clamp(progress: int): (r: int)
    ensures 0 <= r <= 100
    ensures 0 <= progress <= 100 ==> r == progress
    ensures progress < 0 ==> r == 0
    ensures progress > 100 ==> r == 100
  {
    var atLeastZero := if progress > 0 then progress else 0;
    if atLeastZero < 100 then atLeastZero else 100
  }

  /** Clamping a clamped value changes nothing. */
  lemma ClampIdempotent(progress: int)
    ensures Clamp(Clamp(progress)) == Clamp(progress)
  {
  }
}
