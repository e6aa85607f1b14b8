/** The progress bar: the filled bar is shifted left by
    `100 - min(100, max(0, value))` percent. */
module ProgressBar {

  function Min(a: real, b: real): real {
    if a <= b then a else b
  }

  function Max(a: real, b: real): real {
    if a >= b then a else b
  }

  /** The shift in percent: the value clamped to [0, 100], subtracted
      from 100. */
  function Offset(value: real): (r: real)
    ensures 0.0 <= r <= 100.0
    ensures value >= 100.0 ==> r == 0.0
    ensures value <= 0.0 ==> r == 100.0
    ensures 0.0 <= value <= 100.0 ==> r == 100.0 - value
  {
    100.0 - Min(100.0, Max(0.0, value))
  }

  /** More progress never moves the bar back. */
  lemma OffsetMonotone(a: real, b: real)
    requires a <= b
    ensures Offset(b) <= Offset(a)
  {
  }
}
