/** The slice of Go's `time` package the signer relies on.

    An instant (`time.Time`) is modelled as an unbounded count of nanoseconds
    since the Unix epoch; a `time.Duration` is a signed 64-bit count of
    nanoseconds, so every duration the package hands out lies in
    [MinDuration, MaxDuration].
 */
module GoTime {

  /** The most negative and most positive `time.Duration`. */
  const MinDuration: int := -0x8000_0000_0000_0000
  const MaxDuration: int := 0x7FFF_FFFF_FFFF_FFFF

  /** `time.Minute`, in nanoseconds. */
  const Minute: int := 60_000_000_000

  /** True iff `d` is representable as a `time.Duration`. */
  predicate IsDuration(d: int) {
    MinDuration <= d <= MaxDuration
  }

  /** Distance between two integers. */
  function Dist(a: int, b: int): nat {
    if a <= b then b - a else a - b
  }

  /** `t.Sub(u)` for two wall-clock instants: the exact difference when it fits
      in a `time.Duration`, and otherwise the nearest representable duration
      (Go saturates instead of wrapping). `time.Since(u)` is `Sub(now, u)`. */
  function Sub(t: int, u: int): (d: int)
    ensures IsDuration(d)
    ensures IsDuration(t - u) ==> d == t - u
    ensures forall x :: IsDuration(x) ==> Dist(d, t - u) <= Dist(x, t - u)
  {
    var diff := t - u;
    if diff > MaxDuration then MaxDuration
    else if diff < MinDuration then MinDuration
    else diff
  }
}
