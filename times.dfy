/** Integer arithmetic of the schedule, and latest-start times with an "infinite" sentinel. */
module Times {

  /** `std::max` over integers. */
  function Max(a: int, b: int): (r: int)
    ensures a <= r && b <= r
    ensures r == a || r == b
  {
    if a < b then b else a
  }

  /** A latest start time: a finite value, or the sentinel every vertex starts with
      before the backward pass bounds it (the source initialises it to INT_MAX). */
  datatype Time = Finite(value: int) | Infinity

  /** The order on times: the sentinel lies above every finite value. */
  predicate Le(a: Time, b: Time)
  {
    b.Infinity? || (a.Finite? && a.value <= b.value)
  }

  /** `std::min` on times: the earlier of the two. */
  function Min(a: Time, b: Time): (r: Time)
    ensures Le(r, a) && Le(r, b)
    ensures r == a || r == b
  {
    if Le(b, a) then b else a
  }

  /** A time moved `x` units earlier; the sentinel stays unbounded. */
  function Minus(t: Time, x: int): (r: Time)
    ensures r.Finite? <==> t.Finite?
  {
    if t.Infinity? then Infinity else Finite(t.value - x)
  }

  lemma LeAntisymmetric(a: Time, b: Time)
    requires Le(a, b) && Le(b, a)
    ensures a == b
  {
  }
}
