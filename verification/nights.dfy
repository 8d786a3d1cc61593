/**
  The nights calculator of the reservation view (`calculateNights`). Dates are
  instants in integer milliseconds; a date the picker has not set yet is None.
 */
module Nights {
  import opened Wrappers

  /** Milliseconds in one day, written as the view writes it. */
  const MsPerDay: int := 1000 * 3600 * 24

  /** `Math.ceil(ms / MsPerDay)`: the least whole number of days covering `ms`. */
  function CeilDays(ms: int): (n: int)
    ensures MsPerDay * (n - 1) < ms <= MsPerDay * n
  {
    -((-ms) / MsPerDay)
  }

  /**
    Nights of stay: 0 while either date is missing, otherwise the day difference
    rounded up. The result is not clamped, so a check-out before the check-in
    gives zero or a negative number.
   */
  function Nights(start: Option<int>, end: Option<int>): (n: int)
    ensures start.None? || end.None? ==> n == 0
    ensures start.Some? && end.Some? ==>
              MsPerDay * (n - 1) < end.value - start.value <= MsPerDay * n
  {
    match (start, end)
    case (Some(s), Some(e)) => CeilDays(e - s)
    case _ => 0
  }

  /** The rounding bounds pin the night count down: any m meeting them is the result. */
  lemma NightsUnique(s: int, e: int, m: int)
    requires MsPerDay * (m - 1) < e - s <= MsPerDay * m
    ensures Nights(Some(s), Some(e)) == m
  {
  }

  /** A stay of exactly k whole days is k nights. */
  lemma NightsWholeDays(s: int, k: int)
    ensures Nights(Some(s), Some(s + k * MsPerDay)) == k
  {
    NightsUnique(s, s + k * MsPerDay, k);
  }

  /** Any part of a day past k whole days counts as one more night. */
  lemma NightsPartialDay(s: int, k: int, extra: int)
    requires 0 < extra < MsPerDay
    ensures Nights(Some(s), Some(s + k * MsPerDay + extra)) == k + 1
  {
    NightsUnique(s, s + k * MsPerDay + extra, k + 1);
  }

  /** For a fixed check-in, a later check-out never gives fewer nights. */
  lemma NightsMonotone(s: int, e1: int, e2: int)
    requires e1 <= e2
    ensures Nights(Some(s), Some(e1)) <= Nights(Some(s), Some(e2))
  {
  }

  /** A check-out before the check-in is not clamped: at most zero nights, negative from a full day back. */
  lemma NightsNotClamped(s: int, e: int)
    requires e < s
    ensures Nights(Some(s), Some(e)) <= 0
    ensures e <= s - MsPerDay ==> Nights(Some(s), Some(e)) < 0
  {
  }
}
