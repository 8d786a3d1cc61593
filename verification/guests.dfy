/**
  The guest-count clamp of the reservation view (`handlePeopleCountChange`):
  the counter moves by the button's step and is held between one guest and
  the product's `maxPeople`.
 */
module Guests {
  import opened Wrappers

  /**
    `productDetails?.maxPeople || Infinity`: the effective upper bound, None
    for no bound. A missing field and a zero both read as falsy, so both mean
    no bound.
   */
  function UpperBound(maxPeople: Option<int>): (b: Option<int>)
    ensures b.None? <==> maxPeople.None? || maxPeople.value == 0
    ensures b.Some? ==> b == maxPeople
  {
    match maxPeople
    case Some(m) => if m == 0 then None else Some(m)
    case None => None
  }

  /** `Math.min(Math.max(prev + change, 1), maxPeople)`. */
  function ChangeGuests(prev: int, change: int, maxPeople: Option<int>): (r: int)
    // with no bound: at least one, and otherwise exactly the requested count
    ensures UpperBound(maxPeople).None? ==> r >= 1
    ensures UpperBound(maxPeople).None? && prev + change >= 1 ==> r == prev + change
    // with a bound m: never above m
    ensures UpperBound(maxPeople).Some? ==> r <= UpperBound(maxPeople).value
    ensures UpperBound(maxPeople).Some? && UpperBound(maxPeople).value >= 1 ==>
              && 1 <= r
              && (1 <= prev + change <= UpperBound(maxPeople).value ==> r == prev + change)
              && (prev + change > UpperBound(maxPeople).value ==> r == UpperBound(maxPeople).value)
    // a bound below one guest wins over the floor of one, as `Math.min` is applied last
    ensures UpperBound(maxPeople).Some? && UpperBound(maxPeople).value < 1 ==> r == UpperBound(maxPeople).value
    // a request below one guest lands on one whenever the bound allows it
    ensures prev + change < 1 && (UpperBound(maxPeople).None? || UpperBound(maxPeople).value >= 1) ==> r == 1
  {
    var wanted := prev + change;
    var low := if wanted < 1 then 1 else wanted;
    match UpperBound(maxPeople)
    case None => low
    case Some(m) => if m < low then m else low
  }

  /** A guest count the view can show: at least one, and within the bound if there is one. */
  predicate InRange(g: int, maxPeople: Option<int>) {
    && 1 <= g
    && (UpperBound(maxPeople).Some? ==> g <= UpperBound(maxPeople).value)
  }

  /** A bound the clamp can honour: none, or at least one guest. */
  predicate SaneBound(maxPeople: Option<int>) {
    UpperBound(maxPeople).None? || UpperBound(maxPeople).value >= 1
  }

  /** Under a sane bound every step lands in range, whatever the previous count and the step. */
  lemma ChangeLandsInRange(prev: int, change: int, maxPeople: Option<int>)
    requires SaneBound(maxPeople)
    ensures InRange(ChangeGuests(prev, change, maxPeople), maxPeople)
  {
  }

  /** A zero step leaves an in-range count where it is: the clamp is idempotent. */
  lemma ClampIdempotent(g: int, maxPeople: Option<int>)
    requires InRange(g, maxPeople)
    ensures ChangeGuests(g, 0, maxPeople) == g
  {
  }

  /** `n` presses of the same button. */
  function Repeat(prev: int, change: int, maxPeople: Option<int>, n: nat): (r: int)
    decreases n
  {
    if n == 0 then prev else Repeat(ChangeGuests(prev, change, maxPeople), change, maxPeople, n - 1)
  }

  /** Pressing "-" n times from an in-range count goes down one per press and stops at one. */
  lemma {:induction false} RepeatedDecrementBottomsOut(prev: int, maxPeople: Option<int>, n: nat)
    requires InRange(prev, maxPeople)
    ensures Repeat(prev, -1, maxPeople, n) == if prev - n < 1 then 1 else prev - n
    decreases n
  {
    if n > 0 {
      RepeatedDecrementBottomsOut(ChangeGuests(prev, -1, maxPeople), maxPeople, n - 1);
    }
  }

  /** Pressing "+" n times goes up one per press and stops at the bound, if there is one. */
  lemma {:induction false} RepeatedIncrementSaturates(prev: int, maxPeople: Option<int>, n: nat)
    requires InRange(prev, maxPeople)
    ensures UpperBound(maxPeople).None? ==> Repeat(prev, 1, maxPeople, n) == prev + n
    ensures UpperBound(maxPeople).Some? ==>
              Repeat(prev, 1, maxPeople, n)
              == if prev + n > UpperBound(maxPeople).value then UpperBound(maxPeople).value else prev + n
    decreases n
  {
    if n > 0 {
      RepeatedIncrementSaturates(ChangeGuests(prev, 1, maxPeople), maxPeople, n - 1);
    }
  }

  /** The worked example: with at most four guests, from one, -5 gives one and +10 gives four. */
  lemma ClampExample()
    ensures ChangeGuests(1, -5, Some(4)) == 1
    ensures ChangeGuests(1, 10, Some(4)) == 4
  {
  }
}
