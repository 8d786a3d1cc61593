# Reservation price calculator

A Dafny model of the booking calculator inside the camping-site reservation
view (`ReservationPayment`). The view keeps a date range, a map of chosen
add-on options with per-option counts, and a guest counter. From these it
derives the number of nights and the total price. Here the React state hooks
become pure functions over immutable values:

- `Nights`: `calculateNights`. Dates are `Option<int>` milliseconds. The result is the
  ceiling of the difference divided by 86 400 000 ms, or 0 while a date is missing.
- `Ledger`: the `selectedOptions` object, written as a sequence of
  `(name, Entry(count, price))` pairs in `Object.keys` order, plus the three operations on it:
  `Select` (`handleOptionChange`), `Increase` (`increaseCount`) and `Decrease`
  (`decreaseCount`). The catalog is a sequence of `CatalogOption(name, price)`.
- `Pricing`: the product subtotal `price × nights` and the `reduce` that adds
  `count × price` for every chosen add-on.
- `Guests`: `handlePeopleCountChange`, a clamp between one guest and `maxPeople`.
  The upper bound is `Option<int>`: a missing or zero `maxPeople` means no bound.
- `Booking`: one session of the page. It holds an `Event` datatype for what the user can do
  and `Run` for replaying any sequence of events. It also proves that the ledger invariant
  holds after every sequence of events. When `maxPeople` is missing, 0 or at least 1, the
  guest count also stays in range. A negative `maxPeople` is returned as is by the clamp,
  so no count is in range then.

The ledger invariant (`Ledger.Valid`) has these parts:
- keys are unique;
- every key is a non-empty name found in the catalog;
- every entry has at least one unit;
- its stored price is the price of the first catalog option with that name.

`calculateNights` does not clamp its result. A check-out before the check-in
therefore gives zero or a negative number of nights, and the model keeps that
(`Nights.NightsNotClamped`).

## Model

| member | source | states |
|---|---|---|
| Ledger.Keys | client/src/View/ReservationPayment.jsx:138 | `Object.keys` lists one key per entry, in the entries' order |
| Ledger.IndexOf | client/src/View/ReservationPayment.jsx:85 | the position of a key in the selection: the first one holding it, or None exactly when no key equals it |
| Ledger.Lookup | client/src/View/ReservationPayment.jsx:104 | `selectedOptions[name]` is None exactly when the name is not among the object's own keys (inherited prototype properties are not modelled), and otherwise is an entry stored under that name |
| Ledger.FindOption | client/src/View/ReservationPayment.jsx:88 | `options.find` returns the first catalog option with the name, and None exactly when no option has it |
| Ledger.Increase | client/src/View/ReservationPayment.jsx:101-109 | an absent name leaves the selection unchanged; a present one gets count + 1 at the same price; key order and every other key's entry are unchanged |
| Ledger.Decrease | client/src/View/ReservationPayment.jsx:111-121 | count > 1 goes down by one at the same price, keeping the key order; count <= 1 deletes the key, and the other keys keep their order; an absent name changes nothing; other entries are never touched |
| Ledger.Select | client/src/View/ReservationPayment.jsx:80-99 | an empty name is a no-op; a chosen name behaves exactly like `Increase`; a new catalog name is appended last with count 1 and the first match's price; any other name is a no-op; other entries are untouched |
| Ledger.EmptyValid | client/src/View/ReservationPayment.jsx:18 | the initial empty selection satisfies the ledger invariant |
| Ledger.ValidEntries | client/src/View/ReservationPayment.jsx:80-121 | under the invariant, every stored entry has a non-empty catalog name, a count of at least 1 and the first catalog match's price |
| Ledger.IncreaseValid | client/src/View/ReservationPayment.jsx:101-109 | `increaseCount` preserves the ledger invariant |
| Ledger.DecreaseValid | client/src/View/ReservationPayment.jsx:111-121 | `decreaseCount` preserves the ledger invariant: no zero-count entry survives |
| Ledger.SelectValid | client/src/View/ReservationPayment.jsx:80-99 | `handleOptionChange` preserves the ledger invariant |
| Ledger.SelectTwice | client/src/View/ReservationPayment.jsx:85-95 | choosing a new catalog option twice is the same as choosing it once and then increasing it, and leaves a count of 2 at the catalog price |
| Ledger.DecreaseToRemoval | client/src/View/ReservationPayment.jsx:114-118 | decreasing a count of 1 removes the key; decreasing again is a no-op |
| Ledger.DecreaseUndoesIncrease | client/src/View/ReservationPayment.jsx:101-121 | for an absent name, or an entry with at least one unit, decreasing after increasing gives back the original selection, key order included |
| Ledger.DecreaseUndoesSelect | client/src/View/ReservationPayment.jsx:80-121 | on a valid selection, decreasing after any drop-down choice gives back the original selection |
| Nights.CeilDays | client/src/View/ReservationPayment.jsx:128 | the result n is the least whole number with ms <= n days, so (n - 1) days < ms <= n days |
| Nights.Nights | client/src/View/ReservationPayment.jsx:123-132 | 0 when either date is missing; otherwise the day difference rounded up |
| Nights.NightsUnique | client/src/View/ReservationPayment.jsx:128 | the rounding bounds determine the night count uniquely |
| Nights.NightsWholeDays | client/src/View/ReservationPayment.jsx:127-128 | a stay of exactly k days gives k nights |
| Nights.NightsPartialDay | client/src/View/ReservationPayment.jsx:128 | any part of a day after k whole days gives k + 1 nights |
| Nights.NightsMonotone | client/src/View/ReservationPayment.jsx:123-132 | for a fixed check-in, a later check-out never gives fewer nights |
| Nights.NightsNotClamped | client/src/View/ReservationPayment.jsx:127-129 | a check-out before check-in gives at most 0 nights, and a negative count once it is a full day earlier |
| Pricing.ProductPrice | client/src/View/ReservationPayment.jsx:135 | a missing nightly price counts as 0; a present one is used as is |
| Pricing.FoldTotal | client/src/View/ReservationPayment.jsx:138-141 | the `reduce` over the keys equals the starting accumulator plus the sum of count × price |
| Pricing.TotalProductPrice | client/src/View/ReservationPayment.jsx:135-136 | the product subtotal is 0 without a nightly price, price × nights with one, and 0 for zero nights |
| Pricing.TotalPrice | client/src/View/ReservationPayment.jsx:134-141 | the total is (price or 0) × nights plus the sum of count × price over the selection |
| Pricing.SumOrderIndependent | client/src/View/ReservationPayment.jsx:138-141 | two selections with the same multiset of entries have the same option sum |
| Pricing.TotalOrderIndependent | client/src/View/ReservationPayment.jsx:138-141 | the total depends only on the multiset of entries, not on key order |
| Pricing.IncreaseRaisesTotal | client/src/View/ReservationPayment.jsx:104-105 | increasing a chosen option raises the total by exactly its stored price |
| Pricing.SelectRaisesTotal | client/src/View/ReservationPayment.jsx:85-93 | choosing raises the total by the stored price of an option already chosen, or by the catalog price of a new one; a no-op choice leaves the total unchanged |
| Pricing.DecreaseLowersTotal | client/src/View/ReservationPayment.jsx:114-117 | decreasing an option with at least one unit lowers the total by exactly its stored price, whether the count drops or the key is removed |
| Pricing.TotalExample | client/src/View/ReservationPayment.jsx:134-141 | 3 nights at 100000 plus two add-ons at 20000 come to 340000 |
| Guests.UpperBound | client/src/View/ReservationPayment.jsx:146 | the bound is absent exactly when `maxPeople` is missing or 0; otherwise it is `maxPeople` |
| Guests.ChangeGuests | client/src/View/ReservationPayment.jsx:144-150 | at least 1 with no bound or a bound of at least 1; never above the bound; the requested count when it is in range; 1 when the request is below 1; the bound when the request is above it; a bound below 1 (a negative `maxPeople`) is returned as is |
| Guests.ChangeLandsInRange | client/src/View/ReservationPayment.jsx:144-150 | with no bound, or a bound of at least 1, every step ends in the range from 1 to the bound, whatever the previous count |
| Guests.ClampIdempotent | client/src/View/ReservationPayment.jsx:148 | a zero step leaves an in-range count unchanged |
| Guests.RepeatedDecrementBottomsOut | client/src/View/ReservationPayment.jsx:144-150 | n presses of −1 from an in-range count give max(count − n, 1) |
| Guests.RepeatedIncrementSaturates | client/src/View/ReservationPayment.jsx:144-150 | from an in-range count, n presses of +1 give count + n with no bound, and min(count + n, bound) with one |
| Guests.ClampExample | client/src/View/ReservationPayment.jsx:144-150 | with a bound of 4, from 1: −5 gives 1 and +10 gives 4 |
| Booking.Init | client/src/View/ReservationPayment.jsx:13-20 | a fresh page has no dates, an empty selection and one guest |
| Booking.Apply | client/src/View/ReservationPayment.jsx:68-150 | picking dates leaves the selection and guests alone; ledger events leave dates and guests alone; a guest step leaves dates and selection alone; each event applies its own operation to its own part |
| Booking.Run | client/src/View/ReservationPayment.jsx:80-121 | any sequence of events keeps the selection's keys unique |
| Booking.ApplyKeepsInvariant | client/src/View/ReservationPayment.jsx:68-150 | every event preserves the session invariant: a valid ledger, and guests in range whenever the bound allows |
| Booking.StayNights | client/src/View/ReservationPayment.jsx:134 | the page's nights: 0 until both dates are picked, then the day difference rounded up |
| Booking.Total | client/src/View/ReservationPayment.jsx:134-141 | the page's total is the product subtotal plus the add-on sum; until both dates are picked it is the add-ons alone |
| Booking.RunKeepsInvariant | client/src/View/ReservationPayment.jsx:68-150 | any sequence of events preserves the session invariant |
| Booking.SessionInvariant | client/src/View/ReservationPayment.jsx:13-150 | from a fresh page, after any sequence of events, every entry has count >= 1, a unique catalog key and the first match's price; and when `maxPeople` is missing, 0 or at least 1, the guest count is in range |
| Booking.GuestsDoNotChangeTotal | client/src/View/ReservationPayment.jsx:134-150 | a guest-count change leaves the total price unchanged, because the price does not depend on the number of guests |

## Left out

- Rendering: the JSX markup, the thumbnail picker `selectImage` and the static description text are UI only.
- `formatDate` is left out: it depends on the locale rules of `toLocaleDateString`.
- `DatePicker`, `PaymentModal`, `navigate` and the modal open/close state are foreign components and navigation.
- The `useEffect` fetches and the loading and "not available" states are asynchronous I/O. The product's `price` and `maxPeople` and the option catalog are given as inputs instead (`Booking.Product`, `Ledger.Catalog`).
- JavaScript numbers: dates are integer milliseconds and prices and counts are unbounded integers. `Math.ceil` of a floating-point quotient matches integer ceiling division only as long as the millisecond difference stays within the range a double holds exactly. Overflow beyond 2^53 and `NaN` are not modelled.
- `Infinity` as the guest bound is written as `None`. Falsy values other than a missing field or 0 (`null`, `NaN`, `""`) read as `None`, like a missing field. A negative `maxPeople` is kept, and the clamp then returns it, as `Math.min` does.
- React state semantics: the spread copy at lines 84, 103 and 113 is shallow, so lines 86, 105 and 115 change the previous state's entry object in place. React can run a state updater twice in development. Then one "+" click can add two units, and one "−" click at a count of 2 can delete the key instead of leaving one unit. The model treats every update as a pure function of the previous state.
- Ledger.Lookup: does not model properties every JavaScript object inherits from `Object.prototype`. For a name such as `constructor`, `toString` or `hasOwnProperty`, `newOptions[name]` at lines 85, 104 and 114 is truthy before that key was ever stored. The model treats such a name like any other absent key. The catalog names are taken to be ordinary names, not such properties.
- Ledger.Select: for an add-on named like an `Object.prototype` property, the source takes the "already chosen" branch at line 85-86 and stores no key. The model appends the entry, as it does for every new catalog name.
- `Booking.Event` allows more event sequences than the page can produce. The invariants proved over all sequences therefore also hold for the page's own sequences. The guest buttons exist only while `nights > 0` (line 234). "+" and "−" are offered only for stored keys (lines 293-300). The drop-down at line 283 fires no change event when the option it already shows is picked again, so on the page two picks of the same add-on need a different pick in between (`Ledger.SelectTwice` speaks of the operations, not of the widget).
- `Object.keys` lists integer-like keys first in numeric order. The model keeps insertion order, which matches the add-on names in use. The total does not depend on order anyway (`Pricing.TotalOrderIndependent`).
- The `reduce` reads `selectedOptions[optionName]` for each key. The model reads the entry stored beside the key, which is the same value because keys are unique.
- The `count > 0` render guard at line 294 is display only. Under the invariant every count is at least 1, so the guard never hides an entry.
- `client/src/App.js` is a route table with no calculator logic and is not part of this model.
