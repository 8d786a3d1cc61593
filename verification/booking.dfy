/**
  One booking session of the reservation view: the state the view keeps in
  its hooks (dates, selected add-ons, guest count) and the user events that
  change it, against a product and a catalog that stay fixed once loaded.
 */
module Booking {
  import opened Wrappers
  import opened Ledger
  import opened Guests
  import Nights
  import Pricing

  /** The fields of `productDetails` the calculator reads; a missing product has both None. */
  datatype Product = Product(price: Option<int>, maxPeople: Option<int>)

  datatype Session = Session(start: Option<int>, end: Option<int>, selection: Selection, guests: int)

  /** What the user can do on the page. */
  datatype Event =
    | PickDates(start: Option<int>, end: Option<int>)
    | ChooseOption(name: string)
    | IncreaseOption(name: string)
    | DecreaseOption(name: string)
    | ChangeGuestCount(change: int)

  /** No dates, no add-ons, one guest. */
  function Init(): (s: Session)
    ensures s.start.None? && s.end.None? && s.selection == [] && s.guests == 1
  {
    Session(None, None, [], 1)
  }

  /** One event: each touches only its own part of the session. */
  function Apply(catalog: Catalog, product: Product, s: Session, ev: Event): (r: Session)
    requires UniqueKeys(s.selection)
    ensures UniqueKeys(r.selection)
    // what each event leaves alone
    ensures !ev.PickDates? ==> r.start == s.start && r.end == s.end
    ensures ev.PickDates? || ev.ChangeGuestCount? ==> r.selection == s.selection
    ensures !ev.ChangeGuestCount? ==> r.guests == s.guests
    // what each event does to its own part
    ensures ev.PickDates? ==> r.start == ev.start && r.end == ev.end
    ensures ev.ChooseOption? ==> r.selection == Select(catalog, s.selection, ev.name)
    ensures ev.IncreaseOption? ==> r.selection == Increase(s.selection, ev.name)
    ensures ev.DecreaseOption? ==> r.selection == Decrease(s.selection, ev.name)
    ensures ev.ChangeGuestCount? ==> r.guests == ChangeGuests(s.guests, ev.change, product.maxPeople)
  {
    match ev
    case PickDates(a, b) => s.(start := a, end := b)
    case ChooseOption(n) => s.(selection := Select(catalog, s.selection, n))
    case IncreaseOption(n) => s.(selection := Increase(s.selection, n))
    case DecreaseOption(n) => s.(selection := Decrease(s.selection, n))
    case ChangeGuestCount(d) => s.(guests := ChangeGuests(s.guests, d, product.maxPeople))
  }

  /** A sequence of events, applied in order. */
  function Run(catalog: Catalog, product: Product, s: Session, evs: seq<Event>): (r: Session)
    requires UniqueKeys(s.selection)
    ensures UniqueKeys(r.selection)
    decreases |evs|
  {
    if evs == [] then s else Run(catalog, product, Apply(catalog, product, s, evs[0]), evs[1..])
  }

  /** The figures the page shows for a session. */
  function StayNights(s: Session): (n: int)
    ensures s.start.None? || s.end.None? ==> n == 0
    ensures s.start.Some? && s.end.Some? ==>
              Nights.MsPerDay * (n - 1) < s.end.value - s.start.value <= Nights.MsPerDay * n
  {
    Nights.Nights(s.start, s.end)
  }

  function Total(product: Product, s: Session): (r: int)
    // until both dates are picked, the total is the add-ons alone
    ensures s.start.None? || s.end.None? ==> r == Pricing.Sum(s.selection)
    ensures r == Pricing.TotalProductPrice(product.price, StayNights(s)) + Pricing.Sum(s.selection)
  {
    Pricing.TotalPrice(product.price, StayNights(s), s.selection)
  }

  /** The session invariant: a valid ledger, and an in-range guest count whenever the bound allows one. */
  ghost predicate Invariant(catalog: Catalog, product: Product, s: Session) {
    && Valid(catalog, s.selection)
    && (SaneBound(product.maxPeople) ==> InRange(s.guests, product.maxPeople))
  }

  lemma ApplyKeepsInvariant(catalog: Catalog, product: Product, s: Session, ev: Event)
    requires Invariant(catalog, product, s)
    ensures Invariant(catalog, product, Apply(catalog, product, s, ev))
  {
    match ev
    case PickDates(_, _) =>
    case ChooseOption(n) => SelectValid(catalog, s.selection, n);
    case IncreaseOption(n) => IncreaseValid(catalog, s.selection, n);
    case DecreaseOption(n) => DecreaseValid(catalog, s.selection, n);
    case ChangeGuestCount(d) =>
      if SaneBound(product.maxPeople) {
        ChangeLandsInRange(s.guests, d, product.maxPeople);
      }
  }

  lemma {:induction false} RunKeepsInvariant(catalog: Catalog, product: Product, s: Session, evs: seq<Event>)
    requires Invariant(catalog, product, s)
    ensures Invariant(catalog, product, Run(catalog, product, s, evs))
    decreases |evs|
  {
    if evs != [] {
      ApplyKeepsInvariant(catalog, product, s, evs[0]);
      RunKeepsInvariant(catalog, product, Apply(catalog, product, s, evs[0]), evs[1..]);
    }
  }

  /**
    From a fresh session, after any sequence of events: every chosen add-on has
    at least one unit, a catalog name, the first match's price and a key of its
    own, and the guest count stays within its bounds.
   */
  lemma SessionInvariant(catalog: Catalog, product: Product, evs: seq<Event>)
    ensures Valid(catalog, Run(catalog, product, Init(), evs).selection)
    ensures forall i :: 0 <= i < |Run(catalog, product, Init(), evs).selection| ==>
              EntryOk(catalog, Run(catalog, product, Init(), evs).selection[i].0,
                      Run(catalog, product, Init(), evs).selection[i].1)
    ensures SaneBound(product.maxPeople) ==>
              InRange(Run(catalog, product, Init(), evs).guests, product.maxPeople)
  {
    EmptyValid(catalog);
    RunKeepsInvariant(catalog, product, Init(), evs);
    ValidEntries(catalog, Run(catalog, product, Init(), evs).selection);
  }

  /** The price does not depend on the number of guests: a guest-count change leaves the total alone. */
  lemma GuestsDoNotChangeTotal(catalog: Catalog, product: Product, s: Session, change: int)
    requires UniqueKeys(s.selection)
    ensures Total(product, Apply(catalog, product, s, ChangeGuestCount(change))) == Total(product, s)
  {
  }
}
