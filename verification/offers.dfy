/** The flight-offer records the agent passes around: one per entry of a
    search reply's `best_flights`, as built by `analyze_flexible_dates`
    (flight_agent.py:56-62), and the price order they are sorted by. */
module Offers {

  datatype Option<T> = None | Some(value: T)

  /** The `price` entry of an offer record: the key may be missing
      (`Absent`), present but `None` (`Null`, stored when the search reply
      has no price), or a number. Prices are whole currency units. */
  datatype Price = Absent | Null | Amount(value: int)

  /** One leg of an itinerary as the search reply describes it. */
  datatype Leg = Leg(airline: Option<string>)

  /** An offer record. `date` is the day offset from the first searched
      date; `airline` is the first leg's airline. */
  datatype Offer = Offer(
    date: int,
    price: Price,
    duration: Option<int>,
    legs: seq<Leg>,
    airline: Option<string>)

  /** A price as a sort key: a missing price sorts as +infinity. */
  datatype Key = Finite(n: int) | Infinity

  predicate KeyLe(a: Key, b: Key)
  {
    b.Infinity? || (a.Finite? && a.n <= b.n)
  }

  /** `x.get("price", float('inf'))`. A `None` price cannot be compared
      at all; callers rule it out (see `WellPriced`), so its key here is
      immaterial. */
  function KeyOf(o: Offer): Key
  {
    if o.price.Amount? then Finite(o.price.value) else Infinity
  }

  /** No record holds `price: None`: every price is either missing or a
      number, so the comparisons of the sort and the filters are defined. */
  predicate WellPriced(s: seq<Offer>)
  {
    forall o :: o in s ==> !o.price.Null?
  }

  /** Nondecreasing by price, missing prices last. */
  predicate Sorted(s: seq<Offer>)
  {
    forall i, j :: 0 <= i < j < |s| ==> KeyLe(KeyOf(s[i]), KeyOf(s[j]))
  }

  lemma KeyLeTotal(a: Key, b: Key)
    ensures KeyLe(a, b) || KeyLe(b, a)
    ensures KeyLe(a, b) && KeyLe(b, a) ==> a == b
  {
  }
}
