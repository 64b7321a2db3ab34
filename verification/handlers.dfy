/** The list arithmetic inside the two JSON handlers: the `max_price`
    filter and the price summary of `/search` (flight_agent.py:151-165),
    and the budget split of `/itinerary` (flight_agent.py:183-199). Both
    handlers take the offers gathered by `analyze_flexible_dates`. */
module Handlers {
  import opened Offers
  import opened Seqs
  import opened BestValue

  // ---------------------------------------------------------------------
  // /search: the max_price filter

  /** `if max_price:` a missing or zero `max_price` switches the filter off. */
  predicate FilterActive(maxPrice: Option<int>)
  {
    maxPrice.Some? && maxPrice.value != 0
  }

  /** `f.get('price', float('inf')) <= max_price` */
  function AtMost(m: int): Offer -> bool
  {
    o => KeyLe(KeyOf(o), Finite(m))
  }

  /** Whether the `/search` filter lets an offer through. It is stated on
      the price itself rather than through `AtMost`'s sort-key comparison,
      so that `MaxPriceFilter`'s contract checks the one against the other. */
  predicate Admitted(o: Offer, maxPrice: Option<int>)
  {
    !FilterActive(maxPrice) || (o.price.Amount? && o.price.value <= maxPrice.value)
  }

  /** `[f for f in all_flights if f.get('price', float('inf')) <= max_price]`
      under `if max_price:`. The filter keeps exactly the offers priced at
      most `max_price`, each as often as in the input and in input order;
      offers without a price are dropped. Without an active `max_price`
      the list is unchanged. */
  function MaxPriceFilter(s: seq<Offer>, maxPrice: Option<int>): (r: seq<Offer>)
    requires FilterActive(maxPrice) ==> WellPriced(s)
    ensures !FilterActive(maxPrice) ==> r == s
    ensures forall o :: multiset(r)[o] == if Admitted(o, maxPrice) then multiset(s)[o] else 0
    ensures forall o :: o in r <==> o in s && Admitted(o, maxPrice)
    ensures IsSubsequence(r, s)
  {
    if FilterActive(maxPrice) then
      AtMostMultiplicity(s, maxPrice);
      FilterIsSubsequence(s, AtMost(maxPrice.value));
      Filter(s, AtMost(maxPrice.value))
    else
      SubsequenceReflexive(s);
      s
  }

  lemma AtMostMultiplicity(s: seq<Offer>, maxPrice: Option<int>)
    requires FilterActive(maxPrice)
    ensures forall o :: multiset(Filter(s, AtMost(maxPrice.value)))[o]
                     == if Admitted(o, maxPrice) then multiset(s)[o] else 0
    ensures forall o :: o in Filter(s, AtMost(maxPrice.value)) <==> o in s && Admitted(o, maxPrice)
  {
    forall o ensures multiset(Filter(s, AtMost(maxPrice.value)))[o]
                  == if Admitted(o, maxPrice) then multiset(s)[o] else 0 {
      FilterMultiplicity(s, AtMost(maxPrice.value), o);
    }
  }

  lemma WellPricedFilter(s: seq<Offer>, keep: Offer -> bool)
    requires WellPriced(s)
    ensures WellPriced(Filter(s, keep))
  {
    forall o | o in Filter(s, keep) ensures !o.price.Null? {
      FilterMembership(s, keep, o);
    }
  }

  // ---------------------------------------------------------------------
  // /search: average and price range

  /** `f.get('price', 0)` */
  function PriceOrZero(o: Offer): int
  {
    if o.price.Amount? then o.price.value else 0
  }

  function PricesOrZero(s: seq<Offer>): seq<int>
  {
    seq(|s|, i requires 0 <= i < |s| => PriceOrZero(s[i]))
  }

  datatype PriceSummary = PriceSummary(average: real, low: int, high: int)

  /** `average_price` and `price_range` of the `/search` reply: all zero
      for an empty list; otherwise the mean, smallest and largest price,
      with a missing price read as 0. */
  function Summarize(s: seq<Offer>): (r: PriceSummary)
    requires WellPriced(s)
    ensures s == [] ==> r == PriceSummary(0.0, 0, 0)
    ensures s != [] ==> r.low as real <= r.average <= r.high as real
    ensures s != [] ==> r.average == Sum(PricesOrZero(s)) as real / |s| as real
    ensures s != [] ==> r.low in PricesOrZero(s) && r.high in PricesOrZero(s)
    ensures forall p :: p in PricesOrZero(s) ==> r.low <= p <= r.high
  {
    if s == [] then PriceSummary(0.0, 0, 0)
    else
      var xs := PricesOrZero(s);
      var average := AverageOrZero(xs);
      assert Min(xs) as real <= average <= Max(xs) as real by { AverageBetweenMinAndMax(xs); }
      PriceSummary(average, Min(xs), Max(xs))
  }

  datatype SearchReply = SearchReply(
    totalOptionsFound: nat,
    bestValueFlights: seq<Offer>,
    summary: PriceSummary)

  /** The computed fields of the `/search` reply, from the offers gathered
      over the flexible dates. */
  function SearchFlights(allFlights: seq<Offer>, maxPrice: Option<int>): (r: SearchReply)
    requires WellPriced(allFlights)
    ensures r.totalOptionsFound <= |allFlights|
    ensures |r.bestValueFlights| <= TopCount
  {
    var kept := MaxPriceFilter(allFlights, maxPrice);
    assert WellPriced(kept) by {
      if FilterActive(maxPrice) { WellPricedFilter(allFlights, AtMost(maxPrice.value)); }
    }
    SearchReply(|kept|, BestValueFlights(kept), Summarize(kept))
  }

  /** With an active `max_price`, every recommended offer and the whole
      reported price range respect it. */
  lemma SearchRespectsMaxPrice(allFlights: seq<Offer>, maxPrice: Option<int>)
    requires WellPriced(allFlights)
    requires FilterActive(maxPrice)
    ensures var r := SearchFlights(allFlights, maxPrice);
            (forall o :: o in r.bestValueFlights ==>
               o.price.Amount? && o.price.value <= maxPrice.value) &&
            (r.totalOptionsFound > 0 ==> r.summary.high <= maxPrice.value)
  {
    var kept := MaxPriceFilter(allFlights, maxPrice);
    assert forall o :: o in kept ==> o.price.Amount? && o.price.value <= maxPrice.value;
    WellPricedFilter(allFlights, AtMost(maxPrice.value));
    BestValueMembers(kept);
    if kept != [] {
      SummaryHighWithin(kept, maxPrice.value);
    }
  }

  lemma SummaryHighWithin(s: seq<Offer>, m: int)
    requires WellPriced(s) && s != []
    requires forall o :: o in s ==> o.price.Amount? && o.price.value <= m
    ensures Summarize(s).high <= m
  {
    var xs := PricesOrZero(s);
    var j :| 0 <= j < |s| && xs[j] == Summarize(s).high;
    assert s[j] in s;
  }

  // ---------------------------------------------------------------------
  // /itinerary: the budget split

  /** `best_flights[:3]` */
  const ItineraryOptionCount: nat := 3

  datatype ItineraryReply = ItineraryReply(
    totalBudget: int,
    flightOptions: seq<Offer>,
    recommendedFlightCost: int,
    remainingBudget: int)

  /** The flight figures of the `/itinerary` reply: the first best-value
      offer is the recommended flight, its price is taken out of the
      budget, and at most three options are listed. */
  function PlanItinerary(allFlights: seq<Offer>, budget: int): (r: ItineraryReply)
    requires WellPriced(allFlights)
    ensures r.totalBudget == budget
    ensures r.remainingBudget + r.recommendedFlightCost == budget
    ensures |r.flightOptions| ==
              if |BestValueFlights(allFlights)| <= ItineraryOptionCount
              then |BestValueFlights(allFlights)| else ItineraryOptionCount
    ensures r.flightOptions <= BestValueFlights(allFlights)
    ensures BestValueFlights(allFlights) == [] ==>
              r.flightOptions == [] && r.remainingBudget == budget
  {
    var best := BestValueFlights(allFlights);
    var cost := if best != [] then PriceOrZero(best[0]) else 0;
    var options := if |best| <= ItineraryOptionCount then best else best[..ItineraryOptionCount];
    ItineraryReply(budget, options, cost, budget - cost)
  }

  /** The recommended flight is the first listed option and the cheapest
      priced offer found; its price is what leaves the budget. */
  lemma ItineraryChargesCheapestFlight(allFlights: seq<Offer>, budget: int)
    requires WellPriced(allFlights)
    requires BestValueFlights(allFlights) != []
    ensures var r := PlanItinerary(allFlights, budget);
            r.flightOptions != [] &&
            r.flightOptions[0].price == Amount(r.recommendedFlightCost) &&
            r.remainingBudget == budget - r.recommendedFlightCost &&
            forall o :: o in allFlights && o.price.Amount? ==>
              r.recommendedFlightCost <= o.price.value
  {
    BestValueCheapestFirst(allFlights);
  }
}
