# Flight search agent: best-value selection, modelled in Dafny

The flight agent gathers flight offers over a window of departure dates,
one search per day. It then picks the "best value" offers: it sorts them by
price, works out the mean price, keeps the offers priced no more than 10%
above that mean, and returns at most the first five of them. Its two JSON
handlers do a little more list arithmetic on the same offers. `/search`
applies a `max_price` filter and reports an average and a price range.
`/itinerary` takes the first recommended flight's price out of the
traveller's budget and lists at most three flight options.

This project models that logic and proves what it promises.

- `offers.dfy` (module `Offers`): the offer record. Its `price` entry is
  three-valued: the key may be missing, may hold `None`, or may hold a
  number. The file also gives the sort key (a missing price sorts as
  +infinity) and the price order.
- `price_sort.dfy` (module `PriceSort`): Python's stable `sorted`, written
  as an insertion sort. Its specification says the result is ordered by
  price and that the offers at each price keep their input order. A lemma
  proves that this specification determines the result.
- `best_value.dfy` (module `BestValue`): `find_best_value_flights`, with
  the mean over present, non-zero prices, the 1.1 threshold and the cut to
  five.
- `handlers.dfy` (module `Handlers`): the `max_price` filter, the price
  summary and the budget split.
- `flexible_dates.dfy` (module `FlexibleDates`): the loop of
  `analyze_flexible_dates`, written as a method with nested `while` loops.
  It is proved equal to a specification function, and lemmas state what
  the gathered records look like.
- `seqs.dfy` (module `Seqs`): the order-preserving filter, the
  subsequence relation, and sum, minimum, maximum and average over
  integers.

Prices are whole currency units (`int`). The threshold
`price <= avg_price * 1.1` uses exact rational arithmetic.
`BestValue.QualifiesExactly` restates it as `10 * p * n <= 11 * S`, where
`n` is the number of present, non-zero prices and `S` is their sum. When
there are no such prices, the mean is 0.

This model follows the code: a mean over present, non-zero prices, a 1.1
factor, no fallback and a cap of five.

## Model

| member | source | states |
|---|---|---|
| `PriceSort.StableSort` | flight_agent.py:103 | the sort orders offers by nondecreasing price, with missing prices last; the offers at each price appear in input order (stability); the result is a permutation of the input |
| `PriceSort.StablySortedUnique` | flight_agent.py:103 | two price-ordered sequences that agree on the order within every price are equal, so the stable sort's result is fully determined by its specification |
| `BestValue.BestValueFlights` | flight_agent.py:96-115 | an empty input gives an empty result; the result never has more than five offers |
| `BestValue.TruthyPricesCount` | flight_agent.py:106 | the averaged prices hold each non-zero price exactly as often as offers carry it, and never 0, so they are fixed up to order by the offers |
| `BestValue.MeanPriceBounds` | flight_agent.py:106-107 | the mean is 0 when no offer has a present non-zero price; otherwise it lies between the smallest and the largest such price |
| `BestValue.Qualifies` | flight_agent.py:110-112 | an offer passes the threshold exactly when its sort key passes it: a missing price (key +infinity) never passes, a present price passes when it is at most 1.1 times the mean |
| `BestValue.QualifyingSorted` | flight_agent.py:103-113 | the qualifying offers, taken in sorted order, are ordered by price and are a permutation of the input's qualifying offers |
| `BestValue.QualifyingSortedByPrice` | flight_agent.py:103-113 | for each price, the qualifying sorted offers are all of the input's offers at that price, in input order, when that price qualifies, and none otherwise |
| `BestValue.BestValueOrderedAndStable` | flight_agent.py:103-115 | the result is ordered by nondecreasing price; at every price, the offers returned are a prefix of the input's offers at that price, in input order |
| `BestValue.BestValueMembers` | flight_agent.py:106-115 | every returned offer is an input offer, has a price, and is priced at most 1.1 times the mean; no offer is returned more often than it occurs in the input |
| `BestValue.BestValueSize` | flight_agent.py:110-115 | when k input offers qualify, exactly min(5, k) offers are returned |
| `BestValue.BestValueComplete` | flight_agent.py:110-115 | if an offer is returned fewer times than it occurs among the input's qualifying offers, then five offers were returned and none of them is dearer than it |
| `BestValue.BestValueCompleteFor` | flight_agent.py:110-115 | if a qualifying input offer is not returned at all, then five offers were returned and none of them is dearer than it |
| `BestValue.BestValueCheapestFirst` | flight_agent.py:103-115 | when the result is non-empty, its first offer is the cheapest priced offer in the input |
| `BestValue.BestValueEmptyWithoutPrices` | flight_agent.py:103-113 | when no input offer has a price, the result is empty |
| `BestValue.MeanIgnoresFalsyPrice` | flight_agent.py:106-107 | adding an offer with a missing or zero price anywhere in the list leaves the mean unchanged |
| `BestValue.QualifiesExactly` | flight_agent.py:106-112 | an offer qualifies exactly when it has a price p with 10 * p * n <= 11 * S (n present non-zero prices, summing to S); when n = 0, exactly when p <= 0 |
| `BestValue.ZeroPricedSelectable` | flight_agent.py:106-115 | with no negative prices, a zero-priced offer is returned unless five zero-priced offers are returned ahead of it |
| `Handlers.MaxPriceFilter` | flight_agent.py:151-152 | a missing or zero `max_price` leaves the list unchanged; otherwise exactly the offers with a price at most `max_price` are kept, each as often as in the input and in input order; offers without a price are dropped |
| `Handlers.Summarize` | flight_agent.py:161-165 | the summary of an empty list is (0, 0, 0); otherwise, with missing prices read as 0, the average is the sum of the prices divided by their number, min <= average <= max, min and max are prices of the list, and they bound every price |
| `Handlers.SearchFlights` | flight_agent.py:149-165 | the reported option count is at most the number of gathered offers; at most five best-value offers are reported |
| `Handlers.SearchRespectsMaxPrice` | flight_agent.py:151-165 | with an active `max_price`, every recommended offer has a price at most `max_price`, and so does the reported maximum |
| `Handlers.PlanItinerary` | flight_agent.py:183-199 | the remaining budget plus the flight cost equals the budget; with no recommended flight, the remaining budget is the whole budget and no option is listed; exactly min(3, k) options are listed when there are k best-value offers, and they are the first of them |
| `Handlers.ItineraryChargesCheapestFlight` | flight_agent.py:183-186 | when a flight is recommended, the cost charged is the first option's price and is at most the price of every priced offer gathered |
| `FlexibleDates.AnalyzeFlexibleDates` | flight_agent.py:45-64 | the records gathered by the loop are those of the specification function `Collected`, over `max(days_range, 0)` day offsets |
| `FlexibleDates.ToRecord` | flight_agent.py:56-62 | a record carries its day, the flight's duration and legs; its `price` entry is always present, is `None` exactly when the flight has no price and is the flight's price otherwise; its airline is the first leg's, none without legs |
| `FlexibleDates.Collected` | flight_agent.py:50-62 | every record is dated by a searched day offset in [0, days), and records come in nondecreasing day order |
| `FlexibleDates.CollectedPerDay` | flight_agent.py:50-62 | for each day in the window, the records dated that day are one record per entry of that day's `best_flights`, in reply order; no records are dated outside the window |
| `FlexibleDates.CollectedAirlines` | flight_agent.py:61 | each record's airline is its first leg's airline, or none when it has no legs |
| `FlexibleDates.CollectedPrices` | flight_agent.py:56-58 | no record lacks the `price` key; the records contain no `None` price exactly when every flight found carried a price |

## Left out

- `search_flights` (flight_agent.py:23-43) is not modelled. It sends a SerpAPI request over the network and catches its exceptions. `FlexibleDates` takes the search as a function from day offset to reply, and an error reply is one without `best_flights`.
- `create_itinerary_with_ai` (flight_agent.py:66-94) is not modelled. It builds a prompt for a foreign language-model call that returns free text.
- Flask plumbing is left out: the `/` route, reading `request.json`, the request defaults (`flexible_days` 14, `budget` 1000, `duration_days` 5), the missing-field 400 replies, `jsonify`, and the server start. The handlers take the gathered offers, `max_price` and `budget` as parameters.
- Environment variables and the module-level `agent` and `client` objects are left out.
- A leg keeps only its airline. The source stores each flight's whole `flights` list of leg records, so two records that differ only in other leg fields are equal in the model, and the multiset properties count them as one value.
- Dates are integer day offsets. `strptime` and `strftime` are not modelled.
- Prices are integers, and the mean and the 1.1 factor use exact rationals. Python floats, and float rounding at the threshold boundary, are not captured.
- `BestValue.BestValueFlights`, `Handlers.Summarize`, `Handlers.SearchFlights`, `Handlers.PlanItinerary` and `Handlers.ItineraryChargesCheapestFlight` require that no record holds `price: None`. The same holds for `Handlers.MaxPriceFilter` when the filter is active. In Python such a record makes the comparisons or the sum raise `TypeError`. `analyze_flexible_dates` stores `None` when a flight has no price. The model does not represent the exception; `FlexibleDates.CollectedPrices` states when the gathered records meet the requirement.
- Price values that are neither a number nor `None` (strings, for example) are not modelled.
- `budget` and `max_price` are integers. A JSON request may carry floats for them; those are not modelled.
