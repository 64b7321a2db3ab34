/** `FlightSearchAgent.analyze_flexible_dates` (flight_agent.py:45-64):
    one search per day of the window, one offer record per entry of each
    reply's `best_flights`, appended in day order. The search itself is a
    parameter: a function from the day offset to the reply. */
module FlexibleDates {
  import opened Offers
  import opened Seqs

  /** One entry of a reply's `best_flights`; `legs` is its `flights` list
      (empty when the key is missing). */
  datatype ApiFlight = ApiFlight(price: Option<int>, totalDuration: Option<int>, legs: seq<Leg>)

  /** A search reply: `Some(best_flights)` when it has a `best_flights`
      key, `None` otherwise (a reply without offers, or the error value). */
  type Reply = Option<seq<ApiFlight>>

  /** The record appended for one flight found on day `day`: it always
      has a `price` entry, which is `None` exactly when the flight has no
      price; the airline is the first leg's, none without legs. */
  function ToRecord(day: int, f: ApiFlight): (r: Offer)
    ensures r.date == day && r.duration == f.totalDuration && r.legs == f.legs
    ensures !r.price.Absent?
    ensures r.price.Null? <==> f.price.None?
    ensures f.price.Some? ==> r.price.value == f.price.value
    ensures r.airline == if |f.legs| > 0 then f.legs[0].airline else None
  {
    Offer(
      day,
      if f.price.Some? then Amount(f.price.value) else Null,
      f.totalDuration,
      f.legs,
      if |f.legs| > 0 then f.legs[0].airline else None)
  }

  /** The records for the flights of one reply, in reply order. */
  function DayRecords(day: int, flights: seq<ApiFlight>): seq<Offer>
  {
    seq(|flights|, j requires 0 <= j < |flights| => ToRecord(day, flights[j]))
  }

  /** The flights a reply contributes: none without `best_flights`. */
  function ReplyFlights(search: int -> Reply, day: int): seq<ApiFlight>
  {
    if search(day).Some? then search(day).value else []
  }

  /** The records gathered over the first `days` day offsets. Every
      record carries a searched day offset, and the records come in
      nondecreasing day order. */
  function Collected(search: int -> Reply, days: nat): (r: seq<Offer>)
    ensures forall i :: 0 <= i < |r| ==> 0 <= r[i].date < days
    ensures forall i, j :: 0 <= i < j < |r| ==> r[i].date <= r[j].date
  {
    if days == 0 then []
    else
      var prev := Collected(search, days - 1);
      var today := DayRecords(days - 1, ReplyFlights(search, days - 1));
      assert forall i :: |prev| <= i < |prev + today| ==> (prev + today)[i].date == days - 1;
      prev + today
  }

  /** `range(days_range)` is empty for a negative `days_range`. */
  function DayCount(daysRange: int): nat
  {
    if daysRange > 0 then daysRange else 0
  }

  method AnalyzeFlexibleDates(search: int -> Reply, daysRange: int) returns (results: seq<Offer>)
    ensures results == Collected(search, DayCount(daysRange))
  {
    results := [];
    var i := 0;
    while i < daysRange
      invariant 0 <= i <= DayCount(daysRange)
      invariant results == Collected(search, i)
    {
      var reply := search(i);
      if reply.Some? {
        var flights := reply.value;
        var j := 0;
        while j < |flights|
          invariant 0 <= j <= |flights|
          invariant results == Collected(search, i) + DayRecords(i, flights[..j])
        {
          assert DayRecords(i, flights[..j + 1])
              == DayRecords(i, flights[..j]) + [ToRecord(i, flights[j])];
          results := results + [ToRecord(i, flights[j])];
          j := j + 1;
        }
        assert flights[..|flights|] == flights;
      }
      assert Collected(search, i + 1) == Collected(search, i) + DayRecords(i, ReplyFlights(search, i));
      i := i + 1;
    }
  }

  function DateIs(day: int): Offer -> bool
  {
    (o: Offer) => o.date == day
  }

  /** Each record's airline is its first leg's airline, none without legs. */
  lemma {:induction false} CollectedAirlines(search: int -> Reply, days: nat)
    ensures forall o :: o in Collected(search, days) ==>
              o.airline == (if |o.legs| > 0 then o.legs[0].airline else None)
  {
    if days > 0 {
      CollectedAirlines(search, days - 1);
      var today := DayRecords(days - 1, ReplyFlights(search, days - 1));
      assert Collected(search, days) == Collected(search, days - 1) + today;
      forall o | o in today
        ensures o.airline == (if |o.legs| > 0 then o.legs[0].airline else None)
      {
        var j :| 0 <= j < |today| && today[j] == o;
      }
    }
  }

  /** For every day of the window, the records dated that day are exactly
      one record per flight of that day's reply, in reply order. */
  lemma {:induction false} CollectedPerDay(search: int -> Reply, days: nat, day: int)
    ensures Filter(Collected(search, days), DateIs(day))
         == if 0 <= day < days then DayRecords(day, ReplyFlights(search, day)) else []
  {
    if days > 0 {
      CollectedPerDay(search, days - 1, day);
      var d := days - 1;
      var today := DayRecords(d, ReplyFlights(search, d));
      assert Collected(search, days) == Collected(search, d) + today;
      FilterConcat(Collected(search, d), today, DateIs(day));
      if day == d {
        FilterAll(today, DateIs(day));
      } else {
        FilterNone(today, DateIs(day));
      }
    }
  }

  /** No record is without a `price` key; the records are free of `None`
      prices exactly when every flight found carried a price. */
  lemma {:induction false} CollectedPrices(search: int -> Reply, days: nat)
    ensures forall o :: o in Collected(search, days) ==> !o.price.Absent?
    ensures WellPriced(Collected(search, days)) <==>
            forall d, f :: 0 <= d < days && f in ReplyFlights(search, d) ==> f.price.Some?
  {
    if days > 0 {
      CollectedPrices(search, days - 1);
      var d := days - 1;
      var flights := ReplyFlights(search, d);
      var today := DayRecords(d, flights);
      assert Collected(search, days) == Collected(search, d) + today;
      forall f | f in flights ensures ToRecord(d, f) in today && (f.price.Some? <==> !ToRecord(d, f).price.Null?) {
        var j :| 0 <= j < |flights| && flights[j] == f;
        assert today[j] == ToRecord(d, f);
      }
      forall o | o in today ensures exists f :: f in flights && o == ToRecord(d, f) {
        var j :| 0 <= j < |today| && today[j] == o;
        assert flights[j] in flights;
      }
    }
  }
}
