/** `FlightSearchAgent.find_best_value_flights` (flight_agent.py:96-115):
    sort the offers by price (stable, missing prices last), take the mean
    of the prices that are present and non-zero, keep the sorted offers
    priced at most 1.1 times that mean, and return the first five. */
module BestValue {
  import opened Offers
  import opened Seqs
  import opened PriceSort

  /** `best_value[:5]` */
  const TopCount: nat := 5

  /** "Within 10% of average" */
  const ThresholdFactor: real := 1.1

  /** `[f.get("price", 0) for f in flight_results if f.get("price")]`:
      the prices that are present and truthy (non-zero), in input order. */
  function TruthyPrices(s: seq<Offer>): (r: seq<int>)
    ensures |r| <= |s|
    ensures forall p :: p in r ==> p != 0
    ensures forall o :: o in s && o.price.Amount? && o.price.value != 0 ==> o.price.value in r
  {
    if s == [] then []
    else (if s[0].price.Amount? && s[0].price.value != 0 then [s[0].price.value] else [])
         + TruthyPrices(s[1..])
  }

  function PricedAt(p: int): Offer -> bool
  {
    (o: Offer) => o.price == Amount(p)
  }

  /** Each non-zero price is averaged once per offer carrying it, and 0
      never: the truthy prices are fixed, up to order, by the offers. */
  lemma {:induction false} TruthyPricesCount(s: seq<Offer>)
    ensures forall p :: multiset(TruthyPrices(s))[p]
                     == if p == 0 then 0 else |Filter(s, PricedAt(p))|
  {
    if s != [] {
      TruthyPricesCount(s[1..]);
    }
  }

  /** `avg_price`: the mean of the truthy prices, 0 when there are none. */
  function MeanPrice(s: seq<Offer>): real
  {
    AverageOrZero(TruthyPrices(s))
  }

  /** The mean is 0 without truthy prices; otherwise it lies between the
      smallest and the largest of them. */
  lemma MeanPriceBounds(s: seq<Offer>)
    ensures TruthyPrices(s) == [] ==> MeanPrice(s) == 0.0
    ensures TruthyPrices(s) != [] ==>
              Min(TruthyPrices(s)) as real <= MeanPrice(s) <= Max(TruthyPrices(s)) as real
  {
    if TruthyPrices(s) != [] {
      AverageBetweenMinAndMax(TruthyPrices(s));
    }
  }

  /** The threshold test on a sort key: only a finite key at most 1.1
      times the mean passes. */
  predicate KeyQualifies(k: Key, mean: real)
  {
    k.Finite? && k.n as real <= mean * ThresholdFactor
  }

  /** `f.get("price", float('inf')) <= avg_price * 1.1`: an offer without a
      price compares as +infinity and never qualifies, so the test is the
      key test on the offer's sort key. */
  predicate Qualifies(o: Offer, mean: real): (b: bool)
    ensures b <==> KeyQualifies(KeyOf(o), mean)
  {
    o.price.Amount? && o.price.value as real <= mean * ThresholdFactor
  }

  function QualifiesUnder(mean: real): Offer -> bool
  {
    o => Qualifies(o, mean)
  }

  /** `best_value` before truncation: the qualifying offers in sorted
      order. They are ordered by price and are a permutation of the
      input's qualifying offers. */
  function QualifyingSorted(s: seq<Offer>): (r: seq<Offer>)
    ensures Sorted(r)
    ensures multiset(r) == multiset(Filter(s, QualifiesUnder(MeanPrice(s))))
  {
    var sorted := StableSort(s);
    FilterSorted(sorted, QualifiesUnder(MeanPrice(s)));
    FilterOfPermutation(sorted, s, QualifiesUnder(MeanPrice(s)));
    Filter(sorted, QualifiesUnder(MeanPrice(s)))
  }

  /** For each price, the qualifying sorted offers are all of the input's
      offers at that price, in input order, when that price qualifies,
      and none otherwise. */
  lemma QualifyingSortedByPrice(s: seq<Offer>)
    ensures forall k :: OfKey(QualifyingSorted(s), k)
                     == (if KeyQualifies(k, MeanPrice(s)) then OfKey(s, k) else [])
  {
    forall k ensures OfKey(QualifyingSorted(s), k)
                  == (if KeyQualifies(k, MeanPrice(s)) then OfKey(s, k) else []) {
      OfKeyOfQualifying(StableSort(s), MeanPrice(s), k);
    }
  }

  /** `find_best_value_flights(flight_results)`. A record holding
      `price: None` makes the comparisons raise, hence `WellPriced`. */
  function BestValueFlights(s: seq<Offer>): (r: seq<Offer>)
    requires WellPriced(s)
    ensures s == [] ==> r == []
    ensures |r| <= TopCount
  {
    if s == [] then []
    else
      var best := QualifyingSorted(s);
      if |best| <= TopCount then best else best[..TopCount]
  }

  // ---------------------------------------------------------------------
  // Helpers about filtering sorted sequences

  lemma {:induction false} FilterSorted(s: seq<Offer>, keep: Offer -> bool)
    requires Sorted(s)
    ensures Sorted(Filter(s, keep))
  {
    if s != [] {
      SortedTail(s);
      FilterSorted(s[1..], keep);
      var tail := Filter(s[1..], keep);
      if keep(s[0]) {
        forall y | y in tail ensures KeyLe(KeyOf(s[0]), KeyOf(y)) {
          FilterMembership(s[1..], keep, y);
          assert y in s;
        }
        SortedCons(s[0], tail);
      }
    }
  }

  lemma {:induction false} OfKeyOfQualifying(t: seq<Offer>, mean: real, k: Key)
    ensures OfKey(Filter(t, QualifiesUnder(mean)), k)
         == (if KeyQualifies(k, mean) then OfKey(t, k) else [])
  {
    if t != [] {
      OfKeyOfQualifying(t[1..], mean, k);
      var keep := QualifiesUnder(mean);
      var head := if keep(t[0]) then [t[0]] else [];
      assert Filter(t, keep) == head + Filter(t[1..], keep);
      FilterConcat(head, Filter(t[1..], keep), KeyIs(k));
      assert t == [t[0]] + t[1..];
      OfKeyCons(t[0], t[1..], k);
    }
  }

  lemma FilterOfPermutation(a: seq<Offer>, b: seq<Offer>, keep: Offer -> bool)
    requires multiset(a) == multiset(b)
    ensures multiset(Filter(a, keep)) == multiset(Filter(b, keep))
    ensures |Filter(a, keep)| == |Filter(b, keep)|
  {
    forall x ensures multiset(Filter(a, keep))[x] == multiset(Filter(b, keep))[x] {
      FilterMultiplicity(a, keep, x);
      FilterMultiplicity(b, keep, x);
    }
    assert multiset(Filter(a, keep)) == multiset(Filter(b, keep));
    assert |multiset(Filter(a, keep))| == |Filter(a, keep)|;
  }

  lemma PrefixSorted(q: seq<Offer>, m: nat)
    requires Sorted(q) && m <= |q|
    ensures Sorted(q[..m])
  {
  }

  lemma OfKeyOfPrefix(q: seq<Offer>, m: nat, k: Key)
    requires m <= |q|
    ensures OfKey(q[..m], k) <= OfKey(q, k)
  {
    assert q == q[..m] + q[m..];
    FilterConcat(q[..m], q[m..], KeyIs(k));
  }

  // ---------------------------------------------------------------------
  // What find_best_value_flights promises

  /** The result is ordered by nondecreasing price, and the offers at any
      one price are a prefix of that price's offers in input order: the
      sort is stable and no equal-priced offer is skipped over. */
  lemma BestValueOrderedAndStable(s: seq<Offer>)
    requires WellPriced(s)
    ensures Sorted(BestValueFlights(s))
    ensures forall k :: OfKey(BestValueFlights(s), k) <= OfKey(s, k)
  {
    if s != [] {
      var q := QualifyingSorted(s);
      QualifyingSortedByPrice(s);
      var m := if |q| <= TopCount then |q| else TopCount;
      assert BestValueFlights(s) == q[..m];
      PrefixSorted(q, m);
      forall k ensures OfKey(BestValueFlights(s), k) <= OfKey(s, k) {
        OfKeyOfPrefix(q, m, k);
      }
    }
  }

  /** Every returned offer is an input offer, has a price, and is priced
      at most 1.1 times the mean; an offer is returned at most as often as
      it occurs in the input. */
  lemma BestValueMembers(s: seq<Offer>)
    requires WellPriced(s)
    ensures multiset(BestValueFlights(s)) <= multiset(s)
    ensures forall o :: o in BestValueFlights(s) ==>
              o in s && o.price.Amount? && Qualifies(o, MeanPrice(s))
  {
    var keep := QualifiesUnder(MeanPrice(s));
    BestValueWithinQualifying(s);
    forall x ensures multiset(Filter(s, keep))[x] <= multiset(s)[x] {
      FilterMultiplicity(s, keep, x);
    }
    forall o | o in BestValueFlights(s)
      ensures o in s && o.price.Amount? && Qualifies(o, MeanPrice(s))
    {
      assert o in multiset(BestValueFlights(s));
      FilterMultiplicity(s, keep, o);
    }
  }

  lemma BestValueWithinQualifying(s: seq<Offer>)
    requires WellPriced(s)
    ensures multiset(BestValueFlights(s))
         <= multiset(Filter(s, QualifiesUnder(MeanPrice(s))))
  {
    if s != [] {
      var q := QualifyingSorted(s);
      var m := if |q| <= TopCount then |q| else TopCount;
      PrefixMultiset(q, m);
      assert BestValueFlights(s) == q[..m];
    }
  }

  /** Exactly the first min(5, k) of the k qualifying offers are returned. */
  lemma BestValueSize(s: seq<Offer>)
    requires WellPriced(s)
    ensures var k := |Filter(s, QualifiesUnder(MeanPrice(s)))|;
            |BestValueFlights(s)| == if k <= TopCount then k else TopCount
  {
    if s != [] {
      var q := QualifyingSorted(s);
      assert |multiset(q)| == |q|;
      assert |multiset(Filter(s, QualifiesUnder(MeanPrice(s))))|
          == |Filter(s, QualifiesUnder(MeanPrice(s)))|;
    }
  }

  /** No qualifying offer is dropped while a more expensive one is kept:
      when an offer is returned fewer times than it qualifies in the input,
      five offers were returned, none dearer than it. */
  lemma BestValueComplete(s: seq<Offer>, o: Offer)
    requires WellPriced(s)
    requires multiset(BestValueFlights(s))[o]
           < multiset(Filter(s, QualifiesUnder(MeanPrice(s))))[o]
    ensures |BestValueFlights(s)| == TopCount
    ensures forall x :: x in BestValueFlights(s) ==> KeyLe(KeyOf(x), KeyOf(o))
  {
    var q := QualifyingSorted(s);
    var r := BestValueFlights(s);
    assert s != [];
    assert |q| <= TopCount ==> r == q;
    assert r == q[..TopCount];
    var j := LaterOccurrence(q, TopCount, o);
    forall x | x in r ensures KeyLe(KeyOf(x), KeyOf(o)) {
      var i :| 0 <= i < TopCount && q[i] == x;
    }
  }

  /** The value form of `BestValueComplete`: a qualifying input offer that
      is not returned at all means five cheaper-or-equal offers were. */
  lemma BestValueCompleteFor(s: seq<Offer>, o: Offer)
    requires WellPriced(s)
    requires o in s && Qualifies(o, MeanPrice(s))
    requires o !in BestValueFlights(s)
    ensures |BestValueFlights(s)| == TopCount
    ensures forall x :: x in BestValueFlights(s) ==> KeyLe(KeyOf(x), KeyOf(o))
  {
    FilterMultiplicity(s, QualifiesUnder(MeanPrice(s)), o);
    assert o !in multiset(BestValueFlights(s));
    BestValueComplete(s, o);
  }

  /** The first offer returned is the cheapest priced offer of the input. */
  lemma BestValueCheapestFirst(s: seq<Offer>)
    requires WellPriced(s)
    requires BestValueFlights(s) != []
    ensures BestValueFlights(s)[0].price.Amount?
    ensures forall o :: o in s && o.price.Amount? ==>
              BestValueFlights(s)[0].price.value <= o.price.value
  {
    BestValueMembers(s);
    assert BestValueFlights(s)[0] in BestValueFlights(s);
    forall o | o in s && o.price.Amount?
      ensures BestValueFlights(s)[0].price.value <= o.price.value
    {
      FirstAtMost(s, o);
    }
  }

  lemma FirstAtMost(s: seq<Offer>, o: Offer)
    requires WellPriced(s)
    requires BestValueFlights(s) != []
    requires o in s && o.price.Amount?
    ensures BestValueFlights(s)[0].price.Amount?
    ensures BestValueFlights(s)[0].price.value <= o.price.value
  {
    BestValueMembers(s);
    assert BestValueFlights(s)[0] in BestValueFlights(s);
    if o in BestValueFlights(s) {
      FirstAtMostReturned(s, o);
    } else if Qualifies(o, MeanPrice(s)) {
      BestValueCompleteFor(s, o);
    }
  }

  lemma FirstAtMostReturned(s: seq<Offer>, o: Offer)
    requires WellPriced(s)
    requires o in BestValueFlights(s)
    ensures KeyLe(KeyOf(BestValueFlights(s)[0]), KeyOf(o))
  {
    var r := BestValueFlights(s);
    BestValueOrderedAndStable(s);
    var j :| 0 <= j < |r| && r[j] == o;
    if j > 0 { assert KeyLe(KeyOf(r[0]), KeyOf(r[j])); }
    else { KeyLeTotal(KeyOf(o), KeyOf(o)); }
  }

  /** An input in which no offer has a price yields an empty result. */
  lemma BestValueEmptyWithoutPrices(s: seq<Offer>)
    requires WellPriced(s)
    requires forall o :: o in s ==> !o.price.Amount?
    ensures BestValueFlights(s) == []
  {
    FilterNone(s, QualifiesUnder(MeanPrice(s)));
    BestValueSize(s);
  }

  // ---------------------------------------------------------------------
  // The mean

  lemma {:induction false} TruthyPricesConcat(a: seq<Offer>, b: seq<Offer>)
    ensures TruthyPrices(a + b) == TruthyPrices(a) + TruthyPrices(b)
  {
    if a == [] {
      assert a + b == b;
    } else {
      assert (a + b)[0] == a[0] && (a + b)[1..] == a[1..] + b;
      TruthyPricesConcat(a[1..], b);
    }
  }

  /** An offer whose price is missing or zero does not move the mean,
      wherever it stands in the list. */
  lemma MeanIgnoresFalsyPrice(a: seq<Offer>, o: Offer, b: seq<Offer>)
    requires !o.price.Amount? || o.price.value == 0
    ensures MeanPrice(a + [o] + b) == MeanPrice(a + b)
  {
    TruthyPricesConcat(a + [o], b);
    TruthyPricesConcat(a, [o]);
    TruthyPricesConcat(a, b);
    assert TruthyPrices([o]) == [];
    assert TruthyPrices(a + [o]) == TruthyPrices(a);
  }

  /** The threshold test in exact integer arithmetic: with n truthy prices
      summing to S, an offer priced p qualifies iff 10 * p * n <= 11 * S,
      and iff p <= 0 when there is no truthy price (the mean is then 0). */
  lemma QualifiesExactly(s: seq<Offer>, o: Offer)
    ensures var n, total := |TruthyPrices(s)|, Sum(TruthyPrices(s));
            Qualifies(o, MeanPrice(s)) <==>
              o.price.Amount? &&
              (n == 0 ==> o.price.value <= 0) &&
              (n > 0 ==> 10 * o.price.value * n <= 11 * total)
  {
    var xs := TruthyPrices(s);
    if o.price.Amount? && xs != [] {
      ThresholdScaled(o.price.value, |xs|, Sum(xs), MeanPrice(s));
    }
  }

  /** `p <= (total / n) * 1.1` in integers. */
  lemma ThresholdScaled(p: int, n: nat, total: int, mean: real)
    requires n > 0 && mean == total as real / n as real
    ensures p as real <= mean * ThresholdFactor <==> 10 * p * n <= 11 * total
  {
    var pr, nr, tr := p as real, n as real, total as real;
    assert mean * nr == tr;
    ScaleInequality(pr, mean * ThresholdFactor, nr);
    assert mean * ThresholdFactor * nr == 1.1 * tr;
    assert pr * nr <= 1.1 * tr <==> 10.0 * pr * nr <= 11.0 * tr;
    assert (10 * p * n) as real == 10.0 * pr * nr;
    assert (11 * total) as real == 11.0 * tr;
  }

  lemma ScaleInequality(x: real, y: real, n: real)
    requires n > 0.0
    ensures x <= y <==> x * n <= y * n
  {
    if x <= y { assert (y - x) * n >= 0.0; }
    if x * n <= y * n { assert (y - x) * n >= 0.0; }
  }

  /** Zero-priced offers do not count toward the mean but can still be
      selected: with no negative prices, a zero-priced offer is returned
      unless five offers priced zero are returned ahead of it. */
  lemma ZeroPricedSelectable(s: seq<Offer>, o: Offer)
    requires WellPriced(s)
    requires forall x :: x in s && x.price.Amount? ==> x.price.value >= 0
    requires o in s && o.price == Amount(0)
    ensures o in BestValueFlights(s) ||
            (|BestValueFlights(s)| == TopCount &&
             forall x :: x in BestValueFlights(s) ==> x.price == Amount(0))
  {
    var xs := TruthyPrices(s);
    if xs != [] {
      forall p | p in xs ensures p >= 0 { TruthyPricesFrom(s, p); }
    }
    MeanPriceBounds(s);
    assert MeanPrice(s) >= 0.0;
    if o !in BestValueFlights(s) {
      BestValueCompleteFor(s, o);
      BestValueMembers(s);
    }
  }

  lemma {:induction false} TruthyPricesFrom(s: seq<Offer>, p: int)
    requires p in TruthyPrices(s)
    ensures exists x :: x in s && x.price == Amount(p)
  {
    if s[0].price.Amount? && s[0].price.value == p {
      assert s[0] in s;
    } else {
      assert p in TruthyPrices(s[1..]);
      TruthyPricesFrom(s[1..], p);
      var x :| x in s[1..] && x.price == Amount(p);
      assert x in s;
    }
  }
}
