/** The stable sort by price of `find_best_value_flights`
    (flight_agent.py:103): Python's `sorted` with the key
    `x.get("price", float('inf'))`. Stability is specified through
    `OfKey`: the offers sharing one price keep their input order. */
module PriceSort {
  import opened Offers
  import opened Seqs

  /** Places `o` in front of the first element whose price is at least
      its own, so that `o` stays ahead of the equal-priced elements that
      came after it in the input. */
  function Insert(o: Offer, t: seq<Offer>): (r: seq<Offer>)
    ensures |r| == |t| + 1
  {
    if t == [] then [o]
    else if KeyLe(KeyOf(o), KeyOf(t[0])) then [o] + t
    else [t[0]] + Insert(o, t[1..])
  }

  function KeyIs(k: Key): Offer -> bool
  {
    o => KeyOf(o) == k
  }

  /** The offers of `s` whose sort key is `k`, in their order in `s`. */
  function OfKey(s: seq<Offer>, k: Key): seq<Offer>
  {
    Filter(s, KeyIs(k))
  }

  /** `r` is the stable sort of `s`: ordered by price, and for every price
      the offers at that price appear in `r` exactly as in `s`. */
  ghost predicate SortsStably(s: seq<Offer>, r: seq<Offer>)
  {
    Sorted(r) && forall k :: OfKey(r, k) == OfKey(s, k)
  }

  lemma OfKeyCons(x: Offer, t: seq<Offer>, k: Key)
    ensures OfKey([x] + t, k) == (if KeyOf(x) == k then [x] else []) + OfKey(t, k)
  {
    assert ([x] + t)[0] == x && ([x] + t)[1..] == t;
  }

  lemma SortedCons(x: Offer, t: seq<Offer>)
    requires Sorted(t)
    requires forall y :: y in t ==> KeyLe(KeyOf(x), KeyOf(y))
    ensures Sorted([x] + t)
  {
    var s := [x] + t;
    forall i, j | 0 <= i < j < |s| ensures KeyLe(KeyOf(s[i]), KeyOf(s[j])) {
      if i == 0 {
        assert s[j] == t[j - 1] && s[j] in t;
      } else {
        assert s[i] == t[i - 1] && s[j] == t[j - 1];
      }
    }
  }

  lemma SortedTail(s: seq<Offer>)
    requires s != [] && Sorted(s)
    ensures Sorted(s[1..])
    ensures forall y :: y in s ==> KeyLe(KeyOf(s[0]), KeyOf(y))
  {
    forall y | y in s ensures KeyLe(KeyOf(s[0]), KeyOf(y)) {
      var j :| 0 <= j < |s| && s[j] == y;
      if j == 0 { KeyLeTotal(KeyOf(y), KeyOf(y)); }
    }
  }

  lemma {:induction false} InsertPermutes(o: Offer, t: seq<Offer>)
    ensures multiset(Insert(o, t)) == multiset([o] + t)
  {
    if t != [] && !KeyLe(KeyOf(o), KeyOf(t[0])) {
      InsertPermutes(o, t[1..]);
      assert t == [t[0]] + t[1..];
    }
  }

  lemma {:induction false} InsertKeepsKeyOrder(o: Offer, t: seq<Offer>, k: Key)
    ensures OfKey(Insert(o, t), k) == OfKey([o] + t, k)
  {
    if t != [] && !KeyLe(KeyOf(o), KeyOf(t[0])) {
      var t0, rest := t[0], t[1..];
      assert t == [t0] + rest;
      InsertKeepsKeyOrder(o, rest, k);
      assert KeyOf(o) != KeyOf(t0) by { KeyLeTotal(KeyOf(o), KeyOf(t0)); }
      OfKeyCons(t0, Insert(o, rest), k);
      OfKeyCons(o, rest, k);
      OfKeyCons(o, t, k);
      OfKeyCons(t0, rest, k);
    }
  }

  lemma {:induction false} InsertSorted(o: Offer, t: seq<Offer>)
    requires Sorted(t)
    ensures Sorted(Insert(o, t))
  {
    if t == [] {
    } else if KeyLe(KeyOf(o), KeyOf(t[0])) {
      SortedTail(t);
      SortedCons(o, t);
    } else {
      var t0, rest := t[0], t[1..];
      assert t == [t0] + rest;
      SortedTail(t);
      InsertSorted(o, rest);
      var inserted := Insert(o, rest);
      InsertPermutes(o, rest);
      forall y | y in inserted ensures KeyLe(KeyOf(t0), KeyOf(y)) {
        assert y in multiset(inserted);
        if y != o { assert y in rest; }
        KeyLeTotal(KeyOf(t0), KeyOf(o));
      }
      SortedCons(t0, inserted);
    }
  }

  /** `sorted(s, key=lambda x: x.get("price", float('inf')))`: ordered by
      price with missing prices last, stable (the offers at each price keep
      their input order), and a permutation of the input. */
  function StableSort(s: seq<Offer>): (r: seq<Offer>)
    ensures |r| == |s|
    ensures SortsStably(s, r)
    ensures multiset(r) == multiset(s)
  {
    if s == [] then []
    else
      var rest := StableSort(s[1..]);
      InsertSorted(s[0], rest);
      InsertPermutes(s[0], rest);
      assert s == [s[0]] + s[1..];
      assert forall k :: OfKey(Insert(s[0], rest), k) == OfKey(s, k) by {
        forall k ensures OfKey(Insert(s[0], rest), k) == OfKey(s, k) {
          InsertKeepsKeyOrder(s[0], rest, k);
          OfKeyCons(s[0], rest, k);
          OfKeyCons(s[0], s[1..], k);
        }
      }
      Insert(s[0], rest)
  }

  /** A non-empty sequence has its first element among the offers at
      that element's price. */
  lemma HeadOfKey(s: seq<Offer>)
    ensures s != [] ==> s[0] in OfKey(s, KeyOf(s[0]))
  {
    if s != [] {
      FilterMembership(s, KeyIs(KeyOf(s[0])), s[0]);
    }
  }

  /** Two orderings by price that agree on the order within every price
      are the same sequence: `SortsStably` pins the result down. */
  lemma {:induction false} StablySortedUnique(a: seq<Offer>, b: seq<Offer>)
    requires Sorted(a) && Sorted(b)
    requires forall k :: OfKey(a, k) == OfKey(b, k)
    ensures a == b
    decreases |a|
  {
    if a == [] || b == [] {
      HeadOfKey(a);
      HeadOfKey(b);
    } else {
      var ka, kb := KeyOf(a[0]), KeyOf(b[0]);
      FilterMembership(a, KeyIs(ka), a[0]);
      FilterMembership(b, KeyIs(ka), a[0]);
      FilterMembership(b, KeyIs(kb), b[0]);
      FilterMembership(a, KeyIs(kb), b[0]);
      SortedTail(a);
      SortedTail(b);
      assert a[0] in OfKey(a, ka) && b[0] in OfKey(b, kb);
      assert OfKey(a, ka) == OfKey(b, ka) && OfKey(a, kb) == OfKey(b, kb);
      assert a[0] in b && KeyLe(kb, ka);
      assert b[0] in a && KeyLe(ka, kb);
      KeyLeTotal(ka, kb);
      assert ka == kb;
      assert a == [a[0]] + a[1..] && b == [b[0]] + b[1..];
      OfKeyCons(a[0], a[1..], ka);
      OfKeyCons(b[0], b[1..], ka);
      assert OfKey(a, ka)[0] == a[0] && OfKey(b, ka)[0] == b[0];
      assert a[0] == b[0];
      forall k ensures OfKey(a[1..], k) == OfKey(b[1..], k) {
        OfKeyCons(a[0], a[1..], k);
        OfKeyCons(b[0], b[1..], k);
        var head := if KeyOf(a[0]) == k then [a[0]] else [];
        assert OfKey(a, k) == head + OfKey(a[1..], k);
        assert OfKey(b, k) == head + OfKey(b[1..], k);
        assert OfKey(a[1..], k) == OfKey(a, k)[|head|..];
        assert OfKey(b[1..], k) == OfKey(b, k)[|head|..];
      }
      StablySortedUnique(a[1..], b[1..]);
    }
  }
}
