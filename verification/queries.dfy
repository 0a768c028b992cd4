/** The read and delete handlers: `GET /countries` with its filters and
    sort, `GET /countries/:name` and `DELETE /countries/:name`. The store is
    a map, so the order in which MongoDB scans it is left open: the listing
    collects the matching records in an arbitrary order before sorting, and
    lookup and delete take an arbitrary match. */
module Queries {
  import opened Wrappers
  import opened Text
  import opened CountryModel
  import opened Http
  import opened Sorting

  /** A query parameter is applied only when it is truthy (present and not
      empty). */
  predicate Applies(param: Option<string>) {
    param.Some? && param.value != ""
  }

  /** `Country.find(query)` with `query.region` and `query.currencyCode` set
      from the truthy parameters: exact equality on each field set. */
  predicate Matches(c: Country, region: Option<string>, currency: Option<string>) {
    && (Applies(region) ==> c.region == region)
    && (Applies(currency) ==> c.currencyCode == currency)
  }

  /** The names of the stored records the filters select. */
  function MatchingKeys(s: Store, region: Option<string>, currency: Option<string>): set<Key> {
    set k | k in s && Matches(s[k], region, currency)
  }

  /** `c` is a stored record the filters select. */
  predicate Selects(s: Store, region: Option<string>, currency: Option<string>, c: Country) {
    c.name in s && s[c.name] == c && Matches(c, region, currency)
  }

  /** The scan of `Country.find(query)`: every selected record once, in
      whatever order the store yields them. */
  method CollectMatching(s: Store, region: Option<string>, currency: Option<string>)
    returns (found: seq<Country>)
    ensures forall c :: c in found <==> Selects(s, region, currency, c)
    ensures |found| == |MatchingKeys(s, region, currency)|
  {
    found := [];
    var left := s.Keys;
    ghost var hits: set<Key> := {};
    while left != {}
      invariant left <= s.Keys && hits <= s.Keys
      invariant forall k | k in hits :: k !in left && Matches(s[k], region, currency)
      invariant forall k | k in s && k !in left && Matches(s[k], region, currency) :: k in hits
      invariant |found| == |hits|
      invariant forall c | c in found :: c.name in hits && s[c.name] == c
      invariant forall k | k in hits :: s[k] in found
      decreases |left|
    {
      var k :| k in left;
      if Matches(s[k], region, currency) {
        found := found + [s[k]];
        hits := hits + {k};
      }
      left := left - {k};
    }
    assert hits == MatchingKeys(s, region, currency);
  }

  /** `getAllCountries`: every selected record exactly once, sorted by the
      decoded `sort` parameter. */
  method ListCountries(s: Store, region: Option<string>, currency: Option<string>, sort: Option<string>)
    returns (r: Response)
    ensures r.status == 200 && r.body.CountryList?
    ensures forall c :: c in r.body.countries <==> Selects(s, region, currency, c)
    ensures |r.body.countries| == |MatchingKeys(s, region, currency)|
    ensures Sorted(ParseSort(sort), r.body.countries)
  {
    var found := CollectMatching(s, region, currency);
    var listed := SortBy(ParseSort(sort), found);
    SortBySpec(ParseSort(sort), found);
    assert forall c :: c in listed <==> c in found by {
      forall c ensures c in listed <==> c in found {
        assert c in listed <==> c in multiset(listed);
        assert c in found <==> c in multiset(found);
      }
    }
    assert |listed| == |multiset(listed)| == |multiset(found)| == |found|;
    r := Response(200, CountryList(listed));
  }

  /** `new RegExp("^" + q + "$", "i")` tested against a stored name, for a
      `q` without regular-expression metacharacters. A missing name never
      matches. */
  predicate NameMatches(k: Key, q: string) {
    k.Some? && SameIgnoringCase(k.value, q)
  }

  /** The stored names the case-insensitive pattern matches. */
  function MatchingNames(s: Store, q: string): set<Key> {
    set k | k in s && NameMatches(k, q)
  }

  /** `getCountryByName`: 404 exactly when no stored name matches, otherwise
      one of the matching records. */
  method GetCountryByName(s: Store, q: string) returns (r: Response)
    ensures MatchingNames(s, q) == {} <==> r == NotFound
    ensures r != NotFound ==>
              && r.status == 200 && r.body.OneCountry?
              && r.body.country.name in MatchingNames(s, q)
              && s[r.body.country.name] == r.body.country
  {
    if k :| k in s && NameMatches(k, q) {
      assert k in MatchingNames(s, q);
      r := Response(200, OneCountry(s[k]));
    } else {
      r := NotFound;
    }
  }

  const DeletedMessage := "Country deleted successfully"

  /** `deleteCountry`: with no match, 404 and nothing changes; otherwise
      exactly one matching record is removed and every other record stays. */
  method DeleteCountry(s: Store, q: string) returns (s': Store, r: Response)
    ensures MatchingNames(s, q) == {} ==> s' == s && r == NotFound
    ensures MatchingNames(s, q) != {} ==>
              && r == Response(200, Message(DeletedMessage))
              && s'.Keys <= s.Keys
              && |s.Keys - s'.Keys| == 1
              && (forall k | k in s && k !in s' :: k in MatchingNames(s, q))
              && (forall k | k in s' :: s'[k] == s[k])
  {
    if k :| k in s && NameMatches(k, q) {
      assert k in MatchingNames(s, q);
      s' := s - {k};
      assert s.Keys - s'.Keys == {k};
      r := Response(200, Message(DeletedMessage));
    } else {
      s' := s;
      r := NotFound;
    }
  }

  /** Upserting a record changes the lookup's matches by at most that
      record's name. */
  lemma MatchingAfterUpsert(s: Store, c: Country, q: string)
    ensures MatchingNames(Upsert(s, c), q)
         == MatchingNames(s, q) + (if NameMatches(c.name, q) then {c.name} else {})
  {
  }

  /** Removing a record removes only its name from the lookup's matches. */
  lemma MatchingAfterRemove(s: Store, k: Key, q: string)
    ensures MatchingNames(s - {k}, q) == MatchingNames(s, q) - {k}
  {
  }

  /** Upsert is case-sensitive but lookup is not: a refresh can store
      "France" and "FRANCE" side by side, and both match "france". */
  lemma LookupCanBeAmbiguous(a: Country, b: Country)
    requires a.name == Some("France") && b.name == Some("FRANCE")
    ensures var s := Upsert(Upsert(map[], a), b);
            |s| == 2 && MatchingNames(s, "france") == {a.name, b.name}
  {
    var s := Upsert(Upsert(map[], a), b);
    assert s.Keys == {a.name, b.name};
  }
}
