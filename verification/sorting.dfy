/** The orders `GET /countries` sorts by, as MongoDB applies them to the
    stored documents, and a sort on sequences of records. MongoDB orders a
    missing or null field before every number and string, and strings by
    their binary (code point) order. */
module Sorting {
  import opened Wrappers
  import opened Text
  import opened CountryModel

  /** The `sort` query parameter, decoded. */
  datatype SortKey = GdpDesc | GdpAsc | PopulationDesc | PopulationAsc | NameAsc

  /** The recognised `sort` values; anything else, or none, sorts by name. */
  function ParseSort(sort: Option<string>): (k: SortKey)
    ensures sort == Some("gdp_desc") ==> k == GdpDesc
    ensures sort == Some("gdp_asc") ==> k == GdpAsc
    ensures sort == Some("population_desc") ==> k == PopulationDesc
    ensures sort == Some("population_asc") ==> k == PopulationAsc
    ensures k == NameAsc <==>
              sort !in {Some("gdp_desc"), Some("gdp_asc"), Some("population_desc"), Some("population_asc")}
  {
    match sort
    case Some("gdp_desc") => GdpDesc
    case Some("gdp_asc") => GdpAsc
    case Some("population_desc") => PopulationDesc
    case Some("population_asc") => PopulationAsc
    case _ => NameAsc
  }

  /** MongoDB's ascending order on an optional number: missing first. */
  predicate NumberLe(a: Option<int>, b: Option<int>) {
    a.None? || (b.Some? && a.value <= b.value)
  }

  /** MongoDB's ascending order on an optional string: missing first. */
  predicate NameLe(a: Option<string>, b: Option<string>) {
    a.None? || (b.Some? && StrLe(a.value, b.value))
  }

  /** `a` may come before `b` in a listing sorted by `key`. */
  predicate Precedes(key: SortKey, a: Country, b: Country) {
    match key
    case GdpDesc => a.estimatedGdp >= b.estimatedGdp
    case GdpAsc => a.estimatedGdp <= b.estimatedGdp
    case PopulationDesc => NumberLe(b.population, a.population)
    case PopulationAsc => NumberLe(a.population, b.population)
    case NameAsc => NameLe(a.name, b.name)
  }

  /** Every key orders every pair one way or the other. */
  lemma PrecedesTotal(key: SortKey, a: Country, b: Country)
    ensures Precedes(key, a, b) || Precedes(key, b, a)
  {
    if key == NameAsc && a.name.Some? && b.name.Some? {
      StrLeTotal(a.name.value, b.name.value);
    }
  }

  lemma PrecedesTransitive(key: SortKey, a: Country, b: Country, c: Country)
    requires Precedes(key, a, b) && Precedes(key, b, c)
    ensures Precedes(key, a, c)
  {
    if key == NameAsc && a.name.Some? {
      StrLeTransitive(a.name.value, b.name.value, c.name.value);
    }
  }

  /** Every earlier record may precede every later one. */
  predicate Sorted(key: SortKey, cs: seq<Country>) {
    forall i, j | 0 <= i < j < |cs| :: Precedes(key, cs[i], cs[j])
  }

  /** Insert `c` before the first record it may precede. */
  function Insert(key: SortKey, c: Country, cs: seq<Country>): seq<Country>
    decreases |cs|
  {
    if |cs| == 0 || Precedes(key, c, cs[0]) then [c] + cs
    else [cs[0]] + Insert(key, c, cs[1..])
  }

  lemma {:induction false} InsertPermutes(key: SortKey, c: Country, cs: seq<Country>)
    ensures multiset(Insert(key, c, cs)) == multiset(cs) + multiset{c}
    decreases |cs|
  {
    if |cs| > 0 && !Precedes(key, c, cs[0]) {
      InsertPermutes(key, c, cs[1..]);
      assert cs == [cs[0]] + cs[1..];
    }
  }

  /** A record that may precede every record of a sorted sequence can head it. */
  lemma ConsSorted(key: SortKey, x: Country, t: seq<Country>)
    requires Sorted(key, t)
    requires forall j | 0 <= j < |t| :: Precedes(key, x, t[j])
    ensures Sorted(key, [x] + t)
  {
    var r := [x] + t;
    forall i, j | 0 <= i < j < |r| ensures Precedes(key, r[i], r[j]) {
      if i == 0 {
        assert r[j] == t[j - 1];
      } else {
        assert r[i] == t[i - 1] && r[j] == t[j - 1];
      }
    }
  }

  lemma TailSorted(key: SortKey, cs: seq<Country>)
    requires |cs| > 0 && Sorted(key, cs)
    ensures Sorted(key, cs[1..])
    ensures forall j | 0 <= j < |cs[1..]| :: Precedes(key, cs[0], cs[1..][j])
  {
    var tail := cs[1..];
    forall i, j | 0 <= i < j < |tail| ensures Precedes(key, tail[i], tail[j]) {
      assert tail[i] == cs[i + 1] && tail[j] == cs[j + 1];
    }
    forall j | 0 <= j < |tail| ensures Precedes(key, cs[0], tail[j]) {
      assert tail[j] == cs[j + 1];
    }
  }

  lemma {:induction false} InsertSorted(key: SortKey, c: Country, cs: seq<Country>)
    requires Sorted(key, cs)
    ensures Sorted(key, Insert(key, c, cs))
    decreases |cs|
  {
    if |cs| == 0 {
    } else if Precedes(key, c, cs[0]) {
      forall j | 0 <= j < |cs| ensures Precedes(key, c, cs[j]) {
        if j > 0 {
          PrecedesTransitive(key, c, cs[0], cs[j]);
        }
      }
      ConsSorted(key, c, cs);
    } else {
      PrecedesTotal(key, c, cs[0]);
      var tail := cs[1..];
      var t := Insert(key, c, tail);
      TailSorted(key, cs);
      InsertSorted(key, c, tail);
      InsertPermutes(key, c, tail);
      forall j | 0 <= j < |t| ensures Precedes(key, cs[0], t[j]) {
        assert t[j] in multiset(t);
        if t[j] != c {
          assert t[j] in multiset(tail);
          var w :| 0 <= w < |tail| && tail[w] == t[j];
        }
      }
      ConsSorted(key, cs[0], t);
    }
  }

  /** Insertion sort by `key`. */
  function SortBy(key: SortKey, cs: seq<Country>): seq<Country>
    decreases |cs|
  {
    if |cs| == 0 then [] else Insert(key, cs[0], SortBy(key, cs[1..]))
  }

  /** `SortBy` returns a sorted permutation of its input. */
  lemma {:induction false} SortBySpec(key: SortKey, cs: seq<Country>)
    ensures Sorted(key, SortBy(key, cs))
    ensures multiset(SortBy(key, cs)) == multiset(cs)
    decreases |cs|
  {
    if |cs| > 0 {
      SortBySpec(key, cs[1..]);
      InsertSorted(key, cs[0], SortBy(key, cs[1..]));
      InsertPermutes(key, cs[0], SortBy(key, cs[1..]));
      assert cs == [cs[0]] + cs[1..];
    }
  }
}
