/** The `Country` schema: the stored record, how a document is cast through
    the schema (trimming and defaults), the required fields, and the
    collection itself with its unique index on `name`. */
module CountryModel {
  import opened Wrappers
  import opened Text

  /** A stored country document. `None` is a field that is absent or null.
      `estimatedGdp` is always a number: its schema default is 0. */
  datatype Country = Country(
    name: Option<string>,
    capital: Option<string>,
    region: Option<string>,
    population: Option<int>,
    currencyCode: Option<string>,
    exchangeRate: Option<real>,
    estimatedGdp: real,
    flagUrl: Option<string>)

  /** A document as a caller hands it to the model, before casting: any field
      may be left out. */
  datatype Fields = Fields(
    name: Option<string>,
    capital: Option<string>,
    region: Option<string>,
    population: Option<int>,
    currencyCode: Option<string>,
    exchangeRate: Option<real>,
    estimatedGdp: Option<real>,
    flagUrl: Option<string>)

  /** The `trim: true` setter, which leaves a missing value missing. */
  function TrimField(s: Option<string>): Option<string> {
    match s
    case None => None
    case Some(v) => Some(Trim(v))
  }

  /** Casting a document through the schema. */
  function Cast(f: Fields): Country {
    Country(TrimField(f.name), TrimField(f.capital), f.region, f.population,
            f.currencyCode, f.exchangeRate, f.estimatedGdp.GetOr(0.0), f.flagUrl)
  }

  /** What casting promises: `name` and `capital` are stored trimmed,
      `exchangeRate` defaults to null and `estimatedGdp` to 0, and every
      other field passes through. */
  lemma CastSpec(f: Fields)
    ensures var c := Cast(f);
      && (c.name.Some? <==> f.name.Some?)
      && (c.name.Some? ==> IsTrimOf(c.name.value, f.name.value))
      && (c.capital.Some? <==> f.capital.Some?)
      && (c.capital.Some? ==> IsTrimOf(c.capital.value, f.capital.value))
      && (f.exchangeRate.None? ==> c.exchangeRate.None?)
      && (f.estimatedGdp.None? ==> c.estimatedGdp == 0.0)
      && (f.estimatedGdp.Some? ==> c.estimatedGdp == f.estimatedGdp.value)
      && c.region == f.region && c.population == f.population
      && c.currencyCode == f.currencyCode && c.exchangeRate == f.exchangeRate
      && c.flagUrl == f.flagUrl
  {
    if f.name.Some? {
      TrimSpec(f.name.value);
    }
    if f.capital.Some? {
      TrimSpec(f.capital.value);
    }
  }

  /** The document a stored record reads back as. */
  function FieldsOf(c: Country): Fields {
    Fields(c.name, c.capital, c.region, c.population, c.currencyCode,
           c.exchangeRate, Some(c.estimatedGdp), c.flagUrl)
  }

  /** Casting is a normal form: saving a stored record again changes nothing. */
  lemma CastIdempotent(f: Fields)
    ensures Cast(FieldsOf(Cast(f))) == Cast(f)
  {
    if f.name.Some? {
      TrimIdempotent(f.name.value);
    }
    if f.capital.Some? {
      TrimIdempotent(f.capital.value);
    }
  }

  /** The paths whose `required: true` validator fails for `c`. A required
      string must also be non-empty; a required number only present. */
  function MissingRequired(c: Country): (missing: set<string>)
    ensures missing <= {"name", "population"}
    ensures "name" in missing <==> c.name.None? || c.name.value == ""
    ensures "population" in missing <==> c.population.None?
  {
    (if c.name.None? || c.name.value == "" then {"name"} else {})
    + (if c.population.None? then {"population"} else {})
  }

  /** The `name` validator fails on a cast document exactly when the given
      name is missing or made only of characters `trim` strips. */
  lemma MissingNameIffBlank(f: Fields)
    ensures "name" in MissingRequired(Cast(f)) <==> f.name.None? || IsBlank(f.name.value)
  {
    if f.name.Some? {
      TrimEmptyIffBlank(f.name.value);
    }
  }

  /** The key a record is filed under: its (trimmed) name, or `None` for the
      one slot that nameless documents share. */
  type Key = Option<string>

  /** The unique index on `name`: every record is filed under its own name. */
  predicate UniqueNames(m: map<Key, Country>) {
    forall k | k in m :: m[k].name == k
  }

  /** The collection: at most one record per exact name. */
  type Store = m: map<Key, Country> | UniqueNames(m) witness map[]

  /** Two stored records with the same name are the same record. */
  lemma AtMostOnePerName(s: Store, k1: Key, k2: Key)
    requires k1 in s && k2 in s && s[k1].name == s[k2].name
    ensures k1 == k2 && s[k1] == s[k2]
  {
  }

  /** `findOneAndUpdate({ name }, c, { upsert: true })`: overwrite the record
      with exactly this name, or insert one. */
  function Upsert(s: Store, c: Country): (r: Store)
    ensures r.Keys == s.Keys + {c.name}
    ensures c.name in r && r[c.name] == c
    ensures forall k | k in s && k != c.name :: r[k] == s[k]
  {
    s[c.name := c]
  }

  /** The names a sequence of records carries. */
  function Names(cs: seq<Country>): set<Key> {
    set i | 0 <= i < |cs| :: cs[i].name
  }

  /** No later record in `cs` carries the name of `cs[i]`. */
  predicate IsLast(cs: seq<Country>, i: int)
    requires 0 <= i < |cs|
  {
    forall j | i < j < |cs| :: cs[j].name != cs[i].name
  }

  lemma NamesSnoc(cs: seq<Country>)
    requires |cs| > 0
    ensures Names(cs) == Names(cs[..|cs| - 1]) + {cs[|cs| - 1].name}
  {
    var init := cs[..|cs| - 1];
    forall k | k in Names(cs) ensures k in Names(init) + {cs[|cs| - 1].name} {
      var i :| 0 <= i < |cs| && cs[i].name == k;
      if i < |cs| - 1 {
        assert init[i] == cs[i];
      }
    }
    forall k | k in Names(init) ensures k in Names(cs) {
      var i :| 0 <= i < |init| && init[i].name == k;
      assert cs[i] == init[i];
    }
  }

  /** Upserting the records of `cs` one after the other. */
  function UpsertAll(s: Store, cs: seq<Country>): Store
    decreases |cs|
  {
    if |cs| == 0 then s else Upsert(UpsertAll(s, cs[..|cs| - 1]), cs[|cs| - 1])
  }

  /** Upserting `cs` adds exactly their names. */
  lemma {:induction false} UpsertAllKeys(s: Store, cs: seq<Country>)
    ensures UpsertAll(s, cs).Keys == s.Keys + Names(cs)
    decreases |cs|
  {
    if |cs| > 0 {
      UpsertAllKeys(s, cs[..|cs| - 1]);
      NamesSnoc(cs);
    }
  }

  /** Upserting `cs` leaves every record not named among them alone. */
  lemma {:induction false} UpsertAllKeeps(s: Store, cs: seq<Country>, k: Key)
    requires k in s && k !in Names(cs)
    ensures k in UpsertAll(s, cs) && UpsertAll(s, cs)[k] == s[k]
    decreases |cs|
  {
    if |cs| > 0 {
      NamesSnoc(cs);
      UpsertAllKeeps(s, cs[..|cs| - 1], k);
    }
  }

  /** After upserting `cs`, the last record with a name is the one stored
      under it. */
  lemma {:induction false} UpsertAllStoresLast(s: Store, cs: seq<Country>, i: nat)
    requires i < |cs| && IsLast(cs, i)
    ensures cs[i].name in UpsertAll(s, cs) && UpsertAll(s, cs)[cs[i].name] == cs[i]
    decreases |cs|
  {
    var init := cs[..|cs| - 1];
    if i < |init| {
      assert init[i] == cs[i];
      assert IsLast(init, i) by {
        forall j | i < j < |init| ensures init[j].name != init[i].name {
          assert init[j] == cs[j];
        }
      }
      UpsertAllStoresLast(s, init, i);
    }
  }

  /** After upserting `cs`, every name among them holds the last record with
      that name, every other record stays as it was, and nothing is removed. */
  lemma UpsertAllSpec(s: Store, cs: seq<Country>)
    ensures var r := UpsertAll(s, cs);
            && r.Keys == s.Keys + Names(cs)
            && (forall k | k in s && k !in Names(cs) :: r[k] == s[k])
            && (forall i | 0 <= i < |cs| && IsLast(cs, i) :: r[cs[i].name] == cs[i])
  {
    UpsertAllKeys(s, cs);
    forall k | k in s && k !in Names(cs) ensures UpsertAll(s, cs)[k] == s[k] {
      UpsertAllKeeps(s, cs, k);
    }
    forall i | 0 <= i < |cs| && IsLast(cs, i) ensures UpsertAll(s, cs)[cs[i].name] == cs[i] {
      UpsertAllStoresLast(s, cs, i);
    }
  }

  /** A name among `cs` has a last record carrying it. */
  lemma LastOccurrence(cs: seq<Country>, k: Key) returns (i: nat)
    requires k in Names(cs)
    ensures i < |cs| && cs[i].name == k && IsLast(cs, i)
  {
    var w :| 0 <= w < |cs| && cs[w].name == k;
    i := |cs| - 1;
    while cs[i].name != k
      invariant w <= i < |cs|
      invariant forall j | i < j < |cs| :: cs[j].name != k
      decreases i
    {
      i := i - 1;
    }
  }

  /** Upserting the same records twice is upserting them once. */
  lemma UpsertAllIdempotent(s: Store, cs: seq<Country>)
    ensures UpsertAll(UpsertAll(s, cs), cs) == UpsertAll(s, cs)
  {
    var a := UpsertAll(s, cs);
    var b := UpsertAll(a, cs);
    UpsertAllSpec(s, cs);
    UpsertAllSpec(a, cs);
    forall k | k in b ensures b[k] == a[k] {
      if k in Names(cs) {
        var i := LastOccurrence(cs, k);
      }
    }
  }

  /** Two records that differ at most in their GDP estimate. */
  predicate SameExceptGdp(a: Country, b: Country) {
    a.(estimatedGdp := 0.0) == b.(estimatedGdp := 0.0)
  }

  /** Stores that agree on names and on every field except the GDP. */
  predicate StoresSameExceptGdp(a: Store, b: Store) {
    a.Keys == b.Keys && forall k | k in a :: SameExceptGdp(a[k], b[k])
  }

  /** Upserting records that differ only in GDP into stores that differ only
      in GDP gives stores that differ only in GDP. */
  lemma UpsertAllSameExceptGdp(a: Store, b: Store, cs1: seq<Country>, cs2: seq<Country>)
    requires StoresSameExceptGdp(a, b)
    requires |cs1| == |cs2| && forall i | 0 <= i < |cs1| :: SameExceptGdp(cs1[i], cs2[i])
    ensures StoresSameExceptGdp(UpsertAll(a, cs1), UpsertAll(b, cs2))
  {
    assert forall i | 0 <= i < |cs1| :: cs1[i].name == cs2[i].name by {
      forall i | 0 <= i < |cs1| ensures cs1[i].name == cs2[i].name {
        assert cs1[i].(estimatedGdp := 0.0).name == cs2[i].(estimatedGdp := 0.0).name;
      }
    }
    assert Names(cs1) == Names(cs2);
    var r1, r2 := UpsertAll(a, cs1), UpsertAll(b, cs2);
    UpsertAllSpec(a, cs1);
    UpsertAllSpec(b, cs2);
    forall k | k in r1 ensures SameExceptGdp(r1[k], r2[k]) {
      if k in Names(cs1) {
        var i := LastOccurrence(cs1, k);
        assert IsLast(cs2, i);
      }
    }
  }
}
