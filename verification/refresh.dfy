/** `refreshCountries`: merge the fetched country list with the rate table,
    estimate each GDP, and upsert one record per entry, in input order. */
module Refresh {
  import opened Wrappers
  import opened CountryModel
  import opened Http
  import opened ErrorHandler

  /** A currency's `code` as JSON delivers it: left out, `null`, or a string. */
  datatype RawCode = Missing | NullCode | Code(value: string)

  datatype RawCurrency = RawCurrency(code: RawCode)

  /** One entry of the fetched country list; any field may be missing. */
  datatype RawCountry = RawCountry(
    name: Option<string>,
    capital: Option<string>,
    region: Option<string>,
    population: Option<int>,
    currencies: Option<seq<RawCurrency>>,
    flag: Option<string>)

  /** The `rates` object of the fetched exchange-rate payload. */
  type RateTable = map<string, real>

  /** `Math.floor(Math.random() * 1001) + 1000` lies in this range. */
  const MinMultiplier := 1000
  const MaxMultiplier := 2000

  /** The random multipliers, one drawn per entry. */
  predicate ValidMultipliers(ms: seq<int>) {
    forall i | 0 <= i < |ms| :: MinMultiplier <= ms[i] <= MaxMultiplier
  }

  /** `currencies && currencies.length > 0` */
  predicate HasCurrencies(e: RawCountry) {
    e.currencies.Some? && |e.currencies.value| > 0
  }

  /** `currencyCode`: `currencies[0].code`, or the initial null when there is
      no currency. */
  function CurrencyCode(e: RawCountry): RawCode {
    if HasCurrencies(e) then e.currencies.value[0].code else NullCode
  }

  /** The property name JavaScript reads for `rates[code]`: the key is
      converted to a string, so a missing code reads "undefined" and a null
      one reads "null". */
  function RateKey(code: RawCode): string {
    match code
    case Code(c) => c
    case Missing => "undefined"
    case NullCode => "null"
  }

  /** The code as stored: a missing or null code is no value. */
  function StoredCode(code: RawCode): Option<string> {
    match code
    case Code(c) => Some(c)
    case _ => None
  }

  /** `rates[currencyCode]` is present and truthy (JSON cannot carry NaN, so
      only 0 is a falsy number). */
  predicate RateFound(e: RawCountry, rates: RateTable) {
    HasCurrencies(e) && RateKey(CurrencyCode(e)) in rates && rates[RateKey(CurrencyCode(e))] != 0.0
  }

  /** `exchangeRates.rates[currencyCode] || null`, looked up only when the
      entry has currencies. */
  function RateOf(e: RawCountry, rates: RateTable): (r: Option<real>)
    ensures r.Some? <==> RateFound(e, rates)
    ensures r.Some? ==> r.value != 0.0
  {
    if RateFound(e, rates) then Some(rates[RateKey(CurrencyCode(e))]) else None
  }

  /** A JavaScript number as the GDP arithmetic produces it. */
  datatype GdpValue = Finite(value: real) | NaN

  /** `population * m / rate` when the rate is truthy, else 0. A missing
      population makes the product NaN. */
  function EstimateGdp(population: Option<int>, rate: Option<real>, m: int): (g: GdpValue)
    requires rate.Some? ==> rate.value != 0.0
    ensures rate.None? ==> g == Finite(0.0)
    ensures g.NaN? <==> rate.Some? && population.None?
  {
    match rate
    case None => Finite(0.0)
    case Some(r) =>
      match population
      case None => NaN
      case Some(p) => Finite((p as real) * (m as real) / r)
  }

  /** With a positive rate and a non-negative population the estimate lies
      between the bounds the multiplier range gives. */
  lemma EstimateInRange(p: int, r: real, m: int)
    requires r > 0.0 && p >= 0 && MinMultiplier <= m <= MaxMultiplier
    ensures EstimateGdp(Some(p), Some(r), m).Finite?
    ensures InGdpRange(p, r, EstimateGdp(Some(p), Some(r), m).value)
  {
    GdpBounds(p, r, m);
  }

  /** The range the random multiplier confines an estimate to. */
  predicate InGdpRange(p: int, r: real, g: real)
    requires r != 0.0
  {
    (p as real) * (MinMultiplier as real) / r <= g <= (p as real) * (MaxMultiplier as real) / r
  }

  lemma GdpBounds(p: int, r: real, m: int)
    requires r > 0.0 && p >= 0 && MinMultiplier <= m <= MaxMultiplier
    ensures InGdpRange(p, r, (p as real) * (m as real) / r)
  {
    QuotientBounds(p as real, m as real, r);
  }

  /** `pr * mr / r` for a multiplier `mr` in range lies between the quotients
      for the range's ends. */
  lemma QuotientBounds(pr: real, mr: real, r: real)
    requires pr >= 0.0 && r > 0.0 && MinMultiplier as real <= mr <= MaxMultiplier as real
    ensures pr * (MinMultiplier as real) / r <= pr * mr / r <= pr * (MaxMultiplier as real) / r
  {
    var lo, hi := MinMultiplier as real, MaxMultiplier as real;
    NonNegRatio(pr, mr - lo, r);
    NonNegRatio(pr, hi - mr, r);
    assert pr * mr / r - pr * lo / r == pr * (mr - lo) / r;
    assert pr * hi / r - pr * mr / r == pr * (hi - mr) / r;
  }

  /** A product of non-negatives over a positive divisor is non-negative. */
  lemma NonNegRatio(x: real, y: real, r: real)
    requires x >= 0.0 && y >= 0.0 && r > 0.0
    ensures x * y / r >= 0.0
  {
  }

  /** Population 1,000,000 at rate 2.0 gives an estimate in [5e8, 1e9]. */
  lemma GdpExample(m: int)
    requires MinMultiplier <= m <= MaxMultiplier
    ensures var g := EstimateGdp(Some(1000000), Some(2.0), m);
            g.Finite? && 500000000.0 <= g.value <= 1000000000.0
  {
    EstimateInRange(1000000, 2.0, m);
  }

  /** The error Mongoose 5 throws when `estimatedGdp` is NaN. Only the
      message, not the status, depends on the version's wording. */
  const CastError := Error(None, None, Some("Cast to Number failed for value \"NaN\" at path \"estimatedGdp\""))

  /** A null code is looked up under "null", not "undefined", and is stored
      as no code. */
  lemma NullCodeReadsNullRate(e: RawCountry, rates: RateTable, m: int)
    requires HasCurrencies(e) && e.currencies.value[0].code == NullCode
    requires "null" in rates && rates["null"] != 0.0
    ensures RateOf(e, rates) == Some(rates["null"])
    ensures var r := BuildRecord(e, rates, m);
            r.Some? ==> r.value.currencyCode.None? && r.value.exchangeRate == Some(rates["null"])
  {
  }

  /** An entry whose upsert throws: its GDP is NaN. */
  predicate Rejected(e: RawCountry, rates: RateTable) {
    e.population.None? && RateFound(e, rates)
  }

  /** The name an entry is filed under. */
  function EntryKey(e: RawCountry): Key {
    TrimField(e.name)
  }

  /** The per-entry record builder followed by the schema cast; `None` when
      the cast throws `CastError`. */
  function BuildRecord(e: RawCountry, rates: RateTable, m: int): (r: Option<Country>)
    ensures r.None? <==> Rejected(e, rates)
    ensures r.Some? ==> r.value.name == EntryKey(e)
  {
    var rate := RateOf(e, rates);
    match EstimateGdp(e.population, rate, m)
    case NaN => None
    case Finite(g) =>
      Some(Cast(Fields(e.name, e.capital, e.region, e.population, StoredCode(CurrencyCode(e)), rate, Some(g), e.flag)))
  }

  /** What a built record holds. */
  lemma BuildRecordSpec(e: RawCountry, rates: RateTable, m: int)
    requires MinMultiplier <= m <= MaxMultiplier
    ensures var r := BuildRecord(e, rates, m);
      && (r.Some? ==> r.value.capital == TrimField(e.capital))
      && (r.Some? ==> r.value.region == e.region && r.value.population == e.population)
      && (r.Some? ==> r.value.flagUrl == e.flag)
      // no currencies: no code, no rate, GDP 0
      && (r.Some? && !HasCurrencies(e) ==>
            r.value.currencyCode.None? && r.value.exchangeRate.None? && r.value.estimatedGdp == 0.0)
      // otherwise the first currency's code, even when no rate is found for it
      && (r.Some? && HasCurrencies(e) ==> r.value.currencyCode == StoredCode(e.currencies.value[0].code))
      && (r.Some? && !RateFound(e, rates) ==> r.value.exchangeRate.None? && r.value.estimatedGdp == 0.0)
      && (r.Some? && RateFound(e, rates) ==> r.value.exchangeRate == Some(rates[RateKey(CurrencyCode(e))]))
      && (r.Some? && RateFound(e, rates) && rates[RateKey(CurrencyCode(e))] > 0.0 && e.population.value >= 0 ==>
            InGdpRange(e.population.value, rates[RateKey(CurrencyCode(e))], r.value.estimatedGdp))
  {
    var r := BuildRecord(e, rates, m);
    if r.Some? && RateFound(e, rates) && rates[RateKey(CurrencyCode(e))] > 0.0 && e.population.value >= 0 {
      EstimateInRange(e.population.value, rates[RateKey(CurrencyCode(e))], m);
    }
  }

  /** Two multipliers give the same record up to its GDP. */
  lemma BuildIgnoresMultiplier(e: RawCountry, rates: RateTable, m1: int, m2: int)
    ensures BuildRecord(e, rates, m1).Some? == BuildRecord(e, rates, m2).Some?
    ensures BuildRecord(e, rates, m1).Some? ==>
              SameExceptGdp(BuildRecord(e, rates, m1).value, BuildRecord(e, rates, m2).value)
  {
  }

  /** The names the entries are filed under. */
  function InputKeys(entries: seq<RawCountry>): set<Key> {
    set i | 0 <= i < |entries| :: EntryKey(entries[i])
  }

  /** No later entry is filed under the name of `entries[i]`. */
  predicate LastWithName(entries: seq<RawCountry>, i: int)
    requires 0 <= i < |entries|
  {
    forall j | i < j < |entries| :: EntryKey(entries[j]) != EntryKey(entries[i])
  }

  /** None of the first `n` entries throws. */
  predicate NoneRejectedBelow(entries: seq<RawCountry>, rates: RateTable, n: nat)
    requires n <= |entries|
  {
    forall i | 0 <= i < n :: !Rejected(entries[i], rates)
  }

  predicate NoneRejected(entries: seq<RawCountry>, rates: RateTable) {
    NoneRejectedBelow(entries, rates, |entries|)
  }

  /** Well-formed loop inputs: one multiplier per entry, each in range. */
  predicate Inputs(entries: seq<RawCountry>, ms: seq<int>) {
    |ms| == |entries| && ValidMultipliers(ms)
  }

  /** The record each entry's loop iteration builds, or `None` where it
      throws, for the entries from `n` on. */
  function RecordsFrom(entries: seq<RawCountry>, rates: RateTable, ms: seq<int>, n: nat): (rs: seq<Option<Country>>)
    requires Inputs(entries, ms) && n <= |entries|
    ensures |rs| == |entries| - n
    ensures forall i | 0 <= i < |rs| :: rs[i] == BuildRecord(entries[n + i], rates, ms[n + i])
    decreases |entries| - n
  {
    if n == |entries| then [] else [BuildRecord(entries[n], rates, ms[n])] + RecordsFrom(entries, rates, ms, n + 1)
  }

  /** The record each entry's loop iteration builds, or `None` where it
      throws. */
  function Records(entries: seq<RawCountry>, rates: RateTable, ms: seq<int>): (rs: seq<Option<Country>>)
    requires Inputs(entries, ms)
    ensures |rs| == |entries|
    ensures forall i | 0 <= i < |rs| :: rs[i] == BuildRecord(entries[i], rates, ms[i])
  {
    RecordsFrom(entries, rates, ms, 0)
  }

  /** The position of the first entry at or after `n` whose upsert throws, or
      the length. */
  function FirstRejectedFrom(entries: seq<RawCountry>, rates: RateTable, n: nat): (j: nat)
    requires n <= |entries|
    ensures n <= j <= |entries|
    ensures forall i | n <= i < j :: !Rejected(entries[i], rates)
    ensures j < |entries| ==> Rejected(entries[j], rates)
    decreases |entries| - n
  {
    if n == |entries| || Rejected(entries[n], rates) then n
    else FirstRejectedFrom(entries, rates, n + 1)
  }

  /** The position of the first entry whose upsert throws, or the length. */
  function FirstRejected(entries: seq<RawCountry>, rates: RateTable): (j: nat)
    ensures j <= |entries| && NoneRejectedBelow(entries, rates, j)
    ensures j < |entries| ==> Rejected(entries[j], rates)
  {
    FirstRejectedFrom(entries, rates, 0)
  }

  /** The first `n` records all built. */
  predicate SucceedsBelow(rs: seq<Option<Country>>, n: nat)
    requires n <= |rs|
  {
    forall i | 0 <= i < n :: rs[i].Some?
  }

  /** The first `n` built records. */
  function Successes(rs: seq<Option<Country>>, n: nat): (cs: seq<Country>)
    requires n <= |rs| && SucceedsBelow(rs, n)
    ensures |cs| == n
    ensures forall i | 0 <= i < n :: cs[i] == rs[i].value
  {
    if n == 0 then [] else Successes(rs, n - 1) + [rs[n - 1].value]
  }

  /** The position of the first throw at or after `n`, or the length. */
  function FirstFailureFrom(rs: seq<Option<Country>>, n: nat): (j: nat)
    requires n <= |rs|
    ensures n <= j <= |rs|
    ensures forall i | n <= i < j :: rs[i].Some?
    ensures j < |rs| ==> rs[j].None?
    decreases |rs| - n
  {
    if n == |rs| || rs[n].None? then n else FirstFailureFrom(rs, n + 1)
  }

  /** The loop's state: the store so far and whether a throw stopped it. */
  datatype Progress = Progress(store: Store, stopped: bool)

  /** The `for ... of` loop from entry `n` on, with its awaited upserts; a
      throw ends it. */
  function ApplyFrom(s: Store, rs: seq<Option<Country>>, n: nat): (p: Progress)
    requires n <= |rs|
    ensures s.Keys <= p.store.Keys
    decreases |rs| - n
  {
    if n == |rs| then Progress(s, false)
    else
      match rs[n]
      case None => Progress(s, true)
      case Some(c) => ApplyFrom(Upsert(s, c), rs, n + 1)
  }

  /** One more record that builds extends the upserted prefix by one. */
  lemma SuccessesStep(s: Store, rs: seq<Option<Country>>, n: nat)
    requires n < |rs| && SucceedsBelow(rs, n + 1)
    ensures UpsertAll(s, Successes(rs, n + 1)) == Upsert(UpsertAll(s, Successes(rs, n)), rs[n].value)
  {
    assert Successes(rs, n + 1)[..n] == Successes(rs, n);
  }

  /** The loop stops at the end or at the first throw. */
  lemma ApplyFromStops(s: Store, rs: seq<Option<Country>>, n: nat)
    requires n == |rs| || (n < |rs| && rs[n].None?)
    ensures ApplyFrom(s, rs, n) == Progress(s, n < |rs|)
  {
  }

  /** The loop body for a record that builds. */
  lemma ApplyFromStep(s: Store, rs: seq<Option<Country>>, n: nat)
    requires n < |rs| && rs[n].Some?
    ensures ApplyFrom(s, rs, n) == ApplyFrom(Upsert(s, rs[n].value), rs, n + 1)
  {
  }

  /** Started after the first `n` records have been upserted, the loop ends
      having upserted every record before the first throw, and stops early
      exactly when there is one. */
  lemma {:induction false} ApplyFromUpsertsPrefix(s: Store, rs: seq<Option<Country>>, n: nat)
    requires n <= |rs| && SucceedsBelow(rs, n)
    ensures var j := FirstFailureFrom(rs, n);
            var p := ApplyFrom(UpsertAll(s, Successes(rs, n)), rs, n);
            && SucceedsBelow(rs, j)
            && p.store == UpsertAll(s, Successes(rs, j))
            && (p.stopped <==> j < |rs|)
    decreases |rs| - n
  {
    if n < |rs| && rs[n].Some? {
      SuccessesStep(s, rs, n);
      ApplyFromStep(UpsertAll(s, Successes(rs, n)), rs, n);
      ApplyFromUpsertsPrefix(s, rs, n + 1);
      assert FirstFailureFrom(rs, n) == FirstFailureFrom(rs, n + 1);
    } else {
      ApplyFromStops(UpsertAll(s, Successes(rs, n)), rs, n);
    }
  }

  /** An entry throws exactly when its record does not build, so the first
      entry that throws is the first record missing. */
  lemma {:induction false} FirstRejectedIsFirstFailure(entries: seq<RawCountry>, rates: RateTable, ms: seq<int>, n: nat)
    requires Inputs(entries, ms) && n <= |entries|
    ensures FirstRejectedFrom(entries, rates, n) == FirstFailureFrom(Records(entries, rates, ms), n)
    decreases |entries| - n
  {
    if n < |entries| && !Rejected(entries[n], rates) {
      FirstRejectedIsFirstFailure(entries, rates, ms, n + 1);
    }
  }

  /** The records built from the first `n` entries, none of which throws. */
  function Built(entries: seq<RawCountry>, rates: RateTable, ms: seq<int>, n: nat): (cs: seq<Country>)
    requires Inputs(entries, ms) && n <= |entries| && NoneRejectedBelow(entries, rates, n)
    ensures |cs| == n
    ensures forall i | 0 <= i < n :: cs[i] == BuildRecord(entries[i], rates, ms[i]).value
  {
    Successes(Records(entries, rates, ms), n)
  }

  /** Each built record is filed under its entry's name. */
  lemma BuiltNames(entries: seq<RawCountry>, rates: RateTable, ms: seq<int>, n: nat)
    requires Inputs(entries, ms) && n <= |entries| && NoneRejectedBelow(entries, rates, n)
    ensures var cs := Built(entries, rates, ms, n);
            && (forall i | 0 <= i < n :: cs[i].name == EntryKey(entries[i]))
            && Names(cs) == set i | 0 <= i < n :: EntryKey(entries[i])
  {
  }

  /** The whole loop over the entries. */
  function Apply(s: Store, entries: seq<RawCountry>, rates: RateTable, ms: seq<int>): Progress
    requires Inputs(entries, ms)
  {
    ApplyFrom(s, Records(entries, rates, ms), 0)
  }

  /** The loop upserts, in order, every entry before the first one that
      throws, and nothing after it. */
  lemma ApplyUpsertsPrefix(s: Store, entries: seq<RawCountry>, rates: RateTable, ms: seq<int>)
    requires Inputs(entries, ms)
    ensures Apply(s, entries, rates, ms).store == UpsertAll(s, Built(entries, rates, ms, FirstRejected(entries, rates)))
  {
    FirstRejectedIsFirstFailure(entries, rates, ms, 0);
    ApplyFromUpsertsPrefix(s, Records(entries, rates, ms), 0);
  }

  /** The loop stops early exactly when some entry throws. */
  lemma ApplyStopsAtFirstRejected(s: Store, entries: seq<RawCountry>, rates: RateTable, ms: seq<int>)
    requires Inputs(entries, ms)
    ensures Apply(s, entries, rates, ms).stopped <==> FirstRejected(entries, rates) < |entries|
  {
    FirstRejectedIsFirstFailure(entries, rates, ms, 0);
    ApplyFromUpsertsPrefix(s, Records(entries, rates, ms), 0);
  }

  /** What a refresh answers and the store it leaves. */
  datatype Outcome = Outcome(store: Store, reply: Reply)

  const Unavailable := Response(503, ErrorWithDetails("External data source unavailable",
                                                      "Could not fetch data from external APIs"))
  const RefreshedMessage := "Countries data refreshed successfully"

  /** The handler, given what the two fetches returned (`None` for a failed
      fetch) and the multipliers the random source draws. */
  function RefreshCountries(s: Store, countries: Option<seq<RawCountry>>, rates: Option<RateTable>, ms: seq<int>): (o: Outcome)
    requires ValidMultipliers(ms)
    requires countries.Some? ==> |ms| == |countries.value|
    // a missing dataset: 503 and no write
    ensures countries.None? || rates.None? ==> o == Outcome(s, Send(Unavailable))
    // a refresh never deletes
    ensures s.Keys <= o.store.Keys
    ensures countries.Some? && rates.Some? ==>
              (o.reply.Send? <==> NoneRejected(countries.value, rates.value))
    ensures countries.Some? && rates.Some? && o.reply.Send? ==>
              o.reply.response == Response(200, Refreshed(RefreshedMessage, |countries.value|))
    ensures o.reply.NextError? ==> o.reply.error == CastError
    ensures !o.reply.Next?
  {
    if countries.None? || rates.None? then
      Outcome(s, Send(Unavailable))
    else
      var p := Apply(s, countries.value, rates.value, ms);
      ApplyUpsertsPrefix(s, countries.value, rates.value, ms);
      ApplyStopsAtFirstRejected(s, countries.value, rates.value, ms);
      if p.stopped then Outcome(p.store, NextError(CastError))
      else Outcome(p.store, Send(Response(200, Refreshed(RefreshedMessage, |countries.value|))))
  }

  /** A refresh that throws nowhere adds exactly the entries' names. */
  lemma RefreshAddsInputNames(s: Store, entries: seq<RawCountry>, rates: RateTable, ms: seq<int>)
    requires Inputs(entries, ms) && NoneRejected(entries, rates)
    ensures RefreshCountries(s, Some(entries), Some(rates), ms).store.Keys == s.Keys + InputKeys(entries)
  {
    ApplyUpsertsPrefix(s, entries, rates, ms);
    UpsertAllKeys(s, Built(entries, rates, ms, |entries|));
    BuiltNames(entries, rates, ms, |entries|);
  }

  /** A refresh that throws nowhere leaves every record whose name is not
      among the entries' names alone. */
  lemma RefreshKeepsOtherNames(s: Store, entries: seq<RawCountry>, rates: RateTable, ms: seq<int>, k: Key)
    requires Inputs(entries, ms) && NoneRejected(entries, rates)
    requires k in s && k !in InputKeys(entries)
    ensures var o := RefreshCountries(s, Some(entries), Some(rates), ms);
            k in o.store && o.store[k] == s[k]
  {
    ApplyUpsertsPrefix(s, entries, rates, ms);
    BuiltNames(entries, rates, ms, |entries|);
    UpsertAllKeeps(s, Built(entries, rates, ms, |entries|), k);
  }

  /** A loop in which every record builds upserts them all. */
  lemma ApplyAllBuilt(s: Store, rs: seq<Option<Country>>)
    requires SucceedsBelow(rs, |rs|)
    ensures ApplyFrom(s, rs, 0) == Progress(UpsertAll(s, Successes(rs, |rs|)), false)
  {
    ApplyFromUpsertsPrefix(s, rs, 0);
    assert UpsertAll(s, Successes(rs, 0)) == s;
    assert FirstFailureFrom(rs, 0) == |rs|;
  }

  /** A loop in which every record builds leaves the last record of each
      name under that name. */
  lemma ApplyStoresLast(s: Store, rs: seq<Option<Country>>, i: nat)
    requires SucceedsBelow(rs, |rs|) && i < |rs|
    requires forall j | i < j < |rs| :: rs[j].value.name != rs[i].value.name
    ensures var p := ApplyFrom(s, rs, 0);
            rs[i].value.name in p.store && p.store[rs[i].value.name] == rs[i].value
  {
    ApplyAllBuilt(s, rs);
    var cs := Successes(rs, |rs|);
    assert IsLast(cs, i) by {
      forall j | i < j < |cs| ensures cs[j].name != cs[i].name {
        assert cs[j] == rs[j].value && cs[i] == rs[i].value;
      }
    }
    UpsertAllStoresLast(s, cs, i);
  }

  /** A refresh that throws nowhere files under each name the record built
      from the last entry with that name. */
  lemma RefreshStoresLastEntry(s: Store, entries: seq<RawCountry>, rates: RateTable, ms: seq<int>, i: nat)
    requires Inputs(entries, ms) && NoneRejected(entries, rates)
    requires i < |entries| && LastWithName(entries, i)
    ensures var o := RefreshCountries(s, Some(entries), Some(rates), ms);
            EntryKey(entries[i]) in o.store && o.store[EntryKey(entries[i])] == BuildRecord(entries[i], rates, ms[i]).value
  {
    var rs := Records(entries, rates, ms);
    assert SucceedsBelow(rs, |rs|);
    ApplyStoresLast(s, rs, i);
  }

  /** A refresh that throws keeps the writes made before the failing entry
      and none after it. */
  lemma RefreshAbortKeepsPrefix(s: Store, entries: seq<RawCountry>, rates: RateTable, ms: seq<int>)
    requires Inputs(entries, ms) && !NoneRejected(entries, rates)
    ensures var o := RefreshCountries(s, Some(entries), Some(rates), ms);
            var j := FirstRejected(entries, rates);
            && j < |entries| && Rejected(entries[j], rates)
            && NoneRejectedBelow(entries, rates, j)
            && o.reply == NextError(CastError)
            && o.store == UpsertAll(s, Built(entries, rates, ms, j))
  {
    ApplyUpsertsPrefix(s, entries, rates, ms);
  }

  /** Running a refresh again on the same data, whatever multipliers are
      drawn, gives the same answer. */
  lemma RefreshAgainSameReply(s: Store, countries: Option<seq<RawCountry>>, rates: Option<RateTable>,
                              ms1: seq<int>, ms2: seq<int>)
    requires ValidMultipliers(ms1) && ValidMultipliers(ms2)
    requires countries.Some? ==> |ms1| == |countries.value| == |ms2|
    ensures var o1 := RefreshCountries(s, countries, rates, ms1);
            RefreshCountries(o1.store, countries, rates, ms2).reply == o1.reply
  {
  }

  /** Running a refresh again on the same data, whatever multipliers are
      drawn, changes only GDP estimates. */
  lemma RefreshAgainOnlyChangesGdp(s: Store, countries: Option<seq<RawCountry>>, rates: Option<RateTable>,
                                   ms1: seq<int>, ms2: seq<int>)
    requires ValidMultipliers(ms1) && ValidMultipliers(ms2)
    requires countries.Some? ==> |ms1| == |countries.value| == |ms2|
    ensures var o1 := RefreshCountries(s, countries, rates, ms1);
            StoresSameExceptGdp(o1.store, RefreshCountries(o1.store, countries, rates, ms2).store)
  {
    var o1 := RefreshCountries(s, countries, rates, ms1);
    if countries.Some? && rates.Some? {
      var entries, table := countries.value, rates.value;
      ApplyUpsertsPrefix(s, entries, table, ms1);
      ApplyUpsertsPrefix(o1.store, entries, table, ms2);
      var j := FirstRejected(entries, table);
      var cs1, cs2 := Built(entries, table, ms1, j), Built(entries, table, ms2, j);
      forall i | 0 <= i < j ensures SameExceptGdp(cs1[i], cs2[i]) {
        BuildIgnoresMultiplier(entries[i], table, ms1[i], ms2[i]);
      }
      UpsertAllIdempotent(s, cs1);
      UpsertAllSameExceptGdp(o1.store, o1.store, cs1, cs2);
    }
  }

  /** An aborted refresh reaches the error middleware, which answers 500
      with Mongoose's cast message. */
  lemma AbortedRefreshAnswers500()
    ensures HandleError(CastError) == Response(500, ErrorOnly(CastError.message.value))
  {
  }
}
