# country-currency-api, modelled in Dafny

This project models the core of the country-currency-api service, an Express and Mongoose service. The service:

- fetches the list of countries and a USD exchange-rate table;
- upserts one `Country` document per country, with an estimated GDP;
- serves the collection back: filtered and sorted listings, case-insensitive lookup and delete.

The model covers:

- the `refreshCountries` merge loop;
- the `getAllCountries`, `getCountryByName` and `deleteCountry` handlers;
- the `Country` schema (trimming, defaults, required paths, the unique index on `name`);
- the `validateCountry` middleware;
- the error middleware.

Modules, one per component:

- `Wrappers`: `Option`.
- `Text`: JavaScript `trim`, ASCII case-insensitive equality, and MongoDB's binary string order.
- `CountryModel`: the schema and the collection. The collection is a map from the exact trimmed name to the document. Its keys are `Option<string>` because an entry without a name is not skipped.
- `Http`: response bodies, replies and JavaScript truthiness.
- `ErrorHandler`, `Validation`: the two middlewares.
- `Refresh`: the record builder and the upsert loop.
- `Sorting`: sort keys, MongoDB's orders and an insertion sort.
- `Queries`: listing, lookup and delete.

Inputs from outside the service are parameters:

- The two fetches are `Option` values, where `None` is a failed request.
- `Math.random` becomes a sequence of multipliers, one per entry, each in [1000, 2000].
- The MongoDB collection is the `Store` value a handler receives. A handler that writes returns the new store.

The Mongoose behaviour modelled is that of Mongoose 5, since the code pins no version. An update field whose value is undefined is sent and stored as null, and the cast error has Mongoose 5's wording. Mongoose 6 and later drop undefined update fields and word the cast error differently; neither is modelled.

Lookup and delete may pick any of several matching documents, and the order in which MongoDB scans the collection is open. So the listing, lookup and delete are methods that choose with `:|`. Their contracts hold for every choice.

In these places the code may surprise a reader; the model follows the code:

- GDP is 0 (not null) when no rate is found.
- Entries with a missing name or population are not skipped.
- The upsert matches the exact (case-sensitive) trimmed name.
- No refresh timestamp is written and no summary image is produced.
- The two fetches run one after the other.

A few runtime behaviours are modelled as follows:

- **Missing population.** When an entry has no population but a truthy rate, `population * m / rate` is `NaN`. Mongoose's Number cast rejects it, so the loop stops at that entry. The earlier upserts stay in place. The error goes to `next(err)`, and the error middleware answers 500 with the cast message.
- **Missing or null currency code.** JavaScript turns the property key into a string. A missing code is therefore looked up under `"undefined"` and a null code under `"null"`. Both are stored as no code.
- **Falsy rate.** Only a rate of 0 counts as falsy, since JSON cannot carry `NaN`.

## Model

| member | source | states |
|---|---|---|
| Refresh.RefreshCountries | controllers/countriesController.js:6-65 | a missing dataset answers 503 with the fixed body and writes nothing; a refresh never removes a document; it answers 200 with `total_countries` equal to the input length exactly when no entry's cast throws, otherwise passes the cast error to `next` and never calls plain `next()` |
| Refresh.BuildRecordSpec | controllers/countriesController.js:20-50 | the record built for an entry: trimmed capital, region/population/flag passed through; no currencies gives null code, null rate and GDP 0; otherwise the first currency's code; no truthy rate gives null rate and GDP 0 while the code stays; a found rate is stored; with a positive rate and a non-negative population the GDP lies in [population·1000/rate, population·2000/rate] |
| Refresh.BuildRecord | controllers/countriesController.js:21-52 | the entry's upsert throws exactly when the population is missing and a truthy rate is found; a built record is filed under the entry's trimmed name |
| Refresh.RateOf | controllers/countriesController.js:28-30 | a rate is taken exactly when the entry has currencies and the rate table holds a non-zero rate under the first code's property name; a taken rate is never 0 |
| Refresh.NullCodeReadsNullRate | controllers/countriesController.js:29-30 | a null first code reads the rate stored under "null", and the record stores no code but that rate |
| Refresh.EstimateGdp | controllers/countriesController.js:24-35 | without a truthy rate the estimate is 0; it is NaN exactly when a truthy rate meets a missing population |
| Refresh.EstimateInRange | controllers/countriesController.js:32-34 | for population ≥ 0, rate > 0 and a multiplier in [1000, 2000] the estimate is finite and within the multiplier range's bounds |
| Refresh.GdpExample | controllers/countriesController.js:32-34 | population 1,000,000 at rate 2.0 gives an estimate in [5e8, 1e9] for every multiplier |
| Refresh.BuildIgnoresMultiplier | controllers/countriesController.js:33-34 | two multipliers give records that differ at most in `estimatedGdp` |
| Refresh.ApplyFrom | controllers/countriesController.js:20-53 | the loop, resumed at any entry, never removes a stored name |
| Refresh.ApplyUpsertsPrefix | controllers/countriesController.js:20-53 | the loop's collection is the upsert, in input order, of every entry before the first one that throws, and of nothing after it |
| Refresh.ApplyStopsAtFirstRejected | controllers/countriesController.js:20-53 | the loop stops early exactly when some entry throws |
| Refresh.ApplyFromUpsertsPrefix | controllers/countriesController.js:20-53 | induction step of the loop: resumed after n upserts, it ends with the upserts of every record before the first throw |
| Refresh.FirstRejectedIsFirstFailure | controllers/countriesController.js:20-36 | the first entry that throws is the first entry whose record fails to build |
| Refresh.RefreshAddsInputNames | controllers/countriesController.js:20-53 | after a refresh with no throw the stored names are exactly the old names plus the input names |
| Refresh.RefreshKeepsOtherNames | controllers/countriesController.js:20-53 | after a refresh with no throw every document whose name is not an input name is still stored unchanged |
| Refresh.RefreshStoresLastEntry | controllers/countriesController.js:39-52 | after a refresh with no throw, each input name holds the record built from the last entry with that exact name |
| Refresh.RefreshAbortKeepsPrefix | controllers/countriesController.js:19-63 | a refresh that throws at entry j answers `next(CastError)` and leaves exactly the upserts of entries 0..j-1 |
| Refresh.RefreshAgainSameReply | controllers/countriesController.js:6-65 | re-running a refresh on the same data, whatever multipliers are drawn, gives the same reply |
| Refresh.RefreshAgainOnlyChangesGdp | controllers/countriesController.js:20-52 | re-running a refresh on the same data, whatever multipliers are drawn, changes only GDP estimates |
| Refresh.AbortedRefreshAnswers500 | controllers/countriesController.js:59-64 | an aborted refresh reaches the error middleware, which answers 500 with Mongoose's cast message |
| CountryModel.Upsert | controllers/countriesController.js:39-52 | one upsert adds the record's name, files the record under it, and leaves every other document as it was |
| CountryModel.UpsertAllKeys | controllers/countriesController.js:39-52 | upserting a sequence of records adds exactly their names and removes none |
| CountryModel.UpsertAllKeeps | controllers/countriesController.js:39-52 | upserting a sequence of records leaves every document whose name is not among them unchanged |
| CountryModel.UpsertAllStoresLast | controllers/countriesController.js:39-51 | the last record carrying a name is the one stored under it |
| CountryModel.UpsertAllIdempotent | controllers/countriesController.js:39-51 | upserting the same records twice is upserting them once |
| CountryModel.UpsertAllSameExceptGdp | controllers/countriesController.js:39-51 | upserting records that differ only in GDP into collections that differ only in GDP gives collections that differ only in GDP |
| CountryModel.AtMostOnePerName | models/Country.js:5-10 | the unique index: two stored documents with the same name are the same document |
| CountryModel.CastSpec | models/Country.js:3-38 | casting stores `name` and `capital` trimmed (the trim of the given value, nothing else removed), defaults `exchangeRate` to null and `estimatedGdp` to 0, and passes every other path through |
| CountryModel.CastIdempotent | models/Country.js:5-14 | saving a stored document again changes nothing |
| CountryModel.MissingRequired | models/Country.js:5-22 | the required validator fails for `name` exactly when it is missing or empty and for `population` exactly when it is missing |
| CountryModel.MissingNameIffBlank | models/Country.js:5-10 | after the trim setter, `required` fails on `name` exactly when the given name is missing or consists only of whitespace and line terminators |
| Text.TrimEmptyIffBlank | models/Country.js:9 | `trim` yields the empty string exactly when every character is whitespace or a line terminator |
| Text.TrimSpec | models/Country.js:9 | `trim` removes exactly the whitespace runs at both ends and leaves a string with no whitespace at either end |
| Text.TrimIdempotent | models/Country.js:9-13 | trimming twice is trimming once |
| Text.TrimStartSpec | models/Country.js:9 | the left half of `trim` keeps a suffix and drops only whitespace, up to the first character it must keep |
| Text.TrimEndSpec | models/Country.js:9 | the right half of `trim` keeps a prefix and drops only whitespace, back to the last character it must keep |
| Queries.ListCountries | controllers/countriesController.js:68-101 | 200 with a listing that contains a record exactly when it is stored and matches every supplied (truthy) filter, holds each such record once, and is ordered by the requested key (name ascending for a missing or unknown `sort`) |
| Queries.CollectMatching | controllers/countriesController.js:70-81 | the scan of `Country.find(query)` returns each stored record that matches the filters, once |
| Queries.GetCountryByName | controllers/countriesController.js:104-117 | 404 exactly when no stored name equals the parameter ignoring case; otherwise 200 with a stored record whose name matches |
| Queries.DeleteCountry | controllers/countriesController.js:120-133 | with no match: 404 and the collection unchanged; otherwise 200 with the fixed message, exactly one matching document removed, and every other document unchanged |
| Queries.MatchingAfterUpsert | controllers/countriesController.js:104-107 | an upsert changes the lookup's matches by at most the upserted name |
| Queries.MatchingAfterRemove | controllers/countriesController.js:120-123 | removing a document removes only its name from the lookup's matches |
| Queries.LookupCanBeAmbiguous | controllers/countriesController.js:39-40 | the case-sensitive upsert can store "France" and "FRANCE" side by side, and both match a lookup for "france" |
| Sorting.SortBySpec | controllers/countriesController.js:83-96 | the sort returns a permutation of its input ordered by the key |
| Sorting.InsertSorted | controllers/countriesController.js:83-96 | inserting into a sorted listing keeps it sorted |
| Sorting.InsertPermutes | controllers/countriesController.js:83-96 | inserting adds exactly the one record |
| Sorting.ParseSort | controllers/countriesController.js:84-94 | the four recognised `sort` values select their keys, and every other value (or none) selects ascending name |
| Sorting.PrecedesTotal | controllers/countriesController.js:84-94 | every sort key orders every pair of records one way or the other, missing values first in ascending order |
| Sorting.PrecedesTransitive | controllers/countriesController.js:84-94 | every sort key's order is transitive |
| Text.StrLeTotal | controllers/countriesController.js:93 | the binary string order is total |
| Text.StrLeTransitive | controllers/countriesController.js:93 | the binary string order is transitive |
| Validation.RequiredErrors | middleware/validation.js:3-7 | the error map has exactly one "is required" entry for each falsy field among `name`, `population` and `currency_code`, and nothing else |
| Validation.ValidateCountry | middleware/validation.js:1-17 | `next()` exactly when all three fields are truthy; otherwise 400 with "Validation failed" and that error map; never `next(err)` |
| Validation.ZeroPopulationRejected | middleware/validation.js:6 | a population of 0 is reported as missing |
| ErrorHandler.HandleError | middleware/errorHandler.js:1-14 | `ER_DUP_ENTRY` answers 400 with the duplicate-name body whatever status the error carries; otherwise the status is the error's truthy status or 500 and the body's error is its truthy message or "Internal server error" |
| ErrorHandler.NoOtherMessage | middleware/errorHandler.js:11-13 | a non-duplicate error's body carries only its own message or the generic text |

## Left out

- Network and process: the axios calls in utils/apis.js, server start-up, the MongoDB connection and the Express routing. The fetch results are `Option` inputs, and no route is modelled.
- Image generation: utils/imageGenerator.js and `getSummaryImage`, which is canvas and file-system work; the refresh does not call it.
- Console logging in the error middleware.
- `timestamps: true`: the `createdAt` and `updatedAt` paths Mongoose adds.
- Validators on upsert. `findOneAndUpdate` runs no validators by default, so the refresh does not apply `MissingRequired`. Such a document is stored as given.
- Nameless entries. All entries without a name share one slot in the collection (key `None`). How the driver treats an undefined filter value is not modelled further.
- The trim setter is taken to apply to the upsert's filter as well as to the update, so the key is the trimmed name.
- Regular expressions: the lookup and delete parameter is treated as a plain name. Metacharacters in it are not interpreted. Case folding is ASCII only.
- Floating point: GDP arithmetic uses exact reals. IEEE-754 rounding and overflow are not modelled.
- Malformed payloads are not modelled:
  - a country list that is not an array;
  - a rates object that is missing its `rates` field;
  - null entries in `currencies`;
  - rate-table keys that are inherited object properties;
  - a JSON null population, which counts as missing here (JavaScript would compute 0 from it).
- Express query strings that are arrays, and an error `status` that is not a valid HTTP code.
- Wiring: server.js:14 is an empty `// Routes` comment. So server.js mounts no router, and as shipped no handler is reachable. routes/countries.js:4 imports `validateCountry` but attaches it to no route. The 500 answer for an aborted refresh (the "Missing population" note and `Refresh.AbortedRefreshAnswers500`) assumes the router is mounted before the error middleware (server.js:17).
- Concurrency: each handler is modelled as running alone against the collection. A refresh awaits each upsert in turn, and other requests can run between them, for example a delete or a second refresh. Those interleavings are not modelled. The refresh contracts ("never removes a document", `RefreshKeepsOtherNames`, `RefreshStoresLastEntry`) describe only the refresh's own writes.
- Tie order in sorted listings, and which of several case-variant matches lookup or delete picks. Both are left open: every choice satisfies the contracts.
