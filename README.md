# Country refresh service — a verified model

This project models the core of a small Go REST service that caches country data.
`RefreshCountries` fetches every country and a currency→rate table, then runs one database
transaction over the batch. For each country it derives the stored currency code,
exchange rate and estimated GDP, and looks the country up by lower-cased name. A country
with no row is validated and inserted; a country with a row updates it without
validation. The first error rolls the whole batch back. Around this pass sit:

- the repository queries over the `countries` table: lookup, listing, delete, stats and top-N by GDP;
- the GDP estimate `population × random factor / rate`;
- the HTTP layer's `handleError`, which picks a status by searching the error message.

Modules, one per file:

- `Text`: `strings.ToLower`, `strings.TrimSpace`, `strings.Contains`, and the string order a name sort uses.
- `Models` and `Clients`: the row, the error values and the fetched shapes.
- `Currency`: the estimate. The random draw `rng.Intn(1001)` is a parameter.
- `Ordering`: the three `ORDER BY` clauses and a sort proved to return a sorted permutation.
- `Repository`: the read-only queries as functions over the rows in storage order. `CountryStore` is a class whose methods change its rows and its auto-increment counter.
- `Services`: the pass in two forms.
  - On values: `Step` handles one country; `Run` folds it over the batch; `RefreshPass` is the whole pass.
  - Imperative: `RefreshCountries` loops over a `CountryStore`. Its loop invariant ties the store to `Run`, and on error it rolls back to a snapshot.
- `RefreshProps`: what the pass guarantees.
- `Handlers`: `handleError` and the handlers. A handler returns the sequence of `(status, body)` writes it makes.
- `Scenarios`: concrete inputs.

An update does not clear derived columns. The pass updates an existing row through GORM's
struct `Updates` (services/services.go:132), which skips zero-valued fields: nil pointers,
`""` and `0`. `ApplyUpdates` models that merge. `UnresolvedRateKeepsStaleValues` proves
that the old rate and estimate survive when the new rate is unknown. The same merge keeps
the old population when the new one is 0.

`LastRefreshedAt` is tagged `autoUpdateTime` (models/country.go:16). An insert keeps the
pass's `now`, which the record carries. An update writes GORM's own clock reading at the
moment of the update instead. The model gives that instant as `now` plus a per-country
lag, so an updated row's stamp is never earlier than the pass's start.

A second refresh with unchanged data changes no column but `LastRefreshedAt`, provided
the random draws repeat. `SecondPassChangesOnlyStamps` proves this. Each call of
`ComputeEstimatedGDP` draws `rng.Intn(1001)` afresh (utils/currency.go:11-13), so in the
program a second pass normally stores a new `estimatedGdp` for every country with a known
rate. `RedrawChangesEstimate` shows one such change.

The rows are held in primary-key order. That is the order in which GORM's `First` picks
the first match of a lookup.

## Model

| member | source | states |
|---|---|---|
| Currency.Multiplier | utils/currency.go:13 | the factor `rng.Intn(1001) + 1000` lies in [1000, 2000] |
| Currency.EstimateBounds | utils/currency.go:10-18 | the estimate times the rate is population × factor; population 0 gives 0; a positive population gives a positive estimate; for population ≥ 0 the estimate lies between `pop*1000/rate` and `pop*2000/rate` |
| Currency.AdditiveInPopulation | utils/currency.go:15 | for a fixed factor and rate the estimate is additive in the population |
| Currency.ScalesWithPopulation | utils/currency.go:15 | for a fixed factor and rate, k times the population gives k times the estimate |
| Currency.InverseInRate | utils/currency.go:15 | multiplying the rate by k divides the estimate by k |
| Text.BlankIffAllSpace | services/services.go:107 | `strings.TrimSpace(s) == ""` holds exactly when every character of `s` is Go white space |
| Text.TrimLeftSuffix | services/services.go:107 | trimming the left leaves a suffix that starts with a non-space, and drops only white space |
| Text.TrimRightPrefix | services/services.go:107 | trimming the right leaves a prefix that ends with a non-space, and drops only white space |
| Text.ToLowerIdempotent | repository/country.go:41 | lower-casing an already lower-cased name changes nothing, so `LOWER(name) = lower(arg)` compares like with like |
| Ordering.OrderFor | repository/country.go:68-75 | "gdp_desc" selects GDP descending, "gdp_asc" GDP ascending, and every other value, the empty one included, name ascending |
| Ordering.SortRowsCorrect | repository/country.go:68-80 | the sort returns a permutation of its input, sorted under the chosen order |
| Ordering.InsertInOrderCorrect | repository/country.go:68-80 | inserting into a sorted sequence keeps it sorted and adds exactly that row |
| Repository.FindByLowerName | repository/country.go:41 | the lookup finds nothing exactly when no row's lower-cased name is the key; what it finds is a row of the table with that lower-cased name |
| Repository.FirstMatch | repository/country.go:41 | the row found is the first match in storage order |
| Repository.GetCountryByName | repository/country.go:39-45 | a found row is in the table and matches the name ignoring case; a failed query returns the database's error; otherwise the record-not-found error occurs exactly when no row matches |
| Repository.GetCountryByNameFirst | repository/country.go:39-45 | the returned row precedes every other match |
| Repository.GetCountryByNameLowestId | repository/country.go:41 | in a valid table the returned row has the lowest id of all matching rows, the row `First` picks by primary key |
| Repository.Keep | repository/country.go:95 | a filter keeps each passing row with its multiplicity and drops every other row; a filter every row passes keeps the table as it is |
| Repository.KeepPreservesValid | repository/country.go:94-99 | deleting rows keeps the ids increasing along the rows and below the counter |
| Repository.GetAllCountriesWithFilters | repository/country.go:55-81 | the listing is a permutation of the rows that pass the filters, sorted under the order the `sort` argument selects; a filter applies only when its argument is not blank, and then compares ignoring case, as the table's collation does; a NULL currency code matches no currency filter |
| Repository.MaxRefreshed | repository/country.go:112-114 | `MAX(last_refreshed_at)` is NULL exactly on an empty table; otherwise it is some row's instant and no row's instant exceeds it |
| Repository.GetStats | repository/country.go:101-129 | the count is the number of rows; the timestamp is "" exactly when the table is empty, and otherwise the formatted latest refresh instant |
| Repository.GetTopCountriesByGdp | repository/country.go:131-140 | at most `limit` rows, all with a GDP, in non-increasing GDP order, each taken from the table; no omitted row with a GDP is higher than the last one returned; with fewer than `limit` rows returned, none is omitted |
| Repository.TopPrefix | repository/country.go:131-140 | the same facts for the sorted and cut rows |
| Repository.SortedPrefix | repository/country.go:133-135 | a prefix of the sorted rows with a GDP is sorted, holds only rows with a GDP and takes nothing the table lacks; no omitted row is higher than its last row |
| Repository.CountryStore.constructor | initializer/connectDB.go:26 | a freshly migrated table: empty, with the auto-increment counter at 1 |
| Repository.CountryStore.CreateNewCountry | repository/country.go:32-37 | the table grows by exactly one row, the given country under the next id, which is returned; a database error is returned and changes nothing |
| Repository.CountryStore.Updates | services/services.go:132 | the row with the id gets the GORM merge, stamped with the instant of the update; the number of rows affected is 1 when the id exists and 0 otherwise |
| Repository.CountryStore.UpdateCountry | repository/country.go:83-92 | a database error is returned and changes nothing; an id with no row yields record-not-found and changes nothing; otherwise the row with that id is merged |
| Repository.CountryStore.DeleteCountryByName | repository/country.go:94-99 | every row whose lower-cased name is the lower-cased argument is removed and all others are kept in order; no error when nothing matched; on a database error nothing changes |
| Repository.CountryStore.Rollback | services/services.go:57 | a rolled-back transaction leaves the table exactly as the snapshot taken before it |
| Services.DerivationCases | services/services.go:66-89 | no currency gives no code, no rate and a GDP of exactly 0; otherwise the first currency's code is kept; a positive known rate is stored with the estimate computed from it; an unknown or non-positive rate leaves both rate and GDP absent |
| Services.ValidationKeys | services/services.go:104-116 | the details have key "name" exactly for a blank name, "population" exactly for a negative one, and "currency_code" exactly for a country with currencies whose code is absent or blank; there are no other keys, and the messages are the source's |
| Services.FailureIsFinal | services/services.go:117-134 | once a country fails, the countries after it are not processed and the pass's error is that failure |
| Services.FoldInduction | services/services.go:60-135 | a property kept by every successful step holds after every prefix of a successful run |
| Services.FoldSucceeds | services/services.go:60-135 | a property under which every step succeeds and that every step keeps makes the whole run succeed with it |
| Services.RefreshPass | services/services.go:46-158 | a failed country fetch or rate fetch returns its message and leaves the table untouched; a failed pass leaves the table exactly as before; a committed pass returns "Successfully refreshed countries" |
| Services.UpsertOne | services/services.go:61-134 | one iteration on the store: the new state, or the error, is what `Step` gives for the state before it |
| Services.RefreshCountries | services/services.go:46-158 | the store and the result are exactly `RefreshPass` of the store before the call; after a commit the summary is the row count and the top five rows by GDP |
| Services.UpdateInstant | models/country.go:16 | the instant an update stamps into `LastRefreshedAt` is no earlier than the pass's start |
| Services.GetCountryByName | services/services.go:174-198 | the lookup lower-cases the name; a found row matches the name ignoring case; any repository error becomes "Country not found", which happens exactly when the query fails or no row matches |
| Services.DeleteCountryByName | services/services.go:200-210 | a successful delete removes exactly the rows matching the name ignoring case; any repository error becomes "Failed to delete country" and changes nothing |
| RefreshProps.StepOk | services/services.go:104-134 | a successful step appends the record under the next id when the name is new, and otherwise merges the record into the row that has the name, in place |
| RefreshProps.StepFacts | services/services.go:61-134 | a successful step keeps the table valid and its lower-cased names unique; it leaves the country refreshed no earlier than the pass's start and keeps every earlier such refresh and every name; rows keep their positions and ids; rows of other names are untouched; a row is added only for a new name |
| RefreshProps.ExistingRowNotValidated | services/services.go:104-134 | a country whose lower-cased name has a row is never validated; barring a database error it succeeds and adds no row |
| RefreshProps.NewRowValidated | services/services.go:104-122 | a new country fails with the "Validation failed" error carrying exactly its failing fields if and only if some field fails |
| RefreshProps.RunFacts | services/services.go:57-142 | after a successful run the table is valid with unique lower-cased names, even when the batch repeats a name in another case; every batch country is refreshed no earlier than the pass's start; rows whose name is not in the batch are unchanged; at most one row is added per country |
| RefreshProps.FirstErrorWins | services/services.go:117-142 | once a prefix of the batch fails, the pass returns that error and the original table, whatever countries follow |
| RefreshProps.RunOverKnownNames | services/services.go:104-134 | a run over countries whose names all have rows adds no row |
| RefreshProps.SecondPassAddsNoRows | services/services.go:46-158 | refreshing again with the same countries adds no row |
| RefreshProps.MergeTwice | services/services.go:132 | merging the same record into a row a second time changes nothing but the stamp |
| RefreshProps.SecondPassChangesOnlyStamps | services/services.go:46-158 | with the same countries, rates and draws and no database error, a second pass after a committed one commits, keeps the row count and id counter, and changes no column of any row but `LastRefreshedAt`; stated for batches with distinct lower-cased names |
| RefreshProps.CommittedPass | services/services.go:46-158 | a committed pass leaves at most one row per lower-cased name and every fetched country refreshed no earlier than the pass's start |
| RefreshProps.UpdateOneRow | repository/country.go:84 | with distinct ids, an update by a row's id rewrites that row and nothing else |
| Handlers.HandleError | handlers/handlers.go:105-138 | the cascade: 400 "Validation failed" exactly when the message contains "Validation failed", with details only for a validation error; otherwise 503 "External data source unavailable" with the message as details when it contains "failed to fetch"; otherwise a 404 "Country not found" without details followed by the 500 write when it contains "Country not found"; otherwise the 500 write alone; the error is returned only for 400 and 503 |
| Handlers.ValidationIsBadRequest | handlers/handlers.go:108-114 | the pass's validation error becomes a 400 carrying exactly its field map |
| Handlers.FetchFailuresMentionFetch | services/services.go:47-55 | both fetch failures' messages contain "failed to fetch" |
| Handlers.FetchFailureIsUnavailable | handlers/handlers.go:122-127 | both fetch failures become a 503 whose details are the failure's message |
| Handlers.NotFoundWritesTwice | handlers/handlers.go:130-137 | "Country not found" writes a 404, which is the status sent, then the 500 body, and returns nil |
| Handlers.DeleteFailureIsInternal | handlers/handlers.go:136-137 | "Failed to delete country" becomes a single 500 with the message as details |
| Handlers.GetCountryByNameStatus | handlers/handlers.go:52-70 | an empty name gives exactly one write, 400 "No param passed"; a name matching a row ignoring case gives 200 with that row unless the query fails; otherwise 404 |
| Handlers.DeleteCountry | handlers/handlers.go:86-103 | an empty name gives 400 and deletes nothing; a failed delete gives 500 and changes nothing; otherwise the matching rows are gone and the answer is an empty 204 |
| Handlers.RefreshCountries | handlers/handlers.go:31-40 | a committed pass answers 200 with the status message; a failed pass answers what `handleError` writes for its error, and a failed fetch answers 503 |
| Scenarios.WakandaRejected | services/services.go:104-122 | a new "Wakanda" with population -5 aborts the pass with details {"population": "must be non-negative"} alone, leaves the table unchanged, and is answered with a 400 carrying that detail |
| Scenarios.TestlandEstimate | services/services.go:77-83 | population 1000, rate 2.0 and the smallest draw give code "TST", rate 2.0 and GDP 500000.0 |
| Scenarios.RedrawChangesEstimate | utils/currency.go:11-15 | the same country at rate 2.0 is estimated at 500000.0 with the smallest draw and 1000000.0 with the largest, so a new draw changes the stored estimate |
| Scenarios.UnresolvedRateKeepsStaleValues | services/services.go:84-88 | updating a row with an unresolvable rate writes the new code and the instant of the update but keeps the old rate and estimate |
| Scenarios.StaleRateExample | services/services.go:132 | a row at rate 1.5 whose new currency is unknown keeps 1.5 |
| Scenarios.RegionFilterIgnoresCase | repository/country.go:60-62 | a row stored in region "Africa" is listed for the argument "africa", and a row in "Europe" is not |
| Scenarios.SameNameTwice | services/services.go:61-64 | "France" then "FRANCE" into an empty table commit one row |

## Left out

- The HTTP clients (clients/clients.go) are not part of this model. Their results are parameters: `Option<seq<RawCountry>>` and `Option<map<string, real>>`.
- The summary image (utils/image.go) is not part of this model. Its failure is discarded by the source. The pass returns the figures it would render (`Summary`) instead.
- Startup, configuration, database connection, migration and routing are not part of this model.
- SQL execution, MySQL isolation and concurrent passes are out. The table is an in-memory row sequence, and the transaction is a snapshot restored on error.
- `time.Now()` is a parameter `now`. RFC 3339 formatting is a parameter `format` that never returns "".
- GORM's clock at each update is `now` plus a parameter `lag`. A wall clock set back during the pass, which could stamp an update earlier than `now`, is not modelled.
- The draw `rng.Intn(1001)` is a parameter `rng: nat -> Draw`, indexed by batch position.
- Database errors are parameters. `faults` maps a batch position to a failing lookup or a failing write. `dbFault` is a failing lookup, insert, update or delete.
- The database errors of the listing, the top-N query and the two stats queries (repository/country.go:77-79, 104-106, 115-117, 136-138) are not modelled. Those queries always succeed in the model, so the partial `(count, "", err)` result of a failed `MAX` query is absent too.
- A failure to begin or to commit the pass's transaction (services/services.go:57) is not modelled. The pass's own errors do roll it back.
- Currency.ComputeEstimatedGdp: requires a positive rate. Its only caller checks `r > 0` first (services/services.go:79).
- Floating point is out: rates and GDP are `real`, so rounding and overflow of `float64` are not modelled.
- Integer widths are out. Population is an unbounded `int`, and the 64-bit width of `int64` and `uint` ids is not modelled. The fetched population is `float64` in clients/clients.go but `int64` in the record; the model uses `int` for both.
- Text.ToLower: lower-cases only ASCII letters. Go's Unicode `strings.ToLower` and MySQL's `LOWER` and collation are both modelled by this one function.
- Text.LexLe: orders names by character code. MySQL's default collation is case-insensitive; the name order compares lower-cased names by code point, not by collation weight.
- RefreshProps.SecondPassChangesOnlyStamps: proved only for batches whose lower-cased names are distinct. With a repeated name the last non-empty value of each field wins in both passes, but the model does not prove it.
- Ordering.SortRows: ties keep no particular order, as SQL's `ORDER BY` guarantees none; the model's insertion sort fixes one.
- Repository.GetTopCountriesByGdp: a negative limit means no limit, as GORM's `Limit(-1)` cancels the limit. Only the caller's 5 is exercised.
- The `CreatedAt` and `UpdatedAt` columns are managed by GORM and are not modelled.
- Repository.CountryStore.CreateNewCountry: GORM fills a zero `LastRefreshedAt` with its clock on insert. The model stores the record's instant as given; every insert in the core carries a non-zero `now`.
- Rollback restores the auto-increment counter. MySQL does not restore it, so ids after a failed pass may skip values in the source.
- `CreateNewCountry` ignores any id already in the given record; the pass never sets one.
- The repository's `GetAllCountries` and the service's `GetStats` and `GetAllCountries` only forward to modelled queries.
- The handlers `GetStatistics` and `GetAllCountries` only forward to modelled queries; the DTO conversion of listing rows is not modelled.
- The response DTO of `GetCountryByName`, with its timestamp formatted as RFC 3339, is modelled as the row itself.
