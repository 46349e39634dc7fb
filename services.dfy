/**
 * The refresh pass of services/services.go and the service's name-keyed wrappers.
 *
 * A pass joins the fetched countries with the fetched rate table, derives each country's
 * currency code, exchange rate and estimated GDP, and upserts the countries one by one in
 * a single transaction: a country whose lower-cased name has no row is validated and
 * inserted; one that has a row updates it without validation. The first error rolls the
 * whole batch back. `Step` and `Run` specify the pass on table values; the method
 * `RefreshCountries` performs it on a `CountryStore` and is proved to agree with them.
 */
module Services {
  import opened Wrappers
  import opened Text
  import opened Models
  import opened Clients
  import opened Currency
  import opened Repository

  /** The prefix both fetch failures' messages share, which the HTTP layer searches for. */
  const FetchFailed: string := "failed to fetch"
  const FetchCountriesFailed: string := FetchFailed + " country data from external API"
  const FetchRatesFailed: string := FetchFailed + " exchange rates from external API"
  const ValidationFailed: string := "Validation failed"
  const RefreshSucceeded: string := "Successfully refreshed countries"
  const CountryNotFound: string := "Country not found"
  const DeleteFailed: string := "Failed to delete country"

  /** A database error at one country of the batch: its name lookup fails, or its insert
      or update does. The database's message is the error's message. */
  datatype Fault = FindFault(message: string) | WriteFault(message: string)

  /** What a pass works with besides the batch: the fetched rate table, the instant the
      transaction started, the draw `rng.Intn(1001)` yields for the k-th country, how long
      after the start the k-th country's update runs, and the database errors, by batch
      position. */
  datatype PassEnv = PassEnv(rates: map<string, real>, now: int, rng: nat -> Draw, lag: nat -> nat,
                             faults: map<nat, Fault>)

  /** The instant GORM's clock reads when the k-th country's update runs: the update stamps
      `LastRefreshedAt` itself, no earlier than the start of the pass. */
  function UpdateInstant(env: PassEnv, k: nat): (at: int)
    ensures at >= env.now
  {
    env.now + env.lag(k)
  }

  /** The rate table resolves `code`: it has the code with a positive rate. */
  predicate RateKnown(rates: map<string, real>, code: string) {
    code in rates && rates[code] > 0.0
  }

  /** The three derived columns of a country. */
  datatype Derived = Derived(currencyCode: Option<string>, exchangeRate: Option<real>, estimatedGdp: Option<real>)

  /** The derivation block of the pass: the currency code, exchange rate and estimated
      GDP stored for a fetched country. */
  function Derive(c: RawCountry, rates: map<string, real>, d: Draw): (v: Derived) {
    if |c.currencies| == 0 then
      Derived(None, None, Some(0.0))
    else
      var code := c.currencies[0].code;
      if RateKnown(rates, code) then
        Derived(Some(code), Some(rates[code]), Some(ComputeEstimatedGdp(c.population, rates[code], d)))
      else
        Derived(Some(code), None, None)
  }

  /** The three cases of the derivation. No currency: no code, no rate, GDP exactly 0.
      Otherwise the first currency's code is kept; a resolvable rate is stored with the GDP
      computed from it, and an unresolvable one leaves both rate and GDP absent (not 0). */
  lemma DerivationCases(c: RawCountry, rates: map<string, real>, d: Draw)
    ensures var v := Derive(c, rates, d);
      && (|c.currencies| == 0 ==> v == Derived(None, None, Some(0.0)))
      && (|c.currencies| > 0 ==> v.currencyCode == Some(c.currencies[0].code))
      && (v.exchangeRate.Some? <==> |c.currencies| > 0 && RateKnown(rates, c.currencies[0].code))
      && (v.exchangeRate.Some? ==> v.exchangeRate.value == rates[c.currencies[0].code]
                                   && v.estimatedGdp == Some(ComputeEstimatedGdp(c.population, v.exchangeRate.value, d)))
      && (v.estimatedGdp.None? <==> |c.currencies| > 0 && v.exchangeRate.None?)
  {
  }

  /** The record the pass inserts or applies: the country's own columns, the derived ones
      and the pass's timestamp, which an update replaces with the instant it runs at. */
  function BuildRecord(c: RawCountry, v: Derived, now: int): (record: Country) {
    Country(0, c.name, c.capital, c.region, c.population,
            v.currencyCode, v.exchangeRate, v.estimatedGdp, c.flagUrl, now)
  }

  /** The insert path's validation: the failing fields with their messages. */
  function Validate(c: RawCountry, currencyCode: Option<string>): (details: map<string, string>) {
    var withName: map<string, string> := if IsBlank(c.name) then map["name" := "is required"] else map[];
    var withPopulation := if c.population < 0 then withName["population" := "must be non-negative"] else withName;
    if |c.currencies| > 0 && (currencyCode.None? || IsBlank(currencyCode.value)) then
      withPopulation["currency_code" := "is required"]
    else
      withPopulation
  }

  /** The validation's keys are exactly the failing fields: "name" for a blank name,
      "population" for a negative one, "currency_code" for a country with currencies whose
      code is absent or blank; population's message is "must be non-negative" and the
      others' "is required". */
  lemma ValidationKeys(c: RawCountry, currencyCode: Option<string>)
    ensures var details := Validate(c, currencyCode);
      && ("name" in details <==> IsBlank(c.name))
      && ("population" in details <==> c.population < 0)
      && ("currency_code" in details <==> |c.currencies| > 0 && (currencyCode.None? || IsBlank(currencyCode.value)))
      && details.Keys <= {"name", "population", "currency_code"}
      && forall k :: k in details ==> details[k] == if k == "population" then "must be non-negative" else "is required"
  {
  }

  /** One iteration of the pass on the k-th country `c`, against the working table `t`. */
  function Step(t: Table, c: RawCountry, k: nat, env: PassEnv): (r: Result<Table, Error>) {
    if k in env.faults && env.faults[k].FindFault? then
      Err(Plain(env.faults[k].message))
    else
      Upsert(t, c, Derive(c, env.rates, env.rng(k)), k, env)
  }

  function Upsert(t: Table, c: RawCountry, v: Derived, k: nat, env: PassEnv): (r: Result<Table, Error>) {
    match FindByLowerName(t.rows, ToLower(c.name))
    case None => Insert(t, c, v, k, env)
    case Some(row) =>
      if k in env.faults then Err(Plain(env.faults[k].message))
      else Ok(Table(UpdateRows(t.rows, row.id, BuildRecord(c, v, env.now), UpdateInstant(env, k)), t.nextId))
  }

  function Insert(t: Table, c: RawCountry, v: Derived, k: nat, env: PassEnv): (r: Result<Table, Error>) {
    var details := Validate(c, v.currencyCode);
    if |details| > 0 then Err(Validation(ValidationFailed, details))
    else if k in env.faults then Err(Plain(env.faults[k].message))
    else Ok(Table(t.rows + [BuildRecord(c, v, env.now).(id := t.nextId)], t.nextId + 1))
  }

  lemma InsertAppends(t: Table, c: RawCountry, v: Derived, k: nat, env: PassEnv)
    requires |Validate(c, v.currencyCode)| == 0 && k !in env.faults
    ensures Insert(t, c, v, k, env) == Ok(Table(t.rows + [BuildRecord(c, v, env.now).(id := t.nextId)], t.nextId + 1))
  {
  }

  /** A step of a pass: the working table and the k-th country give the next working
      table or an error. */
  type StepFn = (Table, RawCountry, nat) -> Result<Table, Error>

  /** Folds a step over the first `n` countries of the batch; the first error stops it. */
  function Fold(step: StepFn, t: Table, batch: seq<RawCountry>, n: nat): (r: Result<Table, Error>)
    requires n <= |batch|
  {
    if n == 0 then Ok(t)
    else
      match Fold(step, t, batch, n - 1)
      case Err(e) => Err(e)
      case Ok(w) => step(w, batch[n - 1], n - 1)
  }

  /** Once a prefix of the batch has failed, the rest of it is never processed. */
  lemma {:induction false} FailureIsFinal(step: StepFn, t: Table, batch: seq<RawCountry>, n: nat, m: nat)
    requires n <= m <= |batch| && Fold(step, t, batch, n).Err?
    ensures Fold(step, t, batch, m) == Fold(step, t, batch, n)
    decreases m
  {
    if m > n {
      FailureIsFinal(step, t, batch, n, m - 1);
    }
  }

  /** A fold that succeeds up to `n` succeeded up to `n - 1` and took one more step. */
  lemma FoldBack(step: StepFn, t: Table, batch: seq<RawCountry>, n: nat)
    requires 0 < n <= |batch| && Fold(step, t, batch, n).Ok?
    ensures Fold(step, t, batch, n - 1).Ok?
    ensures Fold(step, t, batch, n) == step(Fold(step, t, batch, n - 1).value, batch[n - 1], n - 1)
  {
  }

  /** Induction over a fold: a property of the working table that holds at the start and
      that every successful step carries from one country to the next holds for whatever
      table the fold reaches. */
  lemma {:induction false} FoldInduction(step: StepFn, p: (nat, Table) -> bool, t: Table, batch: seq<RawCountry>, n: nat)
    requires n <= |batch| && p(0, t)
    requires forall i: nat, w: Table :: i < |batch| && p(i, w) && step(w, batch[i], i).Ok? ==> p(i + 1, step(w, batch[i], i).value)
    ensures Fold(step, t, batch, n).Ok? ==> p(n, Fold(step, t, batch, n).value)
  {
    if n > 0 && Fold(step, t, batch, n).Ok? {
      FoldBack(step, t, batch, n);
      FoldInduction(step, p, t, batch, n - 1);
    }
  }

  /** Induction over a fold that cannot fail: a property that holds at the start, and
      under which every step succeeds and carries it to the next country, makes the fold
      succeed with a table that has the property. */
  lemma {:induction false} FoldSucceeds(step: StepFn, p: (nat, Table) -> bool, t: Table, batch: seq<RawCountry>, n: nat)
    requires n <= |batch| && p(0, t)
    requires forall i: nat, w: Table :: i < |batch| && p(i, w) ==> step(w, batch[i], i).Ok? && p(i + 1, step(w, batch[i], i).value)
    ensures Fold(step, t, batch, n).Ok? && p(n, Fold(step, t, batch, n).value)
  {
    if n > 0 {
      FoldSucceeds(step, p, t, batch, n - 1);
    }
  }

  /** The refresh's step for one environment, as a function value. */
  function StepOf(env: PassEnv): (step: StepFn) {
    (w: Table, c: RawCountry, k: nat) => Step(w, c, k, env)
  }

  /** The working table after the first `n` countries of the batch, or the first error. */
  function Run(t: Table, batch: seq<RawCountry>, n: nat, env: PassEnv): (r: Result<Table, Error>)
    requires n <= |batch|
  {
    Fold(StepOf(env), t, batch, n)
  }

  /** One more country of a batch whose prefix succeeded is one more step. */
  lemma RunNext(t: Table, batch: seq<RawCountry>, n: nat, env: PassEnv)
    requires n < |batch| && Run(t, batch, n, env).Ok?
    ensures Run(t, batch, n + 1, env) == Step(Run(t, batch, n, env).value, batch[n], n, env)
  {
  }

  /** The result of a whole pass and the table it leaves. */
  datatype Outcome = Outcome(result: Result<string, Error>, table: Table)

  /** `RefreshCountries` on table values: a failed fetch stops before any write; otherwise
      the batch runs in one transaction that commits all of it or, on the first error,
      leaves the table exactly as it was. */
  function RefreshPass(t: Table, countries: Option<seq<RawCountry>>, rates: Option<map<string, real>>,
                       now: int, rng: nat -> Draw, lag: nat -> nat, faults: map<nat, Fault>): (o: Outcome)
    ensures countries.None? ==> o == Outcome(Err(Plain(FetchCountriesFailed)), t)
    ensures countries.Some? && rates.None? ==> o == Outcome(Err(Plain(FetchRatesFailed)), t)
    ensures o.result.Err? ==> o.table == t
    ensures o.result.Ok? ==> o.result.value == RefreshSucceeded && countries.Some? && rates.Some?
  {
    if countries.None? then Outcome(Err(Plain(FetchCountriesFailed)), t)
    else if rates.None? then Outcome(Err(Plain(FetchRatesFailed)), t)
    else
      match Run(t, countries.value, |countries.value|, PassEnv(rates.value, now, rng, lag, faults))
      case Err(e) => Outcome(Err(e), t)
      case Ok(committed) => Outcome(Ok(RefreshSucceeded), committed)
  }

  /** What a successful pass hands to the summary-image renderer: the row count and the
      top five rows by GDP. */
  datatype Summary = Summary(total: nat, top: seq<Country>)

  /** One iteration of the pass's loop on the store: the k-th country `c` is looked up by
      name and inserted or applied; on an error the store may be left mid-iteration, as the
      transaction is rolled back anyway. */
  method UpsertOne(store: CountryStore, c: RawCountry, k: nat, env: PassEnv) returns (err: Option<Error>)
    requires store.Valid()
    modifies store
    ensures store.Valid()
    ensures err.None? ==> Step(old(store.Snapshot()), c, k, env) == Ok(store.Snapshot())
    ensures err.Some? ==> Step(old(store.Snapshot()), c, k, env) == Err(err.value)
  {
    ghost var before := store.Snapshot();
    if k in env.faults && env.faults[k].FindFault? {
      return Some(Plain(env.faults[k].message));
    }
    var v := Derive(c, env.rates, env.rng(k));
    assert Step(before, c, k, env) == Upsert(before, c, v, k, env);
    var existing := FindByLowerName(store.rows, ToLower(c.name));
    if existing.None? {
      assert Upsert(before, c, v, k, env) == Insert(before, c, v, k, env);
      var details := Validate(c, v.currencyCode);
      if |details| > 0 {
        return Some(Validation(ValidationFailed, details));
      }
      if k in env.faults {
        return Some(Plain(env.faults[k].message));
      }
      var _ := store.CreateNewCountry(BuildRecord(c, v, env.now), None);
      InsertAppends(before, c, v, k, env);
      assert store.Snapshot() == Table(before.rows + [BuildRecord(c, v, env.now).(id := before.nextId)], before.nextId + 1);
    } else {
      if k in env.faults {
        return Some(Plain(env.faults[k].message));
      }
      var _ := store.Updates(existing.value.id, BuildRecord(c, v, env.now), UpdateInstant(env, k));
    }
    err := None;
  }

  /** `RefreshCountries`. Fetch results, the clock, the random draws and database errors
      are parameters. On success it also returns the summary it would render. */
  method RefreshCountries(store: CountryStore, countries: Option<seq<RawCountry>>, rates: Option<map<string, real>>,
                          now: int, rng: nat -> Draw, lag: nat -> nat, faults: map<nat, Fault>)
    returns (res: Result<string, Error>, summary: Option<Summary>)
    requires store.Valid()
    modifies store
    ensures store.Valid()
    ensures Outcome(res, store.Snapshot()) == RefreshPass(old(store.Snapshot()), countries, rates, now, rng, lag, faults)
    ensures summary == if res.Ok? then Some(Summary(|store.rows|, GetTopCountriesByGdp(store.rows, 5))) else None
  {
    if countries.None? {
      return Err(Plain(FetchCountriesFailed)), None;
    }
    if rates.None? {
      return Err(Plain(FetchRatesFailed)), None;
    }
    var batch := countries.value;
    var env := PassEnv(rates.value, now, rng, lag, faults);
    var snapshot := store.Snapshot();
    var i := 0;
    while i < |batch|
      invariant 0 <= i <= |batch|
      invariant store.Valid()
      invariant Run(snapshot, batch, i, env) == Ok(store.Snapshot())
    {
      RunNext(snapshot, batch, i, env);
      var err := UpsertOne(store, batch[i], i, env);
      if err.Some? {
        FailureIsFinal(StepOf(env), snapshot, batch, i + 1, |batch|);
        store.Rollback(snapshot);
        return Err(err.value), None;
      }
      i := i + 1;
    }
    res := Ok(RefreshSucceeded);
    summary := Some(Summary(|store.rows|, GetTopCountriesByGdp(store.rows, 5)));
  }

  /** The service's `GetCountryByName`: any repository error, a failed query or a name no
      row has, becomes "Country not found". */
  function GetCountryByName(rows: seq<Country>, name: string, dbFault: Option<string>): (r: Result<Country, Error>)
    ensures r.Ok? ==> r.value in rows && ToLower(r.value.name) == ToLower(name)
    ensures r.Err? <==> dbFault.Some? || forall i :: 0 <= i < |rows| ==> ToLower(rows[i].name) != ToLower(name)
    ensures r.Err? ==> r.error == Plain(CountryNotFound)
  {
    ToLowerIdempotent(name);
    match Repository.GetCountryByName(rows, ToLower(name), dbFault)
    case Ok(c) => Ok(c)
    case Err(_) => Err(Plain(CountryNotFound))
  }

  /** The service's `DeleteCountryByName`: any repository error becomes "Failed to delete
      country"; deleting a name no row has succeeds. */
  method DeleteCountryByName(store: CountryStore, name: string, dbFault: Option<string>) returns (err: Option<Error>)
    requires store.Valid()
    modifies store
    ensures store.Valid() && store.nextId == old(store.nextId)
    ensures dbFault.Some? ==> err == Some(Plain(DeleteFailed)) && store.rows == old(store.rows)
    ensures dbFault.None? ==> err.None? && store.rows == Keep(old(store.rows), NameIsNot(ToLower(name)))
  {
    ToLowerIdempotent(name);
    var repoErr := store.DeleteCountryByName(ToLower(name), dbFault);
    err := if repoErr.Some? then Some(Plain(DeleteFailed)) else None;
  }
}
