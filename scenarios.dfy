/**
 * Concrete passes and merges that pin down the refresh's behaviour on particular inputs:
 * a new country with a negative population, the estimate for a known rate and its redraw,
 * a stale rate the update path keeps, a batch that names one country twice in different case, and a
 * listing filtered by region in another case.
 */
module Scenarios {
  import opened Wrappers
  import opened Text
  import opened Models
  import opened Clients
  import opened Currency
  import opened Repository
  import opened Services
  import opened RefreshProps
  import opened Handlers

  /** A name with a non-space character is not blank. */
  lemma NotBlank(s: string, i: nat)
    requires i < |s| && !IsSpace(s[i])
    ensures !IsBlank(s)
  {
    BlankIffAllSpace(s);
  }

  function Wakanda(): (c: RawCountry) {
    RawCountry("Wakanda", "Birnin Zana", "Africa", -5, [], "")
  }

  /** A new country with a negative population aborts the pass with the "population"
      detail alone, leaves the table as it was, and is answered with a 400 carrying that
      detail. */
  lemma WakandaRejected(t: Table, rates: map<string, real>, now: int, rng: nat -> Draw, lag: nat -> nat)
    requires !HasName(t.rows, "wakanda")
    ensures var o := RefreshPass(t, Some([Wakanda()]), Some(rates), now, rng, lag, map[]);
      && o == Outcome(Err(Validation(ValidationFailed, map["population" := "must be non-negative"])), t)
      && HandleError(o.result.error).writes
         == [Response(StatusBadRequest, ErrorBody(ValidationFailed, Fields(map["population" := "must be non-negative"])))]
  {
    var c := Wakanda();
    var env := PassEnv(rates, now, rng, lag, map[]);
    assert ToLower(c.name) == "wakanda";
    NotBlank(c.name, 0);
    var details := Validate(c, Derive(c, env.rates, env.rng(0)).currencyCode);
    DerivationCases(c, env.rates, env.rng(0));
    assert details == map["population" := "must be non-negative"];
    NewRowValidated(t, c, 0, env);
    RunNext(t, [c], 0, env);
    ValidationIsBadRequest(details);
  }

  /** A population of 1000 at a rate of 2.0 with the smallest draw is estimated at
      1000 * 1000 / 2.0. */
  lemma TestlandEstimate()
    ensures var c := RawCountry("Testland", "Test City", "Nowhere", 1000, [Clients.Currency("TST", "Test", "T")], "");
      Derive(c, map["TST" := 2.0], 0) == Derived(Some("TST"), Some(2.0), Some(500000.0))
  {
    assert ComputeEstimatedGdp(1000, 2.0, 0) == 500000.0;
  }

  /** Every pass draws again: the same country at the largest draw is estimated at twice
      its estimate at the smallest, so refreshing unchanged data can change the estimate. */
  lemma RedrawChangesEstimate()
    ensures var c := RawCountry("Testland", "Test City", "Nowhere", 1000, [Clients.Currency("TST", "Test", "T")], "");
      && Derive(c, map["TST" := 2.0], 0).estimatedGdp == Some(500000.0)
      && Derive(c, map["TST" := 2.0], 1000).estimatedGdp == Some(1000000.0)
  {
    assert ComputeEstimatedGdp(1000, 2.0, 0) == 500000.0;
    assert ComputeEstimatedGdp(1000, 2.0, 1000) == 1000000.0;
  }

  /** Updating a row with a country whose rate does not resolve keeps the row's old rate
      and estimate: the absent values are skipped by the merge, not written as NULL. The
      new currency code is written, and the row is stamped with the instant of the update. */
  lemma UnresolvedRateKeepsStaleValues(row: Country, c: RawCountry, k: nat, env: PassEnv)
    requires |c.currencies| > 0 && !RateKnown(env.rates, c.currencies[0].code)
    ensures var m := ApplyUpdates(row, RecordOf(c, k, env), UpdateInstant(env, k));
      && m.currencyCode == Some(c.currencies[0].code)
      && m.exchangeRate == row.exchangeRate
      && m.estimatedGdp == row.estimatedGdp
      && m.lastRefreshedAt == env.now + env.lag(k)
  {
    DerivationCases(c, env.rates, env.rng(k));
  }

  /** A concrete stale rate: a row at 1.5 whose new currency is unknown keeps 1.5. */
  lemma StaleRateExample(row: Country, now: int, rng: nat -> Draw, lag: nat -> nat)
    requires row.exchangeRate == Some(1.5)
    ensures var c := RawCountry("Oldland", "", "", 10, [Clients.Currency("NEW", "", "")], "");
      var env := PassEnv(map[], now, rng, lag, map[]);
      ApplyUpdates(row, RecordOf(c, 0, env), UpdateInstant(env, 0)).exchangeRate == Some(1.5)
  {
    var c := RawCountry("Oldland", "", "", 10, [Clients.Currency("NEW", "", "")], "");
    UnresolvedRateKeepsStaleValues(row, c, 0, PassEnv(map[], now, rng, lag, map[]));
  }

  /** The listing's region filter ignores case: a row stored in "Africa" is listed for
      the argument "africa", and a row in "Europe" is not. */
  lemma RegionFilterIgnoresCase(row: Country, other: Country)
    requires row.region == "Africa" && other.region == "Europe"
    ensures var r := GetAllCountriesWithFilters([row, other], "africa", "", "");
      multiset(r)[row] == 1 && other !in r
  {
    var f := ListFilter("africa", "");
    assert ToLower("Africa") == "africa";
    assert ToLower("Europe") == "europe";
    NotBlank("africa", 0);
    assert Passes(f, row) && !Passes(f, other);
    assert row != other;
    assert multiset([row, other])[row] == 1;
    var r := GetAllCountriesWithFilters([row, other], "africa", "", "");
    assert multiset(r)[other] == 0;
  }

  /** "France" then "FRANCE" into an empty table leave one row: the second is an update
      of the first. */
  lemma SameNameTwice(now: int, rng: nat -> Draw, lag: nat -> nat)
    ensures var c := RawCountry("France", "Paris", "Europe", 68000000, [], "");
      var o := RefreshPass(Table([], 1), Some([c, c.(name := "FRANCE")]), Some(map[]), now, rng, lag, map[]);
      o.result.Ok? && |o.table.rows| == 1
  {
    var c := RawCountry("France", "Paris", "Europe", 68000000, [], "");
    var batch := [c, c.(name := "FRANCE")];
    var env := PassEnv(map[], now, rng, lag, map[]);
    var t := Table([], 1);
    assert !HasName(t.rows, ToLower(c.name));
    NotBlank(c.name, 0);
    DerivationCases(c, env.rates, env.rng(0));
    ValidationKeys(c, Derive(c, env.rates, env.rng(0)).currencyCode);
    NewRowValidated(t, c, 0, env);
    assert Step(t, c, 0, env).Ok?;
    StepFacts(t, c, 0, env, Step(t, c, 0, env).value);
    var t1 := Step(t, c, 0, env).value;
    RunNext(t, batch, 0, env);
    assert ToLower(batch[1].name) == ToLower(c.name);
    ExistingRowNotValidated(t1, batch[1], 1, env);
    RunNext(t, batch, 1, env);
  }
}
