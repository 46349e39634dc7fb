/**
 * The HTTP layer of handlers/handlers.go: how `handleError` turns an error into responses
 * by searching its message, and the handlers that guard an empty path parameter. A
 * response is a status and a JSON body; gin commits the status of the first write, so a
 * handler's effective status is that of its first response.
 */
module Handlers {
  import opened Wrappers
  import opened Text
  import opened Models
  import opened Clients
  import opened Currency
  import opened Repository
  import opened Services

  const StatusOK: int := 200
  const StatusNoContent: int := 204
  const StatusBadRequest: int := 400
  const StatusNotFound: int := 404
  const StatusInternalServerError: int := 500
  const StatusServiceUnavailable: int := 503

  const NoParamPassed: string := "No param passed"
  const SourceUnavailable: string := "External data source unavailable"
  const InternalServerError: string := "Internal server error"

  /** The optional `details` member of an error body: a field map or a message. */
  datatype Details = NoDetails | Fields(fields: map<string, string>) | Message(text: string)

  /** The JSON bodies the handlers write. */
  datatype Body =
    | ErrorBody(error: string, details: Details)
    | CountryBody(country: Country)
    | StatusBody(status: string)
    | Empty

  datatype Response = Response(status: int, body: Body)

  /** What `handleError` writes, in order, and whether it returns the error (it returns
      nil after the not-found and the catch-all writes). */
  datatype Handled = Handled(writes: seq<Response>, returned: bool)

  /** The catch-all write, which carries the error's message. */
  function Internal(e: Error): (r: Response) {
    Response(StatusInternalServerError, ErrorBody(InternalServerError, Message(e.message)))
  }

  /** `handleError`: the message is searched for "Validation failed", then "failed to
      fetch", then "Country not found". Only a validation error's details reach the body.
      A not-found message gets a 404 write and then falls through to the catch-all write. */
  function HandleError(e: Error): (h: Handled)
    ensures 1 <= |h.writes| <= 2
    ensures h.returned <==> h.writes[0].status == StatusBadRequest || h.writes[0].status == StatusServiceUnavailable
    ensures !h.returned ==> h.writes[|h.writes| - 1] == Internal(e)
    ensures |h.writes| == 2 <==> h.writes[0].status == StatusNotFound
    ensures h.writes[0].status == StatusBadRequest <==> Contains(e.message, ValidationFailed)
    ensures h.writes[0].status == StatusServiceUnavailable <==>
      !Contains(e.message, ValidationFailed) && Contains(e.message, FetchFailed)
    ensures h.writes[0].status == StatusNotFound <==>
      !Contains(e.message, ValidationFailed) && !Contains(e.message, FetchFailed) && Contains(e.message, CountryNotFound)
    ensures forall i :: 0 <= i < |h.writes| ==> h.writes[i].body.ErrorBody?
    ensures h.writes[0].status == StatusBadRequest ==>
      h.writes[0].body.details == if e.Validation? then Fields(e.details) else NoDetails
    ensures h.writes[0].status == StatusServiceUnavailable ==> h.writes[0].body.details == Message(e.message)
    ensures h.writes[0].status == StatusBadRequest ==> h.writes[0].body.error == ValidationFailed
    ensures h.writes[0].status == StatusServiceUnavailable ==> h.writes[0].body.error == SourceUnavailable
    ensures h.writes[0].status == StatusNotFound ==> h.writes[0].body == ErrorBody(CountryNotFound, NoDetails)
  {
    var msg := e.message;
    if Contains(msg, ValidationFailed) then
      var details := if e.Validation? then Fields(e.details) else NoDetails;
      Handled([Response(StatusBadRequest, ErrorBody(ValidationFailed, details))], true)
    else if Contains(msg, FetchFailed) then
      Handled([Response(StatusServiceUnavailable, ErrorBody(SourceUnavailable, Message(msg)))], true)
    else if Contains(msg, CountryNotFound) then
      Handled([Response(StatusNotFound, ErrorBody(CountryNotFound, NoDetails)), Internal(e)], false)
    else
      Handled([Internal(e)], false)
  }

  /** The status gin sends: that of the first write. */
  function EffectiveStatus(writes: seq<Response>): (status: int)
    requires |writes| > 0
  {
    writes[0].status
  }

  /** A string lacking a character of `sub` does not contain `sub`. */
  lemma NotContained(s: string, sub: string, c: char)
    requires c in sub && c !in s
    ensures !Contains(s, sub)
  {
    if Contains(s, sub) {
      ContainedCharsOccur(s, sub);
    }
  }

  /** A string contains itself. */
  lemma ContainsItself(s: string)
    ensures Contains(s, s)
  {
    assert s <= s;
  }

  /** A failed fetch is reported with a message that mentions "failed to fetch". */
  lemma FetchFailuresMentionFetch()
    ensures Contains(FetchCountriesFailed, FetchFailed)
    ensures Contains(FetchRatesFailed, FetchFailed)
  {
    assert FetchFailed <= FetchCountriesFailed;
    assert FetchFailed <= FetchRatesFailed;
  }

  /** The characters that tell the messages apart: a "V" only in "Validation failed",
      an "a" and an "h" in "failed to fetch", a capital "C" in "Country not found". */
  lemma SearchedCharacters()
    ensures 'V' in ValidationFailed && 'a' in FetchFailed && 'h' in FetchFailed && 'C' in CountryNotFound
  {
  }

  lemma FetchMessagesLackV()
    ensures 'V' !in FetchCountriesFailed && 'V' !in FetchRatesFailed
  {
  }

  lemma NotFoundCharacters()
    ensures 'V' !in CountryNotFound && 'a' !in CountryNotFound
  {
  }

  lemma DeleteFailedCharacters()
    ensures 'V' !in DeleteFailed && 'h' !in DeleteFailed && 'C' !in DeleteFailed
  {
  }

  /** The validation error of a refresh becomes a 400 carrying exactly its field map. */
  lemma ValidationIsBadRequest(details: map<string, string>)
    ensures HandleError(Validation(ValidationFailed, details))
            == Handled([Response(StatusBadRequest, ErrorBody(ValidationFailed, Fields(details)))], true)
  {
    ContainsItself(ValidationFailed);
  }

  /** Both fetch failures become a 503 whose details are the failure's message. */
  lemma FetchFailureIsUnavailable(msg: string)
    requires msg == FetchCountriesFailed || msg == FetchRatesFailed
    ensures HandleError(Plain(msg))
            == Handled([Response(StatusServiceUnavailable, ErrorBody(SourceUnavailable, Message(msg)))], true)
  {
    SearchedCharacters();
    FetchMessagesLackV();
    NotContained(msg, ValidationFailed, 'V');
    FetchFailuresMentionFetch();
  }

  /** "Country not found" is written twice: a 404, which gin sends, then the catch-all 500
      body; the error is not returned. */
  lemma NotFoundWritesTwice()
    ensures HandleError(Plain(CountryNotFound))
            == Handled([Response(StatusNotFound, ErrorBody(CountryNotFound, NoDetails)), Internal(Plain(CountryNotFound))], false)
    ensures EffectiveStatus(HandleError(Plain(CountryNotFound)).writes) == StatusNotFound
  {
    SearchedCharacters();
    NotFoundCharacters();
    NotContained(CountryNotFound, ValidationFailed, 'V');
    NotContained(CountryNotFound, FetchFailed, 'a');
    ContainsItself(CountryNotFound);
  }

  /** A failed delete is an internal error whose details are "Failed to delete country". */
  lemma DeleteFailureIsInternal()
    ensures HandleError(Plain(DeleteFailed)) == Handled([Internal(Plain(DeleteFailed))], false)
  {
    SearchedCharacters();
    DeleteFailedCharacters();
    NotContained(DeleteFailed, ValidationFailed, 'V');
    NotContained(DeleteFailed, FetchFailed, 'h');
    NotContained(DeleteFailed, CountryNotFound, 'C');
  }

  /** The `GetCountryByName` handler: an empty name is refused before the service is
      called; a found country is a 200, any service error goes through `handleError`. */
  function GetCountryByNameHandler(rows: seq<Country>, name: string, dbFault: Option<string>): (writes: seq<Response>)
    ensures |writes| > 0
  {
    if name == "" then [Response(StatusBadRequest, ErrorBody(NoParamPassed, NoDetails))]
    else
      match Services.GetCountryByName(rows, name, dbFault)
      case Ok(c) => [Response(StatusOK, CountryBody(c))]
      case Err(e) => HandleError(e).writes
  }

  /** The handler's status: 400 for an empty name; 200 with a row whose lower-cased name
      is the name's when one exists and the query does not fail; otherwise 404, a failed
      query included. */
  lemma GetCountryByNameStatus(rows: seq<Country>, name: string, dbFault: Option<string>)
    ensures var writes := GetCountryByNameHandler(rows, name, dbFault);
      && (name == "" <==> EffectiveStatus(writes) == StatusBadRequest)
      && (name == "" ==> writes == [Response(StatusBadRequest, ErrorBody(NoParamPassed, NoDetails))])
      && (EffectiveStatus(writes) == StatusOK <==>
            name != "" && dbFault.None? && exists i :: 0 <= i < |rows| && ToLower(rows[i].name) == ToLower(name))
      && (EffectiveStatus(writes) == StatusOK ==>
            writes == [Response(StatusOK, CountryBody(writes[0].body.country))]
            && writes[0].body.country in rows && ToLower(writes[0].body.country.name) == ToLower(name))
      && (EffectiveStatus(writes) == StatusNotFound <==>
            name != "" && (dbFault.Some? || forall i :: 0 <= i < |rows| ==> ToLower(rows[i].name) != ToLower(name)))
  {
    if name != "" && Services.GetCountryByName(rows, name, dbFault).Err? {
      NotFoundWritesTwice();
    }
  }

  /** The `DeleteCountry` handler: an empty name is refused and nothing is deleted; a
      failed delete is a 500 and the table is unchanged; otherwise every row whose
      lower-cased name is the name's is gone and the answer is an empty 204. */
  method DeleteCountry(store: CountryStore, name: string, dbFault: Option<string>) returns (writes: seq<Response>)
    requires store.Valid()
    modifies store
    ensures store.Valid() && store.nextId == old(store.nextId)
    ensures name == "" ==> writes == [Response(StatusBadRequest, ErrorBody(NoParamPassed, NoDetails))]
                           && store.rows == old(store.rows)
    ensures name != "" && dbFault.Some? ==> writes == [Internal(Plain(DeleteFailed))] && store.rows == old(store.rows)
    ensures name != "" && dbFault.None? ==> writes == [Response(StatusNoContent, Empty)]
                                            && store.rows == Keep(old(store.rows), NameIsNot(ToLower(name)))
  {
    if name == "" {
      return [Response(StatusBadRequest, ErrorBody(NoParamPassed, NoDetails))];
    }
    var err := Services.DeleteCountryByName(store, name, dbFault);
    if err.Some? {
      DeleteFailureIsInternal();
      return HandleError(err.value).writes;
    }
    writes := [Response(StatusNoContent, Empty)];
  }

  /** The `RefreshCountries` handler: a 200 with the status message when the pass commits,
      otherwise whatever `handleError` writes for the pass's error, the table untouched. */
  method RefreshCountries(store: CountryStore, countries: Option<seq<RawCountry>>, rates: Option<map<string, real>>,
                          now: int, rng: nat -> Draw, lag: nat -> nat, faults: map<nat, Fault>)
    returns (writes: seq<Response>)
    requires store.Valid()
    modifies store
    ensures store.Valid()
    ensures var o := RefreshPass(old(store.Snapshot()), countries, rates, now, rng, lag, faults);
      && store.Snapshot() == o.table
      && (o.result.Ok? ==> writes == [Response(StatusOK, StatusBody(RefreshSucceeded))])
      && (o.result.Err? ==> writes == HandleError(o.result.error).writes)
    ensures countries.None? || rates.None? ==> EffectiveStatus(writes) == StatusServiceUnavailable
  {
    var res, _ := Services.RefreshCountries(store, countries, rates, now, rng, lag, faults);
    if res.Err? {
      if countries.None? || rates.None? {
        FetchFailureIsUnavailable(res.error.message);
      }
      return HandleError(res.error).writes;
    }
    writes := [Response(StatusOK, StatusBody(res.value))];
  }
}
