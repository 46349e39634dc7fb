/** The persisted entity (models/country.go) and the errors the core passes around. */
module Models {
  import opened Wrappers

  /** One row of the `countries` table. Pointer columns are `Option`s; timestamps are
      instants on an integer clock. The library-managed `CreatedAt`/`UpdatedAt` columns
      are not modelled. */
  datatype Country = Country(
    id: nat,
    name: string,
    capital: string,
    region: string,
    population: int,
    currencyCode: Option<string>,
    exchangeRate: Option<real>,
    estimatedGdp: Option<real>,
    flagUrl: string,
    lastRefreshedAt: int
  )

  /** A Go `error`: a plain one carries only its message, a `*services.ValidationError`
      also carries its field-to-message details. */
  datatype Error =
    | Plain(message: string)
    | Validation(message: string, details: map<string, string>)

  /** The message of GORM's `ErrRecordNotFound`. */
  const RecordNotFound: string := "record not found"
}
