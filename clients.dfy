/** The shapes the two external sources deliver (clients/clients.go). Fetching and
    decoding are not modelled: a refresh receives their results as parameters. */
module Clients {

  /** One currency descriptor of a country; only `code` is used. */
  datatype Currency = Currency(code: string, name: string, symbol: string)

  /** One country as the country source reports it. */
  datatype RawCountry = RawCountry(
    name: string,
    capital: string,
    region: string,
    population: int,
    currencies: seq<Currency>,
    flagUrl: string
  )
}
