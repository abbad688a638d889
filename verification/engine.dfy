/**
 The read-only market data the widget looks up through its main engine:
 contract reference data and the last traded price, both keyed by symbol.
 The engine itself is not part of this model; it is represented by two maps.
 */
module Engine {

  /** A contract's option type; anything that is not a call or a put (a future,
      the underlying itself, a contract with no option type) is `NoOptionType`. */
  datatype OptionType = Call | Put | NoOptionType

  /** Reference data of one contract: option type, strike and contract multiplier. */
  datatype Contract = Contract(optionType: OptionType, strike: real, size: real)

  /** A snapshot of the engine: the contract and the last traded price per symbol. */
  datatype Market = Market(contracts: map<string, Contract>, lastPrices: map<string, real>) {

    /** Both lookups succeed for `symbol`. */
    predicate Knows(symbol: string) {
      symbol in contracts && symbol in lastPrices
    }
  }
}
