/** The `Trade` record: an identifier and its historical profit-and-loss series. */
module Trades {
  import opened Wrappers

  /** An immutable trade. The series is exact decimals, in the order given; the
      reference to it may be null (`None`) and the list may be empty: both are
      legal here and only rejected when a VaR is computed from it. */
  datatype Trade = Trade(id: string, historicalPnL: Option<seq<real>>)

  /** The record's accessors give back exactly what it was built from; the
      series is the same value, so its order is kept. */
  lemma AccessorsReturnComponents(id: string, pnl: Option<seq<real>>)
    ensures Trade(id, pnl).id == id
    ensures Trade(id, pnl).historicalPnL == pnl
  {
  }
}
