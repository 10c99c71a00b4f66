/** The order book and update records shared by the builder and the feature pipeline. */
module MarketTypes {
  import opened Levels

  /** firstUpdateId is 0 when the exchange sends no range; updateId is then the only id covered. */
  datatype OrderBookUpdate = OrderBookUpdate(
    timestamp: int, bids: seq<Level>, asks: seq<Level>, isSnapshot: bool,
    updateId: nat, firstUpdateId: nat)

  datatype OrderBook = OrderBook(
    timestamp: int, bids: seq<Level>, asks: seq<Level>, lastUpdateId: nat, updateCount: nat)

  const NEW_BOOK := OrderBook(0, [], [], 0, 0)

  function UpdateSide(s: Side, u: OrderBookUpdate): seq<Level> {
    if s.Bid? then u.bids else u.asks
  }

  function SideLevels(s: Side, b: OrderBook): seq<Level> {
    if s.Bid? then b.bids else b.asks
  }
}
