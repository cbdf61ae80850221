/** Orders, feed messages and the ticks that the order book emits. */
module Orders {
  type OrderId = nat

  datatype Option<+T> = None | Some(value: T)

  datatype Side = Buy | Sell

  /** What an order or a trade says, apart from its id. */
  datatype Order = Order(symbol: nat, side: Side, price: nat, qty: nat)

  /** A slot of the order pool: `live` is the source's `state == 1`. */
  datatype OrderRecord = OrderRecord(id: OrderId, order: Order, live: bool)

  const NO_ORDER := Order(0, Buy, 0, 0)
  const VACANT := OrderRecord(0, NO_ORDER, false)

  /** The seven message kinds; each carries its sequence number and timestamp from the common header. */
  datatype Message =
    | AddOrder(seqNo: nat, ts: nat, id: OrderId, order: Order)
    | ModifyOrder(seqNo: nat, ts: nat, id: OrderId, order: Order)
    | DeleteOrder(seqNo: nat, ts: nat, id: OrderId, symbol: nat)
    | Trade(seqNo: nat, ts: nat, tradeId: nat, order: Order)
    | Heartbeat(seqNo: nat, ts: nat, exchangeTs: nat)
    | GapRequest(seqNo: nat, ts: nat, start: nat, end: nat)
    | GapResponse(seqNo: nat, ts: nat, start: nat, end: nat, payloadBytes: nat)

  /** Best prices and the quantities there; a price of 0 means that the side is empty. */
  datatype Top = Top(bidPrice: nat, bidQty: nat, askPrice: nat, askQty: nat)

  datatype Tick = Tick(symbol: nat, top: Top, lastPrice: nat, lastQty: nat, cause: Message)
}
