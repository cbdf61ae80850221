/** The order book as a value: what each message handler makes of the whole state, and which tick it emits. */
module BookStates {
  import opened Orders
  import opened PriceLevels
  import opened LevelTables

  /**
   `orders` is what the order pool represents and `capacity` its size. `sides` holds two sides per symbol,
   see `SideIndex`; `last` is the last trade's price and quantity per symbol.
   */
  datatype BookState = BookState(capacity: nat, levels: nat, orders: map<OrderId, Order>,
                                 sides: seq<SideState>, last: seq<(nat, nat)>)

  function SideIndex(symbol: nat, side: Side): nat {
    2 * symbol + if side == Buy then 0 else 1
  }

  predicate IsBidIndex(i: nat) {
    i % 2 == 0
  }

  predicate ValidOrder(b: BookState, o: Order) {
    o.symbol < |b.last| && 1 <= o.price <= b.levels && o.qty != 0
  }

  /** Sizes and index ranges; every reachable state has them. */
  ghost predicate WellFormed(b: BookState) {
    && |b.sides| == 2 * |b.last|
    && (forall i :: 0 <= i < |b.sides| ==> SideFits(b.sides[i], b.levels))
    && (forall id :: id in b.orders ==> ValidOrder(b, b.orders[id]))
  }

  function EmptyBook(capacity: nat, symbols: nat, levels: nat): (b: BookState)
    ensures WellFormed(b)
  {
    BookState(capacity, levels, map[], seq(2 * symbols, _ => EmptySide(levels + 1)),
              seq(symbols, _ => (0, 0)))
  }

  // ----- top of book

  function BestOf(s: SideState, levels: nat): (nat, nat)
    requires SideFits(s, levels)
  {
    (s.best, if s.best != 0 then s.qty[s.best] else 0)
  }

  function TopOf(b: BookState, symbol: nat): Top
    requires WellFormed(b)
  {
    if symbol >= |b.last| then Top(0, 0, 0, 0) else
      var bid := BestOf(b.sides[SideIndex(symbol, Buy)], b.levels);
      var ask := BestOf(b.sides[SideIndex(symbol, Sell)], b.levels);
      Top(bid.0, bid.1, ask.0, ask.1)
  }

  function MakeTick(b: BookState, symbol: nat, cause: Message): Tick
    requires WellFormed(b) && symbol < |b.last|
  {
    Tick(symbol, TopOf(b, symbol), b.last[symbol].0, b.last[symbol].1, cause)
  }

  // ----- levels

  lemma RemovalFits(s: SideState, levels: nat, price: nat, qty: nat, isBid: bool)
    requires SideFits(s, levels) && price <= levels
    ensures SideFits(LevelRemoved(s, price, qty, isBid), levels)
  {
    var occ := LevelRemoved(s, price, qty, isBid).occ;
    HighestIsMax(occ, s.best);
    LowestIsMin(occ, s.best, BitmapSize(levels + 1));
  }

  function AddTo(b: BookState, o: Order): (b': BookState)
    requires WellFormed(b) && ValidOrder(b, o)
    ensures WellFormed(b')
  {
    var i := SideIndex(o.symbol, o.side);
    b.(sides := b.sides[i := LevelAdded(b.sides[i], o.price, o.qty, o.side == Buy)])
  }

  function RemoveFrom(b: BookState, o: Order): (b': BookState)
    requires WellFormed(b) && ValidOrder(b, o)
    ensures WellFormed(b')
  {
    var i := SideIndex(o.symbol, o.side);
    RemovalFits(b.sides[i], b.levels, o.price, o.qty, o.side == Buy);
    b.(sides := b.sides[i := LevelRemoved(b.sides[i], o.price, o.qty, o.side == Buy)])
  }

  // ----- message handlers

  type Outcome = (BookState, Option<Tick>)

  /** A tick is emitted if the two tops of book differ. */
  function Emit(b: BookState, before: Top, symbol: nat, cause: Message): Outcome
    requires WellFormed(b) && symbol < |b.last|
  {
    (b, if before == TopOf(b, symbol) then None else Some(MakeTick(b, symbol, cause)))
  }

  function OnAdd(b: BookState, m: Message): (r: Outcome)
    requires WellFormed(b) && m.AddOrder?
    ensures WellFormed(r.0)
  {
    if !ValidOrder(b, m.order) || |b.orders| >= b.capacity then (b, None) else
      var cleared := if m.id in b.orders then RemoveFrom(b, b.orders[m.id]) else b;
      var placed := cleared.(orders := b.orders[m.id := m.order]);
      Emit(AddTo(placed, m.order), TopOf(placed, m.order.symbol), m.order.symbol, m)
  }

  function OnModify(b: BookState, m: Message): (r: Outcome)
    requires WellFormed(b) && m.ModifyOrder?
    ensures WellFormed(r.0)
  {
    if m.id !in b.orders || !ValidOrder(b, m.order) then (b, None) else
      var o := b.orders[m.id];
      var placed := RemoveFrom(b, o).(orders := b.orders[m.id := m.order]);
      Emit(AddTo(placed, m.order), TopOf(b, o.symbol), m.order.symbol, m)
  }

  function OnDelete(b: BookState, m: Message): (r: Outcome)
    requires WellFormed(b) && m.DeleteOrder?
    ensures WellFormed(r.0)
  {
    if m.id !in b.orders then (b, None) else
      var o := b.orders[m.id];
      Emit(RemoveFrom(b, o).(orders := b.orders - {m.id}), TopOf(b, o.symbol), o.symbol, m)
  }

  function OnTrade(b: BookState, m: Message): (r: Outcome)
    requires WellFormed(b) && m.Trade?
    ensures WellFormed(r.0)
  {
    if !ValidOrder(b, m.order) then (b, None) else
      var b' := b.(last := b.last[m.order.symbol := (m.order.price, m.order.qty)]);
      (b', Some(MakeTick(b', m.order.symbol, m)))
  }

  /** The dispatch of one parsed message to the book. */
  function Handle(b: BookState, m: Message): (r: Outcome)
    requires WellFormed(b)
    ensures WellFormed(r.0)
  {
    match m
    case AddOrder(_, _, _, _) => OnAdd(b, m)
    case ModifyOrder(_, _, _, _) => OnModify(b, m)
    case DeleteOrder(_, _, _, _) => OnDelete(b, m)
    case Trade(_, _, _, _) => OnTrade(b, m)
    case _ => (b, None)
  }
}
