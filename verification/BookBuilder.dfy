/** The order book in place: the order pool, the price-level arrays and the message handlers that update them. */
module BookBuilders {
  import opened Orders
  import opened OrderPools
  import opened LevelTables
  import opened BookStates

  class BookBuilder {
    const pool: OrderPool
    const table: LevelTable
    const levels: nat
    var last: seq<(nat, nat)>
    /** What `state` says of the orders; the handlers keep it equal to what the pool represents. */
    ghost var orders: map<OrderId, Order>

    /** The book, as a value. */
    ghost function State(): BookState
      reads this, table, pool
    {
      BookState(pool.slots.Length, levels, orders, table.view, last)
    }

    ghost predicate LevelsValid()
      reads this, table, table.repr, pool
    {
      && table !in table.repr && this !in table.repr && pool !in table.repr && pool.slots !in table.repr
      && table.Valid() && WellFormed(State())
    }

    ghost predicate Valid()
      reads this, table, table.repr, pool, pool.slots
    {
      LevelsValid() && pool.Valid() && pool.contents == orders
    }

    constructor (capacity: nat, symbols: nat, priceLevels: nat, hash: Hash)
      requires capacity >= 2 && HashInto(hash, capacity)
      ensures Valid() && State() == EmptyBook(capacity, symbols, priceLevels)
      ensures fresh(table) && fresh(table.repr) && fresh(pool) && fresh(pool.slots)
    {
      hide OrderPool.Valid, LevelTable.Valid;
      pool := new OrderPool(capacity, hash);
      table := new LevelTable(2 * symbols, priceLevels);
      levels := priceLevels;
      last := seq(symbols, _ => (0, 0));
      orders := map[];
    }

    method AddToSide(o: Order)
      requires LevelsValid() && ValidOrder(State(), o)
      modifies table.repr, table
      ensures LevelsValid() && State() == AddTo(old(State()), o)
    {
      hide OrderPool.Valid, LevelTable.Valid;
      table.AddLevel(SideIndex(o.symbol, o.side), o.price, o.qty, o.side == Buy);
    }

    method RemoveFromSide(o: Order)
      requires LevelsValid() && ValidOrder(State(), o)
      modifies table.repr, table
      ensures LevelsValid() && State() == RemoveFrom(old(State()), o)
    {
      hide OrderPool.Valid, LevelTable.Valid;
      ghost var b := RemoveFrom(State(), o);
      table.RemoveLevel(SideIndex(o.symbol, o.side), o.price, o.qty, o.side == Buy);
      assert State() == b;
    }

    method TopOfBook(symbol: nat) returns (t: Top)
      requires LevelsValid()
      ensures t == TopOf(State(), symbol)
      ensures symbol >= |last| ==> t.bidPrice == t.bidQty == t.askPrice == t.askQty == 0
    {
      if symbol >= |last| {
        return Top(0, 0, 0, 0);
      }
      var bidPrice, bidQty := table.Best(SideIndex(symbol, Buy));
      var askPrice, askQty := table.Best(SideIndex(symbol, Sell));
      t := Top(bidPrice, bidQty, askPrice, askQty);
    }

    /** Compares the top of book with an earlier one, and makes a tick if it differs. */
    method TickIfChanged(before: Top, symbol: nat, cause: Message) returns (tick: Option<Tick>)
      requires LevelsValid() && symbol < |last|
      ensures (State(), tick) == Emit(State(), before, symbol, cause)
    {
      var after := TopOfBook(symbol);
      tick := if before == after then None else Some(Tick(symbol, after, last[symbol].0, last[symbol].1, cause));
    }

    /** Writes an order into its record, found or made by the pool. */
    method Rewrite(id: OrderId, slot: nat, o: Order)
      requires LevelsValid() && ValidOrder(State(), o)
      requires pool.Valid() && id in pool.index && slot == pool.index[id]
      requires pool.contents[id := o] == orders[id := o]
      modifies this`orders, pool`contents, pool.slots
      ensures Valid() && State() == old(State()).(orders := old(orders)[id := o])
    {
      hide OrderPool.Valid, LevelTable.Valid;
      pool.Fill(id, slot, o);
      orders := orders[id := o];
    }

    /** The last part of an addition. */
    method AddAndCompare(o: Order, cause: Message) returns (tick: Option<Tick>)
      requires Valid() && ValidOrder(State(), o)
      modifies table.repr, table
      ensures Valid()
      ensures (State(), tick) == Emit(AddTo(old(State()), o), TopOf(old(State()), o.symbol), o.symbol, cause)
    {
      hide OrderPool.Valid, LevelTable.Valid;
      var before := TopOfBook(o.symbol);
      AddToSide(o);
      tick := TickIfChanged(before, o.symbol, cause);
    }

    /** Finds or makes the record for an id; an order already there leaves its price level. */
    method Claim(id: OrderId, o: Order) returns (rec: Option<nat>)
      requires Valid()
      modifies table.repr, table, pool, pool.slots
      ensures LevelsValid() && pool.Valid()
      ensures rec.None? <==> |old(orders)| >= pool.slots.Length
      ensures rec.None? ==> pool.contents == orders && State() == old(State())
      ensures rec.Some? ==>
        && id in pool.index && rec.value == pool.index[id]
        && pool.contents[id := o] == orders[id := o]
      ensures rec.Some? ==>
        State() == if id in orders then RemoveFrom(old(State()), old(orders)[id]) else old(State())
    {
      hide OrderPool.Valid, LevelTable.Valid;
      rec := pool.InsertOrder(id);
      if rec.Some? {
        var was := pool.slots[rec.value].order;
        if was.qty > 0 {
          RemoveFromSide(was);
        }
      }
    }

    method OnAdd(m: Message) returns (tick: Option<Tick>)
      requires Valid() && m.AddOrder?
      modifies table.repr, table, this`orders, pool, pool.slots
      ensures Valid() && (State(), tick) == BookStates.OnAdd(old(State()), m)
    {
      hide OrderPool.Valid, LevelTable.Valid, TopOf;
      var o := m.order;
      ghost var b := State();
      if o.symbol >= |last| || !(1 <= o.price <= levels) || o.qty == 0 {
        return None;
      }
      var rec := Claim(m.id, o);
      if rec.None? {
        return None;
      }
      ghost var cleared := if m.id in b.orders then RemoveFrom(b, b.orders[m.id]) else b;
      assert State() == cleared;
      Rewrite(m.id, rec.value, o);
      ghost var placed := cleared.(orders := b.orders[m.id := o]);
      assert State() == placed;
      tick := AddAndCompare(o, m);
    }

    method OnModify(m: Message) returns (tick: Option<Tick>)
      requires Valid() && m.ModifyOrder?
      modifies table.repr, table, this`orders, pool, pool.slots
      ensures Valid() && (State(), tick) == BookStates.OnModify(old(State()), m)
    {
      hide OrderPool.Valid, LevelTable.Valid, TopOf;
      var o := m.order;
      var rec := pool.FindOrder(m.id);
      if rec.None? || o.symbol >= |last| || !(1 <= o.price <= levels) || o.qty == 0 {
        return None;
      }
      var was := pool.slots[rec.value].order;
      var before := TopOfBook(was.symbol);
      RemoveFromSide(was);
      Rewrite(m.id, rec.value, o);
      AddToSide(o);
      tick := TickIfChanged(before, o.symbol, m);
    }

    method OnDelete(m: Message) returns (tick: Option<Tick>)
      requires Valid() && m.DeleteOrder?
      modifies table.repr, table, this`orders, pool, pool.slots
      ensures Valid() && (State(), tick) == BookStates.OnDelete(old(State()), m)
    {
      hide OrderPool.Valid, LevelTable.Valid, TopOf;
      var rec := pool.FindOrder(m.id);
      if rec.None? {
        return None;
      }
      var was := pool.slots[rec.value].order;
      var before := TopOfBook(was.symbol);
      RemoveFromSide(was);
      pool.EraseOrder(m.id);
      orders := orders - {m.id};
      tick := TickIfChanged(before, was.symbol, m);
    }

    method OnTrade(m: Message) returns (tick: Option<Tick>)
      requires Valid() && m.Trade?
      modifies this`last
      ensures Valid() && (State(), tick) == BookStates.OnTrade(old(State()), m)
    {
      hide OrderPool.Valid, LevelTable.Valid;
      var o := m.order;
      if o.symbol >= |last| || !(1 <= o.price <= levels) || o.qty == 0 {
        return None;
      }
      last := last[o.symbol := (o.price, o.qty)];
      var top := TopOfBook(o.symbol);
      tick := Some(Tick(o.symbol, top, last[o.symbol].0, last[o.symbol].1, m));
    }

    /** The dispatch of one parsed message. */
    method Handle(m: Message) returns (tick: Option<Tick>)
      requires Valid()
      modifies table.repr, table, this`orders, this`last, pool, pool.slots
      ensures Valid() && (State(), tick) == BookStates.Handle(old(State()), m)
    {
      hide OrderPool.Valid, LevelTable.Valid, TopOf;
      match m
      case AddOrder(_, _, _, _) => tick := OnAdd(m);
      case ModifyOrder(_, _, _, _) => tick := OnModify(m);
      case DeleteOrder(_, _, _, _) => tick := OnDelete(m);
      case Trade(_, _, _, _) => tick := OnTrade(m);
      case _ => tick := None;
    }
  }
}
