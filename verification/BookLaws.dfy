/**
 What the order book promises: after any run of messages the pool holds the orders that a plain map would,
 every price level holds the sum of the live orders there, and the cached best prices are exact.
 */
module BookLaws {
  import opened Orders
  import opened PriceLevels
  import opened LevelTables
  import opened BookStates

  // ----- the sum of the live orders at a level

  function Share(o: Order, i: nat, price: nat): nat {
    if SideIndex(o.symbol, o.side) == i && o.price == price then o.qty else 0
  }

  ghost function LevelSum(orders: map<OrderId, Order>, i: nat, price: nat): nat
    decreases |orders|
  {
    if orders == map[] then 0 else
      var id :| id in orders;
      Share(orders[id], i, price) + LevelSum(orders - {id}, i, price)
  }

  /** The sum does not depend on the order of summation. */
  lemma {:induction false} LevelSumWithout(orders: map<OrderId, Order>, id: OrderId, i: nat, price: nat)
    requires id in orders
    ensures LevelSum(orders, i, price) == Share(orders[id], i, price) + LevelSum(orders - {id}, i, price)
    decreases |orders|
  {
    var first :| first in orders
      && LevelSum(orders, i, price) == Share(orders[first], i, price) + LevelSum(orders - {first}, i, price);
    if first != id {
      LevelSumWithout(orders - {first}, id, i, price);
      LevelSumWithout(orders - {id}, first, i, price);
      assert orders - {first} - {id} == orders - {id} - {first};
    }
  }

  lemma LevelSumWith(orders: map<OrderId, Order>, id: OrderId, o: Order, i: nat, price: nat)
    ensures LevelSum(orders[id := o], i, price) == Share(o, i, price) + LevelSum(orders - {id}, i, price)
  {
    LevelSumWithout(orders[id := o], id, i, price);
    assert orders[id := o] - {id} == orders - {id};
  }

  /** A level is empty exactly if no live order rests there. */
  lemma {:induction false} LevelSumPositive(orders: map<OrderId, Order>, i: nat, price: nat)
    requires forall id :: id in orders ==> orders[id].qty > 0
    ensures LevelSum(orders, i, price) > 0
       <==> exists id :: id in orders && SideIndex(orders[id].symbol, orders[id].side) == i && orders[id].price == price
    decreases |orders|
  {
    if id :| id in orders && SideIndex(orders[id].symbol, orders[id].side) == i && orders[id].price == price {
      LevelSumWithout(orders, id, i, price);
    } else if orders != map[] {
      var id :| id in orders;
      LevelSumWithout(orders, id, i, price);
      LevelSumPositive(orders - {id}, i, price);
    }
  }

  // ----- the invariant

  /** Side `i` holds the sum of the live orders at every price, and its bitmap and best price agree with it. */
  ghost predicate SideAccurate(b: BookState, i: nat)
    requires i < |b.sides| && SideFits(b.sides[i], b.levels)
  {
    && Coherent(b.sides[i], IsBidIndex(i))
    && forall p :: 0 <= p <= b.levels ==> b.sides[i].qty[p] == LevelSum(b.orders, i, p)
  }

  ghost predicate Accurate(b: BookState) {
    && WellFormed(b)
    && |b.orders| <= b.capacity
    && forall i :: 0 <= i < |b.sides| ==> SideAccurate(b, i)
  }

  /** No level sum reaches 2^32, the range of the quantity fields. */
  ghost predicate Fits(orders: map<OrderId, Order>) {
    forall i, p :: LevelSum(orders, i, p) < U32
  }

  lemma AddedQty(s: SideState, price: nat, qty: nat, isBid: bool)
    requires price < |s.qty| && s.qty[price] + qty < U32
    ensures LevelAdded(s, price, qty, isBid).qty == s.qty[price := s.qty[price] + qty]
  {
  }

  lemma RemovedQty(s: SideState, price: nat, qty: nat, isBid: bool)
    requires price < |s.qty| && qty <= s.qty[price]
    ensures LevelRemoved(s, price, qty, isBid).qty == s.qty[price := s.qty[price] - qty]
  {
  }

  /** Taking an order out of its level, and out of the map. */
  lemma RemoveKeepsAccurate(b: BookState, id: OrderId)
    requires Accurate(b) && id in b.orders
    ensures Accurate(RemoveFrom(b, b.orders[id]).(orders := b.orders - {id}))
  {
    hide LevelSum, Coherent, LevelRemoved;
    var o := b.orders[id];
    var i := SideIndex(o.symbol, o.side);
    LevelSumWithout(b.orders, id, i, o.price);
    assert SideAccurate(b, i);
    RemovedQty(b.sides[i], o.price, o.qty, IsBidIndex(i));
    var b' := RemoveFrom(b, o).(orders := b.orders - {id});
    forall j | 0 <= j < |b.sides|
      ensures SideAccurate(b', j)
    {
      assert SideAccurate(b, j);
      if j == i {
        RemoveKeepsCoherent(b.sides[i], o.price, o.qty, IsBidIndex(i));
      }
      forall p | 0 <= p <= b.levels
        ensures b'.sides[j].qty[p] == LevelSum(b'.orders, j, p)
      {
        LevelSumWithout(b.orders, id, j, p);
      }
    }
    assert b.orders.Keys == (b.orders - {id}).Keys + {id};
  }

  lemma AddedSideAccurate(b: BookState, id: OrderId, o: Order, j: nat)
    requires WellFormed(b) && id !in b.orders && ValidOrder(b, o)
    requires j < |b.sides| && SideAccurate(b, j)
    requires LevelSum(b.orders[id := o], SideIndex(o.symbol, o.side), o.price) < U32
    ensures SideAccurate(AddTo(b.(orders := b.orders[id := o]), o), j)
  {
    hide LevelSum, Coherent, LevelAdded;
    var b' := AddTo(b.(orders := b.orders[id := o]), o);
    assert b.orders - {id} == b.orders;
    if j == SideIndex(o.symbol, o.side) {
      LevelSumWith(b.orders, id, o, j, o.price);
      AddedQty(b.sides[j], o.price, o.qty, IsBidIndex(j));
      AddKeepsCoherent(b.sides[j], o.price, o.qty, IsBidIndex(j));
    }
    forall p | 0 <= p <= b.levels
      ensures b'.sides[j].qty[p] == LevelSum(b'.orders, j, p)
    {
      LevelSumWith(b.orders, id, o, j, p);
    }
  }

  /** Adding an order with a new id to its level, and to the map, when the level's sum stays in range. */
  lemma AddKeepsAccurate(b: BookState, id: OrderId, o: Order)
    requires Accurate(b) && id !in b.orders && ValidOrder(b, o) && |b.orders| < b.capacity
    requires LevelSum(b.orders[id := o], SideIndex(o.symbol, o.side), o.price) < U32
    ensures Accurate(AddTo(b.(orders := b.orders[id := o]), o))
  {
    hide LevelSum, SideAccurate;
    var b' := AddTo(b.(orders := b.orders[id := o]), o);
    forall j | 0 <= j < |b.sides|
      ensures SideAccurate(b', j)
    {
      AddedSideAccurate(b, id, o, j);
    }
    assert b.orders[id := o].Keys == b.orders.Keys + {id};
  }

  // ----- runs of messages

  /** The plain specification of the order pool: a map from ids to orders, with room for `capacity` of them. */
  function PlainStep(capacity: nat, symbols: nat, levels: nat, orders: map<OrderId, Order>, m: Message)
    : map<OrderId, Order>
  {
    match m
    case AddOrder(_, _, id, o) =>
      if Acceptable(symbols, levels, o) && |orders| < capacity then orders[id := o] else orders
    case ModifyOrder(_, _, id, o) =>
      if id in orders && Acceptable(symbols, levels, o) then orders[id := o] else orders
    case DeleteOrder(_, _, id, _) => orders - {id}
    case _ => orders
  }

  predicate Acceptable(symbols: nat, levels: nat, o: Order) {
    o.symbol < symbols && 1 <= o.price <= levels && o.qty > 0
  }

  function PlainOrders(capacity: nat, symbols: nat, levels: nat, ms: seq<Message>): map<OrderId, Order> {
    if ms == [] then map[] else
      PlainStep(capacity, symbols, levels, PlainOrders(capacity, symbols, levels, ms[..|ms| - 1]), ms[|ms| - 1])
  }

  function OrdersAfter(b: BookState, m: Message): map<OrderId, Order> {
    PlainStep(b.capacity, |b.last|, b.levels, b.orders, m)
  }

  /** The book after a run of messages. */
  function Run(b: BookState, ms: seq<Message>): (b': BookState)
    requires WellFormed(b)
    ensures WellFormed(b')
  {
    if ms == [] then b else Handle(Run(b, ms[..|ms| - 1]), ms[|ms| - 1]).0
  }

  /** Replacing, or adding, the order with a given id. */
  lemma ReplaceKeepsAccurate(b: BookState, id: OrderId, o: Order)
    requires Accurate(b) && ValidOrder(b, o) && (id in b.orders || |b.orders| < b.capacity)
    requires Fits(b.orders[id := o])
    ensures var cleared := if id in b.orders then RemoveFrom(b, b.orders[id]) else b;
            Accurate(AddTo(cleared.(orders := b.orders[id := o]), o))
  {
    hide LevelSum, SideAccurate, LevelAdded, LevelRemoved;
    if id in b.orders {
      RemoveKeepsAccurate(b, id);
      var without := RemoveFrom(b, b.orders[id]).(orders := b.orders - {id});
      assert without.orders[id := o] == b.orders[id := o];
      assert b.orders.Keys == without.orders.Keys + {id};
      AddKeepsAccurate(without, id, o);
    } else {
      AddKeepsAccurate(b, id, o);
    }
  }

  lemma TradeKeepsAccurate(b: BookState, last: seq<(nat, nat)>)
    requires Accurate(b) && |last| == |b.last|
    ensures Accurate(b.(last := last))
  {
    hide LevelSum, Coherent;
    forall j | 0 <= j < |b.sides|
      ensures SideAccurate(b.(last := last), j)
    {
      assert SideAccurate(b, j);
    }
  }

  /** On every side, quantities are 32-bit numbers that have their bits, and the best price is that of the bits. */
  ghost predicate SidesMarked(b: BookState) {
    forall i :: 0 <= i < |b.sides| ==> Marked(b.sides[i], IsBidIndex(i))
  }

  lemma UpdatesKeepMarked(b: BookState, o: Order)
    requires WellFormed(b) && ValidOrder(b, o) && SidesMarked(b)
    ensures SidesMarked(AddTo(b, o)) && SidesMarked(RemoveFrom(b, o))
  {
    hide LevelAdded, LevelRemoved, Marked;
    var i := SideIndex(o.symbol, o.side);
    AddMarks(b.sides[i], b.levels, o, IsBidIndex(i));
  }

  lemma AddMarks(s: SideState, levels: nat, o: Order, isBid: bool)
    requires SideFits(s, levels) && 1 <= o.price <= levels && Marked(s, isBid)
    ensures Marked(LevelAdded(s, o.price, o.qty, isBid), isBid)
    ensures Marked(LevelRemoved(s, o.price, o.qty, isBid), isBid)
  {
    AddKeepsMarked(s, o.price, o.qty, isBid);
    RemoveKeepsMarked(s, o.price, o.qty, isBid);
  }

  /** Every message keeps bits and best prices in step, whether or not quantities wrap around. */
  lemma HandleKeepsMarked(b: BookState, m: Message)
    requires WellFormed(b) && SidesMarked(b)
    ensures SidesMarked(Handle(b, m).0)
  {
    hide LevelAdded, LevelRemoved, TopOf;
    match m
    case AddOrder(_, _, id, o) =>
      if ValidOrder(b, o) && |b.orders| < b.capacity {
        var cleared := if id in b.orders then RemoveFrom(b, b.orders[id]) else b;
        if id in b.orders {
          UpdatesKeepMarked(b, b.orders[id]);
        }
        UpdatesKeepMarked(cleared.(orders := b.orders[id := o]), o);
      }
    case ModifyOrder(_, _, id, o) =>
      if id in b.orders && ValidOrder(b, o) {
        UpdatesKeepMarked(b, b.orders[id]);
        UpdatesKeepMarked(RemoveFrom(b, b.orders[id]).(orders := b.orders[id := o]), o);
      }
    case DeleteOrder(_, _, id, _) =>
      if id in b.orders {
        UpdatesKeepMarked(b, b.orders[id]);
      }
    case _ =>
  }

  lemma UpdatesKeepOrdersAndSizes(b: BookState, o: Order)
    requires WellFormed(b) && ValidOrder(b, o)
    ensures AddTo(b, o) == b.(sides := AddTo(b, o).sides)
    ensures RemoveFrom(b, o) == b.(sides := RemoveFrom(b, o).sides)
  {
  }

  predicate SameSizes(b: BookState, b': BookState) {
    b'.capacity == b.capacity && b'.levels == b.levels && |b'.last| == |b.last|
  }

  /** Replacing an order, or adding one, changes the map as on a plain map, and no size. */
  lemma ReplaceKeepsOrdersAndSizes(b: BookState, id: OrderId, o: Order)
    requires WellFormed(b) && ValidOrder(b, o)
    ensures var cleared := if id in b.orders then RemoveFrom(b, b.orders[id]) else b;
            var b' := AddTo(cleared.(orders := b.orders[id := o]), o);
            b'.orders == b.orders[id := o] && SameSizes(b, b')
  {
    hide AddTo, RemoveFrom, SideFits;
    if id in b.orders {
      UpdatesKeepOrdersAndSizes(b, b.orders[id]);
    }
    var cleared := if id in b.orders then RemoveFrom(b, b.orders[id]) else b;
    UpdatesKeepOrdersAndSizes(cleared.(orders := b.orders[id := o]), o);
  }

  lemma AddKeepsOrdersAndSizes(b: BookState, m: Message)
    requires WellFormed(b) && m.AddOrder?
    ensures var b' := OnAdd(b, m).0;
            b'.orders == OrdersAfter(b, m) && SameSizes(b, b')
  {
    hide AddTo, RemoveFrom, TopOf, SideFits;
    if ValidOrder(b, m.order) && |b.orders| < b.capacity {
      ReplaceKeepsOrdersAndSizes(b, m.id, m.order);
    }
  }

  lemma ModifyKeepsOrdersAndSizes(b: BookState, m: Message)
    requires WellFormed(b) && m.ModifyOrder?
    ensures var b' := OnModify(b, m).0;
            b'.orders == OrdersAfter(b, m) && SameSizes(b, b')
  {
    hide AddTo, RemoveFrom, TopOf, SideFits;
    if ValidOrder(b, m.order) && m.id in b.orders {
      ReplaceKeepsOrdersAndSizes(b, m.id, m.order);
    }
  }

  lemma DeleteKeepsOrdersAndSizes(b: BookState, m: Message)
    requires WellFormed(b) && m.DeleteOrder?
    ensures var b' := OnDelete(b, m).0;
            b'.orders == b.orders - {m.id} && SameSizes(b, b')
  {
    hide RemoveFrom, TopOf, SideFits;
    if m.id in b.orders {
      UpdatesKeepOrdersAndSizes(b, b.orders[m.id]);
    } else {
      assert b.orders - {m.id} == b.orders;
    }
  }

  lemma TradeKeepsOrdersAndSizes(b: BookState, m: Message)
    requires WellFormed(b) && m.Trade?
    ensures var b' := OnTrade(b, m).0;
            b'.orders == b.orders && SameSizes(b, b')
  {
    hide TopOf, SideFits;
  }

  lemma HandleKeepsOrdersAndSizes(b: BookState, m: Message)
    requires WellFormed(b)
    ensures var b' := Handle(b, m).0;
            b'.orders == OrdersAfter(b, m) && SameSizes(b, b')
  {
    hide OnAdd, OnModify, OnDelete, OnTrade, WellFormed;
    match m
    case AddOrder(_, _, _, _) => AddKeepsOrdersAndSizes(b, m);
    case ModifyOrder(_, _, _, _) => ModifyKeepsOrdersAndSizes(b, m);
    case DeleteOrder(_, _, _, _) => DeleteKeepsOrdersAndSizes(b, m);
    case Trade(_, _, _, _) => TradeKeepsOrdersAndSizes(b, m);
    case _ =>
  }

  lemma AddKeepsBookAccurate(b: BookState, m: Message)
    requires m.AddOrder? && Accurate(b) && Fits(OrdersAfter(b, m))
    ensures Accurate(OnAdd(b, m).0)
  {
    hide LevelSum, SideAccurate, Fits, AddTo, RemoveFrom, TopOf;
    if ValidOrder(b, m.order) && |b.orders| < b.capacity {
      ReplaceKeepsAccurate(b, m.id, m.order);
    }
  }

  lemma ModifyKeepsBookAccurate(b: BookState, m: Message)
    requires m.ModifyOrder? && Accurate(b) && Fits(OrdersAfter(b, m))
    ensures Accurate(OnModify(b, m).0)
  {
    hide LevelSum, SideAccurate, Fits, AddTo, RemoveFrom, TopOf;
    if m.id in b.orders && ValidOrder(b, m.order) {
      ReplaceKeepsAccurate(b, m.id, m.order);
    }
  }

  lemma DeleteKeepsBookAccurate(b: BookState, m: Message)
    requires m.DeleteOrder? && Accurate(b)
    ensures Accurate(OnDelete(b, m).0)
  {
    hide LevelSum, SideAccurate, RemoveFrom, TopOf;
    if m.id in b.orders {
      RemoveKeepsAccurate(b, m.id);
    }
  }

  /** Every message keeps the book accurate, as long as the level sums stay in range. */
  lemma HandleKeepsAccurate(b: BookState, m: Message)
    requires Accurate(b) && Fits(OrdersAfter(b, m))
    ensures var b' := Handle(b, m).0;
            Accurate(b') && b'.orders == OrdersAfter(b, m)
  {
    HandleKeepsOrdersAndSizes(b, m);
    hide SideAccurate, Fits, OnAdd, OnModify, OnDelete, PlainStep, TopOf;
    match m
    case AddOrder(_, _, _, _) => AddKeepsBookAccurate(b, m);
    case ModifyOrder(_, _, _, _) => ModifyKeepsBookAccurate(b, m);
    case DeleteOrder(_, _, _, _) => DeleteKeepsBookAccurate(b, m);
    case Trade(_, _, _, _) => TradeKeepsAccurate(b, OnTrade(b, m).0.last);
    case _ =>
  }

  /** With or without overflow, the pool holds the orders of the plain map, and quantities are 32-bit numbers. */
  lemma {:induction false} RunKeepsOrdersAndSizes(capacity: nat, symbols: nat, levels: nat, ms: seq<Message>)
    ensures var b := Run(EmptyBook(capacity, symbols, levels), ms);
            && b.orders == PlainOrders(capacity, symbols, levels, ms)
            && b.capacity == capacity && b.levels == levels && |b.last| == symbols
            && SidesMarked(b)
  {
    if ms != [] {
      RunKeepsOrdersAndSizes(capacity, symbols, levels, ms[..|ms| - 1]);
      HandleKeepsOrdersAndSizes(Run(EmptyBook(capacity, symbols, levels), ms[..|ms| - 1]), ms[|ms| - 1]);
      HandleKeepsMarked(Run(EmptyBook(capacity, symbols, levels), ms[..|ms| - 1]), ms[|ms| - 1]);
    }
  }

  /** No level sum reaches 2^32 at any point of the run. */
  ghost predicate AlwaysFits(capacity: nat, symbols: nat, levels: nat, ms: seq<Message>) {
    forall k :: 0 <= k <= |ms| ==> Fits(PlainOrders(capacity, symbols, levels, ms[..k]))
  }

  lemma EmptyBookIsAccurate(capacity: nat, symbols: nat, levels: nat)
    ensures Accurate(EmptyBook(capacity, symbols, levels))
  {
    var b := EmptyBook(capacity, symbols, levels);
    forall i | 0 <= i < |b.sides|
      ensures SideAccurate(b, i)
    {
      assert b.sides[i] == EmptySide(levels + 1);
    }
  }

  /** Whole runs: the book represents the plain map, and every level and best price is exact. */
  lemma {:induction false} RunIsAccurate(capacity: nat, symbols: nat, levels: nat, ms: seq<Message>)
    requires AlwaysFits(capacity, symbols, levels, ms)
    ensures var b := Run(EmptyBook(capacity, symbols, levels), ms);
            Accurate(b) && b.orders == PlainOrders(capacity, symbols, levels, ms)
  {
    hide LevelSum, Accurate, Fits;
    RunKeepsOrdersAndSizes(capacity, symbols, levels, ms);
    if ms == [] {
      EmptyBookIsAccurate(capacity, symbols, levels);
    } else {
      var before := ms[..|ms| - 1];
      assert forall k :: 0 <= k <= |before| ==> before[..k] == ms[..k];
      RunIsAccurate(capacity, symbols, levels, before);
      RunKeepsOrdersAndSizes(capacity, symbols, levels, before);
      assert ms[..|ms|] == ms;
      HandleKeepsAccurate(Run(EmptyBook(capacity, symbols, levels), before), ms[|ms| - 1]);
    }
  }

  /** Every level of `b` holds exactly the sum of the live orders there. */
  ghost predicate LevelsExact(b: BookState)
    requires WellFormed(b)
  {
    forall i, p :: 0 <= i < |b.sides| && 0 <= p <= b.levels ==> b.sides[i].qty[p] == LevelSum(b.orders, i, p)
  }

  lemma {:induction false} NothingElsewhere(b: BookState, orders: map<OrderId, Order>, i: nat, price: nat)
    requires WellFormed(b) && (i >= |b.sides| || price > b.levels)
    requires forall id :: id in orders ==> ValidOrder(b, orders[id])
    ensures LevelSum(orders, i, price) == 0
    decreases |orders|
  {
    if orders != map[] {
      var id :| id in orders;
      LevelSumWithout(orders, id, i, price);
      NothingElsewhere(b, orders - {id}, i, price);
    }
  }

  /** The quantities are exact throughout a run if and only if no level sum ever leaves the 32-bit range. */
  lemma ExactIffFits(capacity: nat, symbols: nat, levels: nat, ms: seq<Message>)
    ensures (forall k :: 0 <= k <= |ms| ==> LevelsExact(Run(EmptyBook(capacity, symbols, levels), ms[..k])))
       <==> AlwaysFits(capacity, symbols, levels, ms)
  {
    hide LevelSum;
    var e := EmptyBook(capacity, symbols, levels);
    if forall k :: 0 <= k <= |ms| ==> LevelsExact(Run(e, ms[..k])) {
      forall k | 0 <= k <= |ms|
        ensures Fits(PlainOrders(capacity, symbols, levels, ms[..k]))
      {
        RunKeepsOrdersAndSizes(capacity, symbols, levels, ms[..k]);
        ExactFits(Run(e, ms[..k]));
      }
    }
    if AlwaysFits(capacity, symbols, levels, ms) {
      forall k | 0 <= k <= |ms|
        ensures LevelsExact(Run(e, ms[..k]))
      {
        assert forall j :: 0 <= j <= k ==> ms[..k][..j] == ms[..j];
        RunIsAccurate(capacity, symbols, levels, ms[..k]);
        AccurateIsExact(Run(e, ms[..k]));
      }
    }
  }

  lemma ExactFits(b: BookState)
    requires WellFormed(b) && LevelsExact(b)
    requires SidesMarked(b)
    ensures Fits(b.orders)
  {
    hide LevelSum;
    forall i: nat, p: nat
      ensures LevelSum(b.orders, i, p) < U32
    {
      if i >= |b.sides| || p > b.levels {
        NothingElsewhere(b, b.orders, i, p);
      }
    }
  }

  lemma AccurateIsExact(b: BookState)
    requires Accurate(b)
    ensures LevelsExact(b)
  {
    hide LevelSum, Coherent;
    forall i, p | 0 <= i < |b.sides| && 0 <= p <= b.levels
      ensures b.sides[i].qty[p] == LevelSum(b.orders, i, p)
    {
      assert SideAccurate(b, i);
    }
  }

  const HALF := Order(0, Buy, 1, 0x8000_0000)

  function OneHalf(): BookState {
    BookState(4, 1, map[1 := HALF], [SideState([0, 0x8000_0000], {1}, 1), EmptySide(2)], [(0, 0)])
  }

  lemma LevelsOfHalves()
    ensures LevelAdded(EmptySide(2), 1, 0x8000_0000, true) == SideState([0, 0x8000_0000], {1}, 1)
    ensures LevelAdded(SideState([0, 0x8000_0000], {1}, 1), 1, 0x8000_0000, true) == SideState([0, 0], {1}, 1)
  {
    assert LevelAdded(EmptySide(2), 1, 0x8000_0000, true).qty == [0, 0x8000_0000];
    assert LevelAdded(SideState([0, 0x8000_0000], {1}, 1), 1, 0x8000_0000, true).qty == [0, 0];
  }

  lemma OneHalfIsReached(m: Message)
    requires m == AddOrder(1, 0, 1, HALF)
    ensures Handle(EmptyBook(4, 1, 1), m).0 == OneHalf()
  {
    hide LevelAdded, TopOf;
    LevelsOfHalves();
    assert Handle(EmptyBook(4, 1, 1), m).0.sides == OneHalf().sides;
  }

  lemma SecondHalfOverflows(m: Message)
    requires m == AddOrder(2, 0, 2, HALF)
    ensures var b := Handle(OneHalf(), m).0;
            b.sides[0].qty[1] == 0 && b.orders == map[1 := HALF, 2 := HALF]
  {
    hide LevelAdded, TopOf;
    LevelsOfHalves();
    assert |OneHalf().orders| == 1;
  }

  lemma SumOfHalves()
    ensures LevelSum(map[1 := HALF, 2 := HALF], 0, 1) == U32
  {
    hide LevelSum;
    var one: map<OrderId, Order>, none: map<OrderId, Order> := map[1 := HALF], map[];
    LevelSumWith(one, 2, HALF, 0, 1);
    LevelSumWith(none, 1, HALF, 0, 1);
    assert one - {2} == one && none - {1} == none && one == none[1 := HALF];
    assert map[1 := HALF, 2 := HALF] == one[2 := HALF];
    NoOrdersNoSum();
  }

  /** Two orders of 2^31 at one level: the level shows 0, although both orders rest there. */
  lemma OverflowLosesQuantity(m1: Message, m2: Message)
    requires m1 == AddOrder(1, 0, 1, HALF) && m2 == AddOrder(2, 0, 2, HALF)
    ensures var b := Handle(Handle(EmptyBook(4, 1, 1), m1).0, m2).0;
            |b.sides| == 2 && |b.sides[0].qty| == 2 && b.sides[0].qty[1] == 0 && LevelSum(b.orders, 0, 1) == U32
  {
    hide LevelSum, Handle;
    OneHalfIsReached(m1);
    SecondHalfOverflows(m2);
    SumOfHalves();
    HandleKeepsOrdersAndSizes(OneHalf(), m2);
  }

  lemma NoOrdersNoSum()
    ensures LevelSum(map[], 0, 1) == 0
  {
  }

  // ----- best prices

  ghost predicate Rests(orders: map<OrderId, Order>, id: OrderId, symbol: nat, side: Side) {
    id in orders && orders[id].symbol == symbol && orders[id].side == side
  }

  /** `price` is the best among the live orders of a side: the highest bid or the lowest ask, 0 if there is none. */
  ghost predicate BestAmongOrders(orders: map<OrderId, Order>, symbol: nat, side: Side, price: nat) {
    if exists id :: Rests(orders, id, symbol, side) then
      && (exists id :: Rests(orders, id, symbol, side) && orders[id].price == price)
      && (forall id :: Rests(orders, id, symbol, side) ==>
            if side == Buy then orders[id].price <= price else price <= orders[id].price)
    else
      price == 0
  }

  lemma BestIsBestAmongOrders(b: BookState, symbol: nat, side: Side)
    requires Accurate(b) && symbol < |b.last|
    ensures BestAmongOrders(b.orders, symbol, side, b.sides[SideIndex(symbol, side)].best)
  {
    hide LevelSum;
    var i := SideIndex(symbol, side);
    var s := b.sides[i];
    assert SideAccurate(b, i);
    forall p | 0 <= p <= b.levels
      ensures p in s.occ <==> exists id :: Rests(b.orders, id, symbol, side) && b.orders[id].price == p
    {
      LevelSumPositive(b.orders, i, p);
    }
    forall id | Rests(b.orders, id, symbol, side)
      ensures b.orders[id].price in s.occ
    {
      assert ValidOrder(b, b.orders[id]);
    }
    if s.occ != {} {
      var id :| Rests(b.orders, id, symbol, side) && b.orders[id].price == s.best;
    }
  }

  /** The top of book is the one computed from the live orders. */
  lemma TopIsBestOfLiveOrders(b: BookState, symbol: nat)
    requires Accurate(b) && symbol < |b.last|
    ensures var t := TopOf(b, symbol);
            && BestAmongOrders(b.orders, symbol, Buy, t.bidPrice)
            && BestAmongOrders(b.orders, symbol, Sell, t.askPrice)
            && t.bidQty == LevelSum(b.orders, SideIndex(symbol, Buy), t.bidPrice)
            && t.askQty == LevelSum(b.orders, SideIndex(symbol, Sell), t.askPrice)
  {
    hide LevelSum, BestAmongOrders;
    BestIsBestAmongOrders(b, symbol, Buy);
    BestIsBestAmongOrders(b, symbol, Sell);
    assert SideAccurate(b, SideIndex(symbol, Buy)) && SideAccurate(b, SideIndex(symbol, Sell));
  }
}
