/**
 The tick stream. A subscriber keeps, per symbol, the top of book of the last tick it was sent. Two branches
 of the handlers compare the wrong pair of tops; `Hides` says exactly when a message leaves a subscriber with
 a stale top because of that, and `MisTicks` exactly when a tick and a change of some top do not go together.
 */
module TickLaws {
  import opened Orders
  import opened PriceLevels
  import opened LevelTables
  import opened BookStates
  import opened BookLaws

  ghost predicate AtBest(b: BookState, o: Order)
    requires WellFormed(b) && ValidOrder(b, o)
  {
    o.price == b.sides[SideIndex(o.symbol, o.side)].best
  }

  /** An order at this price would rest strictly behind the best price of its side. */
  ghost predicate BehindBest(b: BookState, o: Order)
    requires WellFormed(b) && ValidOrder(b, o)
  {
    var best := b.sides[SideIndex(o.symbol, o.side)].best;
    best != 0 && if o.side == Buy then o.price < best else o.price > best
  }

  /** Taking out a live order changes the top of book exactly if the order rests at the best price. */
  lemma RemovalChangesTop(b: BookState, id: OrderId, symbol: nat)
    requires Accurate(b) && id in b.orders && symbol < |b.last|
    ensures TopOf(RemoveFrom(b, b.orders[id]), symbol) == TopOf(b, symbol)
       <==> symbol != b.orders[id].symbol || !AtBest(b, b.orders[id])
  {
    hide LevelSum;
    var o := b.orders[id];
    var i := SideIndex(o.symbol, o.side);
    LevelSumWithout(b.orders, id, i, o.price);
    assert SideAccurate(b, i);
    RemoveKeepsCoherent(b.sides[i], o.price, o.qty, IsBidIndex(i));
    RemovedQty(b.sides[i], o.price, o.qty, IsBidIndex(i));
  }

  /** Adding an order changes the top of book exactly if it does not rest behind the best price. */
  lemma AdditionChangesTop(b: BookState, o: Order, symbol: nat)
    requires WellFormed(b) && ValidOrder(b, o) && symbol < |b.last|
    requires var i := SideIndex(o.symbol, o.side);
             Coherent(b.sides[i], IsBidIndex(i)) && b.sides[i].qty[o.price] + o.qty < U32
    ensures TopOf(AddTo(b, o), symbol) == TopOf(b, symbol) <==> symbol != o.symbol || BehindBest(b, o)
  {
  }

  /** The message makes the top of some symbol change without a tick that says so. */
  ghost predicate Hides(b: BookState, m: Message)
    requires WellFormed(b)
  {
    match m
    case AddOrder(_, _, id, o) =>
      && ValidOrder(b, o) && |b.orders| < b.capacity && id in b.orders
      && AtBest(b, b.orders[id])
      && (b.orders[id].symbol != o.symbol || BehindBest(RemoveFrom(b, b.orders[id]), o))
    case ModifyOrder(_, _, id, o) =>
      && ValidOrder(b, o) && id in b.orders && b.orders[id].symbol != o.symbol
      && (AtBest(b, b.orders[id])
          || (!BehindBest(b, o) && TopOf(b, b.orders[id].symbol) == TopOf(AddTo(b, o), o.symbol)))
    case _ => false
  }

  /** What a subscriber knows after a message: the last tick's top per symbol. */
  function Shown(shown: seq<Top>, tick: Option<Tick>): seq<Top> {
    if tick.Some? && tick.value.symbol < |shown| then shown[tick.value.symbol := tick.value.top] else shown
  }

  ghost predicate ShowsTops(shown: seq<Top>, b: BookState)
    requires WellFormed(b)
  {
    |shown| == |b.last| && forall s :: 0 <= s < |shown| ==> shown[s] == TopOf(b, s)
  }

  /** The level that an accepted order joins stays in range, and its side is coherent once the old order is out. */
  lemma RoomAtLevel(b: BookState, id: OrderId, o: Order)
    requires Accurate(b) && ValidOrder(b, o) && Fits(b.orders[id := o])
    ensures var cleared := if id in b.orders then RemoveFrom(b, b.orders[id]) else b;
            var i := SideIndex(o.symbol, o.side);
            Coherent(cleared.sides[i], IsBidIndex(i)) && cleared.sides[i].qty[o.price] + o.qty < U32
  {
    hide LevelSum, Coherent, LevelRemoved;
    var i := SideIndex(o.symbol, o.side);
    assert SideAccurate(b, i);
    LevelSumWith(b.orders, id, o, i, o.price);
    if id in b.orders {
      RemoveKeepsAccurate(b, id);
      var without := RemoveFrom(b, b.orders[id]).(orders := b.orders - {id});
      assert SideAccurate(without, i);
    } else {
      assert b.orders - {id} == b.orders;
    }
  }

  lemma TopIgnoresOrders(b: BookState, orders: map<OrderId, Order>, symbol: nat)
    requires WellFormed(b) && WellFormed(b.(orders := orders))
    ensures TopOf(b.(orders := orders), symbol) == TopOf(b, symbol)
  {
  }

  /** The two steps of a replacement, and which tops each of them changes. */
  lemma ReplacementChangesTops(b: BookState, id: OrderId, o: Order, s: nat)
    requires Accurate(b) && ValidOrder(b, o) && Fits(b.orders[id := o]) && s < |b.last|
    ensures var cleared := if id in b.orders then RemoveFrom(b, b.orders[id]) else b;
            var placed := cleared.(orders := b.orders[id := o]);
            && (TopOf(cleared, s) == TopOf(b, s)
                <==> id !in b.orders || s != b.orders[id].symbol || !AtBest(b, b.orders[id]))
            && TopOf(placed, s) == TopOf(cleared, s)
            && (TopOf(AddTo(placed, o), s) == TopOf(cleared, s) <==> s != o.symbol || BehindBest(cleared, o))
  {
    hide LevelSum, TopOf, Coherent, Fits, LevelAdded, LevelRemoved, SideAccurate;
    var cleared := if id in b.orders then RemoveFrom(b, b.orders[id]) else b;
    var placed := cleared.(orders := b.orders[id := o]);
    if id in b.orders {
      RemovalChangesTop(b, id, s);
    }
    TopIgnoresOrders(cleared, b.orders[id := o], s);
    RoomAtLevel(b, id, o);
    AdditionChangesTop(placed, o, s);
  }

  /** What the comparison of two tops means for a subscriber. */
  lemma EmissionShows(b: BookState, shown: seq<Top>, b': BookState, before: Top, symbol: nat, m: Message)
    requires WellFormed(b) && WellFormed(b') && |b'.last| == |b.last| && symbol < |b.last| && ShowsTops(shown, b)
    ensures ShowsTops(Shown(shown, Emit(b', before, symbol, m).1), b')
       <==> && (forall s :: 0 <= s < |b.last| && s != symbol ==> TopOf(b', s) == TopOf(b, s))
            && (before == TopOf(b', symbol) ==> TopOf(b', symbol) == TopOf(b, symbol))
  {
    hide TopOf;
    var shown' := Shown(shown, Emit(b', before, symbol, m).1);
    if ShowsTops(shown', b') {
      forall s | 0 <= s < |b.last| && s != symbol
        ensures TopOf(b', s) == TopOf(b, s)
      {
        assert shown'[s] == shown[s];
      }
      assert shown'[symbol] == TopOf(b', symbol) && shown[symbol] == TopOf(b, symbol);
    }
  }

  lemma AddShownIffNotHidden(b: BookState, shown: seq<Top>, m: Message)
    requires m.AddOrder? && Accurate(b) && Fits(OrdersAfter(b, m)) && ShowsTops(shown, b)
    requires ValidOrder(b, m.order) && |b.orders| < b.capacity
    ensures var r := Handle(b, m);
            ShowsTops(Shown(shown, r.1), r.0) <==> !Hides(b, m)
  {
    hide LevelSum, TopOf, Coherent, Fits, LevelAdded, LevelRemoved, SideAccurate, AtBest, BehindBest, ShowsTops;
    var o := m.order;
    var cleared := if m.id in b.orders then RemoveFrom(b, b.orders[m.id]) else b;
    var placed := cleared.(orders := b.orders[m.id := o]);
    var b' := AddTo(placed, o);
    EmissionShows(b, shown, b', TopOf(placed, o.symbol), o.symbol, m);
    forall s | 0 <= s < |b.last|
      ensures s != o.symbol ==>
        (TopOf(b', s) == TopOf(b, s) <==> m.id !in b.orders || s != b.orders[m.id].symbol || !AtBest(b, b.orders[m.id]))
    {
      ReplacementChangesTops(b, m.id, o, s);
    }
    ReplacementChangesTops(b, m.id, o, o.symbol);
    if m.id in b.orders && b.orders[m.id].symbol != o.symbol {
      var s := b.orders[m.id].symbol;
      assert s < |b.last| && (TopOf(b', s) == TopOf(b, s) <==> !AtBest(b, b.orders[m.id]));
    }
  }

  lemma ModifyShownIffNotHidden(b: BookState, shown: seq<Top>, m: Message)
    requires m.ModifyOrder? && Accurate(b) && Fits(OrdersAfter(b, m)) && ShowsTops(shown, b)
    requires ValidOrder(b, m.order) && m.id in b.orders
    ensures var r := Handle(b, m);
            ShowsTops(Shown(shown, r.1), r.0) <==> !Hides(b, m)
  {
    hide LevelSum, TopOf, Coherent, Fits, LevelAdded, LevelRemoved, SideAccurate, AtBest, BehindBest, ShowsTops;
    var o, old' := m.order, b.orders[m.id];
    var placed := RemoveFrom(b, old').(orders := b.orders[m.id := o]);
    var b' := AddTo(placed, o);
    EmissionShows(b, shown, b', TopOf(b, old'.symbol), o.symbol, m);
    forall s | 0 <= s < |b.last|
      ensures s != o.symbol ==> (TopOf(b', s) == TopOf(b, s) <==> s != old'.symbol || !AtBest(b, old'))
    {
      ReplacementChangesTops(b, m.id, o, s);
    }
    ReplacementChangesTops(b, m.id, o, o.symbol);
    if old'.symbol != o.symbol {
      OtherSymbolSame(b, m.id, o);
    }
  }

  /** An order that moves to another symbol joins it as a new one would. */
  lemma OtherSymbolSame(b: BookState, id: OrderId, o: Order)
    requires Accurate(b) && ValidOrder(b, o) && id in b.orders && b.orders[id].symbol != o.symbol
    ensures var cleared := RemoveFrom(b, b.orders[id]);
            && BehindBest(cleared, o) == BehindBest(b, o)
            && TopOf(AddTo(cleared.(orders := b.orders[id := o]), o), o.symbol) == TopOf(AddTo(b, o), o.symbol)
  {
  }

  lemma DeleteShown(b: BookState, shown: seq<Top>, m: Message)
    requires m.DeleteOrder? && Accurate(b) && ShowsTops(shown, b) && m.id in b.orders
    ensures var r := Handle(b, m);
            ShowsTops(Shown(shown, r.1), r.0)
  {
    hide LevelSum, TopOf, Coherent, LevelAdded, LevelRemoved, SideAccurate, AtBest, ShowsTops;
    var o := b.orders[m.id];
    var b' := RemoveFrom(b, o).(orders := b.orders - {m.id});
    EmissionShows(b, shown, b', TopOf(b, o.symbol), o.symbol, m);
    forall s | 0 <= s < |b.last| && s != o.symbol
      ensures TopOf(b', s) == TopOf(b, s)
    {
      RemovalChangesTop(b, m.id, s);
      TopIgnoresOrders(RemoveFrom(b, o), b.orders - {m.id}, s);
    }
  }

  /** A message keeps a subscriber up to date if and only if it does not hide a change. */
  lemma StaysShownIffNotHidden(b: BookState, shown: seq<Top>, m: Message)
    requires Accurate(b) && Fits(OrdersAfter(b, m)) && ShowsTops(shown, b)
    ensures var r := Handle(b, m);
            ShowsTops(Shown(shown, r.1), r.0) <==> !Hides(b, m)
  {
    hide LevelSum, Coherent, Fits, LevelAdded, LevelRemoved, SideAccurate;
    match m
    case AddOrder(_, _, id, o) =>
      if ValidOrder(b, o) && |b.orders| < b.capacity {
        AddShownIffNotHidden(b, shown, m);
      }
    case ModifyOrder(_, _, id, o) =>
      if ValidOrder(b, o) && id in b.orders {
        ModifyShownIffNotHidden(b, shown, m);
      }
    case DeleteOrder(_, _, id, _) =>
      if id in b.orders {
        DeleteShown(b, shown, m);
      }
    case _ =>
  }

  // ----- runs

  /** What a subscriber knows after a run; before any tick it assumes empty books. */
  function ShownAfter(b: BookState, ms: seq<Message>): seq<Top>
    requires WellFormed(b)
  {
    if ms == [] then seq(|b.last|, _ => Top(0, 0, 0, 0)) else
      var before := ms[..|ms| - 1];
      Shown(ShownAfter(b, before), Handle(Run(b, before), ms[|ms| - 1]).1)
  }

  /** After the first `k` messages, the subscriber knows every symbol's top of book. */
  ghost predicate UpToDate(b: BookState, ms: seq<Message>, k: nat)
    requires WellFormed(b) && k <= |ms|
  {
    ShowsTops(ShownAfter(b, ms[..k]), Run(b, ms[..k]))
  }

  ghost predicate HidesAt(b: BookState, ms: seq<Message>, k: nat)
    requires WellFormed(b) && k < |ms|
  {
    Hides(Run(b, ms[..k]), ms[k])
  }

  /** A subscriber is up to date throughout a run if and only if no message of the run hides a change. */
  lemma RunShownIffNothingHidden(capacity: nat, symbols: nat, levels: nat, ms: seq<Message>)
    requires AlwaysFits(capacity, symbols, levels, ms)
    ensures var e := EmptyBook(capacity, symbols, levels);
            (forall k :: 0 <= k <= |ms| ==> UpToDate(e, ms, k)) <==> (forall k :: 0 <= k < |ms| ==> !HidesAt(e, ms, k))
  {
    hide UpToDate, HidesAt;
    var e := EmptyBook(capacity, symbols, levels);
    if forall k :: 0 <= k <= |ms| ==> UpToDate(e, ms, k) {
      forall k | 0 <= k < |ms|
        ensures !HidesAt(e, ms, k)
      {
        assert UpToDate(e, ms, k) && UpToDate(e, ms, k + 1);
        StepInRun(capacity, symbols, levels, ms, k);
      }
    }
    if forall k :: 0 <= k < |ms| ==> !HidesAt(e, ms, k) {
      ShowsEmpty(capacity, symbols, levels, ms);
      var n := 0;
      while n < |ms|
        invariant 0 <= n <= |ms|
        invariant forall k :: 0 <= k <= n ==> UpToDate(e, ms, k)
      {
        StepInRun(capacity, symbols, levels, ms, n);
        n := n + 1;
      }
    }
  }

  lemma ShowsEmpty(capacity: nat, symbols: nat, levels: nat, ms: seq<Message>)
    ensures UpToDate(EmptyBook(capacity, symbols, levels), ms, 0)
  {
  }

  lemma PrefixFits(capacity: nat, symbols: nat, levels: nat, ms: seq<Message>, n: nat)
    requires AlwaysFits(capacity, symbols, levels, ms) && n <= |ms|
    ensures AlwaysFits(capacity, symbols, levels, ms[..n])
  {
    hide Fits, PlainOrders;
    forall j | 0 <= j <= n
      ensures Fits(PlainOrders(capacity, symbols, levels, ms[..n][..j]))
    {
      assert ms[..n][..j] == ms[..j];
    }
  }

  /** Inside a run in range, the book is accurate before message `k`, and the level sums stay in range after it. */
  lemma PrefixIsAccurate(capacity: nat, symbols: nat, levels: nat, ms: seq<Message>, k: nat)
    requires AlwaysFits(capacity, symbols, levels, ms) && k < |ms|
    ensures var b := Run(EmptyBook(capacity, symbols, levels), ms[..k]);
            Accurate(b) && Fits(OrdersAfter(b, ms[k])) && |b.last| == symbols
  {
    hide Accurate, Fits, LevelSum, Handle;
    assert ms[..k + 1][..k] == ms[..k] && ms[..k + 1][k] == ms[k];
    PrefixFits(capacity, symbols, levels, ms, k);
    RunIsAccurate(capacity, symbols, levels, ms[..k]);
    RunKeepsOrdersAndSizes(capacity, symbols, levels, ms[..k]);
    assert Fits(PlainOrders(capacity, symbols, levels, ms[..k + 1]));
  }

  lemma StepInRun(capacity: nat, symbols: nat, levels: nat, ms: seq<Message>, k: nat)
    requires AlwaysFits(capacity, symbols, levels, ms) && k < |ms|
    requires UpToDate(EmptyBook(capacity, symbols, levels), ms, k)
    ensures var e := EmptyBook(capacity, symbols, levels);
            UpToDate(e, ms, k + 1) <==> !HidesAt(e, ms, k)
  {
    hide Hides, ShowsTops, Accurate, Fits, LevelSum, Handle, PlainOrders;
    var e := EmptyBook(capacity, symbols, levels);
    assert ms[..k + 1][..k] == ms[..k] && ms[..k + 1][k] == ms[k];
    PrefixIsAccurate(capacity, symbols, levels, ms, k);
    StaysShownIffNotHidden(Run(e, ms[..k]), ShownAfter(e, ms[..k]), ms[k]);
  }

  /** Additions use new ids, and modifications keep the symbol. */
  predicate Ordinary(orders: map<OrderId, Order>, m: Message) {
    && (m.AddOrder? ==> m.id !in orders)
    && (m.ModifyOrder? && m.id in orders ==> orders[m.id].symbol == m.order.symbol)
  }

  /** The last tick of every symbol carries its current top of book, in every run of ordinary messages. */
  lemma TickStreamIsFaithful(capacity: nat, symbols: nat, levels: nat, ms: seq<Message>)
    requires AlwaysFits(capacity, symbols, levels, ms)
    requires forall k :: 0 <= k < |ms| ==> Ordinary(PlainOrders(capacity, symbols, levels, ms[..k]), ms[k])
    ensures var e := EmptyBook(capacity, symbols, levels);
            ShowsTops(ShownAfter(e, ms), Run(e, ms))
  {
    hide Accurate, Fits, LevelSum, ShowsTops;
    var e := EmptyBook(capacity, symbols, levels);
    forall k | 0 <= k < |ms|
      ensures !HidesAt(e, ms, k)
    {
      RunKeepsOrdersAndSizes(capacity, symbols, levels, ms[..k]);
    }
    RunShownIffNothingHidden(capacity, symbols, levels, ms);
    assert ms[..|ms|] == ms && UpToDate(e, ms, |ms|);
  }

  // ----- a tick exactly when a top changes

  /** The top of some symbol differs between two books. */
  ghost predicate SomeTopChanges(b: BookState, b': BookState)
    requires WellFormed(b) && WellFormed(b')
  {
    exists s :: 0 <= s < |b.last| && TopOf(b', s) != TopOf(b, s)
  }

  /** There is a tick although no top changes, or a top changes and there is no tick. */
  ghost predicate MisTicks(b: BookState, m: Message)
    requires WellFormed(b)
  {
    match m
    case AddOrder(_, _, id, o) =>
      && ValidOrder(b, o) && |b.orders| < b.capacity && id in b.orders
      && AtBest(b, b.orders[id])
      && (o == b.orders[id] || BehindBest(RemoveFrom(b, b.orders[id]), o))
    case ModifyOrder(_, _, id, o) =>
      && ValidOrder(b, o) && id in b.orders && b.orders[id].symbol != o.symbol
      && (TopOf(b, b.orders[id].symbol) == TopOf(AddTo(b, o), o.symbol)
          <==> AtBest(b, b.orders[id]) || !BehindBest(b, o))
    case Trade(_, _, _, o) => ValidOrder(b, o)
    case _ => false
  }

  /** Taking an order from the best level and adding another one restores price and quantity there only if they are alike. */
  lemma BestRestoredIfAlike(s: SideState, price: nat, qty: nat, price': nat, qty': nat, isBid: bool)
    requires Coherent(s, isBid) && 1 <= price < |s.qty| && s.best == price && 0 < qty <= s.qty[price]
    requires 1 <= price' < |s.qty| && qty' > 0 && LevelRemoved(s, price, qty, isBid).qty[price'] + qty' < U32
    ensures var s' := LevelAdded(LevelRemoved(s, price, qty, isBid), price', qty', isBid);
            s'.best == price && s'.qty[price] == s.qty[price] <==> price' == price && qty' == qty
  {
    RemoveKeepsCoherent(s, price, qty, isBid);
    AddKeepsCoherent(LevelRemoved(s, price, qty, isBid), price', qty', isBid);
  }

  /** Replacing an order at the best price, within its symbol, changes the top exactly if the new order is another one. */
  lemma ReplacementAtBestChangesTop(b: BookState, id: OrderId, o: Order)
    requires Accurate(b) && ValidOrder(b, o) && Fits(b.orders[id := o])
    requires id in b.orders && b.orders[id].symbol == o.symbol && AtBest(b, b.orders[id])
    ensures var placed := RemoveFrom(b, b.orders[id]).(orders := b.orders[id := o]);
            TopOf(AddTo(placed, o), o.symbol) == TopOf(b, o.symbol) <==> o == b.orders[id]
  {
    hide LevelSum, LevelAdded, LevelRemoved;
    var old' := b.orders[id];
    var i := SideIndex(old'.symbol, old'.side);
    LevelSumWithout(b.orders, id, i, old'.price);
    assert SideAccurate(b, i);
    RoomAtLevel(b, id, o);
    if o.side == old'.side {
      BestRestoredIfAlike(b.sides[i], old'.price, old'.qty, o.price, o.qty, IsBidIndex(i));
    } else {
      RemovalChangesTop(b, id, o.symbol);
      TopWithoutOther(b, id, o);
    }
  }

  /** An addition to the other side does not touch the side from which the order was taken. */
  lemma TopWithoutOther(b: BookState, id: OrderId, o: Order)
    requires WellFormed(b) && ValidOrder(b, o)
    requires id in b.orders && b.orders[id].symbol == o.symbol && b.orders[id].side != o.side
    ensures var cleared := RemoveFrom(b, b.orders[id]);
            var added := AddTo(cleared.(orders := b.orders[id := o]), o);
            var i := SideIndex(o.symbol, b.orders[id].side);
            added.sides[i] == cleared.sides[i] && SideIndex(o.symbol, o.side) != i
            && cleared.sides[SideIndex(o.symbol, o.side)] == b.sides[SideIndex(o.symbol, o.side)]
  {
  }

  /** Which replacements change some top. */
  lemma ReplacementChangesSomeTop(b: BookState, id: OrderId, o: Order)
    requires Accurate(b) && ValidOrder(b, o) && Fits(b.orders[id := o])
    ensures var cleared := if id in b.orders then RemoveFrom(b, b.orders[id]) else b;
            SomeTopChanges(b, AddTo(cleared.(orders := b.orders[id := o]), o))
            <==> (if id !in b.orders || !AtBest(b, b.orders[id]) then !BehindBest(cleared, o) else b.orders[id] != o)
  {
    hide LevelSum, TopOf, Coherent, Fits, LevelAdded, LevelRemoved, SideAccurate, AtBest, BehindBest;
    var cleared := if id in b.orders then RemoveFrom(b, b.orders[id]) else b;
    var b' := AddTo(cleared.(orders := b.orders[id := o]), o);
    forall s | 0 <= s < |b.last|
      ensures s != o.symbol ==>
        (TopOf(b', s) == TopOf(b, s) <==> id !in b.orders || s != b.orders[id].symbol || !AtBest(b, b.orders[id]))
    {
      ReplacementChangesTops(b, id, o, s);
    }
    ReplacementChangesTops(b, id, o, o.symbol);
    if id in b.orders && AtBest(b, b.orders[id]) {
      var s := b.orders[id].symbol;
      assert ValidOrder(b, b.orders[id]) && s < |b.last|;
      if s == o.symbol {
        ReplacementAtBestChangesTop(b, id, o);
      } else {
        assert TopOf(b', s) != TopOf(b, s);
      }
    }
  }

  /** An order put back where it was taken from does not rest behind the best price. */
  lemma SameOrderNotBehind(b: BookState, id: OrderId)
    requires Accurate(b) && id in b.orders && AtBest(b, b.orders[id])
    ensures !BehindBest(RemoveFrom(b, b.orders[id]), b.orders[id])
  {
    hide LevelSum;
    var o := b.orders[id];
    var i := SideIndex(o.symbol, o.side);
    assert SideAccurate(b, i);
    RemoveKeepsCoherent(b.sides[i], o.price, o.qty, IsBidIndex(i));
  }

  lemma AddTicksIffTopChanges(b: BookState, m: Message)
    requires m.AddOrder? && Accurate(b) && Fits(OrdersAfter(b, m))
    requires ValidOrder(b, m.order) && |b.orders| < b.capacity
    ensures var r := Handle(b, m);
            (r.1.Some? <==> SomeTopChanges(b, r.0)) <==> !MisTicks(b, m)
  {
    hide LevelSum, TopOf, Coherent, Fits, LevelAdded, LevelRemoved, SideAccurate, AtBest, BehindBest, SomeTopChanges;
    ReplacementChangesSomeTop(b, m.id, m.order);
    ReplacementChangesTops(b, m.id, m.order, m.order.symbol);
    if m.id in b.orders && AtBest(b, b.orders[m.id]) {
      SameOrderNotBehind(b, m.id);
    }
  }

  lemma ModifyTicksIffTopChanges(b: BookState, m: Message)
    requires m.ModifyOrder? && Accurate(b) && Fits(OrdersAfter(b, m))
    requires ValidOrder(b, m.order) && m.id in b.orders
    ensures var r := Handle(b, m);
            (r.1.Some? <==> SomeTopChanges(b, r.0)) <==> !MisTicks(b, m)
  {
    hide LevelSum, TopOf, Coherent, Fits, LevelAdded, LevelRemoved, SideAccurate, AtBest, BehindBest;
    var o, old' := m.order, b.orders[m.id];
    ReplacementChangesSomeTop(b, m.id, o);
    ReplacementChangesTops(b, m.id, o, o.symbol);
    var b' := Handle(b, m).0;
    if old'.symbol != o.symbol {
      OtherSymbolSame(b, m.id, o);
      ReplacementChangesTops(b, m.id, o, old'.symbol);
    } else {
      forall s | 0 <= s < |b.last| && s != o.symbol
        ensures TopOf(b', s) == TopOf(b, s)
      {
        ReplacementChangesTops(b, m.id, o, s);
      }
    }
  }

  lemma DeleteTicksIffTopChanges(b: BookState, m: Message)
    requires m.DeleteOrder? && Accurate(b) && m.id in b.orders
    ensures var r := Handle(b, m);
            r.1.Some? <==> SomeTopChanges(b, r.0)
  {
    hide LevelSum, TopOf, Coherent, LevelAdded, LevelRemoved, SideAccurate, AtBest;
    var o := b.orders[m.id];
    var b' := Handle(b, m).0;
    forall s | 0 <= s < |b.last| && s != o.symbol
      ensures TopOf(b', s) == TopOf(b, s)
    {
      RemovalChangesTop(b, m.id, s);
      TopIgnoresOrders(RemoveFrom(b, o), b.orders - {m.id}, s);
    }
  }

  lemma TradeChangesNoTop(b: BookState, m: Message)
    requires m.Trade? && WellFormed(b)
    ensures !SomeTopChanges(b, Handle(b, m).0)
  {
  }

  /** A message emits a tick exactly when the top of some symbol changes, if and only if it does not satisfy `MisTicks`. */
  lemma TickIffTopChanges(b: BookState, m: Message)
    requires Accurate(b) && Fits(OrdersAfter(b, m))
    ensures var r := Handle(b, m);
            (r.1.Some? <==> SomeTopChanges(b, r.0)) <==> !MisTicks(b, m)
    ensures Ordinary(b.orders, m) && !m.Trade? ==> !MisTicks(b, m)
  {
    hide LevelSum, TopOf, Coherent, Fits, LevelAdded, LevelRemoved, SideAccurate, AtBest, BehindBest;
    match m
    case AddOrder(_, _, id, o) =>
      if ValidOrder(b, o) && |b.orders| < b.capacity {
        AddTicksIffTopChanges(b, m);
      }
    case ModifyOrder(_, _, id, o) =>
      if ValidOrder(b, o) && id in b.orders {
        ModifyTicksIffTopChanges(b, m);
      }
    case DeleteOrder(_, _, id, _) =>
      if id in b.orders {
        DeleteTicksIffTopChanges(b, m);
      }
    case Trade(_, _, _, _) => TradeChangesNoTop(b, m);
    case _ =>
  }

  /** Message `k` of a run emits a tick. */
  predicate TicksAt(b: BookState, ms: seq<Message>, k: nat)
    requires WellFormed(b) && k < |ms|
  {
    Handle(Run(b, ms[..k]), ms[k]).1.Some?
  }

  /** Message `k` of a run changes the top of some symbol. */
  ghost predicate TopChangesAt(b: BookState, ms: seq<Message>, k: nat)
    requires WellFormed(b) && k < |ms|
  {
    SomeTopChanges(Run(b, ms[..k]), Run(b, ms[..k + 1]))
  }

  ghost predicate MisTicksAt(b: BookState, ms: seq<Message>, k: nat)
    requires WellFormed(b) && k < |ms|
  {
    MisTicks(Run(b, ms[..k]), ms[k])
  }

  /** In a run, a tick and a change of some top go together at the messages that do not satisfy `MisTicks`, and at no other. */
  lemma RunTicksIffTopChanges(capacity: nat, symbols: nat, levels: nat, ms: seq<Message>, k: nat)
    requires AlwaysFits(capacity, symbols, levels, ms) && k < |ms|
    ensures var e := EmptyBook(capacity, symbols, levels);
            (TicksAt(e, ms, k) <==> TopChangesAt(e, ms, k)) <==> !MisTicksAt(e, ms, k)
  {
    hide MisTicks, SomeTopChanges, Accurate, Fits, LevelSum, Handle, PlainOrders;
    var e := EmptyBook(capacity, symbols, levels);
    PrefixIsAccurate(capacity, symbols, levels, ms, k);
    assert ms[..k + 1][..k] == ms[..k] && ms[..k + 1][k] == ms[k];
    TickIffTopChanges(Run(e, ms[..k]), ms[k]);
  }

  // ----- what a tick says

  /** A tick describes the book after its message: the top and the last trade of the message's symbol. */
  lemma TickDescribesBook(b: BookState, m: Message)
    requires WellFormed(b) && Handle(b, m).1.Some?
    ensures var (b', tick) := (Handle(b, m).0, Handle(b, m).1.value);
            && tick.symbol < |b'.last| && tick.top == TopOf(b', tick.symbol)
            && (tick.lastPrice, tick.lastQty) == b'.last[tick.symbol] && tick.cause == m
            && tick.symbol == (if m.DeleteOrder? then b.orders[m.id].symbol else m.order.symbol)
  {
    hide TopOf, LevelAdded, LevelRemoved;
  }

  /** The price and quantity of a symbol's last accepted trade, zeros if there was none. */
  function LastTrade(symbols: nat, levels: nat, ms: seq<Message>, symbol: nat): (nat, nat) {
    if ms == [] then (0, 0) else
      var m := ms[|ms| - 1];
      if m.Trade? && Acceptable(symbols, levels, m.order) && m.order.symbol == symbol
      then (m.order.price, m.order.qty)
      else LastTrade(symbols, levels, ms[..|ms| - 1], symbol)
  }

  lemma OnlyTradesChangeLast(b: BookState, m: Message)
    requires WellFormed(b)
    ensures Handle(b, m).0.last == if m.Trade? && Acceptable(|b.last|, b.levels, m.order)
                                   then b.last[m.order.symbol := (m.order.price, m.order.qty)] else b.last
  {
    hide LevelAdded, LevelRemoved, TopOf;
  }

  lemma {:induction false} RunKeepsLastTrade(capacity: nat, symbols: nat, levels: nat, ms: seq<Message>, symbol: nat)
    requires symbol < symbols
    ensures var b := Run(EmptyBook(capacity, symbols, levels), ms);
            |b.last| == symbols && b.last[symbol] == LastTrade(symbols, levels, ms, symbol)
  {
    hide Handle, PlainOrders, SidesMarked;
    RunKeepsOrdersAndSizes(capacity, symbols, levels, ms);
    if ms != [] {
      var before := ms[..|ms| - 1];
      RunKeepsLastTrade(capacity, symbols, levels, before, symbol);
      RunKeepsOrdersAndSizes(capacity, symbols, levels, before);
      OnlyTradesChangeLast(Run(EmptyBook(capacity, symbols, levels), before), ms[|ms| - 1]);
    }
  }

  /** The tick carries the best prices and quantities among `orders`, and the last accepted trade of its symbol. */
  ghost predicate DescribesOrders(tick: Tick, symbols: nat, levels: nat, orders: map<OrderId, Order>, ms: seq<Message>) {
    var t := tick.top;
    && tick.symbol < symbols
    && BestAmongOrders(orders, tick.symbol, Buy, t.bidPrice)
    && BestAmongOrders(orders, tick.symbol, Sell, t.askPrice)
    && t.bidQty == LevelSum(orders, SideIndex(tick.symbol, Buy), t.bidPrice)
    && t.askQty == LevelSum(orders, SideIndex(tick.symbol, Sell), t.askPrice)
    && (tick.lastPrice, tick.lastQty) == LastTrade(symbols, levels, ms, tick.symbol)
  }

  /** A tick of a run says what the plain map of orders and the trades so far say about its symbol. */
  lemma TickDescribesOrders(capacity: nat, symbols: nat, levels: nat, ms: seq<Message>, k: nat)
    requires AlwaysFits(capacity, symbols, levels, ms) && k < |ms|
    requires TicksAt(EmptyBook(capacity, symbols, levels), ms, k)
    ensures var tick := Handle(Run(EmptyBook(capacity, symbols, levels), ms[..k]), ms[k]).1.value;
            var orders := PlainOrders(capacity, symbols, levels, ms[..k + 1]);
            tick.cause == ms[k] && DescribesOrders(tick, symbols, levels, orders, ms[..k + 1])
  {
    hide Handle, Accurate, Fits, LevelSum, PlainOrders, BestAmongOrders, LastTrade, TopOf;
    var e := EmptyBook(capacity, symbols, levels);
    assert ms[..k + 1][..k] == ms[..k] && ms[..k + 1][k] == ms[k];
    PrefixFits(capacity, symbols, levels, ms, k + 1);
    RunIsAccurate(capacity, symbols, levels, ms[..k + 1]);
    RunKeepsOrdersAndSizes(capacity, symbols, levels, ms[..k + 1]);
    TickDescribesBook(Run(e, ms[..k]), ms[k]);
    var tick := Handle(Run(e, ms[..k]), ms[k]).1.value;
    TopIsBestOfLiveOrders(Run(e, ms[..k + 1]), tick.symbol);
    RunKeepsLastTrade(capacity, symbols, levels, ms[..k + 1], tick.symbol);
  }

  // ----- examples of a hidden change and of a tick without a change

  const BEST := Order(0, Buy, 3, 5)
  const SECOND := Order(0, Buy, 2, 5)
  const BEHIND := Order(0, Buy, 1, 5)

  function TwoBids(): BookState {
    BookState(4, 3, map[1 := BEST, 2 := SECOND], [SideState([0, 0, 5, 5], {2, 3}, 3), EmptySide(4)], [(0, 0)])
  }

  function OneBid(): BookState {
    BookState(4, 3, map[1 := BEST], [SideState([0, 0, 0, 5], {3}, 3), EmptySide(4)], [(0, 0)])
  }

  lemma LevelsOfExample()
    ensures LevelAdded(EmptySide(4), 3, 5, true) == SideState([0, 0, 0, 5], {3}, 3)
    ensures LevelAdded(SideState([0, 0, 0, 5], {3}, 3), 2, 5, true) == SideState([0, 0, 5, 5], {2, 3}, 3)
  {
    assert LevelAdded(EmptySide(4), 3, 5, true).qty == [0, 0, 0, 5];
    assert LevelAdded(SideState([0, 0, 0, 5], {3}, 3), 2, 5, true).qty == [0, 0, 5, 5];
    assert {3} + {2} == {2, 3};
  }

  lemma OneBidIsReached(m: Message)
    requires m == AddOrder(1, 0, 1, BEST)
    ensures Handle(EmptyBook(4, 1, 3), m).0 == OneBid()
  {
    hide LevelAdded, TopOf;
    LevelsOfExample();
    var b := Handle(EmptyBook(4, 1, 3), m).0;
    assert b.sides == OneBid().sides;
  }

  lemma SecondBidJoins(m: Message)
    requires m == AddOrder(2, 0, 2, SECOND)
    ensures Handle(OneBid(), m).0 == TwoBids()
  {
    hide LevelAdded, TopOf;
    LevelsOfExample();
    var b := Handle(OneBid(), m).0;
    assert |OneBid().orders| == 1;
    assert b.sides == TwoBids().sides;
  }

  lemma TwoBidsIsReached(m1: Message, m2: Message)
    requires m1 == AddOrder(1, 0, 1, BEST) && m2 == AddOrder(2, 0, 2, SECOND)
    ensures Run(EmptyBook(4, 1, 3), [m1, m2]) == TwoBids()
  {
    hide Handle;
    OneBidIsReached(m1);
    SecondBidJoins(m2);
    assert [m1, m2][..1] == [m1] && [m1][..0] == [];
    assert Run(EmptyBook(4, 1, 3), [m1]) == OneBid();
  }

  /** Re-adding the best bid behind the second best lowers the best bid from 3 to 2, but no tick is sent. */
  lemma ReAddHidesChange()
    ensures var b := TwoBids();
            var m := AddOrder(3, 0, 1, BEHIND);
            WellFormed(b) && TopOf(b, 0).bidPrice == 3 && TopOf(Handle(b, m).0, 0).bidPrice == 2 && Handle(b, m).1 == None
  {
    var b := TwoBids();
    var cleared := RemoveFrom(b, BEST);
    BestLevelsOfExample();
    hide LevelRemoved;
    assert cleared.sides[0] == SideState([0, 0, 5, 0], {2}, 2);
    assert |b.orders| == 2;
  }

  lemma BestLevelsOfExample()
    ensures LevelRemoved(SideState([0, 0, 5, 5], {2, 3}, 3), 3, 5, true) == SideState([0, 0, 5, 0], {2}, 2)
    ensures LevelAdded(SideState([0, 0, 5, 0], {2}, 2), 3, 5, true) == SideState([0, 0, 5, 5], {2, 3}, 3)
  {
    assert {2, 3} - {3} == {2} && {2} + {3} == {2, 3};
    HighestSkips({2}, 3, 2);
    assert LevelRemoved(SideState([0, 0, 5, 5], {2, 3}, 3), 3, 5, true).qty == [0, 0, 5, 0];
    assert LevelAdded(SideState([0, 0, 5, 0], {2}, 2), 3, 5, true).qty == [0, 0, 5, 5];
  }

  /** Re-adding the best bid as it was changes nothing at all, but a tick is sent. */
  lemma ReAddTicksWithoutChange()
    ensures var b := TwoBids();
            var m := AddOrder(3, 0, 1, BEST);
            WellFormed(b) && Handle(b, m).0 == b && Handle(b, m).1.Some?
  {
    var b := TwoBids();
    var cleared := RemoveFrom(b, BEST);
    BestLevelsOfExample();
    hide LevelAdded, LevelRemoved;
    assert cleared.sides == [SideState([0, 0, 5, 0], {2}, 2), EmptySide(4)];
    assert |b.orders| == 2 && b.orders[1 := BEST] == b.orders;
    assert AddTo(cleared, BEST).sides == b.sides;
  }

  const MOVED := Order(1, Buy, 3, 5)

  function BidOfTwoSymbols(): BookState {
    BookState(4, 3, map[1 := BEST], [SideState([0, 0, 0, 5], {3}, 3), EmptySide(4), EmptySide(4), EmptySide(4)],
              [(0, 0), (0, 0)])
  }

  lemma BidOfTwoSymbolsIsReached(m: Message)
    requires m == AddOrder(1, 0, 1, BEST)
    ensures Run(EmptyBook(4, 2, 3), [m]) == BidOfTwoSymbols()
  {
    hide LevelAdded, TopOf;
    LevelsOfExample();
    assert [m][..0] == [];
    var b := Handle(EmptyBook(4, 2, 3), m).0;
    assert b.sides == BidOfTwoSymbols().sides;
  }

  /** Moving an order to another symbol, as the only one there, changes the tops of both symbols, but no tick is sent. */
  lemma MoveHidesChange()
    ensures var b := BidOfTwoSymbols();
            var m := ModifyOrder(2, 0, 1, MOVED);
            && WellFormed(b) && Handle(b, m).1 == None
            && TopOf(b, 0) == Top(3, 5, 0, 0) && TopOf(Handle(b, m).0, 0) == Top(0, 0, 0, 0)
            && TopOf(b, 1) == Top(0, 0, 0, 0) && TopOf(Handle(b, m).0, 1) == Top(3, 5, 0, 0)
  {
    var b := BidOfTwoSymbols();
    var none: set<nat> := {};
    assert {3} - {3} == none;
    HighestSkips(none, 3, 0);
    var cleared := RemoveFrom(b, BEST);
    assert cleared.sides[0].qty == [0, 0, 0, 0];
    LevelsOfExample();
    assert cleared.sides[2] == EmptySide(4);
  }
}
