/**
 The whole chain: the handler offers events, the ring hands them to the consumer loop, and the consumer makes bars
 of the trades among them.
 */
module Pipelines {
  import opened Orders
  import opened Protocol
  import opened Handlers
  import opened SpscQueues
  import Bars
  import BarLaws
  import BookStates
  import BookLaws
  import HandlerLaws
  import TickLaws
  import Trackers

  // ----- what the consumer does with events

  /** What the bar aggregator sees of a trade message. */
  function ForBars(m: Message): Bars.TradeEvent
    requires m.Trade?
  {
    Bars.TradeEvent(m.order.symbol, m.order.price, m.order.qty, m.ts)
  }

  function TradesIn(events: seq<PipelineEvent>): seq<Bars.TradeEvent> {
    if events == [] then [] else TradesOfEvent(events[0]) + TradesIn(events[1..])
  }

  function TradesOfEvent(e: PipelineEvent): seq<Bars.TradeEvent> {
    if e.TradeEvent? && e.trade.Trade? then [ForBars(e.trade)] else []
  }

  function Dispatched(g: Bars.Aggregate, events: seq<PipelineEvent>, width: nat, size: nat): (g': Bars.Aggregate)
    requires Bars.Sized(g) && size > 0
    ensures Bars.Sized(g') && |g'.time| == |g.time|
    decreases |events|
  {
    if events == [] then g else Dispatched(DispatchedOne(g, events[0], width, size), events[1..], width, size)
  }

  function DispatchedOne(g: Bars.Aggregate, e: PipelineEvent, width: nat, size: nat): (g': Bars.Aggregate)
    requires Bars.Sized(g) && size > 0
    ensures Bars.Sized(g') && |g'.time| == |g.time|
  {
    if e.TradeEvent? && e.trade.Trade? then Bars.WithTrade(g, ForBars(e.trade), width, size) else g
  }

  /** Dispatching events makes the bars of the trades among them. */
  lemma {:induction false} DispatchedMakesBars(symbols: nat, ts: seq<Bars.TradeEvent>, events: seq<PipelineEvent>,
                                               width: nat, size: nat)
    requires size > 0
    ensures Dispatched(BarLaws.AllBars(symbols, ts, width, size), events, width, size)
         == BarLaws.AllBars(symbols, ts + TradesIn(events), width, size)
    decreases |events|
  {
    hide Bars.WithTrade;
    if events == [] {
      assert ts + TradesIn([]) == ts;
    } else {
      var ts' := ts + TradesOfEvent(events[0]);
      assert ts + TradesIn(events) == ts' + TradesIn(events[1..]);
      if TradesOfEvent(events[0]) == [] {
        assert ts' == ts;
      } else {
        assert ts'[..|ts|] == ts;
      }
      DispatchedMakesBars(symbols, ts', events[1..], width, size);
    }
  }

  /** The consumer's bars when the machine is in state `s`; they are flushed when it leaves its loop. */
  function ConsumerBars(s: State<PipelineEvent>, symbols: nat, width: nat, size: nat): Bars.Aggregate
    requires size > 0
  {
    var g := Dispatched(Bars.NoBars(symbols), s.dispatched, width, size);
    if s.consumer.CExited? then Bars.Flushed(g, symbols) else g
  }

  // ----- the bars of events, in terms of trade messages

  /** The trade messages of a symbol among the events. */
  function TradeMessages(events: seq<PipelineEvent>, symbol: nat): seq<Message> {
    if events == [] then [] else
      (if events[0].TradeEvent? && events[0].trade.Trade? && events[0].trade.order.symbol == symbol
       then [events[0].trade] else [])
      + TradeMessages(events[1..], symbol)
  }

  function Quantity(ms: seq<Message>): nat
    requires forall i :: 0 <= i < |ms| ==> ms[i].Trade?
  {
    if ms == [] then 0 else Quantity(ms[..|ms| - 1]) + ms[|ms| - 1].order.qty
  }

  function Join(segs: seq<seq<Message>>): seq<Message> {
    if segs == [] then [] else Join(segs[..|segs| - 1]) + segs[|segs| - 1]
  }

  /** What the aggregator saw, trade by trade, is what the messages say. */
  predicate Mirrors(own: seq<Bars.TradeEvent>, ms: seq<Message>) {
    && |own| == |ms|
    && forall i :: 0 <= i < |ms| ==>
         && ms[i].Trade?
         && own[i].symbol == ms[i].order.symbol && own[i].price == ms[i].order.price
         && own[i].qty == ms[i].order.qty && own[i].ts == ms[i].ts
  }

  lemma {:induction false} TradesOfJoins(a: seq<Bars.TradeEvent>, b: seq<Bars.TradeEvent>, symbol: nat)
    ensures BarLaws.TradesOf(a + b, symbol) == BarLaws.TradesOf(a, symbol) + BarLaws.TradesOf(b, symbol)
    decreases |b|
  {
    if b == [] {
      assert a + b == a;
    } else {
      TradesOfJoins(a, b[..|b| - 1], symbol);
      assert (a + b)[..|a + b| - 1] == a + b[..|b| - 1];
    }
  }

  lemma OneTrade(t: Bars.TradeEvent, symbol: nat)
    ensures BarLaws.TradesOf([t], symbol) == if t.symbol == symbol then [t] else []
    ensures BarLaws.TradesOf([], symbol) == []
  {
    assert [t][..0] == [];
  }

  lemma {:induction false} TradesMirrorMessages(events: seq<PipelineEvent>, symbol: nat)
    ensures Mirrors(BarLaws.TradesOf(TradesIn(events), symbol), TradeMessages(events, symbol))
  {
    hide BarLaws.TradesOf;
    if events == [] {
      OneTrade(Bars.TradeEvent(0, 0, 0, 0), symbol);
    } else {
      TradesMirrorMessages(events[1..], symbol);
      TradesOfJoins(TradesOfEvent(events[0]), TradesIn(events[1..]), symbol);
      var first := TradesOfEvent(events[0]);
      OneTrade(if first == [] then Bars.TradeEvent(0, 0, 0, 0) else first[0], symbol);
    }
  }

  lemma {:induction false} MirrorQuantity(own: seq<Bars.TradeEvent>, ms: seq<Message>)
    requires Mirrors(own, ms)
    ensures BarLaws.Total(own) == Quantity(ms)
  {
    if ms != [] {
      MirrorQuantity(own[..|own| - 1], ms[..|ms| - 1]);
    }
  }

  /** The bar summarises the trade messages of a segment. */
  ghost predicate Summarises(a: Bars.Acc, ms: seq<Message>) {
    && ms != [] && (forall i :: 0 <= i < |ms| ==> ms[i].Trade?)
    && a.open == ms[0].order.price && a.close == ms[|ms| - 1].order.price
    && a.start == ms[0].ts && a.end == ms[|ms| - 1].ts
    && (forall i :: 0 <= i < |ms| ==> a.low <= ms[i].order.price <= a.high)
    && (exists i :: 0 <= i < |ms| && ms[i].order.price == a.high)
    && (exists i :: 0 <= i < |ms| && ms[i].order.price == a.low)
    && a.volume == Quantity(ms)
  }

  lemma SummaryOfMessages(seg: seq<Bars.TradeEvent>, ms: seq<Message>)
    requires seg != [] && Mirrors(seg, ms)
    ensures Summarises(BarLaws.Summary(seg), ms)
  {
    hide BarLaws.Summary, BarLaws.Total;
    BarLaws.SummaryIsOhlc(seg);
    MirrorQuantity(seg, ms);
    var a := BarLaws.Summary(seg);
    var hi :| 0 <= hi < |seg| && seg[hi].price == a.high;
    var lo :| 0 <= lo < |seg| && seg[lo].price == a.low;
    assert ms[hi].order.price == a.high && ms[lo].order.price == a.low;
  }

  /** The time condition on a closed segment of messages. */
  predicate ClosesAfter(ms: seq<Message>, width: nat) {
    && |ms| >= 2 && StaysUnder(ms[..|ms| - 1], width)
    && ms[|ms| - 1].ts - ms[0].ts >= width
  }

  predicate StaysUnder(ms: seq<Message>, width: nat) {
    forall k :: 1 <= k < |ms| ==> ms[k].ts - ms[0].ts < width
  }

  /** Timestamps are 64-bit numbers, and none is before an earlier one. */
  predicate InTimeOrder(ms: seq<Message>) {
    && (forall i :: 0 <= i < |ms| ==> ms[i].ts < 0x1_0000_0000_0000_0000)
    && (forall i, j :: 0 <= i < j < |ms| ==> ms[i].ts <= ms[j].ts)
  }

  /** The bars summarise consecutive segments of the trade messages, each just as long as a time bar may be. */
  ghost predicate TimeBarsOfMessages(bars: seq<Bars.Acc>, ms: seq<Message>, width: nat, segs: seq<seq<Message>>) {
    && |bars| == |segs| && Join(segs) == ms
    && (forall i :: 0 <= i < |segs| ==> Summarises(bars[i], segs[i]))
    && (InTimeOrder(ms) ==>
          && (forall i :: 0 <= i < |segs| - 1 ==> ClosesAfter(segs[i], width))
          && (segs != [] ==> var last := segs[|segs| - 1]; ClosesAfter(last, width) || StaysUnder(last, width)))
  }

  /** Cuts messages as the trades that mirror them are cut. */
  lemma {:induction false} CutLike(segs: seq<seq<Bars.TradeEvent>>, ms: seq<Message>) returns (cuts: seq<seq<Message>>)
    requires Mirrors(BarLaws.Flatten(segs), ms)
    ensures |cuts| == |segs| && Join(cuts) == ms && forall i :: 0 <= i < |segs| ==> Mirrors(segs[i], cuts[i])
  {
    if segs == [] {
      return [];
    }
    var front, last := BarLaws.Flatten(segs[..|segs| - 1]), segs[|segs| - 1];
    var n := |front|;
    assert Mirrors(front, ms[..n]) && Mirrors(last, ms[n..]) by {
      MirrorsParts(front, last, ms);
    }
    var rest := CutLike(segs[..|segs| - 1], ms[..n]);
    cuts := rest + [ms[n..]];
    assert cuts[..|cuts| - 1] == rest && ms == ms[..n] + ms[n..];
  }

  lemma MirrorsParts(a: seq<Bars.TradeEvent>, b: seq<Bars.TradeEvent>, ms: seq<Message>)
    requires Mirrors(a + b, ms)
    ensures |a| <= |ms| && Mirrors(a, ms[..|a|]) && Mirrors(b, ms[|a|..])
  {
    forall i | 0 <= i < |a|
      ensures a[i] == (a + b)[i]
    {
    }
    forall i | 0 <= i < |b|
      ensures b[i] == (a + b)[|a| + i]
    {
    }
  }

  lemma MirrorTimes(seg: seq<Bars.TradeEvent>, ms: seq<Message>, width: nat)
    requires Mirrors(seg, ms)
    ensures BarLaws.Chronological(seg) <==> InTimeOrder(ms)
    ensures BarLaws.LastsLess(seg, width) <==> StaysUnder(ms, width)
    ensures BarLaws.LastsJust(seg, width) <==> ClosesAfter(ms, width)
  {
  }

  lemma SegmentTimes(seg: seq<Bars.TradeEvent>, ms: seq<Message>, width: nat)
    requires Mirrors(seg, ms) && BarLaws.Chronological(seg)
    ensures BarLaws.Short(seg, width) ==> StaysUnder(ms, width)
    ensures BarLaws.JustLongEnough(seg, width) ==> ClosesAfter(ms, width)
  {
    hide *;
    BarLaws.ClockOfSegment(seg, width);
    MirrorTimes(seg, ms, width);
  }

  /** What the flushed time bars of a symbol are, said on the messages. */
  lemma TimeBarsOfTrades(bars: seq<Bars.Acc>, own: seq<Bars.TradeEvent>, width: nat, segs: seq<seq<Bars.TradeEvent>>,
                         ms: seq<Message>)
    returns (cuts: seq<seq<Message>>)
    requires BarLaws.TimeBarsOf(bars, own, width, segs) && Mirrors(own, ms)
    ensures TimeBarsOfMessages(bars, ms, width, cuts)
  {
    hide BarLaws.Summary, BarLaws.Short, BarLaws.JustLongEnough, BarLaws.Chronological, BarLaws.Flatten;
    hide Summarises, Mirrors, InTimeOrder, ClosesAfter, StaysUnder;
    cuts := CutLike(segs, ms);
    forall i | 0 <= i < |segs|
      ensures Summarises(bars[i], cuts[i])
    {
      SummaryOfMessages(segs[i], cuts[i]);
    }
    if InTimeOrder(ms) {
      MirrorTimes(own, ms, width);
      BarLaws.ChronologicalSegments(segs);
      forall i | 0 <= i < |segs|
        ensures ClosesAfter(cuts[i], width) || (i == |segs| - 1 && StaysUnder(cuts[i], width))
      {
        SegmentTimes(segs[i], cuts[i], width);
      }
    }
  }

  /** The parts of a trade message: same symbol, price and time, and together its quantity. */
  ghost predicate SplitsMessages(pieces: seq<Bars.TradeEvent>, ms: seq<Message>)
    requires forall i :: 0 <= i < |ms| ==> ms[i].Trade?
    decreases |ms|
  {
    if ms == [] then pieces == [] else
      var m := ms[|ms| - 1];
      exists cut :: 0 <= cut <= |pieces|
        && BarLaws.PartsOf(pieces[cut..], Bars.TradeEvent(m.order.symbol, m.order.price, m.order.qty, m.ts))
        && SplitsMessages(pieces[..cut], ms[..|ms| - 1])
  }

  lemma {:induction false} MirrorSplits(pieces: seq<Bars.TradeEvent>, own: seq<Bars.TradeEvent>, ms: seq<Message>)
    requires Mirrors(own, ms) && BarLaws.Splits(pieces, own)
    ensures SplitsMessages(pieces, ms)
    decreases |ms|
  {
    hide BarLaws.PartsOf;
    if ms != [] {
      var t := own[|own| - 1];
      var cut :| 0 <= cut <= |pieces|
        && BarLaws.PartsOf(pieces[cut..], t) && BarLaws.Splits(pieces[..cut], own[..|own| - 1]);
      MirrorSplits(pieces[..cut], own[..|own| - 1], ms[..|ms| - 1]);
      assert t == Bars.TradeEvent(t.symbol, t.price, t.qty, t.ts);
    }
  }

  /** The bars summarise consecutive segments of the split trade messages, all of the bar size but the last. */
  ghost predicate VolumeBarsOfMessages(bars: seq<Bars.Acc>, ms: seq<Message>, size: nat,
                                       pieces: seq<seq<Bars.TradeEvent>>, rest: seq<Bars.TradeEvent>)
    requires forall i :: 0 <= i < |ms| ==> ms[i].Trade?
  {
    && bars == BarLaws.Summaries(pieces) && BarLaws.Total(rest) == 0
    && SplitsMessages(BarLaws.Flatten(pieces) + rest, ms)
    && (forall i :: 0 <= i < |pieces| ==> 0 < BarLaws.Total(pieces[i]) <= size)
    && (forall i :: 0 <= i < |pieces| - 1 ==> BarLaws.Total(pieces[i]) == size)
  }

  /** The flushed bars that the consumer makes of any events, for each symbol, in terms of the trade messages. */
  lemma BarsOfEvents(symbols: nat, events: seq<PipelineEvent>, width: nat, size: nat, symbol: nat)
    returns (segs: seq<seq<Message>>, pieces: seq<seq<Bars.TradeEvent>>, rest: seq<Bars.TradeEvent>)
    requires size > 0 && symbol < symbols
    ensures forall m :: m in TradeMessages(events, symbol) ==> m.Trade?
    ensures var out := Bars.Flushed(BarLaws.AllBars(symbols, TradesIn(events), width, size), symbols).out;
            var ms := TradeMessages(events, symbol);
            && TimeBarsOfMessages(BarLaws.BarsOf(out, symbol, Bars.TimeBar), ms, width, segs)
            && VolumeBarsOfMessages(BarLaws.BarsOf(out, symbol, Bars.VolumeBar), ms, size, pieces, rest)
            && BarLaws.Volumes(BarLaws.BarsOf(out, symbol, Bars.TimeBar)) == Quantity(ms)
            && BarLaws.Volumes(BarLaws.BarsOf(out, symbol, Bars.VolumeBar)) == Quantity(ms)
  {
    hide BarLaws.AllBars, BarLaws.BarsOf, BarLaws.Total, BarLaws.TradesOf, BarLaws.TimeBarsOf, BarLaws.AllPieces;
    hide TimeBarsOfMessages, SplitsMessages, TradesIn, TradeMessages, Bars.Flushed, BarLaws.Volumes, BarLaws.Splits;
    var ts, ms := TradesIn(events), TradeMessages(events, symbol);
    var own := BarLaws.TradesOf(ts, symbol);
    TradesMirrorMessages(events, symbol);
    var segs', pieces', rest' := BarLaws.FlushedBarsPartition(symbols, ts, width, size, symbol);
    var out := Bars.Flushed(BarLaws.AllBars(symbols, ts, width, size), symbols).out;
    segs := TimeBarsOfTrades(BarLaws.BarsOf(out, symbol, Bars.TimeBar), own, width, segs', ms);
    pieces, rest := pieces', rest';
    BarLaws.AllPiecesSplit(own, size);
    MirrorSplits(BarLaws.AllPieces(own, size), own, ms);
    BarLaws.QuantityIsConserved(symbols, ts, width, size, symbol);
    MirrorQuantity(own, ms);
  }

  /**
   After `stop` has been set behind the last push, in every interleaving, the bars that the consumer leaves behind are
   those of all the published trades, flushed: time bars summarise consecutive segments of a symbol's trade messages,
   volume bars those of the messages split into parts, and both hold exactly the traded quantity.
   */
  lemma DrainedBars(capacity: nat, item: PipelineEvent, before: seq<Step<PipelineEvent>>, after: seq<Step<PipelineEvent>>,
                    symbols: nat, width: nat, size: nat, symbol: nat)
    returns (segs: seq<seq<Message>>, pieces: seq<seq<Bars.TradeEvent>>, rest: seq<Bars.TradeEvent>)
    requires capacity >= 2 && IsRun(Initial(capacity, item), before) && SetStop !in before
    requires var s := After(Initial(capacity, item), before);
             s.producer.PIdle? && IsRun(Next(s, SetStop), after)
    requires NoNewPush(after) && size > 0 && symbol < symbols
    ensures var s := After(Initial(capacity, item), before);
            var s' := After(Next(s, SetStop), after);
            && (forall m :: m in TradeMessages(s.pushed, symbol) ==> m.Trade?)
            && (s'.consumer.CExited? ==>
                  BarsShow(ConsumerBars(s', symbols, width, size).out, symbol, TradeMessages(s.pushed, symbol), width, size,
                           segs, pieces, rest))
  {
    hide IsRun, After, Next, NoNewPush, Dispatched, TradesIn, TradeMessages, Bars.Flushed, BarLaws.AllBars;
    hide TimeBarsOfMessages, VolumeBarsOfMessages;
    ExitMeansDrained(capacity, item, before, after);
    var pushed := After(Initial(capacity, item), before).pushed;
    NoTradesNoBars(symbols, width, size);
    DispatchedMakesBars(symbols, [], pushed, width, size);
    assert [] + TradesIn(pushed) == TradesIn(pushed);
    segs, pieces, rest := BarsOfEvents(symbols, pushed, width, size, symbol);
  }

  lemma NoTradesNoBars(symbols: nat, width: nat, size: nat)
    requires size > 0
    ensures BarLaws.AllBars(symbols, [], width, size) == Bars.NoBars(symbols)
  {
  }

  /** A symbol's written bars are those of the trade messages. */
  ghost predicate BarsShow(out: seq<Bars.Bar>, symbol: nat, ms: seq<Message>, width: nat, size: nat,
                           segs: seq<seq<Message>>, pieces: seq<seq<Bars.TradeEvent>>, rest: seq<Bars.TradeEvent>)
    requires forall m :: m in ms ==> m.Trade?
  {
    && TimeBarsOfMessages(BarLaws.BarsOf(out, symbol, Bars.TimeBar), ms, width, segs)
    && VolumeBarsOfMessages(BarLaws.BarsOf(out, symbol, Bars.VolumeBar), ms, size, pieces, rest)
    && BarLaws.Volumes(BarLaws.BarsOf(out, symbol, Bars.TimeBar)) == Quantity(ms)
    && BarLaws.Volumes(BarLaws.BarsOf(out, symbol, Bars.VolumeBar)) == Quantity(ms)
  }

  // ----- what the handler offers

  /** The events of one message: the book's tick, if there is one, then the trade itself. */
  function EventsOfOne(b: BookStates.BookState, m: Message): seq<PipelineEvent>
    requires BookStates.WellFormed(b)
  {
    (match BookStates.Handle(b, m).1 case Some(tick) => [TickEvent(tick)] case None => [])
    + if m.Trade? then [TradeEvent(m)] else []
  }

  /** The events of a run of messages. */
  function EventList(b: BookStates.BookState, ms: seq<Message>): seq<PipelineEvent>
    requires BookStates.WellFormed(b)
  {
    if ms == [] then [] else
      var front, m := ms[..|ms| - 1], ms[|ms| - 1];
      EventList(b, front) + EventsOfOne(BookLaws.Run(b, front), m)
  }

  lemma {:induction false} FramesOfferEvents(h: HandlerState, frames: seq<Bytes>)
    requires HandlerWellFormed(h) && forall i :: 0 <= i < |frames| ==> IsFrame(frames[i])
    ensures HandleFrames(h, frames).offered == h.offered + EventList(h.book, HandlerLaws.Decoded(frames))
    decreases |frames|
  {
    hide BookStates.Handle, Parse, EventsOfOne, HandleFrame;
    if frames == [] {
      assert h.offered + [] == h.offered;
    } else {
      var n := |frames| - 1;
      var ms := HandlerLaws.Decoded(frames);
      FramesOfferEvents(h, frames[..n]);
      HandlerLaws.FramesDriveBook(h, frames[..n]);
      assert ms[..n] == HandlerLaws.Decoded(frames[..n]);
      assert IsFrame(frames[n]);
      FrameOffersEvents(HandleFrames(h, frames[..n]), frames[n]);
      assert h.offered + (EventList(h.book, ms[..n]) + EventsOfOne(BookLaws.Run(h.book, ms[..n]), ms[n]))
          == h.offered + EventList(h.book, ms[..n]) + EventsOfOne(BookLaws.Run(h.book, ms[..n]), ms[n]);
    }
  }

  lemma FrameOffersEvents(h: HandlerState, f: Bytes)
    requires HandlerWellFormed(h) && IsFrame(f)
    ensures HandleFrame(h, f).offered == h.offered + EventsOfOne(h.book, Parse(f).message.value)
  {
    hide BookStates.Handle, Parse;
  }

  /** In every run over a session, the offered events are those of the delivered frames' messages, in order. */
  lemma RunOffersEvents(start: HandlerState, inputs: seq<HandlerLaws.Input>, session: seq<Bytes>)
    requires HandlerWellFormed(start) && start.tracker == Trackers.Initial() && start.offered == []
    requires HandlerLaws.IsSession(session) && HandlerLaws.FromSession(inputs, session)
    ensures var h := HandlerLaws.RunHandler(start, inputs);
            && 1 <= h.tracker.next <= |session| + 1
            && h.offered == EventList(start.book, HandlerLaws.Decoded(session)[..h.tracker.next - 1])
            && h.book == BookLaws.Run(start.book, HandlerLaws.Decoded(session)[..h.tracker.next - 1])
  {
    hide Parse, HandleFrames, HandlerLaws.Tracks, HandlerLaws.FromSession, HandlerLaws.RunHandler, EventList, BookLaws.Run;
    HandlerLaws.RunFeedsPrefix(start, inputs, session);
    var n := HandlerLaws.RunHandler(start, inputs).tracker.next - 1;
    FramesOfferEvents(start, session[..n]);
    HandlerLaws.FramesDriveBook(start, session[..n]);
    assert HandlerLaws.Decoded(session[..n]) == HandlerLaws.Decoded(session)[..n];
  }

  // ----- the offered trades

  function TradesAmong(ms: seq<Message>, symbol: nat): seq<Message> {
    if ms == [] then [] else
      TradesAmong(ms[..|ms| - 1], symbol)
      + if ms[|ms| - 1].Trade? && ms[|ms| - 1].order.symbol == symbol then [ms[|ms| - 1]] else []
  }

  lemma {:induction false} TradeMessagesJoin(a: seq<PipelineEvent>, b: seq<PipelineEvent>, symbol: nat)
    ensures TradeMessages(a + b, symbol) == TradeMessages(a, symbol) + TradeMessages(b, symbol)
    decreases |a|
  {
    if a == [] {
      assert a + b == b;
    } else {
      assert (a + b)[1..] == a[1..] + b;
      TradeMessagesJoin(a[1..], b, symbol);
    }
  }

  lemma TradeMessagesOfOne(e: PipelineEvent, symbol: nat)
    ensures TradeMessages([], symbol) == []
    ensures TradeMessages([e], symbol)
         == if e.TradeEvent? && e.trade.Trade? && e.trade.order.symbol == symbol then [e.trade] else []
  {
    assert [e][1..] == [];
  }

  /** All trades are offered, in order, whether or not the book accepts them. */
  lemma {:induction false} EventsHoldTrades(b: BookStates.BookState, ms: seq<Message>, symbol: nat)
    requires BookStates.WellFormed(b)
    ensures TradeMessages(EventList(b, ms), symbol) == TradesAmong(ms, symbol)
  {
    hide BookStates.Handle, TradeMessages;
    TradeMessagesOfOne(TradeEvent(Heartbeat(0, 0, 0)), symbol);
    if ms != [] {
      var front, m := ms[..|ms| - 1], ms[|ms| - 1];
      EventsHoldTrades(b, front, symbol);
      var tick := BookStates.Handle(BookLaws.Run(b, front), m).1;
      var x := match tick case Some(t) => [TickEvent(t)] case None => [];
      var y := if m.Trade? then [TradeEvent(m)] else [];
      TradeMessagesJoin(x, y, symbol);
      TradeMessagesJoin(EventList(b, front), x + y, symbol);
      if tick.Some? {
        TradeMessagesOfOne(TickEvent(tick.value), symbol);
      }
      TradeMessagesOfOne(TradeEvent(m), symbol);
    }
  }

  lemma {:induction false} AllAreTrades(ms: seq<Message>, symbol: nat)
    ensures forall m :: m in TradesAmong(ms, symbol) ==> m.Trade? && m.order.symbol == symbol
  {
    if ms != [] {
      AllAreTrades(ms[..|ms| - 1], symbol);
    }
  }

  // ----- the offered ticks

  function TicksIn(events: seq<PipelineEvent>): seq<Tick> {
    if events == [] then [] else
      TicksIn(events[..|events| - 1])
      + if events[|events| - 1].TickEvent? then [events[|events| - 1].tick] else []
  }

  /** The ticks that the book makes in a run of messages. */
  function BookTicks(b: BookStates.BookState, ms: seq<Message>): seq<Tick>
    requires BookStates.WellFormed(b)
  {
    if ms == [] then [] else
      var front := ms[..|ms| - 1];
      BookTicks(b, front)
      + match BookStates.Handle(BookLaws.Run(b, front), ms[|ms| - 1]).1 case Some(tick) => [tick] case None => []
  }

  lemma {:induction false} TicksInJoin(a: seq<PipelineEvent>, b: seq<PipelineEvent>)
    ensures TicksIn(a + b) == TicksIn(a) + TicksIn(b)
    decreases |b|
  {
    if b == [] {
      assert a + b == a;
    } else {
      assert (a + b)[..|a + b| - 1] == a + b[..|b| - 1];
      TicksInJoin(a, b[..|b| - 1]);
    }
  }

  lemma TicksOfOne(e: PipelineEvent)
    ensures TicksIn([]) == [] && TicksIn([e]) == if e.TickEvent? then [e.tick] else []
  {
    assert [e][..0] == [];
  }

  /** All ticks are offered, in order. */
  lemma {:induction false} EventsHoldTicks(b: BookStates.BookState, ms: seq<Message>)
    requires BookStates.WellFormed(b)
    ensures TicksIn(EventList(b, ms)) == BookTicks(b, ms)
  {
    hide BookStates.Handle, TicksIn;
    TicksOfOne(TradeEvent(Heartbeat(0, 0, 0)));
    if ms != [] {
      var front, m := ms[..|ms| - 1], ms[|ms| - 1];
      EventsHoldTicks(b, front);
      var tick := BookStates.Handle(BookLaws.Run(b, front), m).1;
      var x := match tick case Some(t) => [TickEvent(t)] case None => [];
      var y := if m.Trade? then [TradeEvent(m)] else [];
      TicksInJoin(x, y);
      TicksInJoin(EventList(b, front), x + y);
      if tick.Some? {
        TicksOfOne(TickEvent(tick.value));
      }
      TicksOfOne(TradeEvent(m));
    }
  }

  /** The tick of an accepted trade comes directly before the trade. */
  lemma {:induction false} TickPrecedesTrade(b: BookStates.BookState, ms: seq<Message>, j: nat)
    requires BookStates.WellFormed(b) && j < |EventList(b, ms)| && EventList(b, ms)[j].TradeEvent?
    ensures var trade := EventList(b, ms)[j].trade;
            trade.Trade? && (BookLaws.Acceptable(|b.last|, b.levels, trade.order) ==>
                               j > 0 && EventList(b, ms)[j - 1].TickEvent? && EventList(b, ms)[j - 1].tick.cause == trade)
    decreases |ms|
  {
    hide BookStates.TopOf;
    var front, m := ms[..|ms| - 1], ms[|ms| - 1];
    if j < |EventList(b, front)| {
      TickPrecedesTrade(b, front, j);
    } else {
      RunKeepsSizes(b, front);
    }
  }

  lemma {:induction false} RunKeepsSizes(b: BookStates.BookState, ms: seq<Message>)
    requires BookStates.WellFormed(b)
    ensures BookLaws.SameSizes(b, BookLaws.Run(b, ms))
  {
    hide BookStates.Handle;
    if ms != [] {
      RunKeepsSizes(b, ms[..|ms| - 1]);
      BookLaws.HandleKeepsOrdersAndSizes(BookLaws.Run(b, ms[..|ms| - 1]), ms[|ms| - 1]);
    }
  }

  /** Every tick of a run comes from one of its messages. */
  lemma {:induction false} TickHasMessage(b: BookStates.BookState, ms: seq<Message>, j: nat) returns (k: nat)
    requires BookStates.WellFormed(b) && j < |BookTicks(b, ms)|
    ensures k < |ms| && BookStates.Handle(BookLaws.Run(b, ms[..k]), ms[k]).1 == Some(BookTicks(b, ms)[j])
    decreases |ms|
  {
    hide BookStates.Handle, BookLaws.Run;
    var front := ms[..|ms| - 1];
    if j < |BookTicks(b, front)| {
      k := TickHasMessage(b, front, j);
      assert front[..k] == ms[..k];
    } else {
      k := |ms| - 1;
    }
  }

  /** The top of book that the last tick of a symbol carries, zeros before any tick. */
  function LastTop(ticks: seq<Tick>, symbol: nat): Top {
    if ticks == [] then Top(0, 0, 0, 0)
    else if ticks[|ticks| - 1].symbol == symbol then ticks[|ticks| - 1].top
    else LastTop(ticks[..|ticks| - 1], symbol)
  }

  lemma {:induction false} ShownIsLastTop(b: BookStates.BookState, ms: seq<Message>, symbol: nat)
    requires BookStates.WellFormed(b) && symbol < |b.last|
    ensures |TickLaws.ShownAfter(b, ms)| == |b.last|
    ensures TickLaws.ShownAfter(b, ms)[symbol] == LastTop(BookTicks(b, ms), symbol)
  {
    hide BookStates.Handle;
    if ms != [] {
      var front := ms[..|ms| - 1];
      ShownIsLastTop(b, front, symbol);
      var ticks := BookTicks(b, front);
      var tick := BookStates.Handle(BookLaws.Run(b, front), ms[|ms| - 1]).1;
      if tick.Some? {
        assert (ticks + [tick.value])[..|ticks|] == ticks;
      } else {
        assert ticks + [] == ticks;
      }
    }
  }

  /**
   From the wire to the ticks: in every run over a session in range, the offered ticks are those of the delivered
   messages, in order; each describes the plain map's orders and the trades up to its message; and if additions use
   new ids and modifications keep the symbol, the last one of every symbol shows the best live orders.
   */
  lemma WireToTicks(capacity: nat, symbols: nat, levels: nat, inputs: seq<HandlerLaws.Input>, session: seq<Bytes>)
    requires HandlerLaws.IsSession(session) && HandlerLaws.FromSession(inputs, session)
    requires BookLaws.AlwaysFits(capacity, symbols, levels, HandlerLaws.Decoded(session))
    ensures var e := BookStates.EmptyBook(capacity, symbols, levels);
            var h := HandlerLaws.RunHandler(HandlerState(Trackers.Initial(), e, []), inputs);
            && 1 <= h.tracker.next <= |session| + 1
            && var ms := HandlerLaws.Decoded(session)[..h.tracker.next - 1];
               && TicksIn(h.offered) == BookTicks(e, ms)
               && (forall j :: 0 <= j < |TicksIn(h.offered)| ==>
                     TickIsSound(TicksIn(h.offered)[j], capacity, symbols, levels, ms))
               && (OrdinaryRun(capacity, symbols, levels, ms) ==>
                     forall s :: 0 <= s < symbols ==>
                       ShowsBest(LastTop(TicksIn(h.offered), s), BookLaws.PlainOrders(capacity, symbols, levels, ms), s))
  {
    hide HandlerLaws.RunHandler, HandlerLaws.FromSession, BookStates.Handle, TickIsSound, OrdinaryRun, ShowsBest;
    hide BookLaws.PlainOrders, BookLaws.Fits, BookLaws.Run, BookTicks, TicksIn, EventList, LastTop;
    var e := BookStates.EmptyBook(capacity, symbols, levels);
    var start := HandlerState(Trackers.Initial(), e, []);
    RunOffersEvents(start, inputs, session);
    var n := HandlerLaws.RunHandler(start, inputs).tracker.next - 1;
    var ms := HandlerLaws.Decoded(session)[..n];
    EventsHoldTicks(e, ms);
    TickLaws.PrefixFits(capacity, symbols, levels, HandlerLaws.Decoded(session), n);
    forall j | 0 <= j < |BookTicks(e, ms)|
      ensures TickIsSound(BookTicks(e, ms)[j], capacity, symbols, levels, ms)
    {
      TicksAreSound(capacity, symbols, levels, ms, j);
    }
    if OrdinaryRun(capacity, symbols, levels, ms) {
      forall s | 0 <= s < symbols
        ensures ShowsBest(LastTop(BookTicks(e, ms), s), BookLaws.PlainOrders(capacity, symbols, levels, ms), s)
      {
        LastTicksShowBest(capacity, symbols, levels, ms, s);
      }
    }
  }

  /** The tick was caused by one of the messages and describes the orders and trades up to it. */
  ghost predicate TickIsSound(tick: Tick, capacity: nat, symbols: nat, levels: nat, ms: seq<Message>) {
    exists k :: 0 <= k < |ms| && tick.cause == ms[k]
      && TickLaws.DescribesOrders(tick, symbols, levels, BookLaws.PlainOrders(capacity, symbols, levels, ms[..k + 1]),
                                  ms[..k + 1])
  }

  ghost predicate OrdinaryRun(capacity: nat, symbols: nat, levels: nat, ms: seq<Message>) {
    forall k :: 0 <= k < |ms| ==> TickLaws.Ordinary(BookLaws.PlainOrders(capacity, symbols, levels, ms[..k]), ms[k])
  }

  ghost predicate ShowsBest(t: Top, orders: map<OrderId, Order>, symbol: nat) {
    && BookLaws.BestAmongOrders(orders, symbol, Buy, t.bidPrice)
    && BookLaws.BestAmongOrders(orders, symbol, Sell, t.askPrice)
    && t.bidQty == BookLaws.LevelSum(orders, BookStates.SideIndex(symbol, Buy), t.bidPrice)
    && t.askQty == BookLaws.LevelSum(orders, BookStates.SideIndex(symbol, Sell), t.askPrice)
  }

  lemma TicksAreSound(capacity: nat, symbols: nat, levels: nat, ms: seq<Message>, j: nat)
    requires BookLaws.AlwaysFits(capacity, symbols, levels, ms)
    requires j < |BookTicks(BookStates.EmptyBook(capacity, symbols, levels), ms)|
    ensures TickIsSound(BookTicks(BookStates.EmptyBook(capacity, symbols, levels), ms)[j], capacity, symbols, levels, ms)
  {
    hide BookStates.Handle, BookLaws.AlwaysFits, TickLaws.DescribesOrders, BookTicks, BookLaws.PlainOrders;
    var e := BookStates.EmptyBook(capacity, symbols, levels);
    var k := TickHasMessage(e, ms, j);
    TickLaws.TickDescribesOrders(capacity, symbols, levels, ms, k);
  }

  lemma LastTicksShowBest(capacity: nat, symbols: nat, levels: nat, ms: seq<Message>, symbol: nat)
    requires BookLaws.AlwaysFits(capacity, symbols, levels, ms) && symbol < symbols
    requires OrdinaryRun(capacity, symbols, levels, ms)
    ensures var e := BookStates.EmptyBook(capacity, symbols, levels);
            ShowsBest(LastTop(BookTicks(e, ms), symbol), BookLaws.PlainOrders(capacity, symbols, levels, ms), symbol)
  {
    hide BookStates.Handle, BookLaws.AlwaysFits, BookTicks, BookLaws.PlainOrders, BookLaws.Accurate, BookLaws.Run;
    hide BookLaws.BestAmongOrders, BookLaws.LevelSum, TickLaws.Ordinary, TickLaws.ShownAfter, LastTop;
    var e := BookStates.EmptyBook(capacity, symbols, levels);
    TickLaws.TickStreamIsFaithful(capacity, symbols, levels, ms);
    ShownIsLastTop(e, ms, symbol);
    BookLaws.RunIsAccurate(capacity, symbols, levels, ms);
    BookLaws.RunKeepsOrdersAndSizes(capacity, symbols, levels, ms);
    BookLaws.TopIsBestOfLiveOrders(BookLaws.Run(e, ms), symbol);
  }

  // ----- from the wire to the bars

  /**
   From the wire to the bars: if the ring accepted every event that the handler offered in a run over a session, and
   `stop` was set after the last push, then in every interleaving the bars left behind by the consumer are those of
   the trade messages in the session's delivered frames.
   */
  lemma WireToBars(start: HandlerState, inputs: seq<HandlerLaws.Input>, session: seq<Bytes>,
                   capacity: nat, item: PipelineEvent, before: seq<Step<PipelineEvent>>, after: seq<Step<PipelineEvent>>,
                   symbols: nat, width: nat, size: nat, symbol: nat)
    returns (segs: seq<seq<Message>>, pieces: seq<seq<Bars.TradeEvent>>, rest: seq<Bars.TradeEvent>)
    requires HandlerWellFormed(start) && start.tracker == Trackers.Initial() && start.offered == []
    requires HandlerLaws.IsSession(session) && HandlerLaws.FromSession(inputs, session)
    requires capacity >= 2 && IsRun(Initial(capacity, item), before) && SetStop !in before
    requires var s := After(Initial(capacity, item), before);
             && s.producer.PIdle? && IsRun(Next(s, SetStop), after)
             && s.pushed == HandlerLaws.RunHandler(start, inputs).offered
    requires NoNewPush(after) && size > 0 && symbol < symbols
    ensures var n := HandlerLaws.RunHandler(start, inputs).tracker.next - 1;
            var s' := After(Next(After(Initial(capacity, item), before), SetStop), after);
            && n <= |session|
            && var trades := TradesAmong(HandlerLaws.Decoded(session)[..n], symbol);
               && (forall m :: m in trades ==> m.Trade? && m.order.symbol == symbol)
               && (s'.consumer.CExited? ==>
                     BarsShow(ConsumerBars(s', symbols, width, size).out, symbol, trades, width, size, segs, pieces, rest))
  {
    hide IsRun, After, Next, NoNewPush, TradesIn, TradesAmong, TradeMessages, ConsumerBars, EventList, BarsShow;
    hide HandlerLaws.RunHandler, HandlerLaws.FromSession;
    RunOffersEvents(start, inputs, session);
    var n := HandlerLaws.RunHandler(start, inputs).tracker.next - 1;
    EventsHoldTrades(start.book, HandlerLaws.Decoded(session)[..n], symbol);
    AllAreTrades(HandlerLaws.Decoded(session)[..n], symbol);
    segs, pieces, rest := DrainedBars(capacity, item, before, after, symbols, width, size, symbol);
  }

  // ----- the consumer loop in place

  /** The consumer loop after `stop`, when nobody else touches the ring any more. */
  method DrainQueue(queue: SpscQueue<PipelineEvent>, bars: Bars.BarAggregator)
    requires queue.Valid() && bars.Valid() && bars.size > 0
    modifies queue`tail, queue`popped, queue.cells
    modifies bars`out, bars`timeBars, bars`volumeBars, bars.time, bars.volume
    ensures queue.Valid() && queue.Contents() == []
    ensures bars.Valid()
    ensures bars.AsValue()
         == Bars.Flushed(Dispatched(old(bars.AsValue()), old(queue.Contents()), bars.width, bars.size), bars.time.Length)
  {
    hide Inv, Bars.WithTrade;
    ghost var goal := Dispatched(bars.AsValue(), queue.Contents(), bars.width, bars.size);
    var empty := queue.Empty();
    while !empty
      invariant queue.Valid() && bars.Valid() && (empty <==> queue.Contents() == [])
      invariant goal == Dispatched(bars.AsValue(), queue.Contents(), bars.width, bars.size)
      decreases |queue.Contents()|
    {
      var event, ok := queue.TryPop();
      if event.TradeEvent? && event.trade.Trade? {
        bars.OnTrade(ForBars(event.trade));
      }
      empty := queue.Empty();
    }
    bars.FlushAll();
  }
}
