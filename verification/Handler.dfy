/** The feed handler: datagrams go through the parser and the sequence tracker, gaps are recovered, frames reach the book. */
module Handlers {
  import opened Orders
  import opened Protocol
  import opened Framing
  import opened Trackers
  import opened OrderPools
  import opened BookStates
  import opened BookBuilders

  /** What is offered to the queue: the book's ticks, and every trade. */
  datatype PipelineEvent = TickEvent(tick: Tick) | TradeEvent(trade: Message)

  /** `offered` is everything that was offered to the queue so far. */
  datatype HandlerState = HandlerState(tracker: TrackerState, book: BookState, offered: seq<PipelineEvent>)

  ghost predicate HandlerWellFormed(h: HandlerState) {
    Trackers.WellFormed(h.tracker) && BookStates.WellFormed(h.book)
  }

  // ----- on values

  function EventsOf(m: Message, tick: Option<Tick>): seq<PipelineEvent> {
    (if tick.Some? then [TickEvent(tick.value)] else []) + (if m.Trade? then [TradeEvent(m)] else [])
  }

  /** Feeds one frame to the book; a frame that does not parse is skipped. */
  function HandleFrame(h: HandlerState, f: Bytes): (h': HandlerState)
    requires HandlerWellFormed(h)
    ensures HandlerWellFormed(h') && h'.tracker == h.tracker
  {
    var p := Parse(f);
    if p.status != Ok then h else
      var outcome := Handle(h.book, p.message.value);
      h.(book := outcome.0, offered := h.offered + EventsOf(p.message.value, outcome.1))
  }

  function HandleFrames(h: HandlerState, frames: seq<Bytes>): (h': HandlerState)
    requires HandlerWellFormed(h)
    ensures HandlerWellFormed(h') && h'.tracker == h.tracker
  {
    if frames == [] then h else HandleFrame(HandleFrames(h, frames[..|frames| - 1]), frames[|frames| - 1])
  }

  function ReplayFrames(t: TrackerState, frames: seq<Bytes>): (t': TrackerState)
    requires Trackers.WellFormed(t)
    ensures Trackers.WellFormed(t')
    decreases |frames|
  {
    if frames == [] then t else ReplayFrames(Pushed(t, frames[0]).0, frames[1..])
  }

  /** `reply` is the payload that arrived before the connection ended, none if no valid reply came at all. */
  function Recovered(t: TrackerState, reply: Option<Bytes>): (t': TrackerState)
    requires Trackers.WellFormed(t)
    ensures Trackers.WellFormed(t')
  {
    if t.gapStart == 0 || reply.None? then t else GapCleared(ReplayFrames(t, Split(reply.value)))
  }

  function HandleReady(h: HandlerState): (h': HandlerState)
    requires HandlerWellFormed(h)
    ensures HandlerWellFormed(h')
  {
    var h' := HandleFrames(h, h.tracker.ready);
    h'.(tracker := h'.tracker.(ready := []))
  }

  function Datagram(h: HandlerState, bytes: Bytes, reply: Option<Bytes>): (h': HandlerState)
    requires HandlerWellFormed(h)
    ensures HandlerWellFormed(h')
  {
    var p := Parse(bytes);
    if p.status != Ok then h else
      HandleReady(h.(tracker := Recovered(Pushed(h.tracker, bytes[..p.consumed]).0, reply)))
  }

  // ----- in place

  class FeedHandler {
    const tracker: SequenceTracker
    const book: BookBuilder
    var offered: seq<PipelineEvent>

    ghost function State(): HandlerState
      reads this, tracker, tracker.window, book, book.table, book.pool
    {
      HandlerState(tracker.State(), book.State(), offered)
    }

    ghost predicate Valid()
      reads this, tracker, tracker.window, book, book.table, book.table.repr, book.pool, book.pool.slots
    {
      && tracker.Valid() && book.Valid()
      && tracker !in book.table.repr && tracker.window !in book.table.repr && this !in book.table.repr
      && book !in book.table.repr
    }

    lemma ValidIsWellFormed()
      requires Valid()
      ensures HandlerWellFormed(State())
    {
    }

    constructor (capacity: nat, symbols: nat, priceLevels: nat, hash: Hash)
      requires capacity >= 2 && HashInto(hash, capacity)
      ensures Valid()
      ensures State() == HandlerState(Initial(), EmptyBook(capacity, symbols, priceLevels), [])
    {
      tracker := new SequenceTracker();
      book := new BookBuilder(capacity, symbols, priceLevels, hash);
      offered := [];
    }

    /** The replay loop: splits the payload and pushes every frame. */
    method Replay(payload: Bytes)
      requires tracker.Valid()
      modifies tracker, tracker.window
      ensures tracker.Valid() && tracker.State() == ReplayFrames(old(tracker.State()), Split(payload))
    {
      hide Pushed, Parse;
      var off: nat := 0;
      while off < |payload|
        invariant 0 <= off <= |payload| && tracker.Valid()
        invariant ReplayFrames(tracker.State(), Split(payload[off..])) == ReplayFrames(old(tracker.State()), Split(payload))
      {
        var p := Parse(payload[off..]);
        if p.status != Ok || p.consumed == 0 {
          break;
        }
        assert payload[off..][p.consumed..] == payload[off + p.consumed..];
        var accepted := tracker.Push(payload[off..][..p.consumed]);
        off := off + p.consumed;
      }
    }

    method TryRecover(reply: Option<Bytes>)
      requires tracker.Valid()
      modifies tracker, tracker.window
      ensures tracker.Valid() && tracker.State() == Recovered(old(tracker.State()), reply)
    {
      hide Pushed;
      if tracker.gapStart == 0 || reply.None? {
        return;
      }
      Replay(reply.value);
      tracker.ClearGap();
    }

    method HandleParsed(f: Bytes)
      requires Valid()
      modifies this`offered, book.table.repr, book.table, book`orders, book`last, book.pool, book.pool.slots
      ensures Valid() && State() == HandleFrame(old(State()), f)
    {
      hide BookBuilder.Valid, SequenceTracker.Valid, Handle, Parse;
      ValidIsWellFormed();
      var p := Parse(f);
      if p.status == Ok {
        var tick := book.Handle(p.message.value);
        offered := offered + EventsOf(p.message.value, tick);
      }
    }

    /** Parses the ready frames again and feeds them to the book. */
    method ConsumeReady()
      requires Valid()
      modifies this`offered, tracker`ready
      modifies book.table.repr, book.table, book`orders, book`last, book.pool, book.pool.slots
      ensures Valid() && State() == HandleReady(old(State()))
    {
      hide BookBuilder.Valid, SequenceTracker.Valid, HandleFrame;
      ghost var h, frames := State(), tracker.ready;
      ValidIsWellFormed();
      for k := 0 to |tracker.ready|
        invariant Valid() && State() == HandleFrames(h, frames[..k])
      {
        assert frames[..k + 1][..k] == frames[..k];
        HandleParsed(tracker.ready[k]);
      }
      assert frames[..|frames|] == frames;
      tracker.ClearReady();
    }

    method ProcessDatagram(bytes: Bytes, reply: Option<Bytes>)
      requires Valid()
      modifies this`offered, tracker, tracker.window
      modifies book.table.repr, book.table, book`orders, book`last, book.pool, book.pool.slots
      ensures Valid() && State() == Datagram(old(State()), bytes, reply)
    {
      hide Pushed, Parse, HandleFrames, ReplayFrames, BookBuilder.Valid, SequenceTracker.Valid;
      ValidIsWellFormed();
      var p := Parse(bytes);
      if p.status != Ok {
        return;
      }
      var accepted := tracker.Push(bytes[..p.consumed]);
      if tracker.gapStart != 0 {
        TryRecover(reply);
      }
      ConsumeReady();
    }
  }
}
