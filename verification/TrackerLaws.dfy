/** What the sequence tracker promises over whole runs, whatever arrives in whatever order. */
module TrackerLaws {
  import opened Orders
  import opened Protocol
  import opened Trackers

  // ----- the invariant of delivery

  /** The frames delivered so far carry the numbers 1, 2, 3, ... up to the next expected one. */
  ghost predicate InOrder(delivered: seq<Bytes>, next: nat) {
    |delivered| + 1 == next && forall k :: 0 <= k < |delivered| ==> Sized(delivered[k]) && SeqOf(delivered[k]) == k + 1
  }

  /** Every held frame sits in the slot of its number, and its number is at least `least`. */
  ghost predicate Placed(t: TrackerState, least: nat) {
    && WellFormed(t)
    && forall i :: 0 <= i < WINDOW && t.window[i].occupied ==>
         SeqOf(t.window[i].frame) >= least && SeqOf(t.window[i].frame) % WINDOW == i
  }

  /** The window holds a frame with number `s`. */
  predicate Holds(t: TrackerState, s: nat)
    requires |t.window| == WINDOW
  {
    var slot := t.window[s % WINDOW];
    slot.occupied && HEADER <= |slot.frame| && SeqOf(slot.frame) == s
  }

  /** Every frame that the tracker delivers or holds is one of `frames`. */
  ghost predicate ComesFrom(t: TrackerState, delivered: seq<Bytes>, frames: set<Bytes>)
    requires |t.window| == WINDOW
  {
    && (forall k :: 0 <= k < |delivered| ==> delivered[k] in frames)
    && (forall i :: 0 <= i < WINDOW && t.window[i].occupied ==> t.window[i].frame in frames)
  }

  /** Flushing releases exactly the contiguous held numbers. */
  lemma {:induction false} FlushAllReleases(t: TrackerState)
    requires Placed(t, t.next)
    ensures var t' := FlushAll(t);
            && Placed(t', t'.next + 1)
            && t'.next >= t.next && t'.gapStart == t.gapStart && t'.gapEnd == t.gapEnd
            && (forall s: nat :: t.next <= s < t'.next ==> Holds(t, s))
            && (forall s: nat :: s >= t'.next ==> (Holds(t', s) <==> Holds(t, s)))
            && !Holds(t, t'.next)
    decreases OccupiedSlots(t.window)
  {
    hide OccupiedSlots, SeqOf;
    if CanFlush(t) {
      ReleaseSlot(t.window, t.next % WINDOW);
      var u := FlushOne(t);
      FlushAllReleases(u);
      assert forall s: nat :: s > t.next ==> (Holds(u, s) <==> Holds(t, s));
    }
  }

  /** Flushing appends the released frames in order. */
  lemma {:induction false} FlushAllDelivers(t: TrackerState, log: seq<Bytes>, frames: set<Bytes>)
    requires Placed(t, t.next) && InOrder(log + t.ready, t.next) && ComesFrom(t, log + t.ready, frames)
    ensures var t' := FlushAll(t);
            InOrder(log + t'.ready, t'.next) && ComesFrom(t', log + t'.ready, frames)
    decreases OccupiedSlots(t.window)
  {
    hide OccupiedSlots, SeqOf;
    if CanFlush(t) {
      ReleaseSlot(t.window, t.next % WINDOW);
      var u := FlushOne(t);
      assert log + u.ready == (log + t.ready) + [t.window[t.next % WINDOW].frame];
      FlushAllDelivers(u, log, frames);
    }
  }

  lemma StoreKeepsDelivery(t: TrackerState, f: Bytes, log: seq<Bytes>, frames: set<Bytes>)
    requires Placed(t, t.next + 1) && InOrder(log + t.ready, t.next) && ComesFrom(t, log + t.ready, frames)
    requires Sized(f) && SeqOf(f) > t.next && f in frames
    ensures var t' := Stored(t, SeqOf(f), f);
            && Placed(t', t'.next + 1) && InOrder(log + t'.ready, t'.next) && ComesFrom(t', log + t'.ready, frames)
  {
  }

  lemma AcceptKeepsDelivery(t: TrackerState, f: Bytes, log: seq<Bytes>, frames: set<Bytes>)
    requires Placed(t, t.next + 1) && InOrder(log + t.ready, t.next) && ComesFrom(t, log + t.ready, frames)
    requires Sized(f) && SeqOf(f) == t.next && f in frames
    ensures var t' := FlushAll(Accept(t, f));
            && Placed(t', t'.next + 1) && InOrder(log + t'.ready, t'.next) && ComesFrom(t', log + t'.ready, frames)
            && t'.next >= t.next
  {
    hide SeqOf, OccupiedSlots;
    assert log + Accept(t, f).ready == (log + t.ready) + [f];
    FlushAllReleases(Accept(t, f));
    FlushAllDelivers(Accept(t, f), log, frames);
  }

  /** Delivery stays in order and exactly once whatever frame arrives, with collisions or without. */
  lemma PushKeepsDelivery(t: TrackerState, f: Bytes, log: seq<Bytes>, frames: set<Bytes>)
    requires Placed(t, t.next + 1) && InOrder(log + t.ready, t.next) && ComesFrom(t, log + t.ready, frames)
    requires f in frames
    ensures var t' := Pushed(t, f).0;
            && Placed(t', t'.next + 1) && InOrder(log + t'.ready, t'.next) && ComesFrom(t', log + t'.ready, frames)
            && t'.next >= t.next
  {
    hide SeqOf, OccupiedSlots, Accept, FlushAll;
    if Sized(f) && SeqOf(f) == t.next {
      AcceptKeepsDelivery(t, f, log, frames);
    } else if Sized(f) && SeqOf(f) > t.next {
      StoreKeepsDelivery(t.(outOfOrder := t.outOfOrder + 1), f, log, frames);
    }
  }

  // ----- runs

  /** `HandOver` is the caller taking the ready frames and clearing the list. */
  datatype Event = Arrive(frame: Bytes) | DropGap | HandOver

  /** The tracker's state, and the frames handed over so far. */
  datatype History = History(t: TrackerState, log: seq<Bytes>)

  function Delivered(h: History): seq<Bytes> {
    h.log + h.t.ready
  }

  function Step(h: History, e: Event): (h': History)
    requires WellFormed(h.t)
    ensures WellFormed(h'.t)
  {
    match e
    case Arrive(f) => h.(t := Pushed(h.t, f).0)
    case DropGap => h.(t := GapCleared(h.t))
    case HandOver => History(h.t.(ready := []), h.log + h.t.ready)
  }

  function RunOf(events: seq<Event>): (h: History)
    ensures WellFormed(h.t)
  {
    if events == [] then History(Initial(), []) else
      Step(RunOf(events[..|events| - 1]), events[|events| - 1])
  }

  function Steps(h: History, events: seq<Event>): (h': History)
    requires WellFormed(h.t)
    ensures WellFormed(h'.t)
    decreases |events|
  {
    if events == [] then h else Steps(Step(h, events[0]), events[1..])
  }

  lemma {:induction false} RunOfJoins(a: seq<Event>, b: seq<Event>)
    ensures RunOf(a + b) == Steps(RunOf(a), b)
    decreases |b|
  {
    hide Step;
    if b == [] {
      assert a + b == a;
    } else {
      var a' := a + [b[0]];
      assert a'[..|a|] == a && a + b == a' + b[1..];
      RunOfJoins(a', b[1..]);
    }
  }

  lemma {:induction false} StepsJoin(h: History, a: seq<Event>, b: seq<Event>)
    requires WellFormed(h.t)
    ensures Steps(h, a + b) == Steps(Steps(h, a), b)
    decreases |a|
  {
    hide Step;
    if a == [] {
      assert a + b == b;
    } else {
      assert (a + b)[1..] == a[1..] + b;
      StepsJoin(Step(h, a[0]), a[1..], b);
    }
  }

  lemma OneStep(h: History, e: Event)
    requires WellFormed(h.t)
    ensures Steps(h, []) == h && Steps(h, [e]) == Step(h, e)
  {
    hide Step;
    assert [e][1..] == [];
  }

  function Arrived(events: seq<Event>): set<Bytes> {
    set e | e in events && e.Arrive? :: e.frame
  }

  /**
   In any run, with rejected frames, collisions and dropped gaps: the k-th frame ever delivered carries number k,
   delivered and held frames are exactly frames that arrived, and every held number is above the next expected
   one and sits in its own slot.
   */
  lemma {:induction false} RunDeliversInOrder(events: seq<Event>)
    ensures var h := RunOf(events);
            && InOrder(Delivered(h), h.t.next)
            && ComesFrom(h.t, Delivered(h), Arrived(events))
            && Placed(h.t, h.t.next + 1)
  {
    if events != [] {
      var before, e := events[..|events| - 1], events[|events| - 1];
      RunDeliversInOrder(before);
      var h := RunOf(before);
      assert events == before + [e];
      assert Arrived(before) <= Arrived(events);
      match e
      case Arrive(f) =>
        assert f in Arrived(events);
        PushKeepsDelivery(h.t, f, h.log, Arrived(events));
      case DropGap =>
      case HandOver =>
        assert Delivered(RunOf(events)) == Delivered(h);
    }
  }

  // ----- what was received, and what the tracker knows of it

  function Received(events: seq<Event>): set<nat> {
    set e | e in events && e.Arrive? && Sized(e.frame) :: SeqOf(e.frame)
  }

  /** The tracker has not forgotten anything: a number was received if and only if it is delivered or held. */
  ghost predicate Remembers(t: TrackerState, received: set<nat>)
    requires |t.window| == WINDOW
  {
    forall s: nat :: s >= 1 ==> (s in received <==> s < t.next || Holds(t, s))
  }

  /** `n` is the least number not yet received. */
  ghost predicate LeastMissing(received: set<nat>, n: nat) {
    n >= 1 && n !in received && forall s :: 1 <= s < n ==> s in received
  }

  /** Storing a frame in the window overwrites a frame with another number. */
  predicate Overwrites(t: TrackerState, f: Bytes)
    requires WellFormed(t)
  {
    Sized(f) && SeqOf(f) > t.next
    && var slot := t.window[SeqOf(f) % WINDOW];
       slot.occupied && SeqOf(slot.frame) != SeqOf(f)
  }

  function ReceivedWith(received: set<nat>, f: Bytes): set<nat> {
    if Sized(f) then received + {SeqOf(f)} else received
  }

  lemma AcceptRemembers(t: TrackerState, received: set<nat>, f: Bytes)
    requires Placed(t, t.next + 1) && Remembers(t, received) && Sized(f) && SeqOf(f) == t.next
    ensures Remembers(Pushed(t, f).0, received + {SeqOf(f)})
  {
    hide SeqOf;
    var u := Accept(t, f);
    FlushAllReleases(u);
    var t' := Pushed(t, f).0;
    assert t'.window == FlushAll(u).window && t'.next == FlushAll(u).next;
    assert forall s: nat :: Holds(u, s) <==> Holds(t, s);
    assert forall s: nat :: Holds(t', s) <==> Holds(FlushAll(u), s);
  }

  lemma StoreRemembersIffNoOverwrite(t: TrackerState, received: set<nat>, f: Bytes)
    requires Placed(t, t.next + 1) && Remembers(t, received) && Sized(f) && SeqOf(f) > t.next
    ensures Remembers(Pushed(t, f).0, received + {SeqOf(f)}) <==> !Overwrites(t, f)
  {
    hide SeqOf;
    var t' := Pushed(t, f).0;
    assert t'.next == t.next;
    if Overwrites(t, f) {
      var displaced := SeqOf(t.window[SeqOf(f) % WINDOW].frame);
      assert Holds(t, displaced) && !Holds(t', displaced);
    } else {
      assert forall s: nat :: Holds(t', s) <==> s == SeqOf(f) || Holds(t, s);
    }
  }

  /** A frame makes the tracker forget a number if and only if it overwrites a frame with another number. */
  lemma PushRemembersIffNoOverwrite(t: TrackerState, received: set<nat>, f: Bytes)
    requires Placed(t, t.next + 1) && Remembers(t, received)
    ensures Remembers(Pushed(t, f).0, ReceivedWith(received, f)) <==> !Overwrites(t, f)
  {
    hide SeqOf;
    if Sized(f) && SeqOf(f) == t.next {
      AcceptRemembers(t, received, f);
    } else if Sized(f) && SeqOf(f) > t.next {
      StoreRemembersIffNoOverwrite(t, received, f);
    } else {
      assert forall s: nat :: Holds(Pushed(t, f).0, s) <==> Holds(t, s);
    }
  }

  lemma SameWindowRemembers(t: TrackerState, t': TrackerState, received: set<nat>)
    requires |t.window| == WINDOW && Remembers(t, received) && t'.window == t.window && t'.next == t.next
    ensures Remembers(t', received)
  {
    assert forall s: nat :: Holds(t', s) <==> Holds(t, s);
  }

  lemma RemembersLeast(t: TrackerState, received: set<nat>)
    requires Placed(t, t.next + 1) && Remembers(t, received)
    ensures LeastMissing(received, t.next)
  {
    assert !Holds(t, t.next);
  }

  // After the first `k` events.
  ghost predicate RemembersAt(events: seq<Event>, k: nat)
    requires k <= |events|
  {
    Remembers(RunOf(events[..k]).t, Received(events[..k]))
  }

  // When event `k` comes.
  predicate OverwritesAt(events: seq<Event>, k: nat)
    requires k < |events|
  {
    events[k].Arrive? && Overwrites(RunOf(events[..k]).t, events[k].frame)
  }

  lemma EventRemembersIffNoOverwrite(events: seq<Event>, k: nat)
    requires k < |events| && RemembersAt(events, k)
    ensures RemembersAt(events, k + 1) <==> !OverwritesAt(events, k)
  {
    hide SeqOf, Pushed, Placed, Remembers, Overwrites;
    var before, e := events[..k], events[k];
    RunDeliversInOrder(before);
    var t := RunOf(before).t;
    assert events[..k + 1] == before + [e];
    assert (before + [e])[..k] == before;
    if e.Arrive? {
      assert Received(before + [e]) == ReceivedWith(Received(before), e.frame);
      PushRemembersIffNoOverwrite(t, Received(before), e.frame);
    } else {
      assert Received(before + [e]) == Received(before);
      SameWindowRemembers(t, RunOf(before + [e]).t, Received(before));
    }
  }

  /**
   Throughout a run, every received number is delivered or held, and no other number is, if and only if no arrival
   overwrites a held frame that has another number.
   */
  lemma RemembersIffNothingOverwritten(events: seq<Event>)
    ensures (forall k :: 0 <= k <= |events| ==> RemembersAt(events, k))
       <==> (forall k :: 0 <= k < |events| ==> !OverwritesAt(events, k))
  {
    hide RemembersAt, OverwritesAt;
    if forall k :: 0 <= k <= |events| ==> RemembersAt(events, k) {
      forall k | 0 <= k < |events|
        ensures !OverwritesAt(events, k)
      {
        assert RemembersAt(events, k) && RemembersAt(events, k + 1);
        EventRemembersIffNoOverwrite(events, k);
      }
    }
    if forall k :: 0 <= k < |events| ==> !OverwritesAt(events, k) {
      NothingReceived(events);
      for n := 0 to |events|
        invariant forall k :: 0 <= k <= n ==> RemembersAt(events, k)
      {
        EventRemembersIffNoOverwrite(events, n);
      }
    }
  }

  lemma NothingReceived(events: seq<Event>)
    ensures RemembersAt(events, 0)
  {
    assert events[..0] == [];
  }

  /** No arrival of the run overwrites a held frame that has another number. */
  ghost predicate NeverOverwrites(events: seq<Event>) {
    forall k :: 0 <= k < |events| ==> !OverwritesAt(events, k)
  }

  /** If nothing is overwritten, the next expected number is the least one missing. */
  lemma NextIsLeastMissing(events: seq<Event>)
    requires NeverOverwrites(events)
    ensures var t := RunOf(events).t;
            Remembers(t, Received(events)) && LeastMissing(Received(events), t.next)
  {
    hide SeqOf, OverwritesAt, Remembers, LeastMissing;
    RemembersIffNothingOverwritten(events);
    assert RemembersAt(events, |events|) && events[..|events|] == events;
    RunDeliversInOrder(events);
    RemembersLeast(RunOf(events).t, Received(events));
  }

  // ----- arrivals within the reorder window

  /** No frame arrives more than a window ahead of the number expected at that moment. */
  ghost predicate WithinWindow(events: seq<Event>) {
    forall k :: 0 <= k < |events| && events[k].Arrive? && Sized(events[k].frame) ==>
      SeqOf(events[k].frame) <= RunOf(events[..k]).t.next + 64
  }

  ghost predicate HeldWithinWindow(t: TrackerState)
    requires |t.window| == WINDOW
  {
    forall s: nat :: Holds(t, s) ==> s <= t.next + WINDOW
  }

  lemma SameSlotFarApart(a: nat, b: nat)
    requires a % WINDOW == b % WINDOW && a != b
    ensures a >= b + WINDOW || b >= a + WINDOW
  {
  }

  lemma NoOverwriteWithinWindow(t: TrackerState, f: Bytes)
    requires Placed(t, t.next + 1) && HeldWithinWindow(t)
    requires Sized(f) ==> SeqOf(f) <= t.next + WINDOW
    ensures !Overwrites(t, f)
  {
    hide SeqOf;
    if Overwrites(t, f) {
      var held := SeqOf(t.window[SeqOf(f) % WINDOW].frame);
      assert Holds(t, held);
      SameSlotFarApart(held, SeqOf(f));
    }
  }

  lemma PushKeepsWithinWindow(t: TrackerState, f: Bytes)
    requires Placed(t, t.next + 1) && HeldWithinWindow(t)
    requires Sized(f) ==> SeqOf(f) <= t.next + WINDOW
    ensures HeldWithinWindow(Pushed(t, f).0)
  {
    hide SeqOf;
    var t' := Pushed(t, f).0;
    if Sized(f) && SeqOf(f) == t.next {
      var u := Accept(t, f);
      FlushAllReleases(u);
      assert forall s: nat :: Holds(u, s) <==> Holds(t, s);
      assert forall s: nat :: Holds(t', s) <==> Holds(FlushAll(u), s);
      assert forall s: nat :: Holds(FlushAll(u), s) ==> s > FlushAll(u).next;
    } else if Sized(f) && SeqOf(f) > t.next {
      assert t'.next == t.next;
      assert forall s: nat :: Holds(t', s) ==> s == SeqOf(f) || Holds(t, s);
    } else {
      assert forall s: nat :: Holds(t', s) <==> Holds(t, s);
    }
  }

  lemma {:induction false} RunStaysWithinWindow(events: seq<Event>)
    requires WithinWindow(events)
    ensures HeldWithinWindow(RunOf(events).t)
  {
    hide SeqOf, Pushed;
    if events != [] {
      var before, e := events[..|events| - 1], events[|events| - 1];
      assert forall k :: 0 <= k < |before| ==> before[..k] == events[..k];
      RunStaysWithinWindow(before);
      RunDeliversInOrder(before);
      var t, t' := RunOf(before).t, RunOf(events).t;
      if e.Arrive? {
        PushKeepsWithinWindow(t, e.frame);
      } else {
        assert forall s: nat :: Holds(t', s) <==> Holds(t, s);
      }
    }
  }

  /** Within the window, no arrival overwrites a held frame that has another number. */
  lemma RunNeverOverwrites(events: seq<Event>)
    requires WithinWindow(events)
    ensures NeverOverwrites(events)
  {
    hide SeqOf, Overwrites, Placed;
    forall k | 0 <= k < |events|
      ensures !OverwritesAt(events, k)
    {
      assert forall j :: 0 <= j < k ==> events[..k][..j] == events[..j];
      RunStaysWithinWindow(events[..k]);
      RunDeliversInOrder(events[..k]);
      if events[k].Arrive? {
        NoOverwriteWithinWindow(RunOf(events[..k]).t, events[k].frame);
      }
    }
  }

  /** Within the window, the next expected number is the least one missing, and everything above it is held. */
  lemma RunForgetsNothing(events: seq<Event>)
    requires WithinWindow(events)
    ensures var t := RunOf(events).t;
            && Remembers(t, Received(events)) && LeastMissing(Received(events), t.next)
            && HeldWithinWindow(t)
  {
    hide SeqOf, NeverOverwrites;
    RunNeverOverwrites(events);
    NextIsLeastMissing(events);
    RunStaysWithinWindow(events);
  }

  /** Progress depends only on which numbers arrived, not on their order or multiplicity, if nothing is overwritten. */
  lemma SameArrivalsSameProgress(a: seq<Event>, b: seq<Event>)
    requires NeverOverwrites(a) && NeverOverwrites(b) && Received(a) == Received(b)
    ensures RunOf(a).t.next == RunOf(b).t.next
  {
    hide NeverOverwrites, Received;
    NextIsLeastMissing(a);
    NextIsLeastMissing(b);
  }

  // ----- the answer of a push

  /** A push refuses a frame of a wrong size, and one whose number is below the next expected one. */
  lemma PushAnswers(t: TrackerState, f: Bytes)
    requires WellFormed(t)
    ensures Pushed(t, f).1 <==> 20 <= |f| <= 44 && SeqOf(f) >= t.next
  {
    hide SeqOf, FlushAll;
  }

  ghost predicate NumberDelivered(delivered: seq<Bytes>, s: nat) {
    exists k :: 0 <= k < |delivered| && Sized(delivered[k]) && SeqOf(delivered[k]) == s
  }

  /** In any run, an arrival is refused exactly if its size is wrong or its number is 0 or was delivered before. */
  lemma RefusedIffDelivered(events: seq<Event>, f: Bytes)
    ensures var h := RunOf(events);
            !Pushed(h.t, f).1
            <==> !(20 <= |f| <= 44) || SeqOf(f) == 0 || NumberDelivered(Delivered(h), SeqOf(f))
  {
    hide SeqOf, Pushed;
    var h := RunOf(events);
    PushAnswers(h.t, f);
    RunDeliversInOrder(events);
    if Sized(f) && 1 <= SeqOf(f) < h.t.next {
      assert SeqOf(Delivered(h)[SeqOf(f) - 1]) == SeqOf(f);
    }
  }

  // ----- which of several frames with one number is kept

  /** The first frame of a run that carries number `s`. */
  function FirstFrame(events: seq<Event>, s: nat): Option<Bytes> {
    if events == [] then None else
      var rest, e := FirstFrame(events[..|events| - 1], s), events[|events| - 1];
      if rest.None? && e.Arrive? && Sized(e.frame) && SeqOf(e.frame) == s then Some(e.frame) else rest
  }

  function FirstFrames(events: seq<Event>): set<Bytes> {
    set f | f in Arrived(events) && Sized(f) && FirstFrame(events, SeqOf(f)) == Some(f)
  }

  lemma {:induction false} FirstFrameArrived(events: seq<Event>, s: nat)
    ensures FirstFrame(events, s).Some? ==> s in Received(events)
  {
    hide SeqOf;
    if events != [] {
      var before, e := events[..|events| - 1], events[|events| - 1];
      FirstFrameArrived(before, s);
      assert events == before + [e];
      if FirstFrame(before, s).None? && FirstFrame(events, s).Some? {
        assert e in events;
      }
    }
  }

  lemma FirstFramesGrow(before: seq<Event>, e: Event)
    ensures FirstFrames(before) <= FirstFrames(before + [e])
    ensures e.Arrive? && Sized(e.frame) && SeqOf(e.frame) !in Received(before) ==>
              e.frame in FirstFrames(before + [e])
  {
    hide SeqOf;
    var events := before + [e];
    assert events[..|before|] == before && e in events;
    assert Arrived(before) <= Arrived(events);
    if e.Arrive? && Sized(e.frame) {
      FirstFrameArrived(before, SeqOf(e.frame));
    }
  }

  /** A frame that is refused, or whose number is already held, changes neither the window nor what is delivered. */
  lemma RepeatedFrameIsIgnored(t: TrackerState, f: Bytes, received: set<nat>)
    requires Placed(t, t.next + 1) && Remembers(t, received) && !Overwrites(t, f)
    requires Sized(f) ==> SeqOf(f) == 0 || SeqOf(f) in received
    ensures Pushed(t, f).0.window == t.window && Pushed(t, f).0.ready == t.ready && Pushed(t, f).0.next == t.next
  {
    hide SeqOf, FlushAll;
    assert !Holds(t, t.next);
  }

  /**
   If nothing is overwritten, then of several frames with one number the first is delivered or held: later ones, which
   may have other bytes, change nothing.
   */
  lemma {:induction false} FirstFrameWins(events: seq<Event>)
    requires NeverOverwrites(events)
    ensures var h := RunOf(events);
            ComesFrom(h.t, Delivered(h), FirstFrames(events))
  {
    hide SeqOf, Overwrites, Pushed, FirstFrames, Remembers, LeastMissing, Received;
    if events != [] {
      var before, e := events[..|events| - 1], events[|events| - 1];
      assert events == before + [e];
      EarlierNeverOverwrites(before, e);
      FirstFrameWins(before);
      NextIsLeastMissing(before);
      RunDeliversInOrder(before);
      FirstFramesGrow(before, e);
      var h := RunOf(before);
      if e.Arrive? {
        assert !Overwrites(h.t, e.frame);
        if Sized(e.frame) && SeqOf(e.frame) > 0 && SeqOf(e.frame) !in Received(before) {
          PushKeepsDelivery(h.t, e.frame, h.log, FirstFrames(events));
        } else {
          RepeatedFrameIsIgnored(h.t, e.frame, Received(before));
        }
      } else {
        assert Delivered(RunOf(events)) == Delivered(h);
      }
    }
  }

  lemma EarlierNeverOverwrites(before: seq<Event>, e: Event)
    requires NeverOverwrites(before + [e])
    ensures NeverOverwrites(before) && !OverwritesAt(before + [e], |before|)
  {
    hide Overwrites;
    var events := before + [e];
    forall k | 0 <= k < |before|
      ensures !OverwritesAt(before, k)
    {
      assert events[..k] == before[..k] && !OverwritesAt(events, k);
    }
  }

  // ----- the pending gap

  /** The numbers that arrived out of order since the pending gap was opened. */
  ghost function SeenSinceOpened(events: seq<Event>): set<nat> {
    if events == [] || RunOf(events).t.gapStart == 0 then {} else
      var before, e := events[..|events| - 1], events[|events| - 1];
      if e.Arrive? && Sized(e.frame) && SeqOf(e.frame) > RunOf(before).t.next
      then SeenSinceOpened(before) + {SeqOf(e.frame)}
      else SeenSinceOpened(before)
  }

  /**
   A pending gap runs from a number not after the next expected one to just before the largest number seen
   since it was opened, and lies ahead of what was delivered. When no gap is pending, nothing is held.
   */
  ghost predicate GapCovers(t: TrackerState, seen: set<nat>)
    requires WellFormed(t)
  {
    if t.gapStart == 0 then
      seen == {} && forall i :: 0 <= i < WINDOW ==> !t.window[i].occupied
    else
      && t.gapStart <= t.next <= t.gapEnd
      && t.gapEnd + 1 in seen && (forall s :: s in seen ==> s <= t.gapEnd + 1)
      && forall i :: 0 <= i < WINDOW && t.window[i].occupied ==> SeqOf(t.window[i].frame) in seen
  }

  lemma PushKeepsGap(t: TrackerState, seen: set<nat>, f: Bytes)
    requires Placed(t, t.next + 1) && GapCovers(t, seen)
    ensures var t' := Pushed(t, f).0;
            GapCovers(t', if t'.gapStart == 0 then {} else if Sized(f) && SeqOf(f) > t.next then seen + {SeqOf(f)} else seen)
  {
    hide SeqOf;
    if Sized(f) && SeqOf(f) == t.next {
      var u := Accept(t, f);
      FlushAllReleases(u);
      var v := FlushAll(u);
      forall i | 0 <= i < WINDOW && v.window[i].occupied
        ensures t.window[i] == v.window[i]
      {
        FlushAllKeepsSlot(u, i);
      }
    }
  }

  lemma {:induction false} FlushAllKeepsSlot(t: TrackerState, i: nat)
    requires WellFormed(t) && i < WINDOW
    ensures FlushAll(t).window[i] == t.window[i] || !FlushAll(t).window[i].occupied
    decreases OccupiedSlots(t.window)
  {
    if CanFlush(t) {
      ReleaseSlot(t.window, t.next % WINDOW);
      FlushAllKeepsSlot(FlushOne(t), i);
    }
  }

  /** As long as nobody drops a gap from outside, the pending gap covers everything that is missing. */
  lemma {:induction false} RunKeepsGap(events: seq<Event>)
    requires forall k :: 0 <= k < |events| ==> !events[k].DropGap?
    ensures GapCovers(RunOf(events).t, SeenSinceOpened(events))
  {
    if events != [] {
      var before, e := events[..|events| - 1], events[|events| - 1];
      RunKeepsGap(before);
      RunDeliversInOrder(before);
      if e.Arrive? {
        PushKeepsGap(RunOf(before).t, SeenSinceOpened(before), e.frame);
      }
    }
  }

  /** How many events came before the one that opened the pending gap. */
  function Opening(events: seq<Event>): nat {
    if events == [] then 0 else
      var before := events[..|events| - 1];
      if RunOf(before).t.gapStart == 0 then |before| else Opening(before)
  }

  lemma StepKeepsGapStart(h: History, e: Event)
    requires Placed(h.t, h.t.next + 1) && Step(h, e).t.gapStart != 0
    ensures Step(h, e).t.gapStart == if h.t.gapStart == 0 then h.t.next else h.t.gapStart
  {
    hide SeqOf;
    if e.Arrive? && Sized(e.frame) && SeqOf(e.frame) == h.t.next {
      FlushAllReleases(Accept(h.t, e.frame));
    }
  }

  /** A pending gap starts at the number that was expected when it was opened, and has been pending since then. */
  lemma {:induction false} GapStartsWhereOpened(events: seq<Event>)
    requires RunOf(events).t.gapStart != 0
    ensures var k := Opening(events);
            && k < |events|
            && RunOf(events[..k]).t.gapStart == 0
            && RunOf(events).t.gapStart == RunOf(events[..k]).t.next
            && forall j :: k < j <= |events| ==> RunOf(events[..j]).t.gapStart == RunOf(events).t.gapStart
  {
    hide Step, Placed, InOrder, ComesFrom;
    var before, e := events[..|events| - 1], events[|events| - 1];
    assert events[..|events|] == events;
    RunDeliversInOrder(before);
    StepKeepsGapStart(RunOf(before), e);
    if RunOf(before).t.gapStart != 0 {
      GapStartsWhereOpened(before);
      assert forall j :: 0 <= j <= |before| ==> events[..j] == before[..j];
    }
  }

  /** A gap never starts after the next expected number, dropped gaps or not; without a gap both ends are 0. */
  lemma {:induction false} GapStartsAtOrBeforeNext(events: seq<Event>)
    ensures RunOf(events).t.gapStart <= RunOf(events).t.next
    ensures RunOf(events).t.gapStart == 0 ==> RunOf(events).t.gapEnd == 0
  {
    hide SeqOf;
    if events != [] {
      var before, e := events[..|events| - 1], events[|events| - 1];
      GapStartsAtOrBeforeNext(before);
      RunDeliversInOrder(before);
      var t := RunOf(before).t;
      if e.Arrive? && Sized(e.frame) && SeqOf(e.frame) == t.next {
        FlushAllReleases(Accept(t, e.frame));
      }
    }
  }

  /** A frame more than a window ahead overwrites a held one, which is then missing although it was received. */
  lemma OverwrittenFrameIsMissing(one: Bytes, two: Bytes, far: Bytes)
    requires Sized(one) && Sized(two) && Sized(far)
    requires SeqOf(one) == 1 && SeqOf(two) == 2 && SeqOf(far) == 2 + 64
    ensures var t := RunOf([Arrive(two), Arrive(far), Arrive(one)]).t;
            t.next == 2 && !Holds(t, 2) && 2 in Received([Arrive(two), Arrive(far), Arrive(one)])
  {
    hide SeqOf;
    var events := [Arrive(two), Arrive(far), Arrive(one)];
    assert events[1] == Arrive(far) && events[0] == Arrive(two) && events[0] in events;
    var a, b := RunOf([]).t, RunOf([Arrive(two)]).t;
    assert [Arrive(two)][..0] == [] && [Arrive(two), Arrive(far)][..1] == [Arrive(two)];
    assert events[..2] == [Arrive(two), Arrive(far)];
    assert b.next == 1 && b.window[2] == Slot(true, two);
    var c := RunOf([Arrive(two), Arrive(far)]).t;
    assert c.next == 1 && c.window == a.window[2 := Slot(true, far)];
    assert !CanFlush(Accept(c, one));
  }

  // ----- accounting

  /** What became of the well-sized frames that arrived, by the branch of `push` that each of them took. */
  datatype Tally = Tally(direct: nat, late: nat, ahead: nat, duplicates: nat, overwritten: nat)

  /** What one arrival adds to the tally. */
  function Tallied(t: TrackerState, f: Bytes, y: Tally): Tally
    requires WellFormed(t)
  {
    if !Sized(f) then y
    else if SeqOf(f) == t.next then y.(direct := y.direct + 1)
    else if SeqOf(f) < t.next then y.(late := y.late + 1)
    else if Holds(t, SeqOf(f)) then y.(ahead := y.ahead + 1, duplicates := y.duplicates + 1)
    else if Overwrites(t, f) then y.(ahead := y.ahead + 1, overwritten := y.overwritten + 1)
    else y.(ahead := y.ahead + 1)
  }

  function TallyOf(events: seq<Event>): Tally {
    if events == [] then Tally(0, 0, 0, 0, 0) else
      var before, e := events[..|events| - 1], events[|events| - 1];
      if e.Arrive? then Tallied(RunOf(before).t, e.frame, TallyOf(before)) else TallyOf(before)
  }

  lemma {:induction false} StoreInSlot(window: seq<Slot>, i: nat, f: Bytes)
    requires i < |window|
    ensures OccupiedSlots(window[i := Slot(true, f)])
         == OccupiedSlots(window) + if window[i].occupied then 0 else 1
  {
    if i == 0 {
      assert window[0 := Slot(true, f)][1..] == window[1..];
    } else {
      StoreInSlot(window[1..], i - 1, f);
      assert window[i := Slot(true, f)][1..] == window[1..][i - 1 := Slot(true, f)];
    }
  }

  /** Every flushed frame leaves the window and is counted as recovered. */
  lemma {:induction false} FlushAllCounts(t: TrackerState)
    requires WellFormed(t)
    ensures var t' := FlushAll(t);
            && t'.recovered + OccupiedSlots(t'.window) == t.recovered + OccupiedSlots(t.window)
            && |t'.ready| - t'.recovered == |t.ready| - t.recovered
            && t'.drops == t.drops && t'.outOfOrder == t.outOfOrder
    decreases OccupiedSlots(t.window)
  {
    hide SeqOf, OccupiedSlots;
    if CanFlush(t) {
      ReleaseSlot(t.window, t.next % WINDOW);
      FlushAllCounts(FlushOne(t));
    }
  }

  ghost predicate Accounted(h: History, y: Tally)
    requires WellFormed(h.t)
  {
    && h.t.outOfOrder == y.ahead && h.t.drops == y.late + y.overwritten
    && |Delivered(h)| == y.direct + h.t.recovered
    && y.ahead == h.t.recovered + OccupiedSlots(h.t.window) + y.duplicates + y.overwritten
  }

  lemma ArrivalIsAccounted(h: History, f: Bytes, y: Tally)
    requires Placed(h.t, h.t.next + 1) && Accounted(h, y)
    ensures Accounted(Step(h, Arrive(f)), Tallied(h.t, f, y))
  {
    hide SeqOf, OccupiedSlots;
    var t := h.t;
    if Sized(f) && SeqOf(f) == t.next {
      FlushAllCounts(Accept(t, f));
    } else if Sized(f) && SeqOf(f) > t.next {
      StoreInSlot(t.window, SeqOf(f) % WINDOW, f);
    }
  }

  /**
   Frames are conserved: every frame that arrived ahead of its turn was delivered by a flush, is held, was a
   duplicate of a held one, or replaced a held one that is counted as dropped; and the statistics say so.
   */
  lemma {:induction false} FramesAreConserved(events: seq<Event>)
    ensures Accounted(RunOf(events), TallyOf(events))
  {
    hide SeqOf, OccupiedSlots, Pushed, Tallied;
    if events == [] {
      NothingOccupied(WINDOW);
    } else {
      var before, e := events[..|events| - 1], events[|events| - 1];
      FramesAreConserved(before);
      RunDeliversInOrder(before);
      if e.Arrive? {
        ArrivalIsAccounted(RunOf(before), e.frame, TallyOf(before));
      }
    }
  }

  lemma {:induction false} NothingOccupied(n: nat)
    ensures OccupiedSlots(seq(n, _ => FREE)) == 0
  {
    if n > 0 {
      NothingOccupied(n - 1);
      assert seq(n, _ => FREE)[1..] == seq(n - 1, _ => FREE);
    }
  }
}
