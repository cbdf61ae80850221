/**
 What the handler as a whole promises for a session: the frames that reach the book are the session's frames, in
 order and exactly once, so the book depends only on how far the session has been covered.
 */
module HandlerLaws {
  import opened Orders
  import opened Protocol
  import opened Framing
  import opened Trackers
  import opened TrackerLaws
  import opened BookStates
  import opened Handlers
  import BookLaws

  /** Frame `i` of a session is well formed and carries number `i + 1`. */
  ghost predicate IsSession(session: seq<Bytes>) {
    forall i :: 0 <= i < |session| ==> IsFrame(session[i]) && SeqOf(session[i]) == i + 1
  }

  function FrameSet(session: seq<Bytes>): set<Bytes> {
    set f | f in session
  }

  /** The tracker has delivered `delivered`, and all it delivered or holds are session frames. */
  ghost predicate Tracks(t: TrackerState, log: seq<Bytes>, session: seq<Bytes>) {
    Placed(t, t.next + 1) && InOrder(log + t.ready, t.next) && ComesFrom(t, log + t.ready, FrameSet(session))
  }

  /** In-order session frames are a prefix of the session. */
  lemma InOrderIsPrefix(delivered: seq<Bytes>, next: nat, session: seq<Bytes>)
    requires IsSession(session) && InOrder(delivered, next)
    requires forall k :: 0 <= k < |delivered| ==> delivered[k] in FrameSet(session)
    ensures next <= |session| + 1 && delivered == session[..next - 1]
  {
    forall k | 0 <= k < |delivered|
      ensures k < |session| && delivered[k] == session[k]
    {
      assert delivered[k] in session;
      var i :| 0 <= i < |session| && session[i] == delivered[k];
    }
    if |delivered| > 0 {
      assert delivered[|delivered| - 1] == session[|delivered| - 1];
    }
  }

  lemma TracksPrefix(t: TrackerState, log: seq<Bytes>, session: seq<Bytes>)
    requires IsSession(session) && Tracks(t, log, session)
    ensures t.next <= |session| + 1 && log + t.ready == session[..t.next - 1]
  {
    InOrderIsPrefix(log + t.ready, t.next, session);
  }

  // ----- replay and recovery

  /** Replaying session frames keeps delivery in order, whatever frames they are. */
  lemma {:induction false} ReplayKeepsTracking(t: TrackerState, frames: seq<Bytes>, log: seq<Bytes>, session: seq<Bytes>)
    requires Tracks(t, log, session)
    requires forall i :: 0 <= i < |frames| ==> frames[i] in FrameSet(session)
    ensures var t' := ReplayFrames(t, frames);
            Tracks(t', log, session) && t'.next >= t.next
    decreases |frames|
  {
    if frames != [] {
      PushKeepsDelivery(t, frames[0], log, FrameSet(session));
      ReplayKeepsTracking(Pushed(t, frames[0]).0, frames[1..], log, session);
    }
  }

  /** Replaying consecutive session frames from a number that is not missing delivers all of them. */
  lemma {:induction false} ReplayCovers(t: TrackerState, from: nat, to: nat, log: seq<Bytes>, session: seq<Bytes>)
    requires IsSession(session) && Tracks(t, log, session)
    requires from <= to <= |session| && from + 1 <= t.next
    ensures ReplayFrames(t, session[from..to]).next > to
    decreases |session| - from
  {
    if from < to {
      var f := session[from];
      assert f in FrameSet(session);
      assert IsFrame(f);
      PushKeepsDelivery(t, f, log, FrameSet(session));
      PushPasses(t, f, log, session);
      ReplayCovers(Pushed(t, f).0, from + 1, to, log, session);
      assert session[from..to][1..] == session[from + 1..to];
    }
  }

  lemma PushPasses(t: TrackerState, f: Bytes, log: seq<Bytes>, session: seq<Bytes>)
    requires Tracks(t, log, session) && Sized(f) && SeqOf(f) <= t.next
    ensures Pushed(t, f).0.next > SeqOf(f)
  {
    if SeqOf(f) == t.next {
      FlushAllReleases(Accept(t, f));
    }
  }

  /** Replaying the first `k` frames of the server's reply for the pending gap. */
  lemma ReplayOfReply(t: TrackerState, log: seq<Bytes>, session: seq<Bytes>, k: nat)
    requires IsSession(session) && Tracks(t, log, session) && 1 <= t.gapStart <= t.next
    requires k <= |Requested(session, t.gapStart, t.gapEnd)|
    ensures var t' := ReplayFrames(t, Requested(session, t.gapStart, t.gapEnd)[..k]);
            Tracks(t', log, session) && t'.next >= t.next && t'.next >= t.gapStart + k
  {
    hide Tracks, IsFrame, SeqOf;
    var frames := Requested(session, t.gapStart, t.gapEnd);
    if frames != [] {
      var from := t.gapStart - 1;
      assert frames[..k] == session[from..from + k];
      ReplayKeepsTracking(t, frames[..k], log, session);
      ReplayCovers(t, from, from + k, log, session);
    }
  }

  lemma ReplySplits(session: seq<Bytes>, start: nat, end: nat, cut: nat)
    requires IsSession(session) && cut <= |Concat(Requested(session, start, end))|
    ensures var frames := Requested(session, start, end);
            && Split(Concat(frames)[..cut]) == frames[..WholeFrames(frames, cut)]
            && (cut == |Concat(frames)| ==> WholeFrames(frames, cut) == |frames|)
  {
    hide Split, IsFrame, SeqOf;
    var frames := Requested(session, start, end);
    SplitConcat(frames, cut);
    WholeFramesIsMaximal(frames, cut);
    if WholeFrames(frames, cut) < |frames| {
      ConcatLonger(frames, WholeFrames(frames, cut) + 1);
    }
  }

  /**
   Recovery: the server's reply for the pending gap, even if the connection breaks after any number of bytes,
   delivers the session up to the last frame that arrived whole, in order, even where held frames had been
   overwritten; the whole reply takes the tracker past the gap.
   */
  lemma RecoveryDelivers(t: TrackerState, log: seq<Bytes>, session: seq<Bytes>, cut: nat)
    requires IsSession(session) && Tracks(t, log, session) && 1 <= t.gapStart <= t.next
    requires cut <= |Concat(Requested(session, t.gapStart, t.gapEnd))|
    ensures var frames := Requested(session, t.gapStart, t.gapEnd);
            var t' := Recovered(t, Some(Concat(frames)[..cut]));
            && Tracks(t', log, session) && t'.gapStart == 0
            && t'.next <= |session| + 1 && log + t'.ready == session[..t'.next - 1]
            && t'.next >= t.next && t'.next >= t.gapStart + WholeFrames(frames, cut)
            && (cut == |Concat(frames)| && t.gapEnd <= |session| ==> t'.next > t.gapEnd)
  {
    hide Split, WholeFrames, Concat, ReplayFrames, IsFrame, SeqOf;
    var frames := Requested(session, t.gapStart, t.gapEnd);
    var k := WholeFrames(frames, cut);
    ReplySplits(session, t.gapStart, t.gapEnd, cut);
    ReplayOfReply(t, log, session, k);
    var t' := GapCleared(ReplayFrames(t, frames[..k]));
    assert Tracks(t', log, session);
    TracksPrefix(t', log, session);
  }

  lemma {:induction false} ConcatLonger(frames: seq<Bytes>, k: nat)
    requires k <= |frames|
    ensures |Concat(frames[..k])| <= |Concat(frames)|
  {
    if k > 0 {
      assert frames[..k][1..] == frames[1..][..k - 1];
      ConcatLonger(frames[1..], k - 1);
    }
  }

  // ----- runs of the handler

  /** A datagram, and the recovery payload that arrives if a gap is pending after it. */
  datatype Input = Input(bytes: Bytes, reply: Option<Bytes>)

  function RunHandler(h: HandlerState, inputs: seq<Input>): (h': HandlerState)
    requires HandlerWellFormed(h)
    ensures HandlerWellFormed(h')
  {
    if inputs == [] then h else
      var last := inputs[|inputs| - 1];
      Datagram(RunHandler(h, inputs[..|inputs| - 1]), last.bytes, last.reply)
  }

  /** Everything that parses on the wire is a frame of the session; loss, duplication and reordering are free. */
  ghost predicate FromSession(inputs: seq<Input>, session: seq<Bytes>) {
    forall k :: 0 <= k < |inputs| ==>
      && (Parse(inputs[k].bytes).status == Ok ==> inputs[k].bytes[..Parse(inputs[k].bytes).consumed] in FrameSet(session))
      && (inputs[k].reply.Some? ==>
            forall i :: 0 <= i < |Split(inputs[k].reply.value)| ==> Split(inputs[k].reply.value)[i] in FrameSet(session))
  }

  lemma {:induction false} HandleFramesTwice(h: HandlerState, a: seq<Bytes>, b: seq<Bytes>)
    requires HandlerWellFormed(h)
    ensures HandleFrames(HandleFrames(h, a), b) == HandleFrames(h, a + b)
    decreases |b|
  {
    hide HandleFrame;
    if b == [] {
      assert a + b == a;
    } else {
      var n := |b| - 1;
      HandleFramesTwice(h, a, b[..n]);
      assert (a + b)[..|a + b| - 1] == a + b[..n] && (a + b)[|a + b| - 1] == b[n];
    }
  }

  /** What frames do to the book does not depend on the tracker. */
  lemma {:induction false} HandleFramesIgnoresTracker(h: HandlerState, t: TrackerState, frames: seq<Bytes>)
    requires HandlerWellFormed(h) && Trackers.WellFormed(t)
    ensures HandleFrames(h.(tracker := t), frames) == HandleFrames(h, frames).(tracker := t)
  {
    hide Handle, Parse;
    if frames != [] {
      HandleFramesIgnoresTracker(h, t, frames[..|frames| - 1]);
    }
  }

  /** The handler has fed the book with the session's frames up to the next expected one. */
  ghost predicate UpTo(h: HandlerState, start: HandlerState, session: seq<Bytes>)
    requires HandlerWellFormed(start)
  {
    var n := h.tracker.next - 1;
    && 0 <= n <= |session| && h.tracker.ready == []
    && Tracks(h.tracker, session[..n], session)
    && h == HandleFrames(start, session[..n]).(tracker := h.tracker)
  }

  lemma DatagramKeepsUpTo(h: HandlerState, start: HandlerState, session: seq<Bytes>, input: Input)
    requires HandlerWellFormed(start) && HandlerWellFormed(h) && IsSession(session)
    requires UpTo(h, start, session) && FromSession([input], session)
    ensures UpTo(Datagram(h, input.bytes, input.reply), start, session)
    ensures Datagram(h, input.bytes, input.reply).tracker.next >= h.tracker.next
  {
    hide HandleFrame, Split, Parse, Pushed, SeqOf;
    assert [input][0] == input;
    var p := Parse(input.bytes);
    if p.status == Ok {
      var log := session[..h.tracker.next - 1];
      var f := input.bytes[..p.consumed];
      PushKeepsDelivery(h.tracker, f, log, FrameSet(session));
      var t := Pushed(h.tracker, f).0;
      if t.gapStart != 0 && input.reply.Some? {
        ReplayKeepsTracking(t, Split(input.reply.value), log, session);
      }
      var u := Recovered(t, input.reply);
      assert Tracks(u, log, session);
      TracksPrefix(u, log, session);
      FeedKeepsUpTo(h, start, session, u);
    }
  }

  lemma FeedKeepsUpTo(h: HandlerState, start: HandlerState, session: seq<Bytes>, t: TrackerState)
    requires HandlerWellFormed(start) && HandlerWellFormed(h) && IsSession(session) && UpTo(h, start, session)
    requires Tracks(t, session[..h.tracker.next - 1], session)
    requires 1 <= t.next <= |session| + 1 && session[..h.tracker.next - 1] + t.ready == session[..t.next - 1]
    ensures UpTo(HandleReady(h.(tracker := t)), start, session)
  {
    hide HandleFrame, SeqOf, IsSession, HandleFrames;
    var log := session[..h.tracker.next - 1];
    var fed := HandleFrames(start, log);
    HandleFramesTwice(start, log, t.ready);
    HandleFramesIgnoresTracker(fed, h.tracker, t.ready);
    HandleFramesIgnoresTracker(fed.(tracker := h.tracker), t, t.ready);
    var h' := HandleReady(h.(tracker := t));
    HandedOverTracks(t, log, session);
    assert h'.tracker == t.(ready := []);
    assert h' == HandleFrames(start, session[..t.next - 1]).(tracker := h'.tracker);
  }

  lemma HandedOverTracks(t: TrackerState, log: seq<Bytes>, session: seq<Bytes>)
    requires Tracks(t, log, session)
    ensures Tracks(t.(ready := []), log + t.ready, session)
  {
    assert (log + t.ready) + [] == log + t.ready;
  }

  /** In every run over a session, the book has been fed exactly the frames before the next expected one, in order. */
  lemma {:induction false} RunFeedsPrefix(start: HandlerState, inputs: seq<Input>, session: seq<Bytes>)
    requires HandlerWellFormed(start) && start.tracker == Initial() && IsSession(session) && FromSession(inputs, session)
    ensures UpTo(RunHandler(start, inputs), start, session)
  {
    hide HandleFrame, Split, Parse, SeqOf, Datagram;
    if inputs == [] {
      assert session[..0] == [];
    } else {
      var before, last := inputs[..|inputs| - 1], inputs[|inputs| - 1];
      RunFeedsPrefix(start, before, session);
      assert FromSession([last], session);
      DatagramKeepsUpTo(RunHandler(start, before), start, session, last);
    }
  }

  /** Runs that got equally far leave the same book and offered the same events: those of feeding the frames directly. */
  lemma SameProgressSameBook(start: HandlerState, a: seq<Input>, b: seq<Input>, session: seq<Bytes>)
    requires HandlerWellFormed(start) && start.tracker == Initial() && IsSession(session)
    requires FromSession(a, session) && FromSession(b, session)
    requires RunHandler(start, a).tracker.next == RunHandler(start, b).tracker.next
    ensures var ha, hb := RunHandler(start, a), RunHandler(start, b);
            && ha.book == hb.book && ha.offered == hb.offered
            && ha.tracker.next <= |session| + 1
            && ha.book == HandleFrames(start, session[..ha.tracker.next - 1]).book
            && ha.offered == HandleFrames(start, session[..ha.tracker.next - 1]).offered
  {
    hide HandleFrame, HandleFrames, Split, Parse, Tracks;
    RunFeedsPrefix(start, a, session);
    RunFeedsPrefix(start, b, session);
  }

  // ----- what arrived, and what that means for the book

  function Arrivals(frames: seq<Bytes>): seq<Event> {
    seq(|frames|, i requires 0 <= i < |frames| => Arrive(frames[i]))
  }

  /** What a datagram does to the tracker: its frame arrives, then those of the recovery reply, if one came for a gap. */
  function InputEvents(t: TrackerState, input: Input): seq<Event>
    requires Trackers.WellFormed(t)
  {
    var p := Parse(input.bytes);
    if p.status != Ok then [] else
      var f := input.bytes[..p.consumed];
      [Arrive(f)] + ReplyEvents(Pushed(t, f).0, input.reply) + [HandOver]
  }

  function ReplyEvents(t: TrackerState, reply: Option<Bytes>): seq<Event> {
    if t.gapStart == 0 || reply.None? then [] else Arrivals(Split(reply.value)) + [DropGap]
  }

  function TrackerEvents(start: HandlerState, inputs: seq<Input>): seq<Event>
    requires HandlerWellFormed(start)
  {
    if inputs == [] then [] else
      var before := inputs[..|inputs| - 1];
      TrackerEvents(start, before) + InputEvents(RunHandler(start, before).tracker, inputs[|inputs| - 1])
  }

  lemma {:induction false} ReplayIsSteps(h: History, frames: seq<Bytes>)
    requires Trackers.WellFormed(h.t)
    ensures Steps(h, Arrivals(frames)) == h.(t := ReplayFrames(h.t, frames))
    decreases |frames|
  {
    hide Pushed;
    if frames != [] {
      assert Arrivals(frames)[1..] == Arrivals(frames[1..]);
      ReplayIsSteps(Step(h, Arrive(frames[0])), frames[1..]);
    }
  }

  lemma RecoveryIsSteps(h: History, reply: Option<Bytes>)
    requires Trackers.WellFormed(h.t)
    ensures Steps(h, ReplyEvents(h.t, reply)) == h.(t := Recovered(h.t, reply))
  {
    hide Pushed, Split, ReplayFrames, Arrivals, Steps;
    OneStep(h, DropGap);
    if h.t.gapStart != 0 && reply.Some? {
      var frames := Split(reply.value);
      ReplayIsSteps(h, frames);
      StepsJoin(h, Arrivals(frames), [DropGap]);
      OneStep(Steps(h, Arrivals(frames)), DropGap);
    }
  }

  lemma DatagramIsSteps(h: HandlerState, history: History, input: Input)
    requires HandlerWellFormed(h) && history.t == h.tracker
    ensures Steps(history, InputEvents(h.tracker, input)).t == Datagram(h, input.bytes, input.reply).tracker
  {
    hide Pushed, Parse, Split, Steps, Recovered, ReplyEvents, HandleFrames;
    OneStep(history, HandOver);
    var p := Parse(input.bytes);
    if p.status == Ok {
      var f := input.bytes[..p.consumed];
      var pushed := Step(history, Arrive(f));
      var replied := pushed.(t := Recovered(pushed.t, input.reply));
      OneStep(history, Arrive(f));
      RecoveryIsSteps(pushed, input.reply);
      OneStep(replied, HandOver);
      StepsJoin(history, [Arrive(f)], ReplyEvents(pushed.t, input.reply));
      StepsJoin(history, [Arrive(f)] + ReplyEvents(pushed.t, input.reply), [HandOver]);
    }
  }

  /** The handler's tracker goes through a run of the tracker. */
  lemma {:induction false} HandlerRunsTracker(start: HandlerState, inputs: seq<Input>)
    requires HandlerWellFormed(start) && start.tracker == Initial()
    ensures RunHandler(start, inputs).tracker == RunOf(TrackerEvents(start, inputs)).t
  {
    hide Datagram, InputEvents, Steps;
    if inputs != [] {
      var before, last := inputs[..|inputs| - 1], inputs[|inputs| - 1];
      HandlerRunsTracker(start, before);
      var h := RunHandler(start, before);
      RunOfJoins(TrackerEvents(start, before), InputEvents(h.tracker, last));
      DatagramIsSteps(h, RunOf(TrackerEvents(start, before)), last);
    }
  }

  /** The numbers that reached the tracker in a run, on the wire or by recovery. */
  function ReceivedBy(start: HandlerState, inputs: seq<Input>): set<nat>
    requires HandlerWellFormed(start)
  {
    Received(TrackerEvents(start, inputs))
  }

  /**
   Order independence, end to end: if two runs over one session received the same contiguous prefix of it, up to
   just before number `n`, and no arrival overwrote a held frame, then both left the book, and offered the events,
   that feeding this prefix directly gives; no matter what was lost, repeated, reordered or recovered.
   */
  lemma RunsAgree(start: HandlerState, a: seq<Input>, b: seq<Input>, session: seq<Bytes>, n: nat)
    requires HandlerWellFormed(start) && start.tracker == Initial() && IsSession(session)
    requires FromSession(a, session) && FromSession(b, session)
    requires NeverOverwrites(TrackerEvents(start, a)) && NeverOverwrites(TrackerEvents(start, b))
    requires LeastMissing(ReceivedBy(start, a), n) && LeastMissing(ReceivedBy(start, b), n)
    ensures var ha, hb := RunHandler(start, a), RunHandler(start, b);
            && ha.book == hb.book && ha.offered == hb.offered
            && n <= |session| + 1
            && ha.book == HandleFrames(start, session[..n - 1]).book
            && ha.offered == HandleFrames(start, session[..n - 1]).offered
  {
    hide HandleFrames, RunHandler, FromSession, NeverOverwrites, Received;
    ProgressIsLeastMissing(start, a, n);
    ProgressIsLeastMissing(start, b, n);
    SameProgressSameBook(start, a, b, session);
  }

  lemma ProgressIsLeastMissing(start: HandlerState, inputs: seq<Input>, n: nat)
    requires HandlerWellFormed(start) && start.tracker == Initial() && NeverOverwrites(TrackerEvents(start, inputs))
    requires LeastMissing(ReceivedBy(start, inputs), n)
    ensures RunHandler(start, inputs).tracker.next == n
  {
    hide RunHandler, NeverOverwrites, Received, Remembers;
    HandlerRunsTracker(start, inputs);
    NextIsLeastMissing(TrackerEvents(start, inputs));
  }

  /** Within the reorder window, the book depends only on the set of numbers received. */
  lemma SameArrivalsSameBook(start: HandlerState, a: seq<Input>, b: seq<Input>, session: seq<Bytes>)
    requires HandlerWellFormed(start) && start.tracker == Initial() && IsSession(session)
    requires FromSession(a, session) && FromSession(b, session)
    requires WithinWindow(TrackerEvents(start, a)) && WithinWindow(TrackerEvents(start, b))
    requires ReceivedBy(start, a) == ReceivedBy(start, b)
    ensures var ha, hb := RunHandler(start, a), RunHandler(start, b);
            && LeastMissing(ReceivedBy(start, a), ha.tracker.next)
            && ha.book == hb.book && ha.offered == hb.offered && ha.tracker.next == hb.tracker.next
            && ha.tracker.next <= |session| + 1
            && ha.book == HandleFrames(start, session[..ha.tracker.next - 1]).book
  {
    hide HandleFrames, RunHandler, FromSession, NeverOverwrites, Received, WithinWindow, LeastMissing, Remembers;
    RunNeverOverwrites(TrackerEvents(start, a));
    RunNeverOverwrites(TrackerEvents(start, b));
    HandlerRunsTracker(start, a);
    NextIsLeastMissing(TrackerEvents(start, a));
    RunsAgree(start, a, b, session, RunHandler(start, a).tracker.next);
    ProgressIsLeastMissing(start, b, RunHandler(start, a).tracker.next);
  }

  // ----- runs in which recovery works

  /** Nothing is held and no gap is pending. */
  ghost predicate Quiet(t: TrackerState) {
    Trackers.WellFormed(t) && t.gapStart == 0 && forall i :: 0 <= i < WINDOW ==> !t.window[i].occupied
  }

  /** A held number stays held until it is delivered. */
  lemma {:induction false} ReplayKeepsHeld(t: TrackerState, from: nat, to: nat, s: nat, log: seq<Bytes>, session: seq<Bytes>)
    requires IsSession(session) && Tracks(t, log, session)
    requires from <= to <= |session| && from + 1 <= t.next
    requires forall r: nat :: Holds(t, r) ==> r == s
    requires s >= t.next ==> Holds(t, s)
    ensures var t' := ReplayFrames(t, session[from..to]);
            && (forall r: nat :: Holds(t', r) ==> r == s)
            && (s >= t'.next ==> Holds(t', s))
    decreases |session| - from
  {
    hide SeqOf, Stored, IsFrame;
    if from < to {
      var f := session[from];
      assert f in FrameSet(session) && IsFrame(f);
      SessionFrame(session, from);
      PushKeepsDelivery(t, f, log, FrameSet(session));
      PushPasses(t, f, log, session);
      PushKeepsHeld(t, f, log, session);
      ReplayKeepsHeld(Pushed(t, f).0, from + 1, to, s, log, session);
      assert session[from..to][1..] == session[from + 1..to];
    }
  }

  lemma SessionFrame(session: seq<Bytes>, i: nat)
    requires IsSession(session) && i < |session|
    ensures Sized(session[i]) && SeqOf(session[i]) == i + 1
  {
    assert IsFrame(session[i]);
  }

  lemma PushKeepsHeld(t: TrackerState, f: Bytes, log: seq<Bytes>, session: seq<Bytes>)
    requires Tracks(t, log, session) && Sized(f) && SeqOf(f) <= t.next
    ensures var t' := Pushed(t, f).0;
            && (forall r: nat :: Holds(t', r) ==> Holds(t, r))
            && (forall r: nat :: r >= t'.next ==> (Holds(t', r) <==> Holds(t, r)))
  {
    hide SeqOf;
    if SeqOf(f) == t.next {
      var u := Accept(t, f);
      FlushAllReleases(u);
      var t' := Pushed(t, f).0;
      assert forall r: nat :: Holds(u, r) <==> Holds(t, r);
      assert forall r: nat :: Holds(t', r) <==> Holds(FlushAll(u), r);
      assert forall r: nat :: Holds(t', r) ==> r > t'.next;
    } else {
      assert forall r: nat :: Holds(Pushed(t, f).0, r) <==> Holds(t, r);
    }
  }

  /** The reply that the server gives to the request made after this datagram. */
  ghost predicate GoodReply(h: HandlerState, input: Input, session: seq<Bytes>)
    requires HandlerWellFormed(h)
  {
    var p := Parse(input.bytes);
    p.status == Ok ==>
      var t := Pushed(h.tracker, input.bytes[..p.consumed]).0;
      t.gapStart != 0 ==> input.reply == Some(Concat(Requested(session, t.gapStart, t.gapEnd)))
  }

  function Max(a: nat, b: nat): nat {
    if a < b then b else a
  }

  /** An arrival that opens a gap, and the recovery of that gap. */
  lemma GapIsRecovered(t: TrackerState, s: nat, log: seq<Bytes>, session: seq<Bytes>)
    requires IsSession(session) && Tracks(t, log, session) && t.next < s <= |session|
    requires t.gapStart == t.next && t.gapEnd == s - 1 && forall r: nat :: Holds(t, r) <==> r == s
    ensures var v := Recovered(t, Some(Concat(Requested(session, t.gapStart, t.gapEnd))));
            Tracks(v, log, session) && Quiet(v) && v.next > s
  {
    hide SeqOf, IsFrame, Split, Concat, ReplayFrames, InOrder, Holds;
    var frames := session[t.next - 1..s - 1];
    assert Requested(session, t.gapStart, t.gapEnd) == frames;
    ReplySplits(session, t.gapStart, t.gapEnd, |Concat(frames)|);
    assert Concat(frames)[..|Concat(frames)|] == Concat(frames) && frames[..|frames|] == frames;
    forall i | 0 <= i < |frames|
      ensures frames[i] in FrameSet(session)
    {
      assert frames[i] == session[t.next - 1 + i];
    }
    ReplayKeepsTracking(t, frames, log, session);
    ReplayCovers(t, t.next - 1, s - 1, log, session);
    ReplayKeepsHeld(t, t.next - 1, s - 1, s, log, session);
    var v := ReplayFrames(t, frames);
    NextIsNotHeld(v);
    NothingHeld(v);
  }

  lemma NextIsNotHeld(t: TrackerState)
    requires Placed(t, t.next + 1)
    ensures !Holds(t, t.next)
  {
  }

  /** One arrival, with its recovery, when nothing was held before: the session is covered up to the arrival. */
  lemma ArrivalWithRecovery(t: TrackerState, s: nat, log: seq<Bytes>, session: seq<Bytes>)
    requires IsSession(session) && Tracks(t, log, session) && Quiet(t) && 1 <= s <= |session|
    ensures var u := Pushed(t, session[s - 1]).0;
            var reply := if u.gapStart == 0 then None else Some(Concat(Requested(session, u.gapStart, u.gapEnd)));
            var v := Recovered(u, reply);
            Tracks(v, log, session) && Quiet(v) && v.next > s && v.next >= t.next
  {
    hide SeqOf, IsFrame, Split, Concat, ReplayFrames, Requested, InOrder;
    var f := session[s - 1];
    SessionFrame(session, s - 1);
    assert f in FrameSet(session);
    PushKeepsDelivery(t, f, log, FrameSet(session));
    assert forall r: nat :: !Holds(t, r);
    var u := Pushed(t, f).0;
    if s <= t.next {
      PushPasses(t, f, log, session);
      PushKeepsHeld(t, f, log, session);
      NothingHeld(u);
    } else {
      assert forall r: nat :: Holds(u, r) <==> r == s;
      GapIsRecovered(u, s, log, session);
    }
  }

  lemma OccupiedIsHeld(t: TrackerState, i: nat)
    requires Placed(t, t.next + 1) && i < WINDOW && t.window[i].occupied
    ensures Holds(t, SeqOf(t.window[i].frame)) && SeqOf(t.window[i].frame) > t.next
  {
  }

  lemma NothingHeld(t: TrackerState)
    requires Placed(t, t.next + 1) && forall r: nat :: Holds(t, r) ==> r < t.next
    ensures forall i :: 0 <= i < WINDOW ==> !t.window[i].occupied
  {
    hide SeqOf;
    if i :| 0 <= i < WINDOW && t.window[i].occupied {
      OccupiedIsHeld(t, i);
      assert false;
    }
  }

  /** With recovery, an arrival takes the tracker exactly to the furthest number that has arrived. */
  lemma ArrivalReachesFurthest(t: TrackerState, s: nat, log: seq<Bytes>, session: seq<Bytes>)
    requires IsSession(session) && Tracks(t, log, session) && Quiet(t) && 1 <= s <= |session|
    ensures var u := Pushed(t, session[s - 1]).0;
            var reply := if u.gapStart == 0 then None else Some(Concat(Requested(session, u.gapStart, u.gapEnd)));
            var v := Recovered(u, reply);
            Quiet(v) && v.next == Max(t.next - 1, s) + 1
  {
    hide SeqOf, IsFrame, Split, Concat, ReplayFrames;
    var m := Max(t.next - 1, s);
    TracksPrefix(t, log, session);
    var part := session[..m];
    assert IsSession(part);
    TracksPart(t, log, session, m);
    ArrivalWithRecovery(t, s, log, part);
    SessionFrame(session, s - 1);
    var u := Pushed(t, session[s - 1]).0;
    if u.gapStart != 0 {
      ArrivalOpensGap(t, session[s - 1]);
      assert Requested(part, u.gapStart, u.gapEnd) == Requested(session, u.gapStart, u.gapEnd);
    }
    var reply := if u.gapStart == 0 then None else Some(Concat(Requested(session, u.gapStart, u.gapEnd)));
    TracksPrefix(Recovered(u, reply), log, part);
  }

  lemma ArrivalOpensGap(t: TrackerState, f: Bytes)
    requires Quiet(t) && Sized(f) && Pushed(t, f).0.gapStart != 0
    ensures Pushed(t, f).0.gapStart == t.next && Pushed(t, f).0.gapEnd + 1 == SeqOf(f)
  {
    hide SeqOf;
    if SeqOf(f) == t.next {
      FlushAllReleases(Accept(t, f));
    }
  }

  lemma TracksPart(t: TrackerState, log: seq<Bytes>, session: seq<Bytes>, m: nat)
    requires IsSession(session) && Tracks(t, log, session) && Quiet(t) && t.next - 1 <= m <= |session|
    ensures Tracks(t, log, session[..m])
  {
    hide SeqOf, IsFrame;
    TracksPrefix(t, log, session);
    forall k | 0 <= k < |log + t.ready|
      ensures (log + t.ready)[k] in FrameSet(session[..m])
    {
      assert (log + t.ready)[k] == session[..m][k];
    }
  }

  /** The largest sequence number among the datagrams, 0 if none parses. */
  function Furthest(inputs: seq<Input>): nat {
    if inputs == [] then 0 else
      var rest := Furthest(inputs[..|inputs| - 1]);
      var bytes := inputs[|inputs| - 1].bytes;
      var p := Parse(bytes);
      if p.status != Ok then rest else Max(rest, SeqOf(bytes[..p.consumed]))
  }

  /** Every gap request of the run is answered in full. */
  ghost predicate AlwaysRecovered(start: HandlerState, inputs: seq<Input>, session: seq<Bytes>)
    requires HandlerWellFormed(start)
  {
    forall k :: 0 <= k < |inputs| ==> GoodReply(RunHandler(start, inputs[..k]), inputs[k], session)
  }

  lemma DatagramWithRecovery(h: HandlerState, start: HandlerState, session: seq<Bytes>, input: Input)
    requires HandlerWellFormed(start) && HandlerWellFormed(h) && IsSession(session)
    requires UpTo(h, start, session) && FromSession([input], session)
    requires Quiet(h.tracker) && GoodReply(h, input, session)
    ensures var t' := Datagram(h, input.bytes, input.reply).tracker;
            Quiet(t') && t'.next - 1 == Max(h.tracker.next - 1, Furthest([input]))
  {
    hide HandleFrame, HandleFrames, Split, Parse, Pushed, SeqOf, IsFrame, Concat, ReplayFrames, Requested, Tracks;
    assert [input][0] == input && [input][..0] == [];
    assert Furthest([]) == 0;
    var p := Parse(input.bytes);
    if p.status == Ok {
      var f := input.bytes[..p.consumed];
      var i :| 0 <= i < |session| && session[i] == f;
      SessionFrame(session, i);
      ArrivalReachesFurthest(h.tracker, i + 1, session[..h.tracker.next - 1], session);
      var u := Pushed(h.tracker, f).0;
      var reply := if u.gapStart == 0 then None else Some(Concat(Requested(session, u.gapStart, u.gapEnd)));
      assert Recovered(u, input.reply) == Recovered(u, reply);
    }
  }

  /**
   With a recovery server that answers, loss and reordering leave no trace: the session has been delivered up to the
   largest number that arrived, and the book is the one that the session up to there makes.
   */
  lemma {:induction false} RecoveredRunIsComplete(start: HandlerState, inputs: seq<Input>, session: seq<Bytes>)
    requires HandlerWellFormed(start) && start.tracker == Initial() && IsSession(session) && FromSession(inputs, session)
    requires AlwaysRecovered(start, inputs, session)
    ensures var h := RunHandler(start, inputs);
            && Quiet(h.tracker) && h.tracker.next == Furthest(inputs) + 1
            && Furthest(inputs) <= |session|
            && h.book == HandleFrames(start, session[..Furthest(inputs)]).book
  {
    hide HandleFrame, HandleFrames, Split, Parse, SeqOf, Datagram, GoodReply, IsFrame, Furthest, Tracks, Quiet;
    RunFeedsPrefix(start, inputs, session);
    if inputs == [] {
      EmptyRunIsQuiet();
    } else {
      var before, last := inputs[..|inputs| - 1], inputs[|inputs| - 1];
      assert forall k :: 0 <= k < |before| ==> before[..k] == inputs[..k];
      RecoveredRunIsComplete(start, before, session);
      RunFeedsPrefix(start, before, session);
      assert FromSession([last], session);
      DatagramWithRecovery(RunHandler(start, before), start, session, last);
      FurthestLast(inputs);
    }
  }

  lemma EmptyRunIsQuiet()
    ensures Quiet(Initial()) && Furthest([]) == 0
  {
  }

  lemma FurthestLast(inputs: seq<Input>)
    requires inputs != []
    ensures Furthest(inputs) == Max(Furthest(inputs[..|inputs| - 1]), Furthest([inputs[|inputs| - 1]]))
  {
    hide Parse, SeqOf;
    var last := inputs[|inputs| - 1];
    assert [last][..0] == [] && Furthest([]) == 0;
  }

  // ----- the book at the end of the chain

  function Decoded(frames: seq<Bytes>): (ms: seq<Message>)
    requires forall i :: 0 <= i < |frames| ==> IsFrame(frames[i])
  {
    seq(|frames|, i requires 0 <= i < |frames| && IsFrame(frames[i]) => Parse(frames[i]).message.value)
  }

  lemma {:induction false} FramesDriveBook(h: HandlerState, frames: seq<Bytes>)
    requires HandlerWellFormed(h) && forall i :: 0 <= i < |frames| ==> IsFrame(frames[i])
    ensures HandleFrames(h, frames).book == BookLaws.Run(h.book, Decoded(frames))
    decreases |frames|
  {
    hide Handle, Parse;
    if frames != [] {
      var n := |frames| - 1;
      FramesDriveBook(h, frames[..n]);
      assert Decoded(frames)[..n] == Decoded(frames[..n]);
      assert IsFrame(frames[n]);
    }
  }

  /**
   From the wire to the book: after any run over a session, the book holds the live orders of the session's first
   `next - 1` messages, and every level and best price is exact, as long as no level sum leaves the 32-bit range.
   */
  lemma WireToBook(capacity: nat, symbols: nat, levels: nat, inputs: seq<Input>, session: seq<Bytes>)
    requires IsSession(session) && FromSession(inputs, session)
    requires BookLaws.AlwaysFits(capacity, symbols, levels, Decoded(session))
    ensures var h := RunHandler(HandlerState(Initial(), EmptyBook(capacity, symbols, levels), []), inputs);
            && 1 <= h.tracker.next <= |session| + 1
            && BookLaws.Accurate(h.book)
            && h.book.orders
               == BookLaws.PlainOrders(capacity, symbols, levels, Decoded(session)[..h.tracker.next - 1])
  {
    hide Parse, Split, Concat, HandleFrames, HandleFrame, Datagram, Tracks;
    hide BookLaws.Accurate, BookLaws.Fits, BookLaws.PlainOrders, BookLaws.Run;
    var start := HandlerState(Initial(), EmptyBook(capacity, symbols, levels), []);
    RunFeedsPrefix(start, inputs, session);
    var n := RunHandler(start, inputs).tracker.next - 1;
    FramesDriveBook(start, session[..n]);
    var ms := Decoded(session);
    assert Decoded(session[..n]) == ms[..n];
    assert forall k :: 0 <= k <= n ==> ms[..n][..k] == ms[..k];
    BookLaws.RunIsAccurate(capacity, symbols, levels, ms[..n]);
  }
}
