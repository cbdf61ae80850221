/** The sequence tracker: in-order delivery through a 64-slot reorder window, with gap bookkeeping. */
module Trackers {
  import opened Orders
  import opened Protocol

  /** The number of slots of the reorder window. */
  const WINDOW := 64

  datatype Slot = Slot(occupied: bool, frame: Bytes)

  const FREE := Slot(false, [])

  /** `gapStart == 0` means that no gap is pending. */
  datatype TrackerState = TrackerState(next: nat, drops: nat, recovered: nat, outOfOrder: nat,
                                       window: seq<Slot>, ready: seq<Bytes>, gapStart: nat, gapEnd: nat)

  function Initial(): TrackerState {
    TrackerState(1, 0, 0, 0, seq(WINDOW, _ => FREE), [], 0, 0)
  }

  predicate Sized(f: Bytes) {
    HEADER <= |f| <= MAX_MESSAGE
  }

  /** Stored frames are long enough to have a sequence number. */
  ghost predicate WellFormed(t: TrackerState) {
    && t.next >= 1 && |t.window| == WINDOW
    && forall i :: 0 <= i < WINDOW && t.window[i].occupied ==> Sized(t.window[i].frame)
  }

  function OccupiedSlots(window: seq<Slot>): nat {
    if window == [] then 0 else (if window[0].occupied then 1 else 0) + OccupiedSlots(window[1..])
  }

  lemma {:induction false} ReleaseSlot(window: seq<Slot>, i: nat)
    requires i < |window| && window[i].occupied
    ensures OccupiedSlots(window[i := FREE]) == OccupiedSlots(window) - 1
  {
    if i == 0 {
      assert window[0 := FREE][1..] == window[1..];
    } else {
      ReleaseSlot(window[1..], i - 1);
      assert window[i := FREE][1..] == window[1..][i - 1 := FREE];
    }
  }

  // ----- the operations, on values

  /** The slot of the next expected number holds that number. */
  predicate CanFlush(t: TrackerState)
    requires |t.window| == WINDOW
  {
    var slot := t.window[t.next % WINDOW];
    slot.occupied && HEADER <= |slot.frame| && SeqOf(slot.frame) == t.next
  }

  function FlushOne(t: TrackerState): TrackerState
    requires |t.window| == WINDOW
  {
    var i := t.next % WINDOW;
    t.(ready := t.ready + [t.window[i].frame], window := t.window[i := FREE],
       next := t.next + 1, recovered := t.recovered + 1)
  }

  function FlushAll(t: TrackerState): (t': TrackerState)
    requires |t.window| == WINDOW
    ensures |t'.window| == WINDOW
    ensures WellFormed(t) ==> WellFormed(t')
    decreases OccupiedSlots(t.window)
  {
    if CanFlush(t) then ReleaseSlot(t.window, t.next % WINDOW); FlushAll(FlushOne(t)) else t
  }

  function ClosePassedGap(t: TrackerState): TrackerState {
    if t.gapStart != 0 && t.next > t.gapEnd then GapCleared(t) else t
  }

  function GapCleared(t: TrackerState): TrackerState {
    t.(gapStart := 0, gapEnd := 0)
  }

  function Stored(t: TrackerState, seqNo: nat, f: Bytes): TrackerState
    requires WellFormed(t)
  {
    var i := seqNo % WINDOW;
    var slot := t.window[i];
    if slot.occupied && SeqOf(slot.frame) == seqNo then t
    else t.(window := t.window[i := Slot(true, f)], drops := t.drops + if slot.occupied then 1 else 0)
  }

  function NoteGap(t: TrackerState, seqNo: nat): TrackerState
    requires seqNo >= 1
  {
    if t.gapStart == 0 then t.(gapStart := t.next, gapEnd := seqNo - 1)
    else if seqNo - 1 > t.gapEnd then t.(gapEnd := seqNo - 1)
    else t
  }

  function Accept(t: TrackerState, f: Bytes): TrackerState {
    t.(ready := t.ready + [f], next := t.next + 1)
  }

  function Pushed(t: TrackerState, f: Bytes): (r: (TrackerState, bool))
    requires WellFormed(t)
    ensures WellFormed(r.0)
  {
    if !Sized(f) then (t, false) else
      var seqNo := SeqOf(f);
      if seqNo == t.next then (ClosePassedGap(FlushAll(Accept(t, f))), true)
      else if seqNo < t.next then (t.(drops := t.drops + 1), false)
      else
        var counted := t.(outOfOrder := t.outOfOrder + 1);
        (NoteGap(Stored(counted, seqNo, f), seqNo), true)
  }

  // ----- the tracker in place

  class SequenceTracker {
    var next: nat
    var drops: nat
    var recovered: nat
    var outOfOrder: nat
    const window: array<Slot>
    var ready: seq<Bytes>
    var gapStart: nat
    var gapEnd: nat

    ghost function State(): TrackerState
      reads this, window
    {
      TrackerState(next, drops, recovered, outOfOrder, window[..], ready, gapStart, gapEnd)
    }

    ghost predicate Valid()
      reads this, window
    {
      window.Length == WINDOW && WellFormed(State())
    }

    constructor ()
      ensures Valid() && State() == Initial() && fresh(window)
    {
      next, drops, recovered, outOfOrder := 1, 0, 0, 0;
      window := new Slot[WINDOW](_ => FREE);
      ready, gapStart, gapEnd := [], 0, 0;
      new;
      assert window[..] == Initial().window;
    }

    method Push(f: Bytes) returns (accepted: bool)
      requires Valid()
      modifies this, window
      ensures Valid() && (State(), accepted) == Pushed(old(State()), f)
    {
      if |f| < HEADER || |f| > MAX_MESSAGE {
        return false;
      }
      var seqNo := SeqOf(f);
      if seqNo == next {
        ready := ready + [f];
        next := next + 1;
        FlushContiguous();
        return true;
      }
      if seqNo < next {
        drops := drops + 1;
        return false;
      }
      outOfOrder := outOfOrder + 1;
      StoreOutOfOrder(seqNo, f);
      if gapStart == 0 {
        gapStart := next;
        gapEnd := seqNo - 1;
      } else if seqNo - 1 > gapEnd {
        gapEnd := seqNo - 1;
      }
      return true;
    }

    method StoreOutOfOrder(seqNo: nat, f: Bytes)
      requires Valid() && Sized(f)
      modifies this`drops, window
      ensures Valid() && State() == Stored(old(State()), seqNo, f)
    {
      var i := seqNo % WINDOW;
      if window[i].occupied {
        if SeqOf(window[i].frame) == seqNo {
          return;
        }
        drops := drops + 1;
      }
      window[i] := Slot(true, f);
      assert window[..] == old(window[..])[i := Slot(true, f)];
    }

    method FlushContiguous()
      requires Valid()
      modifies this, window
      ensures Valid() && State() == ClosePassedGap(FlushAll(old(State())))
    {
      ghost var goal := FlushAll(State());
      while true
        invariant Valid() && FlushAll(State()) == goal
        invariant gapStart == old(gapStart) && gapEnd == old(gapEnd)
        decreases OccupiedSlots(window[..])
      {
        ghost var before := State();
        var i := next % WINDOW;
        if !window[i].occupied {
          break;
        }
        if SeqOf(window[i].frame) != next {
          break;
        }
        ReleaseSlot(window[..], i);
        ready := ready + [window[i].frame];
        window[i] := FREE;
        assert window[..] == before.window[i := FREE];
        next := next + 1;
        recovered := recovered + 1;
        assert State() == FlushOne(before);
      }
      if gapStart != 0 && next > gapEnd {
        ClearGap();
      }
    }

    method ClearGap()
      requires Valid()
      modifies this`gapStart, this`gapEnd
      ensures Valid() && State() == GapCleared(old(State()))
    {
      gapStart, gapEnd := 0, 0;
    }

    method ClearReady()
      requires Valid()
      modifies this`ready
      ensures Valid() && State() == old(State()).(ready := [])
    {
      ready := [];
    }
  }
}
