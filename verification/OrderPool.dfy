/**
 The preallocated, open-addressed order pool: linear probing with cyclic backshift deletion.

 The proof rests on a ghost `start` slot. Counting slots cyclically from `start`, no entry's probe
 path wraps: every entry lies at or after its home slot, and every slot from its home up to its own is live.
 The pool keeps `start` just after the slot it wrote or freed last, so the argument also covers a
 completely full pool, where "no free slot between home and position" says nothing.
 */
module OrderPools {
  import opened Orders

  type Hash = OrderId -> nat

  ghost predicate HashInto(h: Hash, n: nat) {
    forall id :: h(id) < n
  }

  /** The next slot, cyclically: `(i + 1) & (n - 1)` for a power of two `n`. */
  function Next(i: nat, n: nat): (r: nat)
    requires i < n
    ensures r == (i + 1) % n < n
  {
    if i + 1 == n then 0 else i + 1
  }

  /** How many steps of `Next` lead from `from` to `to`. */
  function Steps(from: nat, to: nat, n: nat): (r: nat)
    requires from < n && to < n
    ensures r < n
  {
    if from <= to then to - from else to + n - from
  }

  /** Slot `q` lies on the probe path that leads from the home slot of the entry in `p` up to `p`. */
  ghost predicate OnPath(t: seq<OrderRecord>, h: Hash, start: nat, q: nat, p: nat)
    requires start < |t| && p < |t| && q < |t| && HashInto(h, |t|)
  {
    Steps(start, h(t[p].id), |t|) <= Steps(start, q, |t|) < Steps(start, p, |t|)
  }

  /**
   Entries are reachable by probing, except that `hole` may interrupt the probe path of entries
   `limit` or more steps after `start`.
   */
  ghost predicate PlacedUpTo(t: seq<OrderRecord>, h: Hash, start: nat, hole: nat, limit: nat) {
    && start < |t| && HashInto(h, |t|)
    && (forall p :: 0 <= p < |t| && t[p].live ==> Steps(start, h(t[p].id), |t|) <= Steps(start, p, |t|))
    && (forall p, q :: 0 <= p < |t| && 0 <= q < |t| && t[p].live && OnPath(t, h, start, q, p) ==>
          t[q].live || (q == hole && limit <= Steps(start, p, |t|)))
  }

  /** Every entry is reachable by probing from its home slot. */
  ghost predicate Placed(t: seq<OrderRecord>, h: Hash, start: nat) {
    PlacedUpTo(t, h, start, 0, |t|)
  }

  /** `index` maps exactly the ids of the live slots to their slots; in particular ids are unique. */
  ghost predicate Indexed(t: seq<OrderRecord>, index: map<OrderId, nat>) {
    && (forall p :: 0 <= p < |t| && t[p].live ==> t[p].id in index && index[t[p].id] == p)
    && (forall id :: id in index ==> index[id] < |t| && t[index[id]].live && t[index[id]].id == id)
  }

  /** The finite map that a table stands for. */
  ghost function Entries(t: seq<OrderRecord>, index: map<OrderId, nat>): map<OrderId, Order>
    requires Indexed(t, index)
  {
    map id | id in index :: t[index[id]].order
  }

  /** Any free slot may serve as the cut: no probe path contains it. */
  lemma MoveStart(t: seq<OrderRecord>, h: Hash, start: nat, free: nat)
    requires Placed(t, h, start)
    requires free < |t| && !t[free].live
    ensures Placed(t, h, Next(free, |t|))
  {
    var start' := Next(free, |t|);
    forall p | 0 <= p < |t| && t[p].live
      ensures Steps(start', h(t[p].id), |t|) <= Steps(start', p, |t|)
      ensures forall q :: 0 <= q < |t| ==> (OnPath(t, h, start', q, p) <==> OnPath(t, h, start, q, p))
    {
      assert !OnPath(t, h, start, free, p);
      ShiftPath(start, free, h(t[p].id), p, |t|);
    }
  }

  lemma ShiftPath(start: nat, free: nat, home: nat, p: nat, n: nat)
    requires start < n && free < n && home < n && p < n && p != free
    requires Steps(start, home, n) <= Steps(start, p, n)
    requires !(Steps(start, home, n) <= Steps(start, free, n) < Steps(start, p, n))
    ensures var s := Next(free, n);
            && Steps(s, home, n) <= Steps(s, p, n)
            && forall q: nat {:trigger Steps(s, q, n)} {:trigger Steps(start, q, n)} | q < n ::
                 Steps(s, home, n) <= Steps(s, q, n) < Steps(s, p, n)
                 <==> Steps(start, home, n) <= Steps(start, q, n) < Steps(start, p, n)
  {
  }

  /** Writing the first free slot on an id's probe path keeps every entry reachable. */
  lemma InsertKeepsPlaced(t: seq<OrderRecord>, h: Hash, start: nat, free: nat, rec: OrderRecord)
    requires Placed(t, h, start)
    requires free < |t| && !t[free].live && rec.live
    requires forall q :: 0 <= q < |t| && Steps(h(rec.id), q, |t|) < Steps(h(rec.id), free, |t|) ==> t[q].live
    ensures Placed(t[free := rec], h, Next(free, |t|))
  {
    MoveStart(t, h, start, free);
  }

  /** A probe that has not passed the entry for `id` has not met a free slot. */
  lemma ProbeReaches(t: seq<OrderRecord>, h: Hash, start: nat, index: map<OrderId, nat>, id: OrderId, slot: nat)
    requires Placed(t, h, start) && Indexed(t, index)
    requires slot < |t| && id in index
    requires Steps(h(id), slot, |t|) <= Steps(h(id), index[id], |t|)
    ensures t[slot].live
    ensures t[slot].id == id <==> slot == index[id]
  {
    if slot != index[id] {
      BetweenIsOnPath(start, h(id), slot, index[id], |t|);
      assert OnPath(t, h, start, slot, index[id]);
    }
  }

  lemma BetweenIsOnPath(start: nat, home: nat, slot: nat, p: nat, n: nat)
    requires start < n && home < n && slot < n && p < n && slot != p
    requires Steps(start, home, n) <= Steps(start, p, n)
    requires Steps(home, slot, n) <= Steps(home, p, n)
    ensures Steps(start, home, n) <= Steps(start, slot, n) < Steps(start, p, n)
  {
  }

  /** The test of the deletion loop: may the record in `cur`, whose home slot is `home`, fill the hole? */
  predicate CanMove(hole: nat, cur: nat, home: nat) {
    if hole < cur then home <= hole || home > cur else home <= hole && home > cur
  }

  /**
   The state of the deletion loop. The table `t` has a hole, left where `found` was or in a later slot, and
   `cur` is next to be looked at; once `cur` has come round past `start`, nothing more can move.
   */
  ghost predicate Shifting(t: seq<OrderRecord>, h: Hash, start: nat, found: nat, hole: nat, cur: nat) {
    && found < |t| && hole < |t| && cur < |t| && start < |t|
    && !t[hole].live
    && Steps(start, found, |t|) <= Steps(start, hole, |t|)
    && if Steps(start, found, |t|) < Steps(start, cur, |t|)
       then PlacedUpTo(t, h, start, hole, Steps(start, cur, |t|)) && Steps(start, hole, |t|) < Steps(start, cur, |t|)
       else Placed(t, h, start)
  }

  /** Taking an entry out leaves a hole that only later entries notice. */
  lemma RemovalStartsShift(t: seq<OrderRecord>, h: Hash, start: nat, found: nat)
    requires |t| >= 2 && Placed(t, h, start) && found < |t| && t[found].live
    ensures Shifting(t[found := VACANT], h, start, found, found, Next(found, |t|))
  {
    var t' := t[found := VACANT];
    var cur := Next(found, |t|);
    forall p, q | 0 <= p < |t| && 0 <= q < |t| && t'[p].live && OnPath(t', h, start, q, p)
      ensures t'[q].live || (q == found && Steps(start, found, |t|) < Steps(start, p, |t|))
    {
      assert OnPath(t, h, start, q, p);
    }
  }

  /** Moving a record into the hole, when the loop's test allows it. */
  lemma MoveKeepsShifting(t: seq<OrderRecord>, h: Hash, start: nat, found: nat, hole: nat, cur: nat)
    requires Shifting(t, h, start, found, hole, cur) && cur != found
    requires t[cur].live && CanMove(hole, cur, h(t[cur].id))
    ensures Shifting(t[hole := t[cur]][cur := VACANT], h, start, found, cur, Next(cur, |t|))
  {
    var t' := t[hole := t[cur]][cur := VACANT];
    var c := Steps(start, cur, |t|);
    assert Steps(start, found, |t|) < c;
    assert Steps(start, h(t[cur].id), |t|) <= Steps(start, hole, |t|);
    forall p, q | 0 <= p < |t| && 0 <= q < |t| && t'[p].live && OnPath(t', h, start, q, p)
      ensures t'[q].live || (q == cur && c < Steps(start, p, |t|))
    {
      if p == hole {
        assert OnPath(t, h, start, q, cur);
      } else {
        assert OnPath(t, h, start, q, p);
      }
    }
  }

  /** Leaving a record in place, when the loop's test does not allow it to move. */
  lemma StayKeepsShifting(t: seq<OrderRecord>, h: Hash, start: nat, found: nat, hole: nat, cur: nat)
    requires Shifting(t, h, start, found, hole, cur) && cur != found
    requires t[cur].live && !CanMove(hole, cur, h(t[cur].id))
    ensures Shifting(t, h, start, found, hole, Next(cur, |t|))
  {
    var c := Steps(start, cur, |t|);
    if Steps(start, found, |t|) < c {
      assert Steps(start, h(t[cur].id), |t|) > Steps(start, hole, |t|);
      forall p, q | 0 <= p < |t| && 0 <= q < |t| && t[p].live && OnPath(t, h, start, q, p)
        ensures t[q].live || (q == hole && c < Steps(start, p, |t|))
      {
      }
    }
  }

  /** When the loop ends, the hole interrupts no probe path any more. */
  lemma ShiftingEnds(t: seq<OrderRecord>, h: Hash, start: nat, found: nat, hole: nat, cur: nat)
    requires Shifting(t, h, start, found, hole, cur)
    requires !t[cur].live
    ensures Placed(t, h, start)
  {
    if Steps(start, found, |t|) < Steps(start, cur, |t|) {
      forall p, q | 0 <= p < |t| && 0 <= q < |t| && t[p].live && OnPath(t, h, start, q, p)
        ensures t[q].live
      {
        if !t[q].live {
          assert q == hole && cur != p;
          assert OnPath(t, h, start, cur, p);
        }
      }
    }
  }

  lemma ShiftKeepsIndex(t: seq<OrderRecord>, index: map<OrderId, nat>, hole: nat, cur: nat)
    requires hole < |t| && cur < |t| && Indexed(t, index)
    requires !t[hole].live && t[cur].live
    ensures var t' := t[hole := t[cur]][cur := VACANT];
            var index' := index[t[cur].id := hole];
            Indexed(t', index') && Entries(t', index') == Entries(t, index) && |index'| == |index|
  {
    var index' := index[t[cur].id := hole];
    assert index'.Keys == index.Keys;
    assert |index'.Keys| == |index'| && |index.Keys| == |index|;
  }

  /** What the deletion loop makes of the table, from a given hole and position on. */
  function Backshifted(s: seq<OrderRecord>, h: Hash, found: nat, hole: nat, cur: nat): seq<OrderRecord>
    requires found < |s| && hole < |s| && cur < |s|
    decreases Steps(cur, found, |s|)
  {
    if !s[cur].live || cur == found then
      s[hole := VACANT]
    else if CanMove(hole, cur, h(s[cur].id)) then
      Backshifted(s[hole := s[cur]], h, found, cur, Next(cur, |s|))
    else
      Backshifted(s, h, found, hole, Next(cur, |s|))
  }

  /** The deletion loop keeps the represented map and leaves every entry reachable. */
  lemma {:induction false} BackshiftedKeepsEntries(s: seq<OrderRecord>, h: Hash, start: nat, index: map<OrderId, nat>,
                                                   found: nat, hole: nat, cur: nat)
    returns (index': map<OrderId, nat>)
    requires hole < |s| && s[hole].live && cur != hole
    requires Shifting(s[hole := VACANT], h, start, found, hole, cur) && Indexed(s[hole := VACANT], index)
    ensures var s' := Backshifted(s, h, found, hole, cur);
            && |s'| == |s| && Placed(s', h, start) && Indexed(s', index')
            && Entries(s', index') == Entries(s[hole := VACANT], index) && |index'| == |index|
    decreases Steps(cur, found, |s|)
  {
    hide PlacedUpTo, Indexed, Entries;
    var t := s[hole := VACANT];
    if !s[cur].live || cur == found {
      if cur != found {
        ShiftingEnds(t, h, start, found, hole, cur);
      }
      index' := index;
    } else if CanMove(hole, cur, h(s[cur].id)) {
      MoveKeepsShifting(t, h, start, found, hole, cur);
      ShiftKeepsIndex(t, index, hole, cur);
      assert t[hole := t[cur]][cur := VACANT] == s[hole := s[cur]][cur := VACANT];
      if Next(cur, |s|) == found {
        index' := index[s[cur].id := hole];
      } else {
        index' := BackshiftedKeepsEntries(s[hole := s[cur]], h, start, index[s[cur].id := hole], found, cur, Next(cur, |s|));
      }
    } else {
      StayKeepsShifting(t, h, start, found, hole, cur);
      if Next(cur, |s|) == found {
        index' := index;
      } else {
        index' := BackshiftedKeepsEntries(s, h, start, index, found, hole, Next(cur, |s|));
      }
    }
  }

  lemma InsertKeepsIndex(t: seq<OrderRecord>, index: map<OrderId, nat>, free: nat, rec: OrderRecord)
    requires Indexed(t, index) && free < |t| && !t[free].live && rec.live && rec.id !in index
    ensures var t' := t[free := rec];
            var index' := index[rec.id := free];
            Indexed(t', index') && Entries(t', index') == Entries(t, index)[rec.id := rec.order] && |index'| == |index| + 1
  {
  }

  lemma RemovalKeepsIndex(t: seq<OrderRecord>, index: map<OrderId, nat>, id: OrderId)
    requires Indexed(t, index) && id in index
    ensures var t' := t[index[id] := VACANT];
            var index' := index - {id};
            Indexed(t', index') && Entries(t', index') == Entries(t, index) - {id} && |index'| + 1 == |index|
  {
    var t', index' := t[index[id] := VACANT], index - {id};
    assert forall i :: i in index && i != id ==> index[i] != index[id] && t'[index[i]] == t[index[i]];
    assert index.Keys == index'.Keys + {id};
    assert |index'.Keys| == |index'| && |index.Keys| == |index|;
  }

  lemma FillKeepsTable(t: seq<OrderRecord>, h: Hash, start: nat, index: map<OrderId, nat>, id: OrderId, order: Order)
    requires Placed(t, h, start) && Indexed(t, index) && id in index
    ensures var t' := t[index[id] := OrderRecord(id, order, true)];
            Placed(t', h, start) && Indexed(t', index) && Entries(t', index) == Entries(t, index)[id := order]
  {
    var t' := t[index[id] := OrderRecord(id, order, true)];
    forall p, q | 0 <= p < |t| && 0 <= q < |t| && t'[p].live && OnPath(t', h, start, q, p)
      ensures t'[q].live
    {
      assert OnPath(t, h, start, q, p);
    }
  }

  /** Deleting an id by backshift removes exactly that id from the represented map. */
  lemma ErasedTable(t: seq<OrderRecord>, h: Hash, start: nat, index: map<OrderId, nat>, id: OrderId)
    returns (index': map<OrderId, nat>)
    requires |t| >= 2 && Placed(t, h, start) && Indexed(t, index) && id in index
    ensures var t' := Backshifted(t, h, index[id], index[id], Next(index[id], |t|));
            && |t'| == |t| && Placed(t', h, start) && Indexed(t', index')
            && Entries(t', index') == Entries(t, index) - {id} && |index'| + 1 == |index|
  {
    RemovalStartsShift(t, h, start, index[id]);
    RemovalKeepsIndex(t, index, id);
    index' := BackshiftedKeepsEntries(t, h, start, index - {id}, index[id], index[id], Next(index[id], |t|));
  }

  lemma {:induction false} CoveredCount(t: seq<OrderRecord>, index: map<OrderId, nat>, n: nat)
    requires n <= |t|
    requires forall p :: 0 <= p < n ==> t[p].id in index && index[t[p].id] == p
    ensures |index| >= n
  {
    if n > 0 {
      var rest := index - {t[n - 1].id};
      CoveredCount(t, rest, n - 1);
      assert index.Keys == rest.Keys + {t[n - 1].id};
      assert |rest.Keys| == |rest| && |index.Keys| == |index|;
    }
  }

  lemma {:induction false} InjectiveCount(index: map<OrderId, nat>, n: nat)
    requires forall id :: id in index ==> index[id] < n
    requires forall i, j :: i in index && j in index && index[i] == index[j] ==> i == j
    ensures |index| <= n
  {
    if n == 0 {
      assert index == map[];
    } else if id :| id in index && index[id] == n - 1 {
      var rest := index - {id};
      InjectiveCount(rest, n - 1);
      assert index.Keys == rest.Keys + {id};
      assert |rest.Keys| == |rest| && |index.Keys| == |index|;
    } else {
      InjectiveCount(index, n - 1);
    }
  }

  /** The live slots number as many as the index, so the pool is full exactly if no slot is free. */
  lemma FullExactlyIfNoFreeSlot(t: seq<OrderRecord>, index: map<OrderId, nat>)
    requires Indexed(t, index)
    ensures |index| <= |t|
    ensures |index| == |t| <==> forall p :: 0 <= p < |t| ==> t[p].live
  {
    InjectiveCount(index, |t|);
    if free :| 0 <= free < |t| && !t[free].live {
      // with the entry of the last slot, if any, moved into the free one, the index avoids the last slot
      var last := |t| - 1;
      if t[last].live {
        ShiftKeepsIndex(t, index, free, last);
        InjectiveCount(index[t[last].id := free], last);
      } else {
        InjectiveCount(index, last);
      }
    } else {
      CoveredCount(t, index, |t|);
    }
  }

  // ----- why the start slot is needed

  /** The familiar invariant of linear probing: no free slot lies between an entry's home and its position. */
  ghost predicate NoFreeSlotBefore(t: seq<OrderRecord>, h: Hash) {
    && HashInto(h, |t|)
    && forall p, q ::
         0 <= p < |t| && 0 <= q < |t| && t[p].live && Steps(h(t[p].id), q, |t|) < Steps(h(t[p].id), p, |t|)
         ==> t[q].live
  }

  lemma PlacedHasNoFreeSlotBefore(t: seq<OrderRecord>, h: Hash, start: nat)
    requires Placed(t, h, start)
    ensures NoFreeSlotBefore(t, h)
  {
    forall p, q | 0 <= p < |t| && 0 <= q < |t| && t[p].live && Steps(h(t[p].id), q, |t|) < Steps(h(t[p].id), p, |t|)
      ensures t[q].live
    {
      BetweenIsOnPath(start, h(t[p].id), q, p, |t|);
      assert OnPath(t, h, start, q, p);
    }
  }

  function Entry(id: OrderId): OrderRecord {
    OrderRecord(id, NO_ORDER, true)
  }

  /**
   On a full table the familiar invariant says nothing, and deletion does not keep it: with homes 0, 2, 1, 2 for
   the ids 0 to 3 in this order, deleting id 0 moves id 1 to slot 0 and frees slot 3, where a probe for id 1 stops.
   */
  lemma FamiliarInvariantIsNotKept(h: Hash)
    requires HashInto(h, 4) && h(0) == 0 && h(1) == 2 && h(2) == 1 && h(3) == 2
    ensures var t := [Entry(0), Entry(1), Entry(2), Entry(3)];
            && NoFreeSlotBefore(t, h)
            && Backshifted(t, h, 0, 0, 1) == [Entry(1), Entry(2), Entry(3), VACANT]
            && !NoFreeSlotBefore(Backshifted(t, h, 0, 0, 1), h)
  {
    var t0 := [Entry(0), Entry(1), Entry(2), Entry(3)];
    var t1 := t0[0 := t0[1]];
    var t2 := t1[1 := t1[2]];
    var t3 := t2[2 := t2[3]];
    assert Backshifted(t3, h, 0, 3, 0) == t3[3 := VACANT];
    assert Backshifted(t2, h, 0, 2, 3) == t3[3 := VACANT];
    assert Backshifted(t1, h, 0, 1, 2) == t3[3 := VACANT];
    assert Backshifted(t0, h, 0, 0, 1) == t3[3 := VACANT];
    assert t3[3 := VACANT] == [Entry(1), Entry(2), Entry(3), VACANT];
    var t := [Entry(1), Entry(2), Entry(3), VACANT];
    assert t[0].live && !t[3].live && Steps(h(t[0].id), 3, 4) < Steps(h(t[0].id), 0, 4);
  }

  class OrderPool {
    const slots: array<OrderRecord>
    const hash: Hash
    var liveCount: nat
    ghost var start: nat
    ghost var index: map<OrderId, nat>
    /** The map from ids to orders that the pool represents. */
    ghost var contents: map<OrderId, Order>

    ghost predicate Valid()
      reads this, slots
    {
      && slots.Length >= 2
      && Placed(slots[..], hash, start)
      && Indexed(slots[..], index) && contents == Entries(slots[..], index)
      && liveCount == |index|
    }

    constructor (n: nat, h: Hash)
      requires n >= 2 && HashInto(h, n)
      ensures Valid() && contents == map[]
      ensures slots.Length == n && hash == h && fresh(slots)
    {
      slots := new OrderRecord[n](_ => VACANT);
      hash := h;
      liveCount := 0;
      start := 0;
      index := map[];
      contents := map[];
    }

    method FindOrder(id: OrderId) returns (r: Option<nat>)
      requires Valid()
      ensures r.Some? <==> id in contents
      ensures r.Some? ==>
        id in index && r.value == index[id] && r.value < slots.Length && slots[r.value].order == contents[id]
    {
      var slot: nat := hash(id);
      for i := 0 to slots.Length
        invariant slot < slots.Length && (i < slots.Length ==> Steps(hash(id), slot, slots.Length) == i)
        invariant id in index ==> i <= Steps(hash(id), index[id], slots.Length)
      {
        if id in index {
          ProbeReaches(slots[..], hash, start, index, id, slot);
        }
        if !slots[slot].live {
          return None;
        }
        if slots[slot].live && slots[slot].id == id {
          return Some(slot);
        }
        slot := Next(slot, slots.Length);
      }
      return None;
    }

    /** Null only when the pool is full; a fresh entry starts out as the default record. */
    method InsertOrder(id: OrderId) returns (r: Option<nat>)
      requires Valid()
      modifies this, slots
      ensures Valid()
      ensures r.None? <==> |old(contents)| >= slots.Length
      ensures r.None? ==> contents == old(contents)
      ensures r.Some? ==> id in index && r.value == index[id] && r.value < slots.Length
      ensures r.Some? && id in old(contents) ==> contents == old(contents)
      ensures r.Some? && id !in old(contents) ==> contents == old(contents)[id := NO_ORDER]
      ensures r.Some? ==> slots[r.value].order == contents[id]
    {
      hide PlacedUpTo;
      assert contents.Keys == index.Keys;
      assert |contents.Keys| == |contents| && |index.Keys| == |index|;
      if liveCount >= slots.Length {
        return None;
      }
      r := FindOrder(id);
      if r.Some? {
        return;
      }
      var slot := ProbeFree(id);
      InsertKeepsPlaced(slots[..], hash, start, slot, OrderRecord(id, NO_ORDER, true));
      InsertKeepsIndex(slots[..], index, slot, OrderRecord(id, NO_ORDER, true));
      slots[slot] := OrderRecord(id, NO_ORDER, true);
      assert slots[..] == old(slots[..])[slot := OrderRecord(id, NO_ORDER, true)];
      liveCount := liveCount + 1;
      start := Next(slot, slots.Length);
      index := index[id := slot];
      contents := contents[id := NO_ORDER];
      return Some(slot);
    }

    lemma ValidHashes()
      requires Valid()
      ensures forall k :: hash(k) < slots.Length
    {
    }

    /** The probe of an insertion: a pool that is not full has a free slot, and the loop finds the first. */
    method ProbeFree(id: OrderId) returns (slot: nat)
      requires Valid() && liveCount < slots.Length
      ensures slot < slots.Length && !slots[slot].live
      ensures forall q :: 0 <= q < slots.Length && Steps(hash(id), q, slots.Length) < Steps(hash(id), slot, slots.Length)
                ==> slots[q].live
    {
      hide OnPath, Indexed, PlacedUpTo;
      assert slots.Length > 0 && forall k :: hash(k) < slots.Length by { ValidHashes(); }
      slot := hash(id);
      for i := 0 to slots.Length
        invariant slot < slots.Length && (i < slots.Length ==> Steps(hash(id), slot, slots.Length) == i)
        invariant forall q :: 0 <= q < slots.Length && Steps(hash(id), q, slots.Length) < i ==> slots[q].live
      {
        if !slots[slot].live {
          return;
        }
        slot := Next(slot, slots.Length);
      }
      FullExactlyIfNoFreeSlot(slots[..], index);
      assert false;
    }

    /** Fills in a record that the two methods above have returned. */
    method Fill(id: OrderId, slot: nat, order: Order)
      requires Valid() && id in index && slot == index[id]
      modifies slots, this`contents
      ensures Valid()
      ensures contents == old(contents)[id := order]
    {
      FillKeepsTable(slots[..], hash, start, index, id, order);
      slots[slot] := slots[slot].(order := order, live := true);
      assert slots[..] == old(slots[..])[slot := OrderRecord(id, order, true)];
      contents := contents[id := order];
    }

    method EraseOrder(id: OrderId)
      requires Valid()
      modifies this, slots
      ensures Valid()
      ensures contents == old(contents) - {id}
    {
      hide PlacedUpTo;
      var found := FindOrder(id);
      if found.None? {
        return;
      }
      ghost var index' := ErasedTable(slots[..], hash, start, index, id);
      Backshift(found.value);
      index := index';
      contents := contents - {id};
      if liveCount > 0 {
        liveCount := liveCount - 1;
      }
    }

    /** The second half of a deletion: shifts later entries back over the slot just found. */
    method Backshift(found: nat)
      requires found < slots.Length && slots.Length >= 2
      modifies slots
      ensures slots[..] == Backshifted(old(slots[..]), hash, found, found, Next(found, slots.Length))
    {
      var hole: nat, cur: nat := found, Next(found, slots.Length);
      ghost var goal := Backshifted(slots[..], hash, found, hole, cur);
      while slots[cur].live
        invariant hole < slots.Length && cur < slots.Length && cur != found
        invariant Backshifted(slots[..], hash, found, hole, cur) == goal
        decreases Steps(cur, found, slots.Length)
      {
        ghost var was := slots[..];
        if CanMove(hole, cur, hash(slots[cur].id)) {
          slots[hole] := slots[cur];
          assert slots[..] == was[hole := was[cur]];
          hole := cur;
        }
        cur := Next(cur, slots.Length);
        if cur == found {
          break;
        }
      }
      ghost var last := slots[..];
      slots[hole] := VACANT;
      assert slots[..] == last[hole := VACANT];
    }
  }
}
