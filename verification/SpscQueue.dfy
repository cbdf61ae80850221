/**
 The single-producer single-consumer ring and the consumer loop around it, as a state machine. Each step is one
 atomic access of the source, or one access to a slot's storage; producer and consumer steps interleave freely.
 */
module SpscQueues {
  import opened Arithmetic
  import Bits

  datatype Cell<T> = Cell(sequence: nat, storage: T)

  /** Where the producer is in `try_push`; `pos` is the value of `head_` that it loaded. */
  datatype Producer<T> =
    | PIdle
    | PLoaded(item: T, pos: nat)
    | PClaimed(item: T, pos: nat)
    | PWritten(item: T, pos: nat)
    | PPublished(item: T, pos: nat)

  /**
   Where the consumer is: at the head of its loop, in the two loads of `empty`, or in `try_pop`, where `pos` is the
   value of `tail_` that it loaded.
   */
  datatype Consumer<T> =
    | CTop
    | CCheckHead
    | CCheckTail(seen: nat)
    | CIdle
    | CLoaded(pos: nat)
    | CClaimed(pos: nat)
    | CTaken(item: T, pos: nat)
    | CReleased(item: T, pos: nat)
    | CExited

  /** `pushed`, `popped` and `dispatched` record the items published, read out, and returned to the consumer loop. */
  datatype State<T> = State(cells: seq<Cell<T>>, head: nat, tail: nat, stop: bool, producer: Producer<T>,
                            consumer: Consumer<T>, pushed: seq<T>, popped: seq<T>, dispatched: seq<T>)

  datatype Step<T> =
    | StartPush(item: T) | LoadPushSequence | WriteStorage | Publish | StoreHead
    | LoadStop | LoadHead | LoadTailAndCompare
    | StartPop | LoadPopSequence | ReadStorage | Release | StoreTail
    | SetStop

  predicate IsProducerStep<T>(step: Step<T>) {
    step.StartPush? || step.LoadPushSequence? || step.WriteStorage? || step.Publish? || step.StoreHead?
  }

  function Slot(pos: nat, capacity: nat): (i: nat)
    requires capacity > 0
    ensures i < capacity
  {
    pos % capacity
  }

  function Initial<T>(capacity: nat, item: T): State<T> {
    State(seq(capacity, (i: nat) => Cell(i, item)), 0, 0, false, PIdle, CTop, [], [], [])
  }

  predicate Enabled<T>(s: State<T>, step: Step<T>) {
    match step
    case StartPush(_) => s.producer.PIdle?
    case LoadPushSequence => s.producer.PLoaded?
    case WriteStorage => s.producer.PClaimed?
    case Publish => s.producer.PWritten?
    case StoreHead => s.producer.PPublished?
    case LoadStop => s.consumer.CTop?
    case LoadHead => s.consumer.CCheckHead?
    case LoadTailAndCompare => s.consumer.CCheckTail?
    case StartPop => s.consumer.CIdle?
    case LoadPopSequence => s.consumer.CLoaded?
    case ReadStorage => s.consumer.CClaimed?
    case Release => s.consumer.CTaken?
    case StoreTail => s.consumer.CReleased?
    case SetStop => true
  }

  function Next<T>(s: State<T>, step: Step<T>): (s': State<T>)
    requires |s.cells| > 0 && Enabled(s, step)
    ensures |s'.cells| == |s.cells|
  {
    var n := |s.cells|;
    match step
    case StartPush(item) => s.(producer := PLoaded(item, s.head))
    case LoadPushSequence =>
      var p := s.producer;
      s.(producer := if s.cells[Slot(p.pos, n)].sequence != p.pos then PIdle else PClaimed(p.item, p.pos))
    case WriteStorage =>
      var p := s.producer;
      var i := Slot(p.pos, n);
      s.(cells := s.cells[i := s.cells[i].(storage := p.item)], producer := PWritten(p.item, p.pos))
    case Publish =>
      var p := s.producer;
      var i := Slot(p.pos, n);
      s.(cells := s.cells[i := s.cells[i].(sequence := p.pos + 1)], producer := PPublished(p.item, p.pos),
         pushed := s.pushed + [p.item])
    case StoreHead => s.(head := s.producer.pos + 1, producer := PIdle)
    case LoadStop => s.(consumer := if s.stop then CCheckHead else CIdle)
    case LoadHead => s.(consumer := CCheckTail(s.head))
    case LoadTailAndCompare => s.(consumer := if s.consumer.seen == s.tail then CExited else CIdle)
    case StartPop => s.(consumer := CLoaded(s.tail))
    case LoadPopSequence =>
      var pos := s.consumer.pos;
      s.(consumer := if s.cells[Slot(pos, n)].sequence != pos + 1 then CTop else CClaimed(pos))
    case ReadStorage =>
      var pos := s.consumer.pos;
      var item := s.cells[Slot(pos, n)].storage;
      s.(consumer := CTaken(item, pos), popped := s.popped + [item])
    case Release =>
      var c := s.consumer;
      var i := Slot(c.pos, n);
      s.(cells := s.cells[i := s.cells[i].(sequence := c.pos + n)], consumer := CReleased(c.item, c.pos))
    case StoreTail =>
      s.(tail := s.consumer.pos + 1, consumer := CTop, dispatched := s.dispatched + [s.consumer.item])
    case SetStop => s.(stop := true)
  }

  // ----- the invariant

  /** How many slots the consumer has given back. */
  function Released<T>(s: State<T>): int {
    if s.consumer.CTaken? then |s.popped| - 1 else |s.popped|
  }

  ghost predicate CountersMatch<T>(s: State<T>) {
    && s.head == (if s.producer.PPublished? then |s.pushed| - 1 else |s.pushed|)
    && (!s.producer.PIdle? ==> s.producer.pos == s.head)
    && s.tail == |s.dispatched|
    && |s.popped| == (if s.consumer.CTaken? || s.consumer.CReleased? then s.tail + 1 else s.tail)
    && (s.consumer.CLoaded? || s.consumer.CClaimed? || s.consumer.CTaken? || s.consumer.CReleased? ==>
          s.consumer.pos == s.tail)
  }

  /** The positions from `Released` on are published up to `|pushed|`, and free for one round after that. */
  ghost predicate CellsMatch<T>(s: State<T>) {
    var n := |s.cells|;
    && 0 <= Released(s) <= |s.pushed| <= Released(s) + n
    && (forall q: nat :: Released(s) <= q < |s.pushed| ==>
          s.cells[Slot(q, n)].sequence == q + 1 && s.cells[Slot(q, n)].storage == s.pushed[q])
    && (forall q: nat :: |s.pushed| <= q < Released(s) + n ==> s.cells[Slot(q, n)].sequence == q)
  }

  ghost predicate ClaimsMatch<T>(s: State<T>) {
    var n := |s.cells|;
    && n > 0
    && (s.producer.PClaimed? || s.producer.PWritten? ==> |s.pushed| < Released(s) + n)
    && (s.producer.PWritten? ==> s.cells[Slot(s.producer.pos, n)].storage == s.producer.item)
    && (s.consumer.CClaimed? ==> |s.popped| < |s.pushed|)
    && (s.consumer.CTaken? || s.consumer.CReleased? ==>
          |s.popped| > 0 && s.consumer.item == s.popped[|s.popped| - 1])
  }

  ghost predicate Inv<T>(s: State<T>) {
    && |s.cells| >= 2
    && CountersMatch(s) && CellsMatch(s) && ClaimsMatch(s)
    && |s.popped| <= |s.pushed| && s.popped == s.pushed[..|s.popped|]
    && |s.dispatched| <= |s.popped| && s.dispatched == s.popped[..|s.dispatched|]
  }

  // ----- slots

  /** Positions less than a round apart have different slots. */
  lemma SlotsApart(p: nat, q: nat, n: nat)
    requires n > 0 && p < q < p + n
    ensures Slot(p, n) != Slot(q, n)
  {
    assert p == n * (p / n) + p % n && q == n * (q / n) + q % n;
    if p / n != q / n {
      if p % n == q % n {
        assert n * (q / n - p / n) == q - p;
        MultipleIsFar(n, q / n - p / n);
      }
    }
  }

  lemma SlotWraps(p: nat, n: nat)
    requires n > 0
    ensures Slot(p + n, n) == Slot(p, n)
  {
    assert p == n * (p / n) + p % n;
    assert p + n == n * (p / n + 1) + p % n;
    DivisionIsUnique(p + n, n, p / n + 1, p % n);
  }

  lemma SlotOfSmall(p: nat, n: nat)
    requires p < n
    ensures Slot(p, n) == p
  {
    DivisionIsUnique(p, n, 0, p);
  }

  // ----- every step keeps the invariant

  lemma InitialInv<T>(capacity: nat, item: T)
    requires capacity >= 2
    ensures Inv(Initial(capacity, item))
  {
    hide Slot;
    forall q: nat | q < capacity
      ensures Slot(q, capacity) == q
    {
      SlotOfSmall(q, capacity);
    }
  }

  /** The three steps that write a cell need the cells of the other positions to be different ones. */
  lemma OtherSlots(pos: nat, first: nat, n: nat)
    requires n > 0 && first <= pos < first + n
    ensures forall q: nat :: first <= q < first + n && q != pos ==> Slot(q, n) != Slot(pos, n)
  {
    hide Slot;
    forall q: nat | first <= q < first + n && q != pos
      ensures Slot(q, n) != Slot(pos, n)
    {
      if q < pos {
        SlotsApart(q, pos, n);
      } else {
        SlotsApart(pos, q, n);
      }
    }
  }

  /** The sequence number that a push loads equals its position exactly if the ring has room. */
  lemma PushSeesRoom<T>(s: State<T>)
    requires Inv(s) && s.producer.PLoaded?
    ensures s.cells[Slot(s.producer.pos, |s.cells|)].sequence == s.producer.pos
       <==> |s.pushed| < Released(s) + |s.cells|
  {
    hide Slot;
    SlotWraps(Released(s), |s.cells|);
  }

  /** The sequence number that a pop loads is its position plus one exactly if an item is waiting. */
  lemma PopSeesItem<T>(s: State<T>)
    requires Inv(s) && s.consumer.CLoaded?
    ensures s.cells[Slot(s.consumer.pos, |s.cells|)].sequence == s.consumer.pos + 1 <==> |s.popped| < |s.pushed|
  {
    hide Slot;
  }

  lemma WriteKeepsInv<T>(s: State<T>)
    requires Inv(s) && s.producer.PClaimed?
    ensures Inv(Next(s, WriteStorage))
  {
    hide Slot;
    OtherSlots(|s.pushed|, Released(s), |s.cells|);
  }

  lemma PublishKeepsInv<T>(s: State<T>)
    requires Inv(s) && s.producer.PWritten?
    ensures Inv(Next(s, Publish))
  {
    hide Slot;
    OtherSlots(|s.pushed|, Released(s), |s.cells|);
  }

  lemma ReleaseKeepsInv<T>(s: State<T>)
    requires Inv(s) && s.consumer.CTaken?
    ensures Inv(Next(s, Release))
  {
    hide Slot;
    OtherSlots(s.tail, Released(s), |s.cells|);
    SlotWraps(s.tail, |s.cells|);
  }

  lemma ReadKeepsInv<T>(s: State<T>)
    requires Inv(s) && s.consumer.CClaimed?
    ensures Inv(Next(s, ReadStorage))
  {
    hide Slot;
  }

  predicate TouchesCell<T>(step: Step<T>) {
    step.WriteStorage? || step.Publish? || step.ReadStorage? || step.Release?
  }

  lemma SameCellsMatch<T>(s: State<T>, s': State<T>)
    requires CellsMatch(s) && s'.cells == s.cells && s'.pushed == s.pushed && Released(s') == Released(s)
    ensures CellsMatch(s')
  {
  }

  lemma ProducerControlKeepsInv<T>(s: State<T>, step: Step<T>)
    requires Inv(s) && Enabled(s, step) && (step.StartPush? || step.LoadPushSequence? || step.StoreHead?)
    ensures Inv(Next(s, step))
  {
    hide Slot, CellsMatch;
    if step.LoadPushSequence? {
      PushSeesRoom(s);
    }
    SameCellsMatch(s, Next(s, step));
  }

  lemma ConsumerControlKeepsInv<T>(s: State<T>, step: Step<T>)
    requires Inv(s) && Enabled(s, step) && !IsProducerStep(step) && !TouchesCell(step)
    ensures Inv(Next(s, step))
  {
    hide Slot, CellsMatch;
    if step.LoadPopSequence? {
      PopSeesItem(s);
    }
    SameCellsMatch(s, Next(s, step));
  }

  lemma StepKeepsInv<T>(s: State<T>, step: Step<T>)
    requires Inv(s) && Enabled(s, step)
    ensures Inv(Next(s, step))
  {
    hide CellsMatch, CountersMatch, ClaimsMatch, Next;
    match step
    case WriteStorage => WriteKeepsInv(s);
    case Publish => PublishKeepsInv(s);
    case ReadStorage => ReadKeepsInv(s);
    case Release => ReleaseKeepsInv(s);
    case StartPush(_) => ProducerControlKeepsInv(s, step);
    case LoadPushSequence => ProducerControlKeepsInv(s, step);
    case StoreHead => ProducerControlKeepsInv(s, step);
    case _ => ConsumerControlKeepsInv(s, step);
  }

  // ----- runs

  /** A sequence of steps that can be taken from `s`, in any interleaving. */
  predicate IsRun<T>(s: State<T>, steps: seq<Step<T>>)
    requires |s.cells| > 0
    decreases |steps|
  {
    steps == [] || (Enabled(s, steps[0]) && IsRun(Next(s, steps[0]), steps[1..]))
  }

  function After<T>(s: State<T>, steps: seq<Step<T>>): (s': State<T>)
    requires |s.cells| > 0 && IsRun(s, steps)
    ensures |s'.cells| == |s.cells|
    decreases |steps|
  {
    if steps == [] then s else After(Next(s, steps[0]), steps[1..])
  }

  lemma {:induction false} RunKeepsInv<T>(s: State<T>, steps: seq<Step<T>>)
    requires Inv(s) && IsRun(s, steps)
    ensures Inv(After(s, steps))
    decreases |steps|
  {
    hide CellsMatch, ClaimsMatch, CountersMatch, Next, Enabled;
    if steps != [] {
      StepKeepsInv(s, steps[0]);
      RunKeepsInv(Next(s, steps[0]), steps[1..]);
    }
  }

  /** The producer is about to write a slot's storage and the consumer about to read the same slot's storage. */
  predicate Races<T>(s: State<T>)
    requires |s.cells| > 0
  {
    s.producer.PClaimed? && s.consumer.CClaimed?
    && Slot(s.producer.pos, |s.cells|) == Slot(s.consumer.pos, |s.cells|)
  }

  lemma InvExcludesRaces<T>(s: State<T>)
    requires Inv(s)
    ensures !Races(s)
  {
    hide Slot;
    if s.producer.PClaimed? && s.consumer.CClaimed? {
      SlotsApart(s.consumer.pos, s.producer.pos, |s.cells|);
    }
  }

  /**
   In every interleaving: the popped items are a prefix of the pushed ones, in order; at most `capacity` items are
   outstanding; and the two sides never touch the same slot's storage at once.
   */
  lemma RingIsSafe<T>(capacity: nat, item: T, steps: seq<Step<T>>)
    requires capacity >= 2 && IsRun(Initial(capacity, item), steps)
    ensures var s := After(Initial(capacity, item), steps);
            && s.popped <= s.pushed && |s.pushed| - |s.popped| <= capacity
            && s.dispatched <= s.popped && |s.popped| - |s.dispatched| <= 1
            && !Races(s)
  {
    hide Slot;
    InitialInv(capacity, item);
    RunKeepsInv(Initial(capacity, item), steps);
    InvExcludesRaces(After(Initial(capacity, item), steps));
  }

  /** A push gives up only when the ring is full at that moment, and a pop only when nothing is waiting. */
  lemma FailuresAreHonest<T>(capacity: nat, item: T, steps: seq<Step<T>>)
    requires capacity >= 2 && IsRun(Initial(capacity, item), steps)
    ensures var s := After(Initial(capacity, item), steps);
            && (s.producer.PLoaded? ==>
                  (Next(s, LoadPushSequence).producer.PIdle? <==> |s.pushed| == Released(s) + capacity))
            && (s.consumer.CLoaded? ==> (Next(s, LoadPopSequence).consumer.CTop? <==> s.popped == s.pushed))
  {
    hide Slot;
    InitialInv(capacity, item);
    RunKeepsInv(Initial(capacity, item), steps);
    var s := After(Initial(capacity, item), steps);
    if s.producer.PLoaded? {
      PushSeesRoom(s);
    }
    if s.consumer.CLoaded? {
      PopSeesItem(s);
    }
  }

  // ----- draining

  /** Before `stop` is set, the consumer stays in its loop. */
  ghost predicate Serving<T>(s: State<T>) {
    Inv(s) && !s.stop && !s.consumer.CCheckHead? && !s.consumer.CCheckTail? && !s.consumer.CExited?
  }

  lemma {:induction false} ServingUntilStop<T>(s: State<T>, steps: seq<Step<T>>)
    requires Serving(s) && IsRun(s, steps) && SetStop !in steps
    ensures Serving(After(s, steps))
    decreases |steps|
  {
    hide CellsMatch, ClaimsMatch, CountersMatch;
    if steps != [] {
      StepKeepsInv(s, steps[0]);
      ServingUntilStop(Next(s, steps[0]), steps[1..]);
    }
  }

  /** The consumer is between the decision to go on and the end of a pop. */
  predicate Popping<T>(s: State<T>) {
    s.consumer.CIdle? || s.consumer.CLoaded? || s.consumer.CClaimed? || s.consumer.CTaken? || s.consumer.CReleased?
  }

  /**
   No push is in progress, or it only has to store `head_` and the consumer already has its item or is about to
   pop it.
   */
  predicate Settled<T>(s: State<T>) {
    || s.producer.PIdle?
    || (s.producer.PPublished?
        && (|s.dispatched| == |s.pushed| || (|s.dispatched| + 1 == |s.pushed| && Popping(s))))
  }

  /** What holds after `stop` has been set in a settled state, as long as no new push starts. */
  ghost predicate Draining<T>(s: State<T>) {
    && Inv(s) && s.stop && Settled(s)
    && (s.consumer.CCheckTail? && s.consumer.seen == s.tail ==> s.dispatched == s.pushed)
    && (s.consumer.CExited? ==> s.dispatched == s.pushed)
  }

  predicate NoNewPush<T>(steps: seq<Step<T>>) {
    forall k :: 0 <= k < |steps| ==> !steps[k].StartPush?
  }

  predicate IsConsumerStep<T>(step: Step<T>) {
    !IsProducerStep(step) && !step.SetStop?
  }

  function ConsumerSteps<T>(steps: seq<Step<T>>): nat {
    if steps == [] then 0 else (if IsConsumerStep(steps[0]) then 1 else 0) + ConsumerSteps(steps[1..])
  }

  /** The only step that the consumer can take. */
  function ConsumerStep<T>(s: State<T>): (step: Step<T>)
    requires !s.consumer.CExited?
    ensures Enabled(s, step) && IsConsumerStep(step)
  {
    match s.consumer
    case CTop => LoadStop
    case CCheckHead => LoadHead
    case CCheckTail(_) => LoadTailAndCompare
    case CIdle => StartPop
    case CLoaded(_) => LoadPopSequence
    case CClaimed(_) => ReadStorage
    case CTaken(_, _) => Release
    case CReleased(_, _) => StoreTail
  }

  /** How many items the consumer can see by comparing the counters. */
  function Waiting<T>(s: State<T>): nat {
    if s.head > s.tail then s.head - s.tail else 0
  }

  /** A bound on the steps that the consumer still takes after `stop`, if the producer stands still. */
  function StepsLeft<T>(s: State<T>): nat {
    var waiting := Waiting(s);
    8 * waiting + match s.consumer
      case CTop => if waiting == 0 then 3 else 8
      case CCheckHead => if waiting == 0 then 2 else 7
      case CCheckTail(seen) => if waiting == 0 && seen == s.tail then 1 else 6
      case CIdle => 5
      case CLoaded(_) => 4
      case CClaimed(_) => 3
      case CTaken(_, _) => 2
      case CReleased(_, _) => 1
      case CExited => 0
  }

  lemma DrainingStep<T>(s: State<T>, step: Step<T>)
    requires Draining(s) && Enabled(s, step) && !step.StartPush?
    ensures var s' := Next(s, step);
            && Draining(s') && s'.pushed == s.pushed
            && (s.producer.PIdle? ==>
                  s'.producer.PIdle? && StepsLeft(s') + (if IsConsumerStep(step) then 1 else 0) <= StepsLeft(s))
  {
    hide CellsMatch, ClaimsMatch;
    StepKeepsInv(s, step);
    if step.LoadPopSequence? {
      PopSeesItem(s);
    }
  }

  lemma {:induction false} DrainingStays<T>(s: State<T>, steps: seq<Step<T>>)
    requires Draining(s) && IsRun(s, steps) && NoNewPush(steps)
    ensures var s' := After(s, steps);
            && Draining(s') && s'.pushed == s.pushed
            && (s.producer.PIdle? ==> ConsumerSteps(steps) + StepsLeft(s') <= StepsLeft(s))
    decreases |steps|
  {
    hide CellsMatch, ClaimsMatch, CountersMatch, Settled, StepsLeft, IsConsumerStep, Next, Enabled;
    if steps != [] {
      DrainingStep(s, steps[0]);
      DrainingStays(Next(s, steps[0]), steps[1..]);
    }
  }

  lemma StopStartsDraining<T>(capacity: nat, item: T, before: seq<Step<T>>)
    requires capacity >= 2 && IsRun(Initial(capacity, item), before) && SetStop !in before
    ensures var s := After(Initial(capacity, item), before);
            Serving(s) && (Settled(s) ==> Draining(Next(s, SetStop)))
  {
    hide CellsMatch, ClaimsMatch;
    InitialInv(capacity, item);
    ServingUntilStop(Initial(capacity, item), before);
    StepKeepsInv(After(Initial(capacity, item), before), SetStop);
  }

  /**
   Draining: if `stop` is set when the producer has returned from its last push, then in every interleaving the
   consumer loop ends, after at most eight steps for every outstanding item and eight more, and it ends only once
   every published item has been popped and dispatched, in order.
   */
  lemma ExitMeansDrained<T>(capacity: nat, item: T, before: seq<Step<T>>, after: seq<Step<T>>)
    requires capacity >= 2 && IsRun(Initial(capacity, item), before) && SetStop !in before
    requires var s := After(Initial(capacity, item), before);
             s.producer.PIdle? && IsRun(Next(s, SetStop), after)
    requires NoNewPush(after)
    ensures var s := After(Initial(capacity, item), before);
            var s' := After(Next(s, SetStop), after);
            && (s'.consumer.CExited? ==> s'.dispatched == s.pushed)
            && (!s'.consumer.CExited? ==> Enabled(s', ConsumerStep(s')))
            && ConsumerSteps(after) <= 8 * (|s.pushed| - |s.dispatched|) + 8
  {
    hide CellsMatch, ClaimsMatch, IsRun, After, IsConsumerStep;
    StopStartsDraining(capacity, item, before);
    var s := After(Initial(capacity, item), before);
    DrainingStays(Next(s, SetStop), after);
  }

  // ----- what happens when `stop` comes too early

  lemma OneStep<T>(s: State<T>, step: Step<T>, rest: seq<Step<T>>)
    requires |s.cells| > 0 && Enabled(s, step) && IsRun(Next(s, step), rest)
    ensures IsRun(s, [step] + rest) && After(s, [step] + rest) == After(Next(s, step), rest)
  {
    assert ([step] + rest)[1..] == rest;
  }

  lemma {:induction false} RunsJoin<T>(s: State<T>, a: seq<Step<T>>, b: seq<Step<T>>)
    requires |s.cells| > 0 && IsRun(s, a) && IsRun(After(s, a), b)
    ensures IsRun(s, a + b) && After(s, a + b) == After(After(s, a), b)
    decreases |a|
  {
    hide Next, Enabled;
    if a == [] {
      assert a + b == b;
    } else {
      RunsJoin(Next(s, a[0]), a[1..], b);
      assert (a + b)[1..] == a[1..] + b;
    }
  }

  /** The consumer, left alone after `stop`, will leave its loop with `tail_` at the present `head_`. */
  ghost predicate Exiting<T>(s: State<T>) {
    && Inv(s) && s.stop && s.tail <= s.head
    && (s.consumer.CCheckTail? ==> s.consumer.seen == s.head)
    && (s.consumer.CExited? ==> s.tail == s.head)
    && (s.producer.PPublished? && s.tail == s.head ==> !Popping(s))
  }

  lemma ExitingStep<T>(s: State<T>)
    requires Exiting(s) && !s.consumer.CExited?
    ensures var s' := Next(s, ConsumerStep(s));
            && Exiting(s') && StepsLeft(s') < StepsLeft(s)
            && s'.producer == s.producer && s'.pushed == s.pushed && s'.head == s.head
  {
    hide CellsMatch, ClaimsMatch;
    StepKeepsInv(s, ConsumerStep(s));
    if s.consumer.CLoaded? {
      PopSeesItem(s);
    }
  }

  lemma {:induction false} ConsumerExits<T>(s: State<T>) returns (steps: seq<Step<T>>)
    requires Exiting(s)
    ensures IsRun(s, steps) && NoNewPush(steps)
    ensures var s' := After(s, steps);
            && Inv(s') && s'.consumer.CExited? && s'.tail == s.head
            && s'.producer == s.producer && s'.pushed == s.pushed && s'.head == s.head
    decreases StepsLeft(s)
  {
    hide CellsMatch, ClaimsMatch, CountersMatch, StepsLeft, Next;
    if s.consumer.CExited? {
      return [];
    }
    ExitingStep(s);
    var step := ConsumerStep(s);
    var rest := ConsumerExits(Next(s, step));
    OneStep(s, step, rest);
    steps := [step] + rest;
  }

  /** How many steps of the push in progress are left. */
  function PushLeft<T>(s: State<T>): nat {
    match s.producer
    case PIdle => 0
    case PLoaded(_, _) => 4
    case PClaimed(_, _) => 3
    case PWritten(_, _) => 2
    case PPublished(_, _) => 1
  }

  function ProducerStep<T>(s: State<T>): (step: Step<T>)
    requires !s.producer.PIdle?
    ensures Enabled(s, step) && !step.StartPush?
  {
    match s.producer
    case PLoaded(_, _) => LoadPushSequence
    case PClaimed(_, _) => WriteStorage
    case PWritten(_, _) => Publish
    case PPublished(_, _) => StoreHead
  }

  /** The item of the push in progress that is still to be published. */
  function Unpublished<T>(s: State<T>): seq<T> {
    if s.producer.PIdle? || s.producer.PPublished? then [] else [s.producer.item]
  }

  lemma FinishStep<T>(s: State<T>)
    requires Inv(s) && s.consumer.CExited? && !s.producer.PIdle? && s.tail == s.head
    ensures var s' := Next(s, ProducerStep(s));
            && Inv(s') && s'.consumer == s.consumer && s'.dispatched == s.dispatched && PushLeft(s') < PushLeft(s)
            && s'.pushed + Unpublished(s') == s.pushed + Unpublished(s)
            && (!s'.producer.PIdle? ==> s'.tail == s'.head)
  {
    hide CellsMatch, ClaimsMatch;
    StepKeepsInv(s, ProducerStep(s));
    if s.producer.PLoaded? {
      PushSeesRoom(s);
    }
  }

  /** The producer finishes its push after the consumer has exited with an empty ring before it. */
  lemma {:induction false} PushFinishes<T>(s: State<T>) returns (steps: seq<Step<T>>)
    requires Inv(s) && s.consumer.CExited? && (!s.producer.PIdle? ==> s.tail == s.head)
    ensures IsRun(s, steps) && NoNewPush(steps)
    ensures var s' := After(s, steps);
            && s'.consumer.CExited? && s'.producer.PIdle? && s'.dispatched == s.dispatched
            && s'.pushed == s.pushed + Unpublished(s)
    decreases PushLeft(s)
  {
    hide CellsMatch, ClaimsMatch, CountersMatch, Next;
    if s.producer.PIdle? {
      return [];
    }
    FinishStep(s);
    var step := ProducerStep(s);
    var rest := PushFinishes(Next(s, step));
    OneStep(s, step, rest);
    steps := [step] + rest;
  }

  /** When `stop` is set in a state that is not settled, the consumer may exit and leave the last item behind. */
  lemma UnsettledLosesItem<T>(s: State<T>) returns (steps: seq<Step<T>>)
    requires Serving(s) && !Settled(s)
    ensures IsRun(Next(s, SetStop), steps) && NoNewPush(steps)
    ensures var s' := After(Next(s, SetStop), steps);
            s'.consumer.CExited? && s'.producer.PIdle? && |s'.dispatched| < |s'.pushed|
  {
    hide CellsMatch, ClaimsMatch, IsRun, After;
    StepKeepsInv(s, SetStop);
    var stopped := Next(s, SetStop);
    var a := ConsumerExits(stopped);
    var exited := After(stopped, a);
    var b := PushFinishes(exited);
    RunsJoin(stopped, a, b);
    steps := a + b;
  }

  /** The consumer has not left its loop with a published item behind. */
  predicate NothingLost<T(==)>(s: State<T>) {
    s.consumer.CExited? ==> s.dispatched == s.pushed
  }

  /**
   When setting `stop` is safe, exactly: no interleaving of the consumer with the push in progress, if there is one,
   leaves an item behind if and only if the state is settled.
   */
  lemma DrainsIffSettled<T>(capacity: nat, item: T, before: seq<Step<T>>)
    requires capacity >= 2 && IsRun(Initial(capacity, item), before) && SetStop !in before
    ensures var s := After(Initial(capacity, item), before);
            (forall after :: IsRun(Next(s, SetStop), after) && NoNewPush(after) ==>
               NothingLost(After(Next(s, SetStop), after)))
            <==> Settled(s)
  {
    hide CellsMatch, ClaimsMatch, CountersMatch, IsRun, After, Next, NoNewPush, Settled;
    StopStartsDraining(capacity, item, before);
    var s := After(Initial(capacity, item), before);
    if Settled(s) {
      forall after | IsRun(Next(s, SetStop), after) && NoNewPush(after)
        ensures NothingLost(After(Next(s, SetStop), after))
      {
        DrainingStays(Next(s, SetStop), after);
      }
    } else {
      var after := UnsettledLosesItem(s);
      assert !NothingLost(After(Next(s, SetStop), after));
    }
  }

  /**
   A push that starts after `stop` can always be lost: from every state in which `stop` may be set while no push is in
   progress, the consumer may exit before the push, which still succeeds.
   */
  lemma EarlyStopLosesItem<T>(capacity: nat, item: T, before: seq<Step<T>>, late: T) returns (after: seq<Step<T>>)
    requires capacity >= 2 && IsRun(Initial(capacity, item), before) && SetStop !in before
    requires After(Initial(capacity, item), before).producer.PIdle?
    ensures var s := After(Initial(capacity, item), before);
            && IsRun(Next(s, SetStop), after)
            && var s' := After(Next(s, SetStop), after);
               && s'.consumer.CExited? && s'.producer.PIdle?
               && s'.pushed == s.pushed + [late] && s'.dispatched == s.pushed
  {
    hide CellsMatch, ClaimsMatch, IsRun, After;
    StopStartsDraining(capacity, item, before);
    var stopped := Next(After(Initial(capacity, item), before), SetStop);
    var a := ConsumerExits(stopped);
    var exited := After(stopped, a);
    StepKeepsInv(exited, StartPush(late));
    var b := PushFinishes(Next(exited, StartPush(late)));
    OneStep(exited, StartPush(late), b);
    after := a + ([StartPush(late)] + b);
    RunsJoin(stopped, a, [StartPush(late)] + b);
  }

  // ----- 64-bit counters

  const COUNTER_BITS := 64

  /** What a 64-bit counter holds when it has counted to `x`. */
  function Wrap(x: nat): (r: nat) {
    x % Bits.Pow2(COUNTER_BITS)
  }

  lemma WrapIs64Bits(x: nat)
    ensures Wrap(x) == x % 0x1_0000_0000_0000_0000
  {
    hide Bits.Pow2;
    Bits.WordRange();
  }

  /** The capacity is a power of two that a 64-bit number can hold. */
  ghost predicate FitsCounter(capacity: nat) {
    exists k: nat :: k < COUNTER_BITS && capacity == Bits.Pow2(k)
  }

  /** Masking a counter gives the slot of the position that it stands for. */
  lemma MaskedCounter(pos: nat, capacity: nat)
    requires FitsCounter(capacity)
    ensures capacity > 0 && Bits.And(pos, capacity - 1) == Slot(pos, capacity)
    ensures Bits.And(Wrap(pos), capacity - 1) == Slot(pos, capacity)
  {
    var k: nat :| k < COUNTER_BITS && capacity == Bits.Pow2(k);
    hide Bits.And, Bits.Pow2;
    Bits.MaskKeepsLowBits(pos, k);
    Bits.LowBitsAreRemainder(pos, k);
    Bits.MaskOfWrapped(pos, COUNTER_BITS, k);
  }

  /** The slot of a position, as the source computes it. */
  function MaskedSlot(pos: nat, capacity: nat): (i: nat)
    requires FitsCounter(capacity)
    ensures i < capacity
  {
    MaskedCounter(pos, capacity);
    Bits.And(pos, capacity - 1)
  }

  function WrappedCell<T>(c: Cell<T>): Cell<T> {
    c.(sequence := Wrap(c.sequence))
  }

  function WrappedCells<T>(cells: seq<Cell<T>>): (r: seq<Cell<T>>)
    ensures |r| == |cells|
  {
    seq(|cells|, i requires 0 <= i < |cells| => WrappedCell(cells[i]))
  }

  function WrappedProducer<T>(p: Producer<T>): Producer<T> {
    if p.PIdle? then p else p.(pos := Wrap(p.pos))
  }

  function WrappedConsumer<T>(c: Consumer<T>): Consumer<T> {
    match c
    case CCheckTail(seen) => CCheckTail(Wrap(seen))
    case CLoaded(pos) => CLoaded(Wrap(pos))
    case CClaimed(pos) => CClaimed(Wrap(pos))
    case CTaken(item, pos) => CTaken(item, Wrap(pos))
    case CReleased(item, pos) => CReleased(item, Wrap(pos))
    case _ => c
  }

  /** The state that 64-bit counters represent. */
  function Wrapped<T>(s: State<T>): (r: State<T>)
    ensures |r.cells| == |s.cells|
  {
    s.(cells := WrappedCells(s.cells), head := Wrap(s.head), tail := Wrap(s.tail),
       producer := WrappedProducer(s.producer), consumer := WrappedConsumer(s.consumer))
  }

  /** A step of the machine with 64-bit counters and masked positions. */
  function NextWrapped<T>(s: State<T>, step: Step<T>): (s': State<T>)
    requires FitsCounter(|s.cells|) && Enabled(s, step)
    ensures |s'.cells| == |s.cells|
  {
    var n := |s.cells|;
    match step
    case LoadPushSequence =>
      var p := s.producer;
      s.(producer := if s.cells[MaskedSlot(p.pos, n)].sequence != p.pos then PIdle else PClaimed(p.item, p.pos))
    case WriteStorage =>
      var p := s.producer;
      var i := MaskedSlot(p.pos, n);
      s.(cells := s.cells[i := s.cells[i].(storage := p.item)], producer := PWritten(p.item, p.pos))
    case Publish =>
      var p := s.producer;
      var i := MaskedSlot(p.pos, n);
      s.(cells := s.cells[i := s.cells[i].(sequence := Wrap(p.pos + 1))], producer := PPublished(p.item, p.pos),
         pushed := s.pushed + [p.item])
    case StoreHead => s.(head := Wrap(s.producer.pos + 1), producer := PIdle)
    case LoadPopSequence =>
      var pos := s.consumer.pos;
      s.(consumer := if s.cells[MaskedSlot(pos, n)].sequence != Wrap(pos + 1) then CTop else CClaimed(pos))
    case ReadStorage =>
      var pos := s.consumer.pos;
      var item := s.cells[MaskedSlot(pos, n)].storage;
      s.(consumer := CTaken(item, pos), popped := s.popped + [item])
    case Release =>
      var c := s.consumer;
      var i := MaskedSlot(c.pos, n);
      s.(cells := s.cells[i := s.cells[i].(sequence := Wrap(c.pos + n))], consumer := CReleased(c.item, c.pos))
    case StoreTail =>
      s.(tail := Wrap(s.consumer.pos + 1), consumer := CTop, dispatched := s.dispatched + [s.consumer.item])
    case _ => Next(s, step)
  }

  lemma WrapSum(x: nat, y: nat)
    ensures Wrap(Wrap(x) + y) == Wrap(x + y)
  {
    hide Bits.Pow2;
    var m := Bits.Pow2(COUNTER_BITS);
    assert x == m * (x / m) + x % m;
    var z := x % m + y;
    assert z == m * (z / m) + z % m;
    assert x + y == m * (x / m + z / m) + z % m;
    DivisionIsUnique(x + y, m, x / m + z / m, z % m);
  }

  /** Counters that are close to each other are told apart by their 64-bit values. */
  lemma CloseCountersDiffer(a: nat, b: nat, capacity: nat)
    requires FitsCounter(capacity) && a <= b + capacity && b <= a + capacity
    ensures Wrap(a) == Wrap(b) <==> a == b
  {
    var k: nat :| k < COUNTER_BITS && capacity == Bits.Pow2(k);
    Bits.Pow2Increases(k, COUNTER_BITS);
    hide Bits.Pow2, Slot;
    if a < b {
      SlotsApart(a, b, Bits.Pow2(COUNTER_BITS));
    } else if b < a {
      SlotsApart(b, a, Bits.Pow2(COUNTER_BITS));
    }
    assert Slot(a, Bits.Pow2(COUNTER_BITS)) == Wrap(a) by { SlotIsRemainder(a, Bits.Pow2(COUNTER_BITS)); }
    assert Slot(b, Bits.Pow2(COUNTER_BITS)) == Wrap(b) by { SlotIsRemainder(b, Bits.Pow2(COUNTER_BITS)); }
  }

  lemma SlotIsRemainder(pos: nat, n: nat)
    requires n > 0
    ensures Slot(pos, n) == pos % n
  {
  }

  /** The head that the consumer has loaded for its comparison is close to its own tail. */
  ghost predicate SeenIsClose<T>(s: State<T>) {
    s.consumer.CCheckTail? ==> s.consumer.seen <= s.tail + |s.cells| && s.tail <= s.consumer.seen + 1
  }

  lemma StepKeepsSeenClose<T>(s: State<T>, step: Step<T>)
    requires Inv(s) && SeenIsClose(s) && Enabled(s, step)
    ensures SeenIsClose(Next(s, step))
  {
    hide ClaimsMatch;
  }

  lemma WrappedCellUpdate<T>(cells: seq<Cell<T>>, i: nat, c: Cell<T>)
    requires i < |cells|
    ensures WrappedCells(cells[i := c]) == WrappedCells(cells)[i := WrappedCell(c)]
  {
    hide Wrap;
  }

  /** The comparisons of the two sides come out the same with 64-bit counters. */
  ghost predicate ComparesAlike<T>(s: State<T>) {
    && |s.cells| > 0
    && (s.producer.PLoaded? ==>
          var sequence, pos := s.cells[Slot(s.producer.pos, |s.cells|)].sequence, s.producer.pos;
          Wrap(sequence) == Wrap(pos) <==> sequence == pos)
    && (s.consumer.CLoaded? ==>
          var sequence, pos := s.cells[Slot(s.consumer.pos, |s.cells|)].sequence, s.consumer.pos;
          Wrap(sequence) == Wrap(pos + 1) <==> sequence == pos + 1)
    && (s.consumer.CCheckTail? ==> (Wrap(s.consumer.seen) == Wrap(s.tail) <==> s.consumer.seen == s.tail))
  }

  lemma ComparisonsAgree<T>(s: State<T>)
    requires Inv(s) && SeenIsClose(s) && FitsCounter(|s.cells|)
    ensures ComparesAlike(s)
  {
    hide Slot, Wrap, FitsCounter;
    var n := |s.cells|;
    if s.producer.PLoaded? {
      SlotWraps(Released(s), n);
      CloseCountersDiffer(s.cells[Slot(s.producer.pos, n)].sequence, s.producer.pos, n);
    }
    if s.consumer.CLoaded? {
      CloseCountersDiffer(s.cells[Slot(s.consumer.pos, n)].sequence, s.consumer.pos + 1, n);
    }
    if s.consumer.CCheckTail? {
      CloseCountersDiffer(s.consumer.seen, s.tail, n);
    }
  }

  lemma WrappedWriteAgrees<T>(s: State<T>)
    requires |s.cells| > 0 && FitsCounter(|s.cells|) && s.producer.PClaimed?
    ensures NextWrapped(Wrapped(s), WriteStorage) == Wrapped(Next(s, WriteStorage))
  {
    hide Slot, Wrap, FitsCounter, WrappedCells;
    MaskedCounter(s.producer.pos, |s.cells|);
    var i := Slot(s.producer.pos, |s.cells|);
    WrappedCellAgrees(s.cells);
    WrappedCellUpdate(s.cells, i, s.cells[i].(storage := s.producer.item));
  }

  lemma WrappedPublishAgrees<T>(s: State<T>)
    requires |s.cells| > 0 && FitsCounter(|s.cells|) && s.producer.PWritten?
    ensures NextWrapped(Wrapped(s), Publish) == Wrapped(Next(s, Publish))
  {
    hide Slot, Wrap, FitsCounter, WrappedCells;
    MaskedCounter(s.producer.pos, |s.cells|);
    var i := Slot(s.producer.pos, |s.cells|);
    WrapSum(s.producer.pos, 1);
    WrappedCellAgrees(s.cells);
    WrappedCellUpdate(s.cells, i, s.cells[i].(sequence := s.producer.pos + 1));
  }

  lemma WrappedReleaseAgrees<T>(s: State<T>)
    requires |s.cells| > 0 && FitsCounter(|s.cells|) && s.consumer.CTaken?
    ensures NextWrapped(Wrapped(s), Release) == Wrapped(Next(s, Release))
  {
    hide Slot, Wrap, FitsCounter, WrappedCells;
    MaskedCounter(s.consumer.pos, |s.cells|);
    var i := Slot(s.consumer.pos, |s.cells|);
    WrapSum(s.consumer.pos, |s.cells|);
    WrappedCellAgrees(s.cells);
    WrappedCellUpdate(s.cells, i, s.cells[i].(sequence := s.consumer.pos + |s.cells|));
  }

  lemma WrappedProducerLoadAgrees<T>(s: State<T>)
    requires ComparesAlike(s) && FitsCounter(|s.cells|) && s.producer.PLoaded?
    ensures NextWrapped(Wrapped(s), LoadPushSequence) == Wrapped(Next(s, LoadPushSequence))
  {
    hide Slot, Wrap, FitsCounter, WrappedCells;
    MaskedCounter(s.producer.pos, |s.cells|);
    WrappedCellAgrees(s.cells);
  }

  lemma WrappedConsumerLoadAgrees<T>(s: State<T>)
    requires ComparesAlike(s) && FitsCounter(|s.cells|) && s.consumer.CLoaded?
    ensures NextWrapped(Wrapped(s), LoadPopSequence) == Wrapped(Next(s, LoadPopSequence))
  {
    hide Slot, Wrap, FitsCounter, WrappedCells;
    MaskedCounter(s.consumer.pos, |s.cells|);
    WrapSum(s.consumer.pos, 1);
    WrappedCellAgrees(s.cells);
  }

  lemma WrappedReadAgrees<T>(s: State<T>)
    requires |s.cells| > 0 && FitsCounter(|s.cells|) && s.consumer.CClaimed?
    ensures NextWrapped(Wrapped(s), ReadStorage) == Wrapped(Next(s, ReadStorage))
  {
    hide Slot, Wrap, FitsCounter, WrappedCells;
    MaskedCounter(s.consumer.pos, |s.cells|);
    WrappedCellAgrees(s.cells);
  }

  predicate UsesCell<T>(step: Step<T>) {
    TouchesCell(step) || step.LoadPushSequence? || step.LoadPopSequence?
  }

  lemma WrappedControlAgrees<T>(s: State<T>, step: Step<T>)
    requires ComparesAlike(s) && FitsCounter(|s.cells|) && Enabled(s, step) && !UsesCell(step)
    ensures NextWrapped(Wrapped(s), step) == Wrapped(Next(s, step))
  {
    hide Slot, Wrap, FitsCounter, WrappedCells;
    if step.StoreHead? {
      WrapSum(s.producer.pos, 1);
    } else if step.StoreTail? {
      WrapSum(s.consumer.pos, 1);
    }
  }

  /** Each step of the machine with 64-bit counters is the step of the machine with unbounded ones. */
  lemma WrappedStepAgrees<T>(s: State<T>, step: Step<T>)
    requires Inv(s) && SeenIsClose(s) && FitsCounter(|s.cells|) && Enabled(s, step)
    ensures Enabled(Wrapped(s), step) && NextWrapped(Wrapped(s), step) == Wrapped(Next(s, step))
  {
    ComparisonsAgree(s);
    SameStepsEnabled(s, step);
    hide ComparesAlike, SeenIsClose, FitsCounter, NextWrapped, Next, Wrapped, CellsMatch, CountersMatch, ClaimsMatch;
    match step
    case LoadPushSequence => WrappedProducerLoadAgrees(s);
    case WriteStorage => WrappedWriteAgrees(s);
    case Publish => WrappedPublishAgrees(s);
    case LoadPopSequence => WrappedConsumerLoadAgrees(s);
    case ReadStorage => WrappedReadAgrees(s);
    case Release => WrappedReleaseAgrees(s);
    case _ => WrappedControlAgrees(s, step);
  }

  lemma WrappedCellAgrees<T>(cells: seq<Cell<T>>)
    ensures forall i :: 0 <= i < |cells| ==> WrappedCells(cells)[i] == WrappedCell(cells[i])
  {
  }

  /** A run of the machine with 64-bit counters. */
  predicate IsWrappedRun<T>(s: State<T>, steps: seq<Step<T>>)
    requires FitsCounter(|s.cells|)
    decreases |steps|
  {
    steps == [] || (Enabled(s, steps[0]) && IsWrappedRun(NextWrapped(s, steps[0]), steps[1..]))
  }

  function AfterWrapped<T>(s: State<T>, steps: seq<Step<T>>): State<T>
    requires FitsCounter(|s.cells|) && IsWrappedRun(s, steps)
    decreases |steps|
  {
    if steps == [] then s else AfterWrapped(NextWrapped(s, steps[0]), steps[1..])
  }

  lemma {:induction false} WrappedRunAgrees<T>(s: State<T>, steps: seq<Step<T>>)
    requires Inv(s) && SeenIsClose(s) && FitsCounter(|s.cells|)
    ensures IsWrappedRun(Wrapped(s), steps) <==> IsRun(s, steps)
    ensures IsRun(s, steps) ==> AfterWrapped(Wrapped(s), steps) == Wrapped(After(s, steps))
    decreases |steps|
  {
    hide CellsMatch, CountersMatch, ClaimsMatch, Next, NextWrapped, SeenIsClose, FitsCounter, MaskedSlot;
    if steps != [] {
      SameStepsEnabled(s, steps[0]);
      if Enabled(s, steps[0]) {
        StepKeepsInv(s, steps[0]);
        StepKeepsSeenClose(s, steps[0]);
        WrappedStepAgrees(s, steps[0]);
        WrappedRunAgrees(Next(s, steps[0]), steps[1..]);
      }
    }
  }

  lemma SameStepsEnabled<T>(s: State<T>, step: Step<T>)
    ensures Enabled(Wrapped(s), step) <==> Enabled(s, step)
  {
    hide Wrap;
  }

  lemma SmallCounter(i: nat, capacity: nat)
    requires FitsCounter(capacity) && i <= capacity
    ensures Wrap(i) == i
  {
    var k: nat :| k < COUNTER_BITS && capacity == Bits.Pow2(k);
    Bits.Pow2Increases(k, COUNTER_BITS);
    hide Bits.Pow2;
    DivisionIsUnique(i, Bits.Pow2(COUNTER_BITS), 0, i);
  }

  lemma InitialIsWrapped<T>(capacity: nat, item: T)
    requires FitsCounter(capacity)
    ensures Wrapped(Initial(capacity, item)) == Initial(capacity, item)
  {
    hide FitsCounter, Wrap;
    forall i: nat | i <= capacity
      ensures Wrap(i) == i
    {
      SmallCounter(i, capacity);
    }
    assert WrappedCells(Initial(capacity, item).cells) == Initial(capacity, item).cells;
  }

  /**
   Counters may wrap around: from the constructed ring, the machine with 64-bit counters and bit masks takes exactly
   the runs of the machine with unbounded counters, and publishes, pops and dispatches the same items.
   */
  lemma CountersMayWrap<T>(capacity: nat, item: T, steps: seq<Step<T>>)
    requires capacity >= 2 && FitsCounter(capacity)
    ensures IsWrappedRun(Initial(capacity, item), steps) <==> IsRun(Initial(capacity, item), steps)
    ensures IsRun(Initial(capacity, item), steps) ==>
              var w, s := AfterWrapped(Initial(capacity, item), steps), After(Initial(capacity, item), steps);
              w == Wrapped(s) && w.pushed == s.pushed && w.popped == s.popped && w.dispatched == s.dispatched
  {
    hide IsRun, IsWrappedRun, After, AfterWrapped, FitsCounter, MaskedSlot, Wrap;
    InitialInv(capacity, item);
    InitialIsWrapped(capacity, item);
    WrappedRunAgrees(Initial(capacity, item), steps);
  }

  // ----- the queue in place, used by one thread at a time

  /** All steps of one `try_push`, without interleaving. */
  function PushAlone<T>(s: State<T>, item: T): State<T>
    requires |s.cells| > 0 && s.producer.PIdle?
  {
    var claimed := Next(Next(s, StartPush(item)), LoadPushSequence);
    if claimed.producer.PIdle? then claimed else Next(Next(Next(claimed, WriteStorage), Publish), StoreHead)
  }

  /** All steps of one round of the consumer loop, without interleaving. */
  function PopAlone<T>(s: State<T>): State<T>
    requires |s.cells| > 0 && s.consumer.CTop? && !s.stop
  {
    var claimed := Next(Next(Next(s, LoadStop), StartPop), LoadPopSequence);
    if claimed.consumer.CTop? then claimed else Next(Next(Next(claimed, ReadStorage), Release), StoreTail)
  }

  lemma PushAloneKeepsInv<T>(s: State<T>, item: T)
    requires Inv(s) && s.producer.PIdle?
    ensures Inv(PushAlone(s, item))
  {
    hide CellsMatch, ClaimsMatch, CountersMatch;
    var started := Next(s, StartPush(item));
    StepKeepsInv(s, StartPush(item));
    StepKeepsInv(started, LoadPushSequence);
    var claimed := Next(started, LoadPushSequence);
    if !claimed.producer.PIdle? {
      StepKeepsInv(claimed, WriteStorage);
      StepKeepsInv(Next(claimed, WriteStorage), Publish);
      StepKeepsInv(Next(Next(claimed, WriteStorage), Publish), StoreHead);
    }
  }

  lemma PopAloneKeepsInv<T>(s: State<T>)
    requires Inv(s) && s.consumer.CTop? && !s.stop
    ensures Inv(PopAlone(s))
  {
    hide CellsMatch, ClaimsMatch, CountersMatch;
    var started := Next(Next(s, LoadStop), StartPop);
    StepKeepsInv(s, LoadStop);
    StepKeepsInv(Next(s, LoadStop), StartPop);
    StepKeepsInv(started, LoadPopSequence);
    var claimed := Next(started, LoadPopSequence);
    if !claimed.consumer.CTop? {
      StepKeepsInv(claimed, ReadStorage);
      StepKeepsInv(Next(claimed, ReadStorage), Release);
      StepKeepsInv(Next(Next(claimed, ReadStorage), Release), StoreTail);
    }
  }

  /** What a round of the consumer loop comes to, when nothing interleaves. */
  lemma PopAloneIs<T>(s: State<T>)
    requires |s.cells| > 0 && s.consumer.CTop? && !s.stop
    ensures var i := Slot(s.tail, |s.cells|);
            PopAlone(s) ==
              if s.cells[i].sequence != s.tail + 1 then s
              else s.(cells := s.cells[i := s.cells[i].(sequence := s.tail + |s.cells|)], tail := s.tail + 1,
                      popped := s.popped + [s.cells[i].storage], dispatched := s.dispatched + [s.cells[i].storage])
  {
    hide Slot;
  }

  lemma TopSeesItem<T>(s: State<T>)
    requires Inv(s) && s.consumer.CTop? && !s.stop
    ensures var i := Slot(s.tail, |s.cells|);
            && (s.cells[i].sequence == s.tail + 1 <==> |s.popped| < |s.pushed|)
            && (|s.popped| < |s.pushed| ==> s.cells[i].storage == s.pushed[|s.popped|])
  {
    hide Slot;
  }

  /** Why the capacity must be at least 2: a ring with one slot accepts a second push and overwrites the first item. */
  lemma OneSlotOverwrites<T>(initial: T, first: T, second: T)
    ensures var s := PushAlone(Initial(1, initial), first);
            && s.producer.PIdle? && s.pushed == [first] && s.popped == []
            && PushAlone(s, second).pushed == [first, second] && PushAlone(s, second).cells[0].storage == second
  {
    SlotOfSmall(0, 1);
    SlotWraps(0, 1);
  }

  class SpscQueue<T(0)> {
    const cells: array<Cell<T>>
    var head: nat
    var tail: nat
    ghost var pushed: seq<T>
    ghost var popped: seq<T>

    /** The queue between two operations. */
    ghost function AsState(): State<T>
      reads this, cells
    {
      State(cells[..], head, tail, false, PIdle, CTop, pushed, popped, popped)
    }

    ghost predicate Valid()
      reads this, cells
    {
      Inv(AsState())
    }

    /** What is in the queue. */
    ghost function Contents(): seq<T>
      reads this, cells
      requires Valid()
    {
      pushed[|popped|..]
    }

    constructor (capacity: nat, item: T)
      requires capacity >= 2
      ensures Valid() && Contents() == [] && cells.Length == capacity && fresh(cells)
    {
      cells := new Cell<T>[capacity]((i: nat) => Cell(i, item));
      head, tail := 0, 0;
      pushed, popped := [], [];
      new;
      assert AsState() == Initial(capacity, item);
      InitialInv(capacity, item);
    }

    method TryPush(item: T) returns (ok: bool)
      requires Valid()
      modifies this`head, this`pushed, cells
      ensures Valid() && AsState() == PushAlone(old(AsState()), item)
      ensures ok <==> |old(Contents())| < cells.Length
      ensures Contents() == if ok then old(Contents()) + [item] else old(Contents())
    {
      hide CellsMatch, ClaimsMatch, Slot;
      ghost var s := AsState();
      PushAloneKeepsInv(s, item);
      StepKeepsInv(s, StartPush(item));
      PushSeesRoom(Next(s, StartPush(item)));
      var pos := head;
      var i := Slot(pos, cells.Length);
      if cells[i].sequence != pos {
        return false;
      }
      cells[i] := cells[i].(storage := item);
      cells[i] := cells[i].(sequence := pos + 1);
      pushed := pushed + [item];
      head := pos + 1;
      assert cells[..] == PushAlone(s, item).cells;
      return true;
    }

    method TryPop() returns (item: T, ok: bool)
      requires Valid()
      modifies this`tail, this`popped, cells
      ensures Valid() && AsState() == PopAlone(old(AsState()))
      ensures ok <==> old(Contents()) != []
      ensures ok ==> item == old(Contents())[0] && Contents() == old(Contents())[1..]
      ensures !ok ==> Contents() == old(Contents())
    {
      ghost var s := AsState();
      PopAloneKeepsInv(s);
      PopAloneIs(s);
      TopSeesItem(s);
      hide CellsMatch, ClaimsMatch, CountersMatch, Slot, PopAlone;
      var pos := tail;
      var i := Slot(pos, cells.Length);
      if cells[i].sequence != pos + 1 {
        item := *;
        return item, false;
      }
      item := cells[i].storage;
      cells[i] := cells[i].(sequence := pos + cells.Length);
      popped := popped + [item];
      tail := pos + 1;
      assert cells[..] == PopAlone(s).cells;
      return item, true;
    }

    method Empty() returns (empty: bool)
      requires Valid()
      ensures empty <==> Contents() == []
    {
      return head == tail;
    }
  }
}
