/** What every run of the queue promises, whatever the interleaving and however stale the
    loads of the other side's index. */
module SpscLaws {
  import opened Options
  import opened Ring
  import opened SpscSteps

  lemma {:induction false} RunInv<T>(s: State<T>, run: seq<Action<T>>)
    requires Inv(s) && Legal(s, run)
    ensures Inv(Exec(s, run)) && Exec(s, run).capacity == s.capacity
    decreases |run|
  {
    hide Inv;
    if run != [] {
      StepInv(s, run[0]);
      RunInv(Step(s, run[0]), run[1..]);
    }
  }

  /** In every state of every run, what the consumer has taken is a prefix of what the
      producer has put in, no slot was constructed while live, destroyed while dead or
      popped from an empty queue, and the live slots are those of the elements constructed
      and not yet destroyed, no more than the capacity. */
  lemma EveryRunIsSafe<T>(capacity: nat, run: seq<Action<T>>)
    requires capacity >= 2 && Legal(Init(capacity), run)
    ensures var s := Exec(Init(capacity), run);
            && s.popped <= s.pushed && !s.fault && s.capacity == capacity
            && Live(s.slots) == LiveUpTo(s, |Log(s)|)
            && |Live(s.slots)| == |Log(s)| - |s.popped| <= capacity - 1
  {
    InitInv<T>(capacity);
    RunInv(Init(capacity), run);
    var s := Exec(Init(capacity), run);
    LiveCount(s, |Log(s)|);
    assert Live(s.slots) == LiveUpTo(s, |Log(s)|) by { LiveSlots(s); }
  }

  /** The slots a thread accesses in its next step, or through the pointer it holds. */
  function ProducerTouches<T>(s: State<T>): set<nat> {
    if s.producer.Constructing? then {s.writeIdx} else {}
  }

  function ConsumerTouches<T>(s: State<T>): set<nat> {
    if s.consumer.Holding? || s.consumer.Destroying? then {s.readIdx} else {}
  }

  /** In no state of any run do both sides access the same slot, and every access is ordered
      by the index loaded before it: a slot is constructed only after every earlier element
      of that slot was released below the read index that the producer has seen, and an
      element is held or destroyed only after it was published below the write index that
      the consumer has seen, while no later element has come to its slot. */
  lemma EveryRunIsRaceFree<T>(capacity: nat, run: seq<Action<T>>)
    requires capacity >= 2 && Legal(Init(capacity), run)
    ensures var s := Exec(Init(capacity), run);
            && ProducerTouches(s) !! ConsumerTouches(s)
            && (ProducerTouches(s) != {} ==>
                  forall j: nat | j < |s.pushed| && Slot(j, capacity) == s.writeIdx :: j < s.rc)
            && (ConsumerTouches(s) != {} ==>
                  && s.released < s.wc
                  && forall j: nat | s.released < j < |Log(s)| :: Slot(j, capacity) != s.readIdx)
  {
    InitInv<T>(capacity);
    RunInv(Init(capacity), run);
    hide Exec, Legal, Slot;
    var s := Exec(Init(capacity), run);
    SlotInjective(s.released, |s.pushed|, capacity);
    forall j: nat | s.rc <= j < |s.pushed| ensures Slot(j, capacity) != s.writeIdx {
      SlotInjective(j, |s.pushed|, capacity);
    }
    forall j: nat | s.released < j < |Log(s)| ensures Slot(j, capacity) != s.readIdx {
      SlotInjective(s.released, j, capacity);
    }
  }

  /** Loads may be as stale as can be: in every state of every run, a load of the other
      side's index may see any count from the one seen last to the current one. */
  lemma AnyStaleLoad<T>(capacity: nat, run: seq<Action<T>>, k: nat)
    requires capacity >= 2 && Legal(Init(capacity), run)
    ensures var s := Exec(Init(capacity), run);
            && (s.producer.Loading? && s.rc <= k <= s.released ==> Enabled(s, LoadRead(k)))
            && (s.consumer.Refreshing? && s.wc <= k <= |s.pushed| ==> Enabled(s, LoadWrite(k)))
            && (s.consumer.Holding? && s.wc <= k <= |s.pushed| ==> Enabled(s, Pop(k)))
  {
    InitInv<T>(capacity);
    RunInv(Init(capacity), run);
    hide Exec, Legal, Slot, Contents, Threads;
  }

  // Progress.

  predicate OfProducer<T>(a: Action<T>) {
    a.Emplace? || a.CheckRead? || a.LoadRead? || a.Construct? || a.Publish?
  }

  /** Steps that begin a call, on the side given. */
  predicate Begins<T>(a: Action<T>, producer: bool) {
    if producer then a.Emplace? else a.Front? || a.Pop?
  }

  /** A load after which a blocking emplace has to load again. */
  predicate Futile<T>(s: State<T>, a: Action<T>)
    requires Enabled(s, a)
  {
    a.LoadRead? && Step(s, a).producer.Loading?
  }

  /** The most steps that the call under way still takes, futile loads not counted. */
  function ProducerWork<T>(s: State<T>): nat {
    match s.producer
    case Idle => 0
    case Checking(_, _) => 4
    case Loading(_, _) => 3
    case Constructing(_) => 2
    case Publishing(_) => 1
  }

  function ConsumerWork<T>(s: State<T>): nat {
    match s.consumer
    case Resting => 0
    case Comparing => 2
    case Refreshing => 1
    case Holding => 0
    case Destroying => 2
    case Releasing => 1
  }

  function Work<T>(s: State<T>, producer: bool): nat {
    if producer then ProducerWork(s) else ConsumerWork(s)
  }

  /** The steps that either side takes in a run, futile loads not counted. */
  function Steps<T>(s: State<T>, run: seq<Action<T>>, producer: bool): nat
    requires Legal(s, run)
    decreases |run|
  {
    if run == [] then 0
    else
      (if OfProducer(run[0]) == producer && !Futile(s, run[0]) then 1 else 0)
      + Steps(Step(s, run[0]), run[1..], producer)
  }

  /** A call loses work with every step of its own side that is not futile, and none is
      added to it, whatever the other side does. */
  lemma {:induction false} StepsBounded<T>(s: State<T>, run: seq<Action<T>>, producer: bool)
    requires Legal(s, run) && forall a | a in run :: !Begins(a, producer)
    ensures Steps(s, run, producer) + Work(Exec(s, run), producer) <= Work(s, producer)
    decreases |run|
  {
    if run != [] {
      var a := run[0];
      assert a in run;
      assert (if OfProducer(a) == producer && !Futile(s, a) then 1 else 0) + Work(Step(s, a), producer)
          <= Work(s, producer);
      hide Step, Enabled, Work;
      StepsBounded(Step(s, a), run[1..], producer);
    }
  }

  /** Every call finishes: in any run in which its side begins no other call and the other
      side does what it likes, calls included, a call that is under way takes at most four
      steps of its own on the producer's side and two on the consumer's; after these it has
      returned, and until then a next step is enabled. The steps that do not count are loads
      of a blocking emplace that see a full queue: the first load that sees room goes on,
      and a `try_emplace` has none. */
  lemma EveryCallFinishes<T>(capacity: nat, before: seq<Action<T>>, run: seq<Action<T>>, producer: bool)
    requires capacity >= 2 && Legal(Init(capacity), before)
    requires Legal(Exec(Init(capacity), before), run) && forall a | a in run :: !Begins(a, producer)
    ensures var s := Exec(Init(capacity), before);
            var t := Exec(s, run);
            && Steps(s, run, producer) <= Work(s, producer) <= (if producer then 4 else 2)
            && (Steps(s, run, producer) == Work(s, producer) ==> Returned(t, producer))
            && (!Returned(t, producer) ==> Enabled(t, NextOf(t, producer)))
  {
    var s := Exec(Init(capacity), before);
    InitInv<T>(capacity);
    RunInv(Init(capacity), before);
    RunInv(s, run);
    StepsBounded(s, run, producer);
    if !Returned(Exec(s, run), producer) { NextEnabled(Exec(s, run), producer); }
    hide Exec, Legal, Steps, Inv, Enabled;
  }

  /** No call is under way on the side given. */
  predicate Returned<T>(s: State<T>, producer: bool) {
    if producer then s.producer.Idle? else s.consumer.Resting? || s.consumer.Holding?
  }

  lemma NextEnabled<T>(s: State<T>, producer: bool)
    requires Inv(s) && !Returned(s, producer)
    ensures Enabled(s, NextOf(s, producer))
  {
    hide Slot, Contents, Threads;
  }

  /** A load is futile if and only if it is that of a blocking emplace and sees the queue
      full at the count it loads. */
  lemma FutileExact<T>(s: State<T>, k: nat)
    requires Inv(s) && Enabled(s, LoadRead(k))
    ensures Futile(s, LoadRead(k)) <==> s.producer.blocking && |s.pushed| - k == s.capacity - 1
  {
    hide Slot;
    NextMeets(k, |s.pushed|, s.capacity);
  }

  /** The next step of a call that is under way, with a fresh load. */
  function NextOf<T>(s: State<T>, producer: bool): Action<T> {
    if producer then
      match s.producer
      case Checking(_, _) => CheckRead
      case Loading(_, _) => LoadRead(s.released)
      case Constructing(_) => Construct
      case _ => Publish
    else
      match s.consumer
      case Comparing => CheckWrite
      case Refreshing => LoadWrite(|s.pushed|)
      case Destroying => Destroy
      case _ => Release
  }

  // Live slots.

  function Live<T>(slots: seq<Option<T>>): set<nat> {
    set i: nat | i < |slots| && slots[i].Some?
  }

  /** The slots of the elements from the first not destroyed up to count hi. */
  ghost function LiveUpTo<T>(s: State<T>, hi: nat): set<nat>
    requires s.capacity > 0
  {
    set k: nat | |s.popped| <= k < hi :: Slot(k, s.capacity)
  }

  lemma {:induction false} LiveCount<T>(s: State<T>, hi: nat)
    requires s.capacity > 0 && |s.popped| <= hi <= |s.popped| + s.capacity
    ensures |LiveUpTo(s, hi)| == hi - |s.popped|
    decreases hi
  {
    hide Slot;
    if hi == |s.popped| {
      assert LiveUpTo(s, hi) == {};
    } else {
      LiveCount(s, hi - 1);
      var last := Slot(hi - 1, s.capacity);
      forall k: nat | |s.popped| <= k < hi - 1 ensures Slot(k, s.capacity) != last {
        SlotInjective(k, hi - 1, s.capacity);
      }
      assert LiveUpTo(s, hi) == LiveUpTo(s, hi - 1) + {last};
    }
  }

  lemma LiveSlots<T>(s: State<T>)
    requires Inv(s)
    ensures Live(s.slots) == LiveUpTo(s, |Log(s)|)
  {
    hide Slot;
    forall i: nat | i < s.capacity
      ensures s.slots[i].Some? <==> i in LiveUpTo(s, |Log(s)|)
    {
      var k := SlotOnto(|s.popped|, i, s.capacity);
      if s.slots[i].None? {
        forall j: nat | |s.popped| <= j < |Log(s)| ensures Slot(j, s.capacity) != i {
          assert s.slots[Slot(j, s.capacity)].Some?;
        }
      }
    }
  }

  // Refinement of a bounded first-in first-out queue.

  datatype Operation<T> = Enqueue(v: T) | Dequeue(v: T)

  /** The elements published and not yet destroyed. */
  function Queue<T>(s: State<T>): seq<T>
    requires |s.popped| <= |s.pushed|
  {
    s.pushed[|s.popped|..]
  }

  /** The operation a step completes: an element is in the queue when its index is
      published, and out when it is destroyed. */
  function Completes<T>(s: State<T>, a: Action<T>): Option<Operation<T>>
    requires Enabled(s, a)
  {
    match a
    case Publish => Some(Enqueue(s.producer.v))
    case Destroy => if s.slots[s.readIdx].Some? then Some(Dequeue(s.slots[s.readIdx].value)) else None
    case _ => None
  }

  function Trace<T>(s: State<T>, run: seq<Action<T>>): seq<Operation<T>>
    requires Legal(s, run)
    decreases |run|
  {
    if run == [] then []
    else
      var rest := Trace(Step(s, run[0]), run[1..]);
      match Completes(s, run[0])
      case Some(op) => [op] + rest
      case None => rest
  }

  /** The bounded queue: enqueue only if there is room, dequeue only the oldest element. */
  ghost predicate Accepts<T>(q: seq<T>, room: nat, ops: seq<Operation<T>>)
    decreases |ops|
  {
    ops != [] ==>
      match ops[0]
      case Enqueue(v) => |q| < room && Accepts(q + [v], room, ops[1..])
      case Dequeue(v) => q != [] && q[0] == v && Accepts(q[1..], room, ops[1..])
  }

  lemma StepRefines<T>(s: State<T>, a: Action<T>)
    requires Inv(s) && Enabled(s, a)
    ensures var t := Step(s, a);
            && |s.popped| <= |s.pushed| && |t.popped| <= |t.pushed|
            && match Completes(s, a)
               case Some(Enqueue(v)) => |Queue(s)| < s.capacity - 1 && Queue(t) == Queue(s) + [v]
               case Some(Dequeue(v)) => Queue(s) != [] && Queue(s)[0] == v && Queue(t) == Queue(s)[1..]
               case None => Queue(t) == Queue(s)
  {
    hide Slot, Contents;
    if a.Destroy? { OldestSlot(s); }
  }

  lemma OldestSlot<T>(s: State<T>)
    requires Inv(s) && s.consumer.Destroying?
    ensures s.released < |s.pushed| && s.slots[s.readIdx] == Some(s.pushed[s.released])
  {
    hide Slot;
    assert s.slots[Slot(s.released, s.capacity)] == Some(Log(s)[s.released]);
  }

  /** The operations of every run are accepted by a bounded first-in first-out queue that
      starts empty and has room for `capacity()` elements. */
  lemma EveryRunRefinesFifo<T>(capacity: nat, run: seq<Action<T>>)
    requires capacity >= 2 && Legal(Init(capacity), run)
    ensures Accepts([], capacity - 1, Trace(Init(capacity), run))
  {
    InitInv<T>(capacity);
    RunRefines(Init(capacity), run);
    assert Queue(Init<T>(capacity)) == [];
  }

  lemma {:induction false} RunRefines<T>(s: State<T>, run: seq<Action<T>>)
    requires Inv(s) && Legal(s, run)
    ensures |s.popped| <= |s.pushed| && Accepts(Queue(s), s.capacity - 1, Trace(s, run))
    decreases |run|
  {
    hide Inv, Completes, Queue;
    if run == [] {
      Prefix(s);
    } else {
      StepRefines(s, run[0]);
      StepInv(s, run[0]);
      RunRefines(Step(s, run[0]), run[1..]);
      var rest := Trace(Step(s, run[0]), run[1..]);
      match Completes(s, run[0])
      case Some(op) => assert ([op] + rest)[1..] == rest;
      case None =>
    }
  }

  lemma Prefix<T>(s: State<T>)
    requires Inv(s)
    ensures s.popped <= s.pushed
  {
  }

  // Outcomes of the calls.

  /** The elements whose slots the producer cannot use yet. */
  function Held<T>(s: State<T>): int {
    |s.pushed| - s.released
  }

  /** After loading the read index as of count k, `emplace` goes on if and only if there was
      room at that count; `try_emplace` fails if and only if `capacity()` elements were
      held, and with a fresh load are held now. Without a load it goes on only with room. */
  lemma EmplaceOutcome<T>(s: State<T>, k: nat)
    requires Inv(s)
    ensures Enabled(s, LoadRead(k)) ==>
              var t := Step(s, LoadRead(k));
              && (t.producer.Constructing? <==> |s.pushed| - k < s.capacity - 1)
              && (!t.producer.Constructing? <==> |s.pushed| - k == s.capacity - 1)
              && (k == s.released ==> (t.producer.Constructing? <==> Held(s) < s.capacity - 1))
    ensures Enabled(s, CheckRead) && Step(s, CheckRead).producer.Constructing? ==> Held(s) < s.capacity - 1
  {
    hide Slot;
    if Enabled(s, LoadRead(k)) { NextMeets(k, |s.pushed|, s.capacity); }
    NextMeets(s.rc, |s.pushed|, s.capacity);
  }

  /** After loading the write index as of count k, `front` returns null if and only if the
      queue was empty at that count; with a fresh load, if and only if it is empty now. */
  lemma FrontOutcome<T>(s: State<T>, k: nat)
    requires Inv(s)
    ensures Enabled(s, LoadWrite(k)) ==>
              var t := Step(s, LoadWrite(k));
              && (t.consumer.Resting? <==> k == s.released)
              && (k == |s.pushed| ==> (t.consumer.Resting? <==> Held(s) == 0))
    ensures Enabled(s, CheckWrite) && Step(s, CheckWrite).consumer.Holding? ==> Held(s) > 0
  {
    hide Slot;
    if Enabled(s, LoadWrite(k)) { SlotInjective(s.released, k, s.capacity); }
    SlotInjective(s.released, s.wc, s.capacity);
  }

  /** A pointer returned by `front` leads to the oldest element, until it is popped. */
  lemma FrontIsOldest<T>(s: State<T>)
    requires Inv(s) && (s.consumer.Holding? || s.consumer.Destroying?)
    ensures |s.popped| < |s.pushed| && s.slots[s.readIdx] == Some(Queue(s)[0])
  {
    hide Slot;
    assert s.slots[Slot(s.released, s.capacity)] == Some(Log(s)[s.released]);
  }

  /** `size()` of a pair of loaded indices. */
  function SizeOf(writeIdx: nat, readIdx: nat, capacity: nat): int {
    var diff := writeIdx - readIdx;
    if diff < 0 then diff + capacity else diff
  }

  /** Called by either side, which knows its own index, `size()` counts the elements between
      its own index and the other's as of the count loaded; with a fresh load it is the
      number of elements held, at most `capacity()`. */
  lemma SizeIsExact<T>(s: State<T>, k: nat)
    requires Inv(s)
    ensures s.rc <= k <= s.released ==> SizeOf(s.writeIdx, Slot(k, s.capacity), s.capacity) == |s.pushed| - k
    ensures s.wc <= k <= |s.pushed| ==> SizeOf(Slot(k, s.capacity), s.readIdx, s.capacity) == k - s.released
    ensures SizeOf(s.writeIdx, s.readIdx, s.capacity) == Held(s) <= s.capacity - 1
  {
    hide Slot;
    if s.rc <= k <= s.released { SlotDistance(k, |s.pushed|, s.capacity); }
    if s.wc <= k <= |s.pushed| { SlotDistance(s.released, k, s.capacity); }
    SlotDistance(s.released, |s.pushed|, s.capacity);
  }

  // The constructor.

  const SIZE_MAX := 0xffff_ffff_ffff_ffff

  /** The number of slots the constructor settles on: at least one element, one slot of
      slack, and room for the padding at both ends, in 64-bit arithmetic. */
  function CapacityField(requested: nat, padding: nat): nat
    requires padding <= 64
  {
    var slots := ((if requested < 1 then 1 else requested) + 1) % (SIZE_MAX + 1);
    if slots > SIZE_MAX - 2 * padding then SIZE_MAX - 2 * padding else slots
  }

  /** There are two slots or more, as every run needs, unless the largest size is
      requested: adding the slack slot then wraps around to zero. */
  lemma CapacityUsable(requested: nat, padding: nat)
    requires requested <= SIZE_MAX && padding <= 64
    ensures CapacityField(requested, padding) >= 2 <==> requested != SIZE_MAX
    ensures requested == SIZE_MAX ==> CapacityField(requested, padding) == 0
    ensures 1 <= requested < SIZE_MAX - 2 * padding ==> CapacityField(requested, padding) == requested + 1
  {
  }
}
