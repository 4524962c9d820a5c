/** The single-producer single-consumer queue as a machine of atomic steps. The producer
    and the consumer interleave in any order, and a load of the other side's index may
    return any value that index has had since the one kept in the cache. */
module SpscSteps {
  import opened Options
  import opened Ring

  /** The producer, by what it does next. `v` is the element being emplaced. */
  datatype Producer<T> =
    | Idle
    | Checking(v: T, blocking: bool)
    | Loading(v: T, blocking: bool)
    | Constructing(v: T)
    | Publishing(v: T)

  /** The consumer, by what it does next. At `Holding` it has a pointer from `front` and
      may read the element, call `front` again or call `pop`. */
  datatype Consumer =
    | Resting
    | Comparing
    | Refreshing
    | Holding
    | Destroying
    | Releasing

  /** `rc` and `wc` count what the cached indices stand for. `pushed` and `popped` record
      the elements published and destroyed, and `fault` a slot misused. */
  datatype State<T> = State(
    capacity: nat,
    slots: seq<Option<T>>,
    writeIdx: nat,
    readIdxCache: nat,
    readIdx: nat,
    writeIdxCache: nat,
    producer: Producer<T>,
    consumer: Consumer,
    rc: nat,
    wc: nat,
    released: nat,
    pushed: seq<T>,
    popped: seq<T>,
    fault: bool)

  datatype Action<T> =
    | Emplace(v: T, blocking: bool)
    | CheckRead
    | LoadRead(k: nat)
    | Construct
    | Publish
    | Front
    | CheckWrite
    | LoadWrite(k: nat)
    | Pop(k: nat)
    | Destroy
    | Release

  function Init<T>(capacity: nat): State<T> {
    State(capacity, seq(capacity, _ => None), 0, 0, 0, 0, Idle, Resting, 0, 0, 0, [], [], false)
  }

  predicate Enabled<T>(s: State<T>, a: Action<T>) {
    && s.capacity > 0 && |s.slots| == s.capacity && s.writeIdx < s.capacity && s.readIdx < s.capacity
    && match a
       case Emplace(_, _) => s.producer.Idle?
       case CheckRead => s.producer.Checking?
       case LoadRead(k) => s.producer.Loading? && s.rc <= k <= s.released
       case Construct => s.producer.Constructing?
       case Publish => s.producer.Publishing?
       case Front => s.consumer.Resting? || s.consumer.Holding?
       case CheckWrite => s.consumer.Comparing?
       case LoadWrite(k) => s.consumer.Refreshing? && s.wc <= k <= |s.pushed|
       case Pop(k) => s.consumer.Holding? && s.wc <= k <= |s.pushed|
       case Destroy => s.consumer.Destroying?
       case Release => s.consumer.Releasing?
  }

  function Step<T>(s: State<T>, a: Action<T>): State<T>
    requires Enabled(s, a)
  {
    var n := s.capacity;
    match a
    case Emplace(v, blocking) => s.(producer := Checking(v, blocking))
    case CheckRead =>
      if Next(s.writeIdx, n) == s.readIdxCache then s.(producer := Loading(s.producer.v, s.producer.blocking))
      else s.(producer := Constructing(s.producer.v))
    case LoadRead(k) =>
      s.(readIdxCache := Slot(k, n), rc := k,
         producer := if Next(s.writeIdx, n) != Slot(k, n) then Constructing(s.producer.v)
                     else if s.producer.blocking then s.producer
                     else Idle)
    case Construct =>
      s.(fault := s.fault || s.slots[s.writeIdx].Some?,
         slots := s.slots[s.writeIdx := Some(s.producer.v)],
         producer := Publishing(s.producer.v))
    case Publish => s.(writeIdx := Next(s.writeIdx, n), pushed := s.pushed + [s.producer.v], producer := Idle)
    case Front => s.(consumer := Comparing)
    case CheckWrite => s.(consumer := if s.readIdx == s.writeIdxCache then Refreshing else Holding)
    case LoadWrite(k) =>
      s.(writeIdxCache := Slot(k, n), wc := k, consumer := if Slot(k, n) == s.readIdx then Resting else Holding)
    case Pop(k) => s.(fault := s.fault || Slot(k, n) == s.readIdx, consumer := Destroying)
    case Destroy =>
      if s.slots[s.readIdx].None? then s.(fault := true, consumer := Releasing)
      else
        s.(popped := s.popped + [s.slots[s.readIdx].value], slots := s.slots[s.readIdx := None], consumer := Releasing)
    case Release => s.(readIdx := Next(s.readIdx, n), released := s.released + 1, consumer := Resting)
  }

  /** Every action of a run is enabled when it is taken. */
  predicate Legal<T>(s: State<T>, run: seq<Action<T>>)
    decreases |run|
  {
    run != [] ==> Enabled(s, run[0]) && Legal(Step(s, run[0]), run[1..])
  }

  function Exec<T>(s: State<T>, run: seq<Action<T>>): State<T>
    requires Legal(s, run)
    decreases |run|
  {
    if run == [] then s else Exec(Step(s, run[0]), run[1..])
  }

  // The invariant.

  /** The elements in the order of their slots: published, then the one about to be. */
  function Log<T>(s: State<T>): seq<T> {
    s.pushed + if s.producer.Publishing? then [s.producer.v] else []
  }

  ghost predicate Indices<T>(s: State<T>) {
    var n := s.capacity;
    && n >= 2 && |s.slots| == n
    && s.rc <= s.released <= s.wc <= |s.pushed| && |s.pushed| - s.rc <= n - 1
    && s.writeIdx == Slot(|s.pushed|, n) && s.readIdxCache == Slot(s.rc, n)
    && s.readIdx == Slot(s.released, n) && s.writeIdxCache == Slot(s.wc, n)
  }

  ghost predicate Threads<T>(s: State<T>) {
    && (s.producer.Constructing? || s.producer.Publishing? ==> |s.pushed| - s.rc < s.capacity - 1)
    && (s.consumer.Holding? || s.consumer.Destroying? || s.consumer.Releasing? ==> s.released < s.wc)
    && |s.popped| == s.released + (if s.consumer.Releasing? then 1 else 0)
  }

  /** From the first element not destroyed to the last constructed the slots hold the log;
      the slots ahead, up to a full turn, are empty. */
  ghost predicate Contents<T>(s: State<T>)
    requires Indices(s)
  {
    && |s.popped| <= |Log(s)| <= |s.popped| + s.capacity
    && s.popped == Log(s)[..|s.popped|]
    && (forall k | |s.popped| <= k < |Log(s)| :: s.slots[Slot(k, s.capacity)] == Some(Log(s)[k]))
    && (forall k | |Log(s)| <= k < |s.popped| + s.capacity :: s.slots[Slot(k, s.capacity)] == None)
  }

  ghost predicate Inv<T>(s: State<T>) {
    Indices(s) && Threads(s) && Contents(s) && !s.fault
  }

  lemma InitInv<T>(capacity: nat)
    requires capacity >= 2
    ensures Inv(Init<T>(capacity))
  {
  }

  /** Any step of either side keeps the invariant. */
  lemma StepInv<T>(s: State<T>, a: Action<T>)
    requires Inv(s) && Enabled(s, a)
    ensures Inv(Step(s, a))
  {
    hide Inv;
    match a
    case Emplace(_, _) => ProducerInv(s, a);
    case CheckRead => ProducerInv(s, a);
    case LoadRead(_) => ProducerInv(s, a);
    case Construct => ConstructInv(s);
    case Publish => PublishInv(s);
    case Destroy => DestroyInv(s);
    case Release => ReleaseInv(s);
    case _ => ConsumerInv(s, a);
  }

  /** Steps that leave slots and log alone leave the contents alone. */
  lemma SameContents<T>(s: State<T>, t: State<T>)
    requires Indices(s) && Indices(t) && Contents(s)
    requires s.capacity == t.capacity && s.slots == t.slots && s.popped == t.popped && Log(s) == Log(t)
    ensures Contents(t)
  {
  }

  lemma ProducerInv<T>(s: State<T>, a: Action<T>)
    requires Inv(s) && Enabled(s, a) && (a.Emplace? || a.CheckRead? || a.LoadRead?)
    ensures Inv(Step(s, a))
  {
    hide Contents, Slot;
    match a {
      case CheckRead => NextMeets(s.rc, |s.pushed|, s.capacity);
      case LoadRead(k) => NextMeets(k, |s.pushed|, s.capacity);
      case _ =>
    }
    SameContents(s, Step(s, a));
  }

  lemma ConsumerInv<T>(s: State<T>, a: Action<T>)
    requires Inv(s) && Enabled(s, a) && (a.Front? || a.CheckWrite? || a.LoadWrite? || a.Pop?)
    ensures Inv(Step(s, a))
  {
    hide Contents, Slot;
    match a {
      case CheckWrite => SlotInjective(s.released, s.wc, s.capacity);
      case LoadWrite(k) => SlotInjective(s.released, k, s.capacity);
      case Pop(k) => SlotInjective(s.released, k, s.capacity);
      case _ =>
    }
    SameContents(s, Step(s, a));
  }

  lemma PublishInv<T>(s: State<T>)
    requires Inv(s) && Enabled(s, Publish)
    ensures Inv(Step(s, Publish))
  {
    hide Contents, Slot;
    SlotNext(|s.pushed|, s.capacity);
    assert Log(Step(s, Publish)) == Log(s);
    SameContents(s, Step(s, Publish));
  }

  lemma ReleaseInv<T>(s: State<T>)
    requires Inv(s) && Enabled(s, Release)
    ensures Inv(Step(s, Release))
  {
    hide Contents, Slot;
    SlotNext(s.released, s.capacity);
    SameContents(s, Step(s, Release));
  }

  lemma ConstructInv<T>(s: State<T>)
    requires Inv(s) && Enabled(s, Construct)
    ensures Inv(Step(s, Construct))
  {
    hide Slot;
    var n, w, t := s.capacity, |s.pushed|, Step(s, Construct);
    forall k | |s.popped| <= k < |s.popped| + n && k != w
      ensures t.slots[Slot(k, n)] == s.slots[Slot(k, n)]
    {
      SlotInjective(if k < w then k else w, if k < w then w else k, n);
    }
  }

  lemma DestroyInv<T>(s: State<T>)
    requires Inv(s) && Enabled(s, Destroy)
    ensures Inv(Step(s, Destroy))
  {
    hide Slot;
    var n, r, t := s.capacity, s.released, Step(s, Destroy);
    SlotTurn(r, n);
    forall k | r < k < r + n ensures t.slots[Slot(k, n)] == s.slots[Slot(k, n)] {
      SlotInjective(r, k, n);
    }
  }
}
