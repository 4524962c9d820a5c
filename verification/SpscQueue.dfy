/** The queue with its index and slot fields, each call run to its end. A call is a run of
    the step machine, which its ghost result records. */
module SpscQueues {
  import opened Options
  import opened Ring
  import opened SpscSteps
  import opened SpscLaws

  lemma {:induction false} RunExtends<T>(s: State<T>, run: seq<Action<T>>, a: Action<T>)
    requires Legal(s, run) && Enabled(Exec(s, run), a)
    ensures Legal(s, run + [a]) && Exec(s, run + [a]) == Step(Exec(s, run), a)
    decreases |run|
  {
    hide Step, Enabled;
    if run == [] {
      assert run + [a] == [a] && [a][1..] == [];
    } else {
      RunExtends(Step(s, run[0]), run[1..], a);
      assert (run + [a])[1..] == run[1..] + [a];
    }
  }

  /** Extends a recorded run by one step. */
  lemma Take<T>(s: State<T>, run: seq<Action<T>>, a: Action<T>) returns (longer: seq<Action<T>>, t: State<T>)
    requires Legal(s, run) && Inv(Exec(s, run)) && Enabled(Exec(s, run), a)
    ensures Legal(s, longer) && t == Exec(s, longer) == Step(Exec(s, run), a) && Inv(t)
  {
    RunExtends(s, run, a);
    StepInv(Exec(s, run), a);
    longer, t := run + [a], Step(Exec(s, run), a);
  }

  /** What an uninterrupted attempt to emplace does. */
  function AfterEmplace<T>(s: State<T>, v: T): State<T>
    requires |s.slots| == s.capacity && s.writeIdx < s.capacity
  {
    var next := Next(s.writeIdx, s.capacity);
    var u := if next == s.readIdxCache then s.(readIdxCache := s.readIdx, rc := s.released) else s;
    if next == u.readIdxCache then u
    else u.(slots := s.slots[s.writeIdx := Some(v)], writeIdx := next, pushed := s.pushed + [v])
  }

  lemma EmplacedQueue<T>(s: State<T>, v: T)
    requires |s.slots| == s.capacity && s.writeIdx < s.capacity && |s.popped| <= |s.pushed|
    ensures var t := AfterEmplace(s, v);
            && |Queue(s)| == |s.pushed| - |s.popped|
            && Queue(t) == if |t.pushed| > |s.pushed| then Queue(s) + [v] else Queue(s)
  {
  }

  lemma EmplaceRun<T>(s: State<T>, v: T, blocking: bool) returns (run: seq<Action<T>>)
    requires Inv(s) && s.producer.Idle? && !s.consumer.Releasing?
    requires blocking ==> Held(s) < s.capacity - 1
    ensures var t := AfterEmplace(s, v);
            && Legal(s, run) && Exec(s, run) == t && Inv(t)
            && (|t.pushed| > |s.pushed| <==> Held(s) < s.capacity - 1)
  {
    hide Slot, Contents, Threads, Exec, Legal;
    var t;
    run, t := SeekRun(s, v, blocking);
    if t.producer.Constructing? {
      run, t := Take(s, run, Construct);
      run, t := Take(s, run, Publish);
    }
  }

  /** The first half: up to the decision whether there is room. */
  lemma SeekRun<T>(s: State<T>, v: T, blocking: bool) returns (run: seq<Action<T>>, t: State<T>)
    requires Inv(s) && s.producer.Idle? && !s.consumer.Releasing?
    requires blocking ==> Held(s) < s.capacity - 1
    ensures Legal(s, run) && t == Exec(s, run) && Inv(t)
    ensures var u := if Next(s.writeIdx, s.capacity) == s.readIdxCache
                     then s.(readIdxCache := s.readIdx, rc := s.released) else s;
            var room := Next(s.writeIdx, s.capacity) != u.readIdxCache;
            t == (if room then u.(producer := Constructing(v)) else u) && (room <==> Held(s) < s.capacity - 1)
  {
    hide Slot, Contents, Threads, Exec, Legal;
    EmptyRun(s);
    run, t := Take(s, [], Emplace(v, blocking));
    EmplaceOutcome(t, s.released);
    run, t := Take(s, run, CheckRead);
    if t.producer.Loading? {
      EmplaceOutcome(t, s.released);
      run, t := Take(s, run, LoadRead(s.released));
    }
  }

  /** What an uninterrupted `front` does. */
  function AfterFront<T>(s: State<T>): State<T> {
    var u := if s.readIdx == s.writeIdxCache then s.(writeIdxCache := s.writeIdx, wc := |s.pushed|) else s;
    u.(consumer := if s.readIdx == u.writeIdxCache then Resting else Holding)
  }

  lemma FrontRun<T>(s: State<T>) returns (run: seq<Action<T>>)
    requires Inv(s) && (s.consumer.Resting? || s.consumer.Holding?)
    ensures var t := AfterFront(s);
            Legal(s, run) && Exec(s, run) == t && Inv(t) && (t.consumer.Resting? <==> Held(s) == 0)
  {
    hide Slot, Contents, Threads, Exec, Legal;
    EmptyRun(s);
    var t;
    run, t := Take(s, [], Front);
    FrontOutcome(t, |s.pushed|);
    run, t := Take(s, run, CheckWrite);
    if t.consumer.Refreshing? {
      FrontOutcome(t, |s.pushed|);
      run, t := Take(s, run, LoadWrite(|s.pushed|));
    }
  }

  /** What an uninterrupted `pop` does. */
  function AfterPop<T>(s: State<T>): State<T>
    requires |s.slots| == s.capacity && s.readIdx < s.capacity && s.slots[s.readIdx].Some?
  {
    s.(popped := s.popped + [s.slots[s.readIdx].value], slots := s.slots[s.readIdx := None],
       readIdx := Next(s.readIdx, s.capacity), released := s.released + 1, consumer := Resting)
  }

  lemma PopRun<T>(s: State<T>) returns (run: seq<Action<T>>)
    requires Inv(s) && s.consumer.Holding?
    ensures s.slots[s.readIdx].Some? && Legal(s, run) && Exec(s, run) == AfterPop(s) && Inv(AfterPop(s))
  {
    hide Slot, Contents, Threads, Exec, Legal;
    EmptyRun(s);
    FrontIsOldest(s);
    var t;
    run, t := Take(s, [], Pop(|s.pushed|));
    run, t := Take(s, run, Destroy);
    run, t := Take(s, run, Release);
  }

  /** What an emplace that may spin does: with room what an attempt does; without room it is
      left loading after any number of loads. */
  lemma SpinRun<T>(s: State<T>, v: T, loads: nat) returns (run: seq<Action<T>>)
    requires Inv(s) && s.producer.Idle? && !s.consumer.Releasing? && loads >= 1
    ensures Legal(s, run)
    ensures var t := AfterEmplace(s, v);
            && Inv(t) && (|t.pushed| > |s.pushed| <==> Held(s) < s.capacity - 1)
            && Exec(s, run) == t.(producer := if Held(s) < s.capacity - 1 then Idle else Loading(v, true))
  {
    hide Slot, Contents, Threads, Exec, Legal;
    if Held(s) < s.capacity - 1 {
      run := EmplaceRun(s, v, true);
    } else {
      run := EmplaceRun(s, v, false);
      EmptyRun(s);
      var t;
      run, t := Take(s, [], Emplace(v, true));
      EmplaceOutcome(t, s.released);
      run, t := Take(s, run, CheckRead);
      for i := 0 to loads
        invariant Legal(s, run) && t == Exec(s, run) && Inv(t)
        invariant i == 0 ==> t == s.(producer := Loading(v, true))
        invariant i > 0 ==> t == AfterEmplace(s, v).(producer := Loading(v, true))
      {
        EmplaceOutcome(t, s.released);
        run, t := Take(s, run, LoadRead(s.released));
      }
    }
  }

  lemma EmptyRun<T>(s: State<T>)
    ensures Legal(s, []) && Exec(s, []) == s
  {
  }

  class SPSCQueue<T> {
    const capacity_: nat
    const slots: array<Option<T>>
    var writeIdx: nat
    var readIdxCache: nat
    var readIdx: nat
    var writeIdxCache: nat

    /** What the cached indices count, what was pushed and popped, and whether the consumer
        holds a pointer from `front`. */
    ghost var rc: nat
    ghost var wc: nat
    ghost var pushed: seq<T>
    ghost var popped: seq<T>
    ghost var holding: bool

    ghost function Snapshot(): State<T>
      reads this, slots
    {
      State(capacity_, slots[..], writeIdx, readIdxCache, readIdx, writeIdxCache, Idle,
            if holding then Holding else Resting, rc, wc, |popped|, pushed, popped, false)
    }

    ghost predicate Valid()
      reads this, slots
    {
      Inv(Snapshot())
    }

    /** The elements in the queue, oldest first. */
    ghost function Elements(): seq<T>
      requires Valid()
      reads this, slots
    {
      Queue(Snapshot())
    }

    /** Starts empty. If the largest size is requested, adding the slot of slack wraps
        around and no slots are left. */
    constructor (requested: nat, padding: nat)
      requires requested <= SIZE_MAX && padding <= 64
      ensures capacity_ == slots.Length == CapacityField(requested, padding) && fresh(slots)
      ensures requested < SIZE_MAX ==> Valid() && Elements() == [] && !holding
      ensures requested == SIZE_MAX ==> capacity_ == 0
    {
      var n := if requested < 1 then 1 else requested;
      n := (n + 1) % (SIZE_MAX + 1);
      if n > SIZE_MAX - 2 * padding {
        n := SIZE_MAX - 2 * padding;
      }
      capacity_ := n;
      slots := new Option<T>[n](_ => None);
      writeIdx, readIdxCache, readIdx, writeIdxCache := 0, 0, 0, 0;
      rc, wc, pushed, popped, holding := 0, 0, [], [], false;
      new;
      CapacityUsable(requested, padding);
      if requested < SIZE_MAX {
        InitInv<T>(n);
        assert Snapshot() == Init(n);
      }
    }

    /** Succeeds if and only if the queue is not full, and then appends the element. */
    method TryEmplace(v: T) returns (ok: bool, ghost run: seq<Action<T>>)
      requires Valid()
      modifies this, slots
      ensures Valid() && holding == old(holding)
      ensures Legal(old(Snapshot()), run) && Snapshot() == Exec(old(Snapshot()), run)
      ensures ok <==> |old(Elements())| < capacity_ - 1
      ensures Elements() == if ok then old(Elements()) + [v] else old(Elements())
    {
      hide Slot, Exec, Legal, Contents, Threads, Queue;
      run := EmplaceRun(Snapshot(), v, false);
      EmplacedQueue(Snapshot(), v);
      var next := writeIdx + 1;
      if next == capacity_ {
        next := 0;
      }
      if next == readIdxCache {
        readIdxCache, rc := readIdx, |popped|;
        if next == readIdxCache {
          assert Snapshot() == AfterEmplace(old(Snapshot()), v);
          return false, run;
        }
      }
      slots[writeIdx] := Some(v);
      writeIdx, pushed := next, pushed + [v];
      assert Snapshot() == AfterEmplace(old(Snapshot()), v);
      ok := true;
    }

    /** Spins until there is room and appends the element. Nothing runs beside this call, so
        the number of loads that find the queue full is given: with room the call is done
        with or without a load, and without room it is still spinning after any number,
        with nothing changed but the cached index. */
    method Emplace(v: T, loads: nat) returns (done: bool, ghost run: seq<Action<T>>)
      requires Valid() && loads >= 1
      modifies this, slots
      ensures Valid() && holding == old(holding)
      ensures done <==> |old(Elements())| < capacity_ - 1
      ensures Elements() == if done then old(Elements()) + [v] else old(Elements())
      ensures Legal(old(Snapshot()), run)
      ensures Exec(old(Snapshot()), run) == Snapshot().(producer := if done then Idle else Loading(v, true))
    {
      hide Slot, Exec, Legal, Contents, Threads, Queue;
      var next := writeIdx + 1;
      if next == capacity_ {
        next := 0;
      }
      run := SpinRun(Snapshot(), v, loads);
      EmplacedQueue(Snapshot(), v);
      var left := loads;
      while next == readIdxCache && left > 0
        modifies `readIdxCache, `rc
        invariant left <= loads
        invariant if left == loads || next != old(readIdxCache) then (readIdxCache, rc) == old((readIdxCache, rc))
                  else (readIdxCache, rc) == (readIdx, |popped|)
      {
        readIdxCache, rc := readIdx, |popped|;
        left := left - 1;
      }
      if next == readIdxCache {
        assert Snapshot() == AfterEmplace(old(Snapshot()), v);
        return false, run;
      }
      slots[writeIdx] := Some(v);
      writeIdx, pushed := next, pushed + [v];
      assert Snapshot() == AfterEmplace(old(Snapshot()), v);
      done := true;
    }

    /** The oldest element, or nothing if and only if the queue is empty. */
    method Front() returns (r: Option<T>, ghost run: seq<Action<T>>)
      requires Valid()
      modifies `writeIdxCache, `wc, `holding
      ensures Valid() && Elements() == old(Elements())
      ensures Legal(old(Snapshot()), run) && Snapshot() == Exec(old(Snapshot()), run)
      ensures if Elements() == [] then r == None else r == Some(Elements()[0])
      ensures holding == r.Some?
    {
      hide Slot, Exec, Legal, Contents, Threads;
      run := FrontRun(Snapshot());
      if readIdx == writeIdxCache {
        writeIdxCache, wc := writeIdx, |pushed|;
        if writeIdxCache == readIdx {
          holding := false;
          return None, run;
        }
      }
      holding := true;
      FrontIsOldest(Snapshot());
      r := slots[readIdx];
    }

    /** Destroys the oldest element; the caller holds a pointer to it. */
    method Pop() returns (ghost run: seq<Action<T>>)
      requires Valid() && holding
      modifies this, slots
      ensures Valid() && !holding
      ensures Legal(old(Snapshot()), run) && Snapshot() == Exec(old(Snapshot()), run)
      ensures old(Elements()) != [] && Elements() == old(Elements())[1..]
      ensures popped == old(popped) + [old(Elements())[0]]
    {
      hide Slot, Exec, Legal, Contents, Threads;
      FrontIsOldest(Snapshot());
      run := PopRun(Snapshot());
      popped := popped + [slots[readIdx].value];
      slots[readIdx] := None;
      var next := readIdx + 1;
      if next == capacity_ {
        next := 0;
      }
      readIdx, holding := next, false;
    }

    method Size() returns (n: nat)
      requires Valid()
      ensures n == |Elements()| <= capacity_ - 1
    {
      SizeIsExact(Snapshot(), 0);
      var diff := writeIdx - readIdx;
      if diff < 0 {
        diff := diff + capacity_;
      }
      n := diff;
    }

    method Empty() returns (b: bool)
      requires Valid()
      ensures b <==> Elements() == []
    {
      SizeIsExact(Snapshot(), 0);
      b := writeIdx == readIdx;
    }

    /** The destructor: destroys every element once, in order, and leaves no slot live. */
    method Drain()
      requires Valid()
      modifies this, slots
      ensures Valid() && Elements() == [] && popped == old(popped) + old(Elements())
      ensures forall i | 0 <= i < slots.Length :: slots[i].None?
    {
      hide Inv, Queue, Exec, Legal;
      ghost var run;
      var f;
      f, run := Front();
      while f.Some?
        invariant Valid() && holding == f.Some? == (Elements() != [])
        invariant popped + Elements() == old(popped) + old(Elements())
        decreases |Elements()|
      {
        ghost var q := Elements();
        run := Pop();
        assert [q[0]] + q[1..] == q;
        f, run := Front();
      }
      Drained(Snapshot());
    }
  }

  lemma Drained<T>(s: State<T>)
    requires Inv(s) && s.producer.Idle? && Queue(s) == []
    ensures forall i | 0 <= i < |s.slots| :: s.slots[i].None?
  {
    LiveSlots(s);
    LiveCount(s, |Log(s)|);
    assert Live(s.slots) == {};
    forall i | 0 <= i < |s.slots| ensures s.slots[i].None? {
      assert i !in Live(s.slots);
    }
  }
}
