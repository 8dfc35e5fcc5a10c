/** The timers of timer.c on the heap: a schedule of due times. Callbacks touch no timers. */
module Timers {
  import opened TimerHeap

  const UINT64_MAX := 0xFFFF_FFFF_FFFF_FFFF
  const INT_MAX := 0x7FFF_FFFF

  datatype Error = Ok | EINVAL

  /** The sum of two 64-bit times, held at the largest when it wraps around. */
  function Clamped(time: int, timeout: int): int {
    var sum := (time + timeout) % (UINT64_MAX + 1);
    if sum < timeout then UINT64_MAX else sum
  }

  lemma ClampedIsLater(time: int, timeout: int)
    requires 0 <= time <= UINT64_MAX && 0 <= timeout <= UINT64_MAX
    ensures Clamped(time, timeout) == if time + timeout <= UINT64_MAX then time + timeout else UINT64_MAX
    ensures timeout > 0 && time < UINT64_MAX ==> Clamped(time, timeout) > time
  {
    if time + timeout > UINT64_MAX {
      assert (time + timeout) % (UINT64_MAX + 1) == time + timeout - UINT64_MAX - 1;
    }
  }

  class Loop {
    var time: int
    var timerCounter: int
    const heap: Heap
    ghost var handles: set<Timer>    // every timer of the loop

    ghost predicate HandleOk(h: Timer)
      reads this`timerCounter, heap`nodes, h`timeout, h`startId, h`repeat, h`active, h`callback, h`closing
    {
      && (h.active <==> h in heap.nodes) && 0 <= h.timeout <= UINT64_MAX && 0 <= h.repeat <= UINT64_MAX
      && h.startId < timerCounter
      && (h.active ==> h.callback && !h.closing)
    }

    ghost predicate Valid()
      reads this, heap, heap.nodes, handles
    {
      && heap.Valid() && heap.nodes <= handles && 0 <= time <= UINT64_MAX && 0 <= timerCounter
      && (forall h {:trigger HandleOk(h)} :: h in handles ==> HandleOk(h))
      && (forall g, h {:trigger g.startId, h.startId} ::
            g in heap.nodes && h in heap.nodes && g != h ==> g.startId != h.startId)
    }

    constructor ()
      ensures Valid() && handles == {} && fresh(heap)
    {
      time, timerCounter, handles := 0, 0, {};
      heap := new Heap();
    }

    /** uv_timer_stop */
    method Stop(h: Timer)
      requires Valid() && h in handles
      modifies heap, heap.nodes`left, heap.nodes`right, heap.nodes`parent, h`active
      ensures Valid() && heap.nodes == old(heap.nodes) - {h} && !h.active
              && heap.nelts == if old(h.active) then old(heap.nelts) - 1 else old(heap.nelts)
    {
      assert HandleOk(h);
      if !h.active {
        return;
      }
      heap.There(h);
      heap.Remove(h);
      h.active := false;
      forall g | g in handles ensures HandleOk(g) {
        assert old(HandleOk(g));
      }
    }

    /** uv_timer_start; the start ids do not wrap. */
    method Start(h: Timer, cb: bool, timeout: int, repeat: int) returns (err: Error)
      requires Valid() && h in handles && 0 <= timeout <= UINT64_MAX && 0 <= repeat <= UINT64_MAX
               && heap.nelts + 1 < 0x1_0000_0000
      modifies this`timerCounter, heap, heap.nodes`left, heap.nodes`right, heap.nodes`parent, h
      ensures Valid() && h.closing == old(h.closing)
      ensures err == if old(h.closing) || !cb then EINVAL else Ok
      ensures err == EINVAL ==>
                heap.nodes == old(heap.nodes) && timerCounter == old(timerCounter) && h.timeout == old(h.timeout)
                && h.startId == old(h.startId) && h.repeat == old(h.repeat) && h.active == old(h.active)
      ensures err == Ok ==>
                heap.nelts <= old(heap.nelts) + 1 && heap.nodes == old(heap.nodes) + {h}
                && h.timeout == Clamped(time, timeout) && h.repeat == repeat && h.callback && h.active
                && h.startId == old(timerCounter) && timerCounter == old(timerCounter) + 1
    {
      if h.closing || !cb {
        return EINVAL;
      }
      if h.active {
        Stop(h);
      }
      ClampedIsLater(time, timeout);
      Arm(h, timeout, repeat);
      err := Ok;
    }

    /** The rest of uv_timer_start, for a handle that is not active. */
    method Arm(h: Timer, timeout: int, repeat: int)
      requires Valid() && h in handles && !h.active && !h.closing && 0 <= timeout <= UINT64_MAX
               && 0 <= repeat <= UINT64_MAX && heap.nelts + 1 < 0x1_0000_0000
      requires 0 <= Clamped(time, timeout) <= UINT64_MAX
      modifies this`timerCounter, heap, heap.nodes`left, heap.nodes`right, heap.nodes`parent, h
      ensures Valid() && h.closing == old(h.closing) && heap.nodes == old(heap.nodes) + {h}
              && heap.nelts == old(heap.nelts) + 1
      ensures h.timeout == Clamped(time, timeout) && h.repeat == repeat && h.callback && h.active
              && h.startId == old(timerCounter) && timerCounter == old(timerCounter) + 1
    {
      var clamped := (time + timeout) % (UINT64_MAX + 1);
      if clamped < timeout {
        clamped := UINT64_MAX;
      }
      SetTimes(h, clamped, repeat);
      Activate(h);
    }

    method SetTimes(h: Timer, timeout: int, repeat: int)
      requires Valid() && h in handles && !h.active && 0 <= timeout <= UINT64_MAX && 0 <= repeat <= UINT64_MAX
      modifies this`timerCounter, h`callback, h`timeout, h`repeat, h`startId
      ensures Valid() && Latest(h)
      ensures h.timeout == timeout && h.repeat == repeat && h.callback && h.startId == old(timerCounter)
              && timerCounter == old(timerCounter) + 1
    {
      assert HandleOk(h);
      h.callback := true;
      h.timeout := timeout;
      h.repeat := repeat;
      h.startId := timerCounter;
      timerCounter := timerCounter + 1;
      forall g | g in handles ensures HandleOk(g) {
        assert old(HandleOk(g));
      }
      forall g | g in heap.nodes ensures g.startId < h.startId {
        assert old(HandleOk(g));
      }
    }

    ghost predicate Latest(h: Timer)
      reads heap`nodes, heap.nodes`startId, h`startId
    {
      forall g {:trigger g.startId} :: g in heap.nodes ==> g.startId < h.startId
    }

    method Activate(h: Timer)
      requires Valid() && h in handles && !h.active && h.callback && !h.closing && Latest(h)
               && heap.nelts + 1 < 0x1_0000_0000
      modifies heap, heap.nodes`left, heap.nodes`right, heap.nodes`parent, h`left, h`right, h`parent, h`active
      ensures Valid() && heap.nodes == old(heap.nodes) + {h} && h.active && heap.nelts == old(heap.nelts) + 1
    {
      assert HandleOk(h);
      heap.Insert(h);
      h.active := true;
      forall g | g in handles ensures HandleOk(g) {
        assert old(HandleOk(g));
      }
    }

    /** uv_timer_again */
    method Again(h: Timer) returns (err: Error)
      requires Valid() && h in handles && heap.nelts + 1 < 0x1_0000_0000
      modifies this`timerCounter, heap, heap.nodes`left, heap.nodes`right, heap.nodes`parent, h
      ensures Valid() && h.repeat == old(h.repeat) && h.closing == old(h.closing)
      ensures err == if !old(h.callback) then EINVAL else Ok
      ensures (err == EINVAL || h.repeat == 0) ==>
                heap.nelts == old(heap.nelts) && heap.nodes == old(heap.nodes) && timerCounter == old(timerCounter)
                && h.active == old(h.active) && h.timeout == old(h.timeout) && h.startId == old(h.startId)
      ensures err == Ok && h.repeat != 0 && !h.closing ==>
                heap.nelts <= old(heap.nelts) + 1 && heap.nodes == old(heap.nodes) + {h}
                && h.timeout == Clamped(time, h.repeat) && h.startId == old(timerCounter)
                && timerCounter == old(timerCounter) + 1 && h.active
      ensures err == Ok && h.repeat != 0 && h.closing ==>
                heap.nodes == old(heap.nodes) - {h} && timerCounter == old(timerCounter) && !h.active
    {
      if !h.callback {
        return EINVAL;
      }
      if h.repeat != 0 {
        assert HandleOk(h);
        Stop(h);
        var _ := Start(h, h.callback, h.repeat, h.repeat);
      }
      err := Ok;
    }

    /** uv__next_timeout: -1 to wait without end, 0 when a timer is due, else the time to the first, within an int. */
    method NextTimeout() returns (timeout: int)
      requires Valid()
      ensures timeout == -1 <==> heap.nodes == {}
      ensures timeout == 0 <==> exists h :: h in heap.nodes && h.timeout <= time
      ensures timeout > 0 ==> forall h :: h in heap.nodes ==> timeout <= h.timeout - time
      ensures timeout > 0 ==>
                exists h ::
                  h in heap.nodes && timeout == if h.timeout - time > INT_MAX then INT_MAX else h.timeout - time
    {
      heap.Here0();
      var m := heap.min;
      if m == null {
        heap.Empty();
        return -1;
      }
      forall h | h in heap.nodes ensures m.timeout <= h.timeout {
        heap.MinIsLeast(h);
      }
      if m.timeout <= time {
        return 0;
      }
      timeout := m.timeout - time;
      if timeout > INT_MAX {
        timeout := INT_MAX;
      }
    }

    /** uv__timer_close */
    method Close(h: Timer)
      requires Valid() && h in handles
      modifies heap, heap.nodes`left, heap.nodes`right, heap.nodes`parent, h`active, h`closing
      ensures Valid() && heap.nodes == old(heap.nodes) - {h} && h.closing
    {
      Stop(h);
      h.closing := true;
      forall g | g in handles ensures HandleOk(g) {
        assert old(HandleOk(g));
        assert g != h ==> HandleOk(g);
      }
    }

    /** One turn of uv__run_timers up to the callback: the first timer is stopped, and armed again if it repeats. */
    method Expire(h: Timer)
      requires Valid() && h in heap.nodes && time < UINT64_MAX && heap.nelts < 0x1_0000_0000
      modifies this`timerCounter, heap, heap.nodes`left, heap.nodes`right, heap.nodes`parent, h
      ensures Valid() && heap.nelts <= old(heap.nelts) && h.repeat == old(h.repeat)
      ensures heap.nodes == if h.repeat != 0 then old(heap.nodes) else old(heap.nodes) - {h}
      ensures h.repeat != 0 ==> h.timeout == Clamped(time, h.repeat) && h.timeout > time
      ensures h.repeat != 0 ==> h.startId == old(timerCounter) && timerCounter == old(timerCounter) + 1
      ensures h.repeat == 0 ==> timerCounter == old(timerCounter)
      ensures h.closing == old(h.closing)
    {
      assert HandleOk(h);
      Stop(h);
      assert HandleOk(h);
      ClampedIsLater(time, h.repeat);
      var _ := Again(h);
    }

    /** How far uv__run_timers has got: which timers of before have fired, and what has become of them and the rest. */
    ghost predicate Progress(was: map<Timer, Key>, fired: seq<Timer>)
      reads this`time, heap`nodes, was.Keys
    {
      && heap.nodes <= was.Keys
      && (forall h {:trigger was[h]} ::
            h in was && h !in fired ==> h in heap.nodes && Key(h.timeout, h.startId) == was[h])
      && (forall h {:trigger h in fired} ::
            h in fired ==> h in was && was[h].timeout <= time && (h in heap.nodes <==> h.repeat != 0))
      && (forall h {:trigger h in fired} ::
            h in fired && h in heap.nodes ==> h.timeout == Clamped(time, h.repeat) && h.timeout > time)
    }

    /** The timers have fired in order, and before every one that has not. */
    static ghost predicate FiredInOrder(was: map<Timer, Key>, fired: seq<Timer>) {
      && (forall h {:trigger h in fired} :: h in fired ==> h in was)
      && (forall i, j ::
            0 <= i < j < |fired| ==>
              fired[i] in was && fired[j] in was
              && (|| was[fired[i]].timeout < was[fired[j]].timeout
                  || (was[fired[i]].timeout == was[fired[j]].timeout && was[fired[i]].startId < was[fired[j]].startId)))
      && (forall f, u {:trigger f in fired, u in was} ::
            f in fired && u in was && u !in fired ==> f in was && Less(was[f], was[u]))
    }

    static ghost function Unfired(was: map<Timer, Key>, fired: seq<Timer>): set<Timer> {
      set h | h in was && h !in fired
    }

    static lemma FewerLeft(a: set<Timer>, b: set<Timer>)
      requires a < b
      ensures |a| < |b|
    {
      var x :| x in b && x !in a;
      FewerOrAs(a, b - {x});
    }

    static lemma {:induction false} FewerOrAs(a: set<Timer>, b: set<Timer>)
      requires a <= b
      ensures |a| <= |b|
      decreases a
    {
      if a != {} {
        var x :| x in a;
        FewerOrAs(a - {x}, b - {x});
      }
    }

    lemma NextInOrder(was: map<Timer, Key>, fired: seq<Timer>, m: Timer)
      requires Valid() && Progress(was, fired) && FiredInOrder(was, fired) && m == heap.min && m in heap.nodes
               && m.timeout <= time
      ensures m in was && m !in fired && was[m] == Key(m.timeout, m.startId) && FiredInOrder(was, fired + [m])
      ensures |Unfired(was, fired + [m])| < |Unfired(was, fired)|
    {
      var all := fired + [m];
      assert Unfired(was, all) < Unfired(was, fired) by {
        assert m in Unfired(was, fired) && m !in Unfired(was, all);
      }
      FewerLeft(Unfired(was, all), Unfired(was, fired));
      assert was[m] == Key(m.timeout, m.startId);
      forall u | u in was && u !in all
        ensures u in heap.nodes && was[u] == Key(u.timeout, u.startId) && Less(was[m], was[u])
      {
        assert u !in fired;
        heap.MinIsLeast(u);
        assert u.startId != m.startId;
      }
      forall f, u | f in all && u in was && u !in all ensures f in was && Less(was[f], was[u]) {
        if f != m { assert f in fired; }
      }
    }

    /** With nothing due left in the heap, exactly the timers that were due have fired. */
    lemma AllFired(was: map<Timer, Key>, fired: seq<Timer>)
      requires Valid() && Progress(was, fired)
               && (heap.min != null ==> heap.min in heap.nodes && heap.min.timeout > time)
               && (heap.min == null ==> heap.nodes == {})
      ensures forall h :: h in fired <==> h in was && was[h].timeout <= time
      ensures forall h :: h in heap.nodes <==> h in was && (was[h].timeout <= time ==> h.repeat != 0)
      ensures forall h ::
                h in heap.nodes ==>
                  h.timeout == (if was[h].timeout <= time then Clamped(time, h.repeat) else was[h].timeout)
                  && h.timeout > time
    {
      forall h | h in heap.nodes ensures h.timeout > time {
        heap.MinIsLeast(h);
      }
      assert forall h :: h in was && h !in fired ==> h in heap.nodes && h.timeout == was[h].timeout;
    }

    lemma ExpireKeeps(was: map<Timer, Key>, fired: seq<Timer>, m: Timer)
      requires m in was && was[m].timeout <= time && (m in heap.nodes <==> m.repeat != 0)
               && (m in heap.nodes ==> m.timeout == Clamped(time, m.repeat) && m.timeout > time)
      requires heap.nodes <= was.Keys
      requires forall h {:trigger was[h]} ::
                 h in was && h !in fired && h != m ==> h in heap.nodes && Key(h.timeout, h.startId) == was[h]
      requires forall h {:trigger h in fired} ::
                 h in fired ==> h != m && h in was && was[h].timeout <= time && (h in heap.nodes <==> h.repeat != 0)
      requires forall h {:trigger h in fired} ::
                 h in fired && h in heap.nodes ==> h.timeout == Clamped(time, h.repeat) && h.timeout > time
      ensures Progress(was, fired + [m])
    {
      var all := fired + [m];
      assert forall h :: h in all <==> h in fired || h == m;
    }

    /** The loop's invariant. */
    ghost predicate Going(was: map<Timer, Key>, again: map<Timer, int>, fired: seq<Timer>)
      reads this, heap, heap.nodes, handles, was.Keys
    {
      && Valid() && time < UINT64_MAX && heap.nelts < 0x1_0000_0000 && Progress(was, fired) && FiredInOrder(was, fired)
      && again.Keys == was.Keys && forall h {:trigger again[h]} :: h in was ==> h.repeat == again[h]
    }

    /** One turn of the loop: the first timer, if it is due. */
    method Turn(ghost was: map<Timer, Key>, ghost again: map<Timer, int>, ghost fired: seq<Timer>) returns (m: Timer?)
      requires Going(was, again, fired)
      modifies this`timerCounter, heap, heap.nodes
      ensures m == null ==> Going(was, again, fired) && Over(was, again, fired)
      ensures m != null ==> Going(was, again, fired + [m]) && |Unfired(was, fired + [m])| < |Unfired(was, fired)|
      ensures heap.nodes <= old(heap.nodes)
    {
      heap.Here0();
      m := heap.min;
      if m == null || m.timeout > time {
        AllFired(was, fired);
        return null;
      }
      NextInOrder(was, fired, m);
      RunOne(m, was, fired);
    }

    /** What uv__run_timers has done when it stops. */
    ghost predicate Over(was: map<Timer, Key>, again: map<Timer, int>, fired: seq<Timer>)
      reads this, heap, heap.nodes, was.Keys
      requires again.Keys == was.Keys
    {
      && (forall h :: h in fired ==> h in was) && (forall h :: h in was ==> (h in fired <==> was[h].timeout <= time))
      && (forall i, j ::
            0 <= i < j < |fired| ==>
              fired[i] in was && fired[j] in was
              && (|| was[fired[i]].timeout < was[fired[j]].timeout
                  || (was[fired[i]].timeout == was[fired[j]].timeout && was[fired[i]].startId < was[fired[j]].startId)))
      && heap.nodes <= was.Keys
      && (forall h :: h in was ==> (h in heap.nodes <==> (was[h].timeout <= time ==> again[h] != 0)))
      && (forall h ::
            h in heap.nodes ==>
              h.timeout == (if was[h].timeout <= time then Clamped(time, again[h]) else was[h].timeout)
              && h.timeout > time)
    }

    /** uv__run_timers: every due timer fires once, in the order of due time and then of starting; the repeating ones
        are armed again, and what remains is later than now. Its callbacks touch no timers. was and again are the due
        times, start ids and repeats before. */
    method RunTimers() returns (fired: seq<Timer>, ghost was: map<Timer, Key>, ghost again: map<Timer, int>)
      requires Valid() && time < UINT64_MAX && heap.nelts < 0x1_0000_0000
      modifies this`timerCounter, heap, heap.nodes
      ensures Valid() && was.Keys == again.Keys == old(heap.nodes)
      ensures forall h ::
                h in old(heap.nodes) ==>
                  was[h] == old(Key(h.timeout, h.startId)) && again[h] == old(h.repeat) == h.repeat
      ensures Over(was, again, fired)
    {
      was := map h | h in heap.nodes :: Key(h.timeout, h.startId);
      again := map h | h in heap.nodes :: h.repeat;
      fired := [];
      var m := Turn(was, again, fired);
      while m != null
        invariant if m != null then Going(was, again, fired + [m])
                  else Going(was, again, fired) && Over(was, again, fired)
        invariant heap.nodes <= old(heap.nodes)
        decreases if m != null then 1 + |Unfired(was, fired + [m])| else 0
      {
        fired := fired + [m];
        m := Turn(was, again, fired);
      }
    }

    method RunOne(m: Timer, ghost was: map<Timer, Key>, ghost fired: seq<Timer>)
      requires Valid() && heap.nelts < 0x1_0000_0000 && time < UINT64_MAX && Progress(was, fired) && m in heap.nodes
               && m.timeout <= time && m in was && m !in fired && was[m] == Key(m.timeout, m.startId)
      modifies this`timerCounter, heap, heap.nodes`left, heap.nodes`right, heap.nodes`parent, m
      ensures Valid() && heap.nelts < 0x1_0000_0000 && Progress(was, fired + [m]) && m.repeat == old(m.repeat)
              && heap.nodes <= old(heap.nodes)
    {
      Expire(m);
      ExpireKeeps(was, fired, m);
    }
  }
}
