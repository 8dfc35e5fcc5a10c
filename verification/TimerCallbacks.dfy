/** uv__run_timers with callbacks that do what they like with any timers. */
module TimerCallbacks {
  import opened TimerHeap
  import opened Timers

  /** What a callback can do. */
  datatype Op =
    | Start(h: Timer, cb: bool, timeout: int, repeat: int)
    | Stop(h: Timer)
    | Again(h: Timer)
    | SetRepeat(h: Timer, repeat: int)
    | Close(h: Timer)

  predicate IsTime(t: int) {
    0 <= t <= UINT64_MAX
  }

  predicate IsOp(op: Op, handles: set<Timer>) {
    && op.h in handles && (op.Start? ==> IsTime(op.timeout) && IsTime(op.repeat))
    && (op.SetRepeat? ==> IsTime(op.repeat))
  }

  predicate AllOps(ops: seq<Op>, handles: set<Timer>) {
    forall i :: 0 <= i < |ops| ==> IsOp(ops[i], handles)
  }

  /** The operations after which a timer can be due at once. */
  predicate IsZero(op: Op) {
    op.Start? && op.timeout == 0
  }

  ghost function Schedule(l: Loop): map<Timer, Key>
    reads l, l.heap, l.heap.nodes
  {
    map h | h in l.heap.nodes :: Key(h.timeout, h.startId)
  }

  // ----- what may become of a schedule -----

  /** A key given at the time, with a start id from c on. */
  predicate IsNew(k: Key, c: int, time: int, zero: bool) {
    k.startId >= c && k.timeout >= time && (k.timeout == time ==> zero)
  }

  /** Nothing but the handle is stopped or started. */
  ghost predicate OpEffect(was: map<Timer, Key>, now: map<Timer, Key>, h: Timer, c: int, time: int, zero: bool) {
    && (forall g {:trigger was[g]} :: g in was ==> g == h || (g in now && now[g] == was[g]))
    && (forall g {:trigger now[g]} ::
          g in now ==> (g in was && now[g] == was[g]) || (g == h && IsNew(now[g], c, time, zero)))
  }

  function Touched(ops: seq<Op>): set<Timer> {
    set op | op in ops :: op.h
  }

  function ZeroStarted(ops: seq<Op>): set<Timer> {
    set op | op in ops && IsZero(op) :: op.h
  }

  ghost predicate CallEffect(was: map<Timer, Key>, now: map<Timer, Key>, ops: seq<Op>, c: int, time: int) {
    && (forall g {:trigger was[g]} :: g in was ==> g in Touched(ops) || (g in now && now[g] == was[g]))
    && (forall g {:trigger now[g]} ::
          g in now ==>
            (g in was && now[g] == was[g])
            || (g in Touched(ops) && IsNew(now[g], c, time, g in ZeroStarted(ops))))
  }

  lemma EffectOn(was: map<Timer, Key>, mid: map<Timer, Key>, now: map<Timer, Key>, ops: seq<Op>, op: Op, c: int,
      c1: int, time: int)
    requires CallEffect(was, mid, ops, c, time) && OpEffect(mid, now, op.h, c1, time, IsZero(op)) && c <= c1
    ensures CallEffect(was, now, ops + [op], c, time)
  {
    var all := ops + [op];
    assert op in all && forall o :: o in ops ==> o in all;
    assert Touched(ops) <= Touched(all) && ZeroStarted(ops) <= ZeroStarted(all) && op.h in Touched(all);
    if IsZero(op) {
      assert op.h in ZeroStarted(all);
    }
  }

  // ----- the operations -----

  lemma HandlesCover(l: Loop)
    requires l.Valid()
    ensures l.heap.nelts <= |l.handles|
  {
    var order := l.heap.order;
    forall i, j | 0 <= i < j < |order| ensures order[i] in l.handles && order[j] in l.handles && order[i] != order[j] {
      l.heap.Here(i);
      l.heap.Here(j);
    }
    if |order| > 0 {
      l.heap.Here(0);
    }
    AllDistinct(order, l.handles);
  }

  lemma {:induction false} AllDistinct(s: seq<Timer>, all: set<Timer>)
    requires (forall i :: 0 <= i < |s| ==> s[i] in all) && forall i, j :: 0 <= i < j < |s| ==> s[i] != s[j]
    ensures |s| <= |all|
    decreases |s|
  {
    if s != [] {
      var n := |s| - 1;
      forall i | 0 <= i < n ensures s[..n][i] in all - {s[n]} {
      }
      AllDistinct(s[..n], all - {s[n]});
    }
  }

  /** One operation, by the functions of timer.c. */
  method Act(l: Loop, op: Op)
    requires l.Valid() && IsOp(op, l.handles) && |l.handles| + 1 < 0x1_0000_0000 && l.time < UINT64_MAX
    modifies l`timerCounter, l.heap, l.handles
    ensures l.Valid() && l.timerCounter >= old(l.timerCounter)
    ensures OpEffect(old(Schedule(l)), Schedule(l), op.h, old(l.timerCounter), l.time, IsZero(op))
    ensures forall g :: g in l.handles && g.closing ==> old(g.closing) || op == Close(g)
    ensures op.Start? && op.cb && !old(op.h.closing) ==>
              op.h in l.heap.nodes && op.h.timeout == Clamped(l.time, op.timeout)
  {
    match op
    case Start(h, cb, timeout, repeat) =>
      HandlesCover(l);
      ClampedIsLater(l.time, timeout);
      var _ := l.Start(h, cb, timeout, repeat);
    case Stop(h) =>
      l.Stop(h);
    case Again(h) =>
      DoAgain(l, h);
    case SetRepeat(h, repeat) =>
      SetRepeat(l, h, repeat);
    case Close(h) =>
      l.Close(h);
  }

  method DoAgain(l: Loop, h: Timer)
    requires l.Valid() && h in l.handles && |l.handles| + 1 < 0x1_0000_0000 && l.time < UINT64_MAX
    modifies l`timerCounter, l.heap, l.handles
    ensures l.Valid() && l.timerCounter >= old(l.timerCounter)
    ensures OpEffect(old(Schedule(l)), Schedule(l), h, old(l.timerCounter), l.time, false)
    ensures forall g :: g in l.handles ==> g.closing == old(g.closing)
  {
    HandlesCover(l);
    assert l.HandleOk(h);
    ClampedIsLater(l.time, h.repeat);
    var _ := l.Again(h);
  }

  /** uv_timer_set_repeat */
  method SetRepeat(l: Loop, h: Timer, repeat: int)
    requires l.Valid() && h in l.handles && IsTime(repeat)
    modifies h`repeat
    ensures l.Valid() && h.repeat == repeat
  {
    assert l.HandleOk(h);
    h.repeat := repeat;
    forall g | g in l.handles ensures l.HandleOk(g) {
      assert old(l.HandleOk(g));
    }
  }

  // ----- the callbacks -----

  /** The last thing done is to start the timer with a timeout of zero, and it is not closed. */
  predicate Renews(ops: seq<Op>, h: Timer) {
    ops != [] && Close(h) !in ops && IsZero(ops[|ops| - 1]) && ops[|ops| - 1].h == h && ops[|ops| - 1].cb
  }

  /** What a callback does, one operation after the other. */
  method Call(l: Loop, ops: seq<Op>)
    requires l.Valid() && AllOps(ops, l.handles) && |l.handles| + 1 < 0x1_0000_0000 && l.time < UINT64_MAX
    modifies l`timerCounter, l.heap, l.handles
    ensures l.Valid() && l.timerCounter >= old(l.timerCounter)
    ensures CallEffect(old(Schedule(l)), Schedule(l), ops, old(l.timerCounter), l.time)
    ensures forall h :: h in l.handles && Renews(ops, h) && !old(h.closing) ==>
              h in l.heap.nodes && h.timeout == l.time
  {
    ghost var was, c := Schedule(l), l.timerCounter;
    for i := 0 to |ops|
      invariant l.Valid() && l.timerCounter >= c && CallEffect(was, Schedule(l), ops[..i], c, l.time)
      invariant forall g :: g in l.handles && g.closing ==> old(g.closing) || Close(g) in ops
      invariant i == |ops| ==>
                  forall h :: h in l.handles && Renews(ops, h) && !old(h.closing) ==>
                    h in l.heap.nodes && h.timeout == l.time
    {
      ClampedIsLater(l.time, 0);
      ghost var mid, c1 := Schedule(l), l.timerCounter;
      Act(l, ops[i]);
      assert ops[..i + 1] == ops[..i] + [ops[i]];
      EffectOn(was, mid, Schedule(l), ops[..i], ops[i], c, c1, l.time);
    }
    assert ops[..|ops|] == ops;
  }

  // ----- the loop -----

  datatype Firing = Firing(h: Timer, key: Key)

  function Due(now: map<Timer, Key>, time: int): set<Timer> {
    set h | h in now && now[h].timeout <= time
  }

  /** How many timers callbacks start with a timeout of zero, each counted once a callback. */
  function Zeros(script: seq<seq<Op>>): nat {
    if script == [] then 0 else Zeros(script[..|script| - 1]) + |ZeroStarted(script[|script| - 1])|
  }

  ghost predicate IsTouched(script: seq<seq<Op>>, h: Timer) {
    exists i :: 0 <= i < |script| && h in Touched(script[i])
  }

  /** In the order of due time and then of starting, every one of them due. */
  predicate InOrder(fired: seq<Firing>, time: int) {
    && (forall i, j ::
          0 <= i < j < |fired| ==>
            || fired[i].key.timeout < fired[j].key.timeout
            || (fired[i].key.timeout == fired[j].key.timeout && fired[i].key.startId < fired[j].key.startId))
    && (forall i :: 0 <= i < |fired| ==> fired[i].key.timeout <= time)
  }

  /** All that has fired was before all that is scheduled, and was started before what will be. */
  ghost predicate Before(fired: seq<Firing>, now: map<Timer, Key>, c: int) {
    forall i :: 0 <= i < |fired| ==>
      fired[i].key.startId < c && forall h {:trigger now[h]} :: h in now ==> Less(fired[i].key, now[h])
  }

  /** A timer of before that no callback has touched has fired, or is as it was. */
  ghost predicate Accounted(was: map<Timer, Key>, now: map<Timer, Key>, fired: seq<Firing>, script: seq<seq<Op>>) {
    forall h {:trigger was[h]} :: h in was && !IsTouched(script, h) ==>
      Firing(h, was[h]) in fired || (h in now && now[h] == was[h])
  }

  /** The loop's invariant. */
  ghost predicate Going(was: map<Timer, Key>, now: map<Timer, Key>, fired: seq<Firing>, script: seq<seq<Op>>, c: int,
      time: int) {
    && InOrder(fired, time) && Before(fired, now, c) && Accounted(was, now, fired, script)
    && |fired| + |Due(now, time)| <= |Due(was, time)| + Zeros(script)
  }

  /** What one turn leaves of the schedule: what was there but for m, and what is new. */
  ghost predicate TurnEffect(now: map<Timer, Key>, next: map<Timer, Key>, m: Timer, ops: seq<Op>, c: int, time: int) {
    && (forall g {:trigger now[g]} :: g in now ==> g == m || g in Touched(ops) || (g in next && next[g] == now[g]))
    && (forall g {:trigger next[g]} ::
          g in next ==> (g in now && g != m && next[g] == now[g]) || IsNew(next[g], c, time, g in ZeroStarted(ops)))
  }

  lemma TurnIs(now: map<Timer, Key>, mid: map<Timer, Key>, next: map<Timer, Key>, m: Timer, ops: seq<Op>, c: int,
      c1: int, time: int)
    requires OpEffect(now, mid, m, c, time, false) && (m in mid ==> IsNew(mid[m], c, time, false))
    requires CallEffect(mid, next, ops, c1, time) && c <= c1
    ensures TurnEffect(now, next, m, ops, c, time)
  {
  }

  /** m is due, and first; every start id is below c. */
  ghost predicate IsFirst(now: map<Timer, Key>, m: Timer, c: int, time: int) {
    && m in now && now[m].timeout <= time && now[m].startId < c
    && forall h {:trigger now[h]} :: h in now && h != m ==> Less(now[m], now[h])
  }

  lemma BeforeNext(fired: seq<Firing>, now: map<Timer, Key>, next: map<Timer, Key>, m: Timer, ops: seq<Op>, c: int,
      c2: int, time: int)
    requires TurnEffect(now, next, m, ops, c, time) && IsFirst(now, m, c, time) && c <= c2
    requires InOrder(fired, time) && Before(fired, now, c)
    ensures InOrder(fired + [Firing(m, now[m])], time) && Before(fired + [Firing(m, now[m])], next, c2)
  {
  }

  lemma DueNext(now: map<Timer, Key>, next: map<Timer, Key>, m: Timer, ops: seq<Op>, c: int, time: int)
    requires TurnEffect(now, next, m, ops, c, time) && IsFirst(now, m, c, time)
    ensures 1 + |Due(next, time)| <= |Due(now, time)| + |ZeroStarted(ops)|
  {
    var rest := Due(now, time) - {m};
    assert m in Due(now, time) && |rest| == |Due(now, time)| - 1;
    assert Due(next, time) <= rest + ZeroStarted(ops);
    Loop.FewerOrAs(Due(next, time), rest + ZeroStarted(ops));
  }

  lemma AccountedNext(was: map<Timer, Key>, now: map<Timer, Key>, next: map<Timer, Key>, fired: seq<Firing>, m: Timer,
      script: seq<seq<Op>>, ops: seq<Op>, c: int, time: int)
    requires TurnEffect(now, next, m, ops, c, time) && m in now && Accounted(was, now, fired, script)
    ensures Accounted(was, next, fired + [Firing(m, now[m])], script + [ops])
  {
    var all := script + [ops];
    forall h | h in was && !IsTouched(all, h)
      ensures Firing(h, was[h]) in fired + [Firing(m, now[m])] || (h in next && next[h] == was[h])
    {
      assert forall i :: 0 <= i < |script| ==> script[i] == all[i];
      assert all[|script|] == ops && h !in Touched(ops);
    }
  }

  lemma GoingOn(was: map<Timer, Key>, now: map<Timer, Key>, next: map<Timer, Key>, fired: seq<Firing>, m: Timer,
      script: seq<seq<Op>>, ops: seq<Op>, c: int, c2: int, time: int)
    requires Going(was, now, fired, script, c, time) && IsFirst(now, m, c, time) && c <= c2
             && TurnEffect(now, next, m, ops, c, time)
    ensures Going(was, next, fired + [Firing(m, now[m])], script + [ops], c2, time)
  {
    BeforeNext(fired, now, next, m, ops, c, c2, time);
    DueNext(now, next, m, ops, c, time);
    AccountedNext(was, now, next, fired, m, script, ops, c, time);
    assert (script + [ops])[..|script|] == script;
  }

  /** The first timer of a loop. */
  lemma FirstIs(l: Loop, m: Timer)
    requires l.Valid() && m == l.heap.min && m in l.heap.nodes && m.timeout <= l.time
    ensures IsFirst(Schedule(l), m, l.timerCounter, l.time)
  {
    assert l.HandleOk(m);
    forall h | h in l.heap.nodes && h != m ensures Less(Schedule(l)[m], Schedule(l)[h]) {
      l.heap.MinIsLeast(h);
      assert h.startId != m.startId;
    }
  }

  lemma NoneClosing(l: Loop)
    requires l.Valid()
    ensures forall h :: h in l.heap.nodes ==> h in l.handles && !h.closing
  {
    assert forall h :: h in l.heap.nodes ==> l.HandleOk(h);
  }

  /** uv_timer_stop and uv_timer_again. */
  method Retire(l: Loop, m: Timer)
    requires l.Valid() && |l.handles| + 1 < 0x1_0000_0000 && l.time < UINT64_MAX && m in l.heap.nodes
    modifies l`timerCounter, l.heap, l.heap.nodes
    ensures l.Valid() && l.timerCounter >= old(l.timerCounter)
    ensures OpEffect(old(Schedule(l)), Schedule(l), m, old(l.timerCounter), l.time, false)
    ensures m in l.heap.nodes ==> IsNew(Schedule(l)[m], old(l.timerCounter), l.time, false)
    ensures forall h :: h in old(l.heap.nodes) ==> h.closing == old(h.closing)
  {
    HandlesCover(l);
    l.Expire(m);
  }

  /** One turn: the first timer is stopped, armed again if it repeats, and its callback made. */
  method Turn(l: Loop, m: Timer, ops: seq<Op>)
    requires l.Valid() && AllOps(ops, l.handles) && |l.handles| + 1 < 0x1_0000_0000 && l.time < UINT64_MAX
             && m in l.heap.nodes
    modifies l`timerCounter, l.heap, l.handles
    ensures l.Valid() && l.timerCounter >= old(l.timerCounter)
    ensures TurnEffect(old(Schedule(l)), Schedule(l), m, ops, old(l.timerCounter), l.time)
    ensures forall h :: h in old(l.heap.nodes) && Renews(ops, h) ==> h in l.heap.nodes && h.timeout == l.time
  {
    NoneClosing(l);
    ghost var now, c := Schedule(l), l.timerCounter;
    Retire(l, m);
    ghost var mid, c1 := Schedule(l), l.timerCounter;
    Call(l, ops);
    TurnIs(now, mid, Schedule(l), m, ops, c, c1, l.time);
  }

  /** The first timer, if it is due. */
  method FirstDue(l: Loop) returns (m: Timer?)
    requires l.Valid()
    ensures m == null <==> Due(Schedule(l), l.time) == {}
    ensures m != null ==> m in l.heap.nodes && IsFirst(Schedule(l), m, l.timerCounter, l.time)
  {
    l.heap.Here0();
    m := l.heap.min;
    if m == null || m.timeout > l.time {
      forall h | h in l.heap.nodes ensures h.timeout > l.time {
        l.heap.MinIsLeast(h);
      }
      return null;
    }
    FirstIs(l, m);
    assert m in Due(Schedule(l), l.time);
  }

  /** These timers are due again after every callback. */
  ghost predicate AllRenew(script: seq<seq<Op>>, h: Timer) {
    forall i :: 0 <= i < |script| ==> Renews(script[i], h)
  }

  /** The loop's invariant, with the first timer if it is due. */
  ghost predicate Ready(l: Loop, was: map<Timer, Key>, fired: seq<Firing>, script: seq<seq<Op>>, m: Timer?)
    reads l, l.heap, l.heap.nodes, l.handles
    requires |fired| <= |script|
  {
    && l.Valid() && Going(was, Schedule(l), fired, script[..|fired|], l.timerCounter, l.time)
    && (m == null <==> Due(Schedule(l), l.time) == {})
    && (m != null ==> m in l.heap.nodes && IsFirst(Schedule(l), m, l.timerCounter, l.time))
    && (forall h {:trigger AllRenew(script, h)} ::
          h in Due(was, l.time) && AllRenew(script, h) ==> h in Due(Schedule(l), l.time))
  }

  lemma RenewedDue(l: Loop, was: map<Timer, Key>, now: map<Timer, Key>, script: seq<seq<Op>>, i: nat)
    requires i < |script|
    requires forall h {:trigger AllRenew(script, h)} ::
               h in Due(was, l.time) && AllRenew(script, h) ==> h in Due(now, l.time)
    requires forall h :: h in now && Renews(script[i], h) ==> h in l.heap.nodes && h.timeout == l.time
    ensures forall h {:trigger AllRenew(script, h)} ::
              h in Due(was, l.time) && AllRenew(script, h) ==> h in Due(Schedule(l), l.time)
  {
    forall h | h in Due(was, l.time) && AllRenew(script, h) ensures h in Due(Schedule(l), l.time) {
      assert Renews(script[i], h);
    }
  }

  /** One pass of the loop. */
  method Pass(l: Loop, script: seq<seq<Op>>, fired: seq<Firing>, m: Timer, ghost was: map<Timer, Key>)
    returns (firing: Firing, next: Timer?)
    requires |fired| < |script| && Ready(l, was, fired, script, m) && AllOps(script[|fired|], l.handles)
             && |l.handles| + 1 < 0x1_0000_0000 && l.time < UINT64_MAX
    modifies l`timerCounter, l.heap, l.handles
    ensures Ready(l, was, fired + [firing], script, next)
  {
    ghost var now, c := Schedule(l), l.timerCounter;
    var i := |fired|;
    firing := Firing(m, Key(m.timeout, m.startId));
    Turn(l, m, script[i]);
    GoingOn(was, now, Schedule(l), fired, m, script[..i], script[i], c, l.timerCounter, l.time);
    assert script[..i + 1] == script[..i] + [script[i]];
    next := FirstDue(l);
    RenewedDue(l, was, now, script, i);
  }

  /** uv__run_timers, with what the callbacks do, one after the other; over is false if a timer is still due after as
      many. Whatever they do, timers fire in the order of due time and then of starting, and all those that were due
      and that no callback touches do. It is over when there are as many callbacks as were due at first and as are
      started with a timeout of zero; it is never over when each starts the same due timer so. */
  method RunTimers(l: Loop, script: seq<seq<Op>>) returns (fired: seq<Firing>, over: bool, ghost was: map<Timer, Key>)
    requires l.Valid() && |l.handles| + 1 < 0x1_0000_0000 && l.time < UINT64_MAX
             && forall i :: 0 <= i < |script| ==> AllOps(script[i], l.handles)
    modifies l`timerCounter, l.heap, l.handles
    ensures l.Valid() && was == old(Schedule(l)) && |fired| <= |script| && InOrder(fired, l.time)
    ensures over <==> Due(Schedule(l), l.time) == {}
    ensures !over ==> |fired| == |script|
    ensures |fired| + |Due(Schedule(l), l.time)| <= |Due(was, l.time)| + Zeros(script[..|fired|])
    ensures Accounted(was, Schedule(l), fired, script[..|fired|])
    ensures |Due(was, l.time)| + Zeros(script) <= |script| ==> over
    ensures forall h :: h in Due(was, l.time) && AllRenew(script, h) ==> !over
  {
    was, fired := Schedule(l), [];
    assert script[..0] == [];
    var m := FirstDue(l);
    while m != null && |fired| < |script|
      invariant |fired| <= |script| && Ready(l, was, fired, script, m)
      decreases |script| - |fired|
    {
      var firing;
      firing, m := Pass(l, script, fired, m, was);
      fired := fired + [firing];
    }
    over := m == null;
    if !over {
      assert script[..|fired|] == script;
    }
  }
}
