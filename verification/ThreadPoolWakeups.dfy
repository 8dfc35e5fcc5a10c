/** No wakeup of the pool is lost, and the slow-work throttle holds, in every run. */
module ThreadPoolWakeups {
  import opened PoolQueues
  import opened ThreadPool

  /** Worker counts, and the rule that runnable work never waits beside a sleeping worker unattended. */
  ghost predicate Awake(s: State) {
    && |s.workers| > 0 && WellQueued(s.q)
    && s.idle == Count(s.workers, IsWaiting)
    && s.q.running == Count(s.workers, IsSlow) <= Limit(s)
    && Attended(s.q, s.workers, Limit(s))
  }

  ghost predicate Attended(q: Queues, ws: seq<Worker>, limit: nat) {
    Runnable(q, Count(ws, IsSlowFinished), limit) <= Count(ws, IsAwake) || Count(ws, IsUnsignalled) == 0
  }

  lemma Recount(ws: seq<Worker>, i: nat, x: Worker)
    requires i < |ws|
    ensures forall p: Worker -> bool ::
              p == IsWaiting || p == IsUnsignalled || p == IsSlow || p == IsSlowFinished || p == IsAwake ==>
              Count(ws[i := x], p) == Count(ws, p) - (if p(ws[i]) then 1 else 0) + (if p(x) then 1 else 0)
  {
    CountUpdate(ws, i, x, IsWaiting);
    CountUpdate(ws, i, x, IsUnsignalled);
    CountUpdate(ws, i, x, IsSlow);
    CountUpdate(ws, i, x, IsSlowFinished);
    CountUpdate(ws, i, x, IsAwake);
  }

  /** A signal turns one sleeping worker, if any, into one that is on its way. */
  lemma SignalCounts(a: seq<Worker>, b: seq<Worker>, on: bool)
    requires Signalled(a, b, on)
    ensures |b| == |a|
    ensures Count(b, IsWaiting) == Count(a, IsWaiting) && Count(b, IsSlow) == Count(a, IsSlow)
    ensures Count(b, IsSlowFinished) == Count(a, IsSlowFinished)
    ensures var n := if on && Count(a, IsUnsignalled) > 0 then 1 else 0;
      Count(b, IsAwake) == Count(a, IsAwake) + n && Count(b, IsUnsignalled) == Count(a, IsUnsignalled) - n
  {
    CountZero(a, IsUnsignalled);
    if on && exists j :: 0 <= j < |a| && a[j] == Waiting(false) {
      var j :| 0 <= j < |a| && a[j] == Waiting(false) && b == a[j := Waiting(true)];
      assert IsUnsignalled(a[j]);
      Recount(a, j, Waiting(true));
    }
  }

  lemma InitAwake(s: State)
    requires Init(s)
    ensures Awake(s)
  {
    CountZero(s.workers, IsWaiting);
    CountZero(s.workers, IsSlow);
  }

  lemma PostAwake(s: State, t: State, e: Entry, slow: bool)
    requires Awake(s) && (slow ==> e.Work?) && e != SlowMessage
    requires var (q, wanted) := Post(s.q, e, slow);
      t.q == q && t.idle == s.idle && Signalled(s.workers, t.workers, wanted && s.idle > 0)
    ensures Awake(t)
  {
    PostEffect(s.q, e, slow, Count(s.workers, IsSlowFinished), Limit(s));
    SignalCounts(s.workers, t.workers, Post(s.q, e, slow).1 && s.idle > 0);
    CountLeq(s.workers, IsUnsignalled, IsWaiting);
  }

  lemma TurnAwake(s: State, t: State, i: nat)
    requires Awake(s) && WorkerTurn(s, t, i)
    ensures Awake(t)
  {
    var x := s.workers[i];
    var q := AfterLock(s, i);
    var turn := Take(q, Limit(s));
    var ws := s.workers[i := Settle(turn.out)];
    var finished := Count(s.workers, IsSlowFinished) - (if IsSlowFinished(x) then 1 else 0);
    Recount(s.workers, i, Settle(turn.out));
    assert finished == Count(ws, IsSlowFinished);
    CountLeq(s.workers, IsSlowFinished, IsSlow);
    TakeEffect(q, Limit(s), finished);
    var idle := if x.Waiting? then s.idle - 1 else s.idle;
    SignalCounts(ws, t.workers, turn.signal && (turn.out.Exit? || idle > 0));
    CountLeq(ws, IsUnsignalled, IsWaiting);
    CountLeq(ws, IsSlowFinished, IsAwake);
  }

  lemma CompleteAwake(s: State, t: State, i: nat)
    requires Awake(s) && Complete(s, t, i)
    ensures Awake(t)
  {
    Recount(s.workers, i, Finished(s.workers[i].slow));
  }

  lemma SpuriousAwake(s: State, t: State, i: nat)
    requires Awake(s) && Spurious(s, t, i)
    ensures Awake(t)
  {
    Recount(s.workers, i, Waiting(true));
  }

  lemma {:induction false} WithoutMessages(wq: seq<Entry>, w: Item)
    ensures Messages(Without(wq, Work(w))) == Messages(wq) && |Without(wq, Work(w))| <= |wq|
  {
    if wq != [] && wq[0] != Work(w) {
      var rest := Without(wq[1..], Work(w));
      assert Without(wq, Work(w)) == [wq[0]] + rest;
      assert ([wq[0]] + rest)[1..] == rest;
      WithoutMessages(wq[1..], w);
    }
  }

  lemma {:induction false} WithoutShorter<T>(s: seq<T>, x: T)
    ensures |Without(s, x)| <= |s|
  {
    if s != [] {
      WithoutShorter(s[1..], x);
    }
  }

  lemma CancelAwake(s: State, t: State, w: Item)
    requires Awake(s) && Cancel(s, t, w)
    ensures Awake(t)
  {
    WithoutMessages(s.q.wq, w);
    WithoutShorter(s.q.pending, w);
    MessagesIn(s.q.wq);
    MessagesIn(Without(s.q.wq, Work(w)));
  }

  lemma StepAwake(s: State, t: State, step: Step)
    requires Awake(s) && NextStep(s, t, step)
    ensures Awake(t)
  {
    match step
    case SubmitStep(l, w, slow) => PostAwake(s, t, Work(w), slow);
    case ShutdownStep => PostAwake(s, t, ExitMessage, false);
    case SpuriousStep(i) => SpuriousAwake(s, t, i);
    case TurnStep(i) => TurnAwake(s, t, i);
    case CompleteStep(i) => CompleteAwake(s, t, i);
    case CancelStep(w) => CancelAwake(s, t, w);
    case CancelPostStep(_) =>
    case DrainStep(_) =>
    case DoneStep(_) =>
  }

  lemma {:induction false} RunAwake(run: seq<State>, k: nat)
    requires IsRun(run) && k < |run|
    ensures Awake(run[k])
  {
    if k == 0 {
      InitAwake(run[0]);
    } else {
      RunAwake(run, k - 1);
      assert Next(run[k - 1], run[k]);
      var step :| NextStep(run[k - 1], run[k], step);
      StepAwake(run[k - 1], run[k], step);
    }
  }

  // ----- main results -----

  /** In every run: running counts the workers on slow work and never exceeds half the pool, rounded up;
      the slow message is queued at most once, and is queued while slow work is pending. */
  lemma SlowWorkThrottled(run: seq<State>, k: nat)
    requires IsRun(run) && k < |run|
    ensures var s := run[k];
      && s.q.running == Count(s.workers, IsSlow)
      && s.q.running <= (|s.workers| + 1) / 2
      && Messages(s.q.wq) <= 1 && (s.q.pending != [] ==> Messages(s.q.wq) == 1)
  {
    RunAwake(run, k);
    MessagesIn(run[k].q.wq);
  }

  /** In every run: while a worker sleeps un-signalled, at least as many workers are on their way to wq as
      there are entries to take (the slow message not counting while slow work is at its limit). */
  lemma NoLostWakeup(run: seq<State>, k: nat, i: nat)
    requires IsRun(run) && k < |run| && i < |run[k].workers| && run[k].workers[i] == Waiting(false)
    ensures var s := run[k];
      && var throttled := s.q.running >= (|s.workers| + 1) / 2;
      && Count(s.workers, IsAwake) >= |s.q.wq| - (if SlowMessage in s.q.wq && throttled then 1 else 0)
      && (s.q.wq != [] && (s.q.wq == [SlowMessage] ==> !throttled) ==>
            exists j :: 0 <= j < |s.workers| && IsAwake(s.workers[j]))
  {
    var s := run[k];
    RunAwake(run, k);
    MessagesIn(s.q.wq);
    assert IsUnsignalled(s.workers[i]);
    CountZero(s.workers, IsUnsignalled);
    CountZero(s.workers, IsAwake);
    CountZero(s.workers, IsSlowFinished);
  }

  /** In every run: when all workers sleep un-signalled, nothing at all is queued. */
  lemma AllAsleepMeansEmpty(run: seq<State>, k: nat)
    requires IsRun(run) && k < |run|
    requires forall i :: 0 <= i < |run[k].workers| ==> run[k].workers[i] == Waiting(false)
    ensures run[k].q.wq == [] && run[k].q.pending == []
  {
    var s := run[k];
    RunAwake(run, k);
    CountZero(s.workers, IsAwake);
    CountZero(s.workers, IsSlow);
    CountZero(s.workers, IsSlowFinished);
    assert IsUnsignalled(s.workers[0]);
    CountZero(s.workers, IsUnsignalled);
  }

  /** After exit_message is posted, the pool cannot fall asleep before every worker has left. */
  lemma ShutdownIsNotStuck(run: seq<State>, k: nat)
    requires IsRun(run) && k < |run| && ExitMessage in run[k].q.wq
    requires exists i :: 0 <= i < |run[k].workers| && !run[k].workers[i].Exited?
    ensures exists i :: 0 <= i < |run[k].workers| && (IsAwake(run[k].workers[i]) || run[k].workers[i].Running?)
  {
    var s := run[k];
    RunAwake(run, k);
    CountZero(s.workers, IsAwake);
    CountZero(s.workers, IsSlow);
    CountZero(s.workers, IsSlowFinished);
    CountZero(s.workers, IsUnsignalled);
    var i :| 0 <= i < |s.workers| && !s.workers[i].Exited?;
    assert IsAwake(s.workers[i]) || s.workers[i].Running? || IsUnsignalled(s.workers[i]);
  }

  /** A worker that is on its way can always take its turn: none of the counters it relies on can be wrong. */
  lemma TurnEnabled(run: seq<State>, k: nat, i: nat)
    requires IsRun(run) && k < |run| && i < |run[k].workers| && IsAwake(run[k].workers[i])
    ensures exists t :: WorkerTurn(run[k], t, i)
    ensures run[k].workers[i].Waiting? ==> run[k].idle > 0
    ensures IsSlowFinished(run[k].workers[i]) ==> run[k].q.running > 0
  {
    var s := run[k];
    RunAwake(run, k);
    CountZero(s.workers, IsWaiting);
    CountZero(s.workers, IsSlow);
    var turn := Take(AfterLock(s, i), Limit(s));
    var idle := if s.workers[i].Waiting? then s.idle - 1 else s.idle;
    var ws := s.workers[i := Settle(turn.out)];
    var on := turn.signal && (turn.out.Exit? || idle > 0);
    var ws': seq<Worker>;
    if on && exists j :: 0 <= j < |ws| && ws[j] == Waiting(false) {
      var j :| 0 <= j < |ws| && ws[j] == Waiting(false);
      ws' := ws[j := Waiting(true)];
    } else {
      ws' := ws;
    }
    var t := s.(q := turn.q, workers := ws',
                idle := if turn.out.Wait? then idle + 1 else idle,
                linked := if turn.out.Run? then s.linked[turn.out.w := false] else s.linked,
                ran := if turn.out.Run? then s.ran + {turn.out.w} else s.ran);
    assert WorkerTurn(s, t, i);
  }

  lemma {:induction false} WaitsIff(q: Queues, limit: nat)
    requires WellQueued(q)
    ensures Take(q, limit).out.Wait? <==>
              (forall e :: e in q.wq ==> e == SlowMessage) && (q.pending == [] || q.running >= limit)
    decreases |q.wq|, if q.wq != [] && q.wq[0] == SlowMessage then 1 else 0
  {
    if q.wq != [] && q.wq[0] != SlowMessage {
      assert q.wq[0] in q.wq;
    } else if !Blocked(q, limit) {
      var rest := q.wq[1..];
      assert q.wq == [SlowMessage] + rest;
      assert forall e :: e in q.wq <==> e == SlowMessage || e in rest;
      MessagesAppend(rest, [SlowMessage]);
      MessagesIn(rest);
      if q.running >= limit {
        WaitsIff(q.(wq := rest + [SlowMessage]), limit);
      } else if q.pending == [] {
        WaitsIff(q.(wq := rest), limit);
      }
    }
  }

  /** In every run: a worker that has the mutex goes to sleep if and only if nothing but slow work is queued, and none
      of that or half of the pool, rounded up, is on slow work without it. */
  lemma SleepsIff(run: seq<State>, k: nat, i: nat)
    requires IsRun(run) && k + 1 < |run| && WorkerTurn(run[k], run[k + 1], i)
    ensures var s := run[k];
      run[k + 1].workers[i].Waiting? <==>
        && (forall e :: e in s.q.wq ==> e == SlowMessage)
        && (s.q.pending == [] || Count(s.workers[i := Ready], IsSlow) >= (|s.workers| + 1) / 2)
  {
    var s := run[k];
    RunAwake(run, k);
    CountUpdate(s.workers, i, Ready, IsSlow);
    WaitsIff(AfterLock(s, i), Limit(s));
  }
}
