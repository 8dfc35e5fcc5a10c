/** The thread pool of threadpool.c as interleaved steps: workers, submitters, cancellers and loop threads. Each step
    is one critical section, or one stretch between two of them. */
module ThreadPool {
  import opened PoolQueues

  type Loop = nat

  /** Where a worker thread stands. Ready and Finished are about to lock the mutex. */
  datatype Worker = Ready | Waiting(signalled: bool) | Running(w: Item, slow: bool) | Finished(slow: bool) | Exited

  /** What a request's work pointer holds. */
  datatype WorkPtr = User | Null | Cancelled

  datatype State = State(
    q: Queues,                     // wq, slow_io_pending_wq, slow_io_work_running
    idle: nat,                     // idle_threads
    workers: seq<Worker>,
    loopOf: map<Item, Loop>,       // w->loop, for every request ever submitted
    work: map<Item, WorkPtr>,      // w->work
    linked: map<Item, bool>,       // w->wq is not an empty queue of its own
    cancelling: map<Loop, Item>,   // taken out by uv__work_cancel, not yet on the loop's queue
    loopQ: map<Loop, seq<Item>>,   // loop->wq
    localQ: map<Loop, seq<Item>>,  // the local queue of uv__work_done
    ran: set<Item>,                // history: requests whose work function was called
    done: seq<(Item, bool)>,       // history: done callbacks, with whether the status was UV_ECANCELED
    again: seq<Item>)              // history: requests that were cancelled when no longer queued anywhere

  // ----- counting -----

  function Count<T(!new)>(s: seq<T>, p: T -> bool): nat {
    if s == [] then 0 else (if p(s[0]) then 1 else 0) + Count(s[1..], p)
  }

  lemma {:induction false} CountAppend<T(!new)>(s: seq<T>, t: seq<T>, p: T -> bool)
    ensures Count(s + t, p) == Count(s, p) + Count(t, p)
  {
    if s == [] {
      assert s + t == t;
    } else {
      assert (s + t)[1..] == s[1..] + t;
      CountAppend(s[1..], t, p);
    }
  }

  lemma {:induction false} CountUpdate<T(!new)>(s: seq<T>, i: nat, x: T, p: T -> bool)
    requires i < |s|
    ensures Count(s[i := x], p) == Count(s, p) - (if p(s[i]) then 1 else 0) + (if p(x) then 1 else 0)
  {
    if i == 0 {
      assert s[i := x][1..] == s[1..];
    } else {
      assert s[i := x][1..] == s[1..][i - 1 := x];
      CountUpdate(s[1..], i - 1, x, p);
    }
  }

  lemma {:induction false} CountZero<T(!new)>(s: seq<T>, p: T -> bool)
    ensures Count(s, p) == 0 <==> forall i :: 0 <= i < |s| ==> !p(s[i])
  {
    if s != [] {
      CountZero(s[1..], p);
      assert forall i :: 1 <= i < |s| ==> s[i] == s[1..][i - 1];
    }
  }

  lemma {:induction false} CountLeq<T(!new)>(s: seq<T>, p: T -> bool, r: T -> bool)
    requires forall x :: p(x) ==> r(x)
    ensures Count(s, p) <= Count(s, r)
  {
    if s != [] {
      CountLeq(s[1..], p, r);
    }
  }

  predicate IsWaiting(x: Worker) { x.Waiting? }
  predicate IsUnsignalled(x: Worker) { x == Waiting(false) }
  predicate IsSlow(x: Worker) { (x.Running? || x.Finished?) && x.slow }
  predicate IsSlowFinished(x: Worker) { x.Finished? && x.slow }
  /** On its way to look at wq. */
  predicate IsAwake(x: Worker) { x.Ready? || x == Waiting(true) || x.Finished? }

  function Runs(w: Item): Worker -> bool {
    (x: Worker) => x.Running? && x.w == w
  }

  function Is<T(==)>(a: T): T -> bool {
    (x: T) => x == a
  }

  function ForItem(w: Item): ((Item, bool)) -> bool {
    (x: (Item, bool)) => x.0 == w
  }

  function Limit(s: State): nat {
    Threshold(|s.workers|)
  }

  function LoopQueue(m: map<Loop, seq<Item>>, l: Loop): seq<Item> {
    if l in m then m[l] else []
  }

  // ----- steps -----

  /** uv_cond_signal: one waiting worker that has not been signalled yet, if there is one. */
  ghost predicate Signalled(a: seq<Worker>, b: seq<Worker>, on: bool) {
    if on && exists j :: 0 <= j < |a| && a[j] == Waiting(false)
    then exists j :: 0 <= j < |a| && a[j] == Waiting(false) && b == a[j := Waiting(true)]
    else b == a
  }

  ghost predicate Init(s: State) {
    && s.q == Queues([], [], 0) && s.idle == 0
    && |s.workers| > 0 && (forall i :: 0 <= i < |s.workers| ==> s.workers[i] == Ready)
    && s.loopOf == map[] && s.work == map[] && s.linked == map[]
    && s.cancelling == map[] && s.loopQ == map[] && s.localQ == map[]
    && s.ran == {} && s.done == [] && s.again == []
  }

  /** uv__work_submit of a request w by the thread of loop l. */
  ghost predicate Submit(s: State, t: State, l: Loop, w: Item, slow: bool) {
    && w !in s.loopOf && l !in s.cancelling
    && var (q, wanted) := Post(s.q, Work(w), slow);
    && Signalled(s.workers, t.workers, wanted && s.idle > 0)
    && t ==
         s.(q := q, workers := t.workers, loopOf := s.loopOf[w := l], work := s.work[w := User],
            linked := s.linked[w := true])
  }

  /** uv__threadpool_cleanup posts exit_message. */
  ghost predicate Shutdown(s: State, t: State) {
    && ExitMessage !in s.q.wq
    && var (q, wanted) := Post(s.q, ExitMessage, false);
    && Signalled(s.workers, t.workers, wanted && s.idle > 0)
    && t == s.(q := q, workers := t.workers)
  }

  /** uv_cond_wait may also return without a signal. */
  ghost predicate Spurious(s: State, t: State, i: nat) {
    && i < |s.workers| && s.workers[i] == Waiting(false)
    && t == s.(workers := s.workers[i := Waiting(true)])
  }

  function AfterLock(s: State, i: nat): Queues
    requires i < |s.workers|
  {
    if IsSlowFinished(s.workers[i]) && s.q.running > 0 then s.q.(running := s.q.running - 1) else s.q
  }

  function Settle(out: Outcome): Worker {
    match out
    case Wait => Waiting(false)
    case Exit => Exited
    case Run(w, slow) => Running(w, slow)
  }

  /** Worker i holds the mutex: from locking it, or from being woken, until it waits, exits or has work. */
  ghost predicate WorkerTurn(s: State, t: State, i: nat) {
    && i < |s.workers| && IsAwake(s.workers[i]) && Messages(s.q.wq) <= 1
    && (s.workers[i].Waiting? ==> s.idle > 0)
    && var turn := Take(AfterLock(s, i), Limit(s));
    && var idle := if s.workers[i].Waiting? then s.idle - 1 else s.idle;
    && Signalled(s.workers[i := Settle(turn.out)], t.workers, turn.signal && (turn.out.Exit? || idle > 0))
    && t == s.(q := turn.q, workers := t.workers,
               idle := if turn.out.Wait? then idle + 1 else idle,
               linked := if turn.out.Run? then s.linked[turn.out.w := false] else s.linked,
               ran := if turn.out.Run? then s.ran + {turn.out.w} else s.ran)
  }

  /** Worker i has run its request and hands it to the request's loop. */
  ghost predicate Complete(s: State, t: State, i: nat) {
    && i < |s.workers| && s.workers[i].Running? && s.workers[i].w in s.loopOf
    && var w := s.workers[i].w;
    && var l := s.loopOf[w];
    && t == s.(workers := s.workers[i := Finished(s.workers[i].slow)], work := s.work[w := Null],
               linked := s.linked[w := true],
               loopQ := s.loopQ[l := LoopQueue(s.loopQ, l) + [w]])
  }

  function Without<T(==)>(s: seq<T>, x: T): seq<T> {
    if s == [] then [] else if s[0] == x then s[1..] else [s[0]] + Without(s[1..], x)
  }

  /** w is in a queue of the pool or of its loop. */
  predicate Queued(s: State, w: Item)
    requires w in s.loopOf
  {
    || Work(w) in s.q.wq || w in s.q.pending
    || w in LoopQueue(s.loopQ, s.loopOf[w]) || w in LoopQueue(s.localQ, s.loopOf[w])
  }

  /** uv__work_cancel, up to the release of both locks. It does not ask whether the request is done: the links of a
      request that uv__work_done has taken out still point to its old neighbours, so it does not look unlinked. */
  ghost predicate Cancel(s: State, t: State, w: Item) {
    && w in s.loopOf && w in s.linked && w in s.work && s.loopOf[w] !in s.cancelling
    && var l := s.loopOf[w];
    && if s.linked[w] && s.work[w] != Null then
         t == s.(q := s.q.(wq := Without(s.q.wq, Work(w)), pending := Without(s.q.pending, w)),
                 loopQ := s.loopQ[l := Without(LoopQueue(s.loopQ, l), w)],
                 localQ := s.localQ[l := Without(LoopQueue(s.localQ, l), w)],
                 cancelling := s.cancelling[l := w],
                 again := if Queued(s, w) then s.again else s.again + [w])
       else t == s  // UV_EBUSY
  }

  /** The rest of a successful uv__work_cancel. */
  ghost predicate CancelPost(s: State, t: State, l: Loop) {
    && l in s.cancelling
    && var w := s.cancelling[l];
    && t == s.(cancelling := s.cancelling - {l}, work := s.work[w := Cancelled], linked := s.linked[w := true],
               loopQ := s.loopQ[l := LoopQueue(s.loopQ, l) + [w]])
  }

  /** uv__work_done moves the loop's queue aside. */
  ghost predicate Drain(s: State, t: State, l: Loop) {
    && l !in s.cancelling && LoopQueue(s.localQ, l) == []
    && t == s.(loopQ := s.loopQ[l := []], localQ := s.localQ[l := LoopQueue(s.loopQ, l)])
  }

  /** uv__work_done calls the done callback of the next request it moved aside. */
  ghost predicate Done(s: State, t: State, l: Loop) {
    && l !in s.cancelling && LoopQueue(s.localQ, l) != []
    && var w := s.localQ[l][0];
    && w in s.work
    && t == s.(localQ := s.localQ[l := s.localQ[l][1..]], done := s.done + [(w, s.work[w] == Cancelled)])
  }

  datatype Step = SubmitStep(l: Loop, w: Item, slow: bool) | ShutdownStep | SpuriousStep(i: nat) | TurnStep(i: nat)
    | CompleteStep(i: nat) | CancelStep(w: Item) | CancelPostStep(l: Loop) | DrainStep(l: Loop) | DoneStep(l: Loop)

  ghost predicate NextStep(s: State, t: State, step: Step) {
    match step
    case SubmitStep(l, w, slow) => Submit(s, t, l, w, slow)
    case ShutdownStep => Shutdown(s, t)
    case SpuriousStep(i) => Spurious(s, t, i)
    case TurnStep(i) => WorkerTurn(s, t, i)
    case CompleteStep(i) => Complete(s, t, i)
    case CancelStep(w) => Cancel(s, t, w)
    case CancelPostStep(l) => CancelPost(s, t, l)
    case DrainStep(l) => Drain(s, t, l)
    case DoneStep(l) => Done(s, t, l)
  }

  ghost predicate Next(s: State, t: State) {
    exists step :: NextStep(s, t, step)
  }

  /** A run: states reached one step after another from an initial one. */
  ghost predicate IsRun(run: seq<State>) {
    && |run| > 0 && Init(run[0])
    && forall i :: 0 <= i < |run| - 1 ==> Next(run[i], run[i + 1])
  }
}
