/** Every submitted request is in exactly one place, is done at most once, and is reported cancelled exactly when its
    work function never ran, in every run. */
module ThreadPoolItems {
  import opened PoolQueues
  import opened ThreadPool
  import opened ThreadPoolWakeups

  datatype Place = InWq | InPending | Executing | BeingCancelled | InLoopQueue | InLocalQueue | Completed

  function InQueue(s: State, w: Item): nat { Count(s.q.wq, Is(Work(w))) }
  function InSlow(s: State, w: Item): nat { Count(s.q.pending, Is(w)) }
  function InWorkers(s: State, w: Item): nat { Count(s.workers, Runs(w)) }
  function InCancel(s: State, w: Item): nat
    requires w in s.loopOf
  {
    if s.loopOf[w] in s.cancelling && s.cancelling[s.loopOf[w]] == w then 1 else 0
  }
  function InLoop(s: State, w: Item): nat
    requires w in s.loopOf
  {
    Count(LoopQueue(s.loopQ, s.loopOf[w]), Is(w))
  }
  function InLocal(s: State, w: Item): nat
    requires w in s.loopOf
  {
    Count(LoopQueue(s.localQ, s.loopOf[w]), Is(w))
  }
  function InDone(s: State, w: Item): nat { Count(s.done, ForItem(w)) }
  function InAgain(s: State, w: Item): nat { Count(s.again, Is(w)) }

  /** The status that the done callback of w got, each time it was called. */
  ghost predicate Reports(done: seq<(Item, bool)>, w: Item, cancelled: bool) {
    forall i :: 0 <= i < |done| && done[i].0 == w ==> done[i].1 == cancelled
  }

  /** w is at place p, once, and its fields say what a request at p says. */
  ghost predicate At(s: State, w: Item, p: Place)
    requires w in s.loopOf
  {
    && w in s.work && w in s.linked
    && InQueue(s, w) == (if p == InWq then 1 else 0)
    && InSlow(s, w) == (if p == InPending then 1 else 0)
    && InWorkers(s, w) == (if p == Executing then 1 else 0)
    && InCancel(s, w) == (if p == BeingCancelled then 1 else 0)
    && InLoop(s, w) == (if p == InLoopQueue then 1 else 0)
    && InLocal(s, w) == (if p == InLocalQueue then 1 else 0)
    && InDone(s, w) + (if p == Completed then 0 else 1) == 1 + InAgain(s, w)
    && (p == InWq || p == InPending ==> s.work[w] == User && s.linked[w] && w !in s.ran && InDone(s, w) == 0)
    && (p == Executing ==> s.work[w] == User && !s.linked[w] && w in s.ran && InDone(s, w) == 0)
    && (p == BeingCancelled ==> w !in s.ran)
    && (p == InLoopQueue || p == InLocalQueue || p == Completed ==>
          s.linked[w] && (if w in s.ran then s.work[w] == Null else s.work[w] == Cancelled))
    && Reports(s.done, w, w !in s.ran)
  }

  /** A queue of loop l holds requests of loop l. */
  ghost predicate OwnQueues(loopOf: map<Item, Loop>, m: map<Loop, seq<Item>>) {
    forall l, w {:trigger w in m[l]} :: l in m && w in m[l] ==> w in loopOf && loopOf[w] == l
  }

  ghost predicate Unsubmitted(s: State, w: Item) {
    InQueue(s, w) == 0 && InSlow(s, w) == 0 && InWorkers(s, w) == 0 && InDone(s, w) == 0 && InAgain(s, w) == 0
    && w !in s.ran
  }

  /** Requests are only where their own loop keeps them, and only once submitted. */
  ghost predicate Home(s: State) {
    && (forall w {:trigger Unsubmitted(s, w)} :: w !in s.loopOf ==> Unsubmitted(s, w))
    && (forall l {:trigger s.cancelling[l]} ::
          l in s.cancelling ==> s.cancelling[l] in s.loopOf && s.loopOf[s.cancelling[l]] == l)
    && OwnQueues(s.loopOf, s.loopQ) && OwnQueues(s.loopOf, s.localQ)
  }

  lemma OwnQueuesUpdate(loopOf: map<Item, Loop>, m: map<Loop, seq<Item>>, l: Loop, q: seq<Item>)
    requires OwnQueues(loopOf, m) && forall w :: w in q ==> w in loopOf && loopOf[w] == l
    ensures OwnQueues(loopOf, m[l := q])
  {
  }

  ghost predicate Located(s: State, loc: map<Item, Place>) {
    && Home(s) && loc.Keys == s.loopOf.Keys
    && forall w {:trigger At(s, w, loc[w])} :: w in loc ==> At(s, w, loc[w])
  }

  lemma Appended<T(!new)>(s: seq<T>, x: T, p: T -> bool)
    ensures Count(s + [x], p) == Count(s, p) + (if p(x) then 1 else 0)
  {
    CountAppend(s, [x], p);
    assert [x][1..] == [];
  }

  lemma {:induction false} CountWithout<T(!new)>(s: seq<T>, x: T, p: T -> bool)
    ensures Count(Without(s, x), p) == Count(s, p) - (if x in s && p(x) then 1 else 0)
    ensures forall y :: y in Without(s, x) ==> y in s
  {
    if s != [] {
      assert s == [s[0]] + s[1..];
      if s[0] != x {
        CountWithout(s[1..], x, p);
        assert ([s[0]] + Without(s[1..], x))[1..] == Without(s[1..], x);
      }
    }
  }

  lemma CountIs<T(!new)>(s: seq<T>, x: T)
    ensures Count(s, Is(x)) > 0 <==> x in s
  {
    CountZero(s, Is(x));
    if x in s {
      var i :| 0 <= i < |s| && s[i] == x;
      assert Is(x)(s[i]);
    } else {
      assert forall i :: 0 <= i < |s| ==> !Is(x)(s[i]);
    }
  }

  lemma SignalItems(a: seq<Worker>, b: seq<Worker>, on: bool, w: Item)
    requires Signalled(a, b, on)
    ensures Count(b, Runs(w)) == Count(a, Runs(w))
  {
    if on && exists j :: 0 <= j < |a| && a[j] == Waiting(false) {
      var j :| 0 <= j < |a| && a[j] == Waiting(false) && b == a[j := Waiting(true)];
      CountUpdate(a, j, Waiting(true), Runs(w));
    }
  }

  lemma InitLocated(s: State)
    requires Init(s)
    ensures Located(s, map[])
  {
    forall w ensures InWorkers(s, w) == 0 {
      CountZero(s.workers, Runs(w));
    }
  }

  /** A request that no count and no field of which changed stays where it is. */
  lemma Unmoved(s: State, t: State, v: Item, p: Place)
    requires v in s.loopOf && v in t.loopOf && At(s, v, p)
    requires InQueue(t, v) == InQueue(s, v) && InSlow(t, v) == InSlow(s, v) && InWorkers(t, v) == InWorkers(s, v)
    requires InCancel(t, v) == InCancel(s, v) && InLoop(t, v) == InLoop(s, v) && InLocal(t, v) == InLocal(s, v)
             && InDone(t, v) == InDone(s, v)
    requires v in t.work && v in t.linked && t.work[v] == s.work[v] && t.linked[v] == s.linked[v]
             && (v in t.ran <==> v in s.ran)
    requires InAgain(t, v) == InAgain(s, v) && Reports(t.done, v, v !in t.ran)
    ensures At(t, v, p)
  {
  }

  lemma NotReported(done: seq<(Item, bool)>, w: Item, cancelled: bool)
    requires Count(done, ForItem(w)) == 0
    ensures Reports(done, w, cancelled)
  {
    CountZero(done, ForItem(w));
    assert forall i :: 0 <= i < |done| ==> !ForItem(w)(done[i]);
  }

  // ----- submit and shutdown -----

  lemma PostCounts(s: State, t: State, e: Entry, slow: bool, v: Item)
    requires (slow ==> e.Work?) && e != SlowMessage
    requires var (q, wanted) := Post(s.q, e, slow); t.q == q && Signalled(s.workers, t.workers, wanted && s.idle > 0)
    ensures InQueue(t, v) == InQueue(s, v) + (if e == Work(v) && !slow then 1 else 0)
    ensures InSlow(t, v) == InSlow(s, v) + (if e == Work(v) && slow then 1 else 0)
    ensures InWorkers(t, v) == InWorkers(s, v)
  {
    Appended(s.q.wq, SlowMessage, Is(Work(v)));
    Appended(s.q.wq, e, Is(Work(v)));
    if slow {
      Appended(s.q.pending, e.w, Is(v));
    }
    SignalItems(s.workers, t.workers, Post(s.q, e, slow).1 && s.idle > 0, v);
  }

  lemma SubmitHome(s: State, t: State, l: Loop, w: Item, slow: bool)
    requires Home(s) && Submit(s, t, l, w, slow)
    ensures Home(t)
  {
    forall v | v !in t.loopOf ensures Unsubmitted(t, v) {
      assert Unsubmitted(s, v);
      PostCounts(s, t, Work(w), slow, v);
    }
  }

  lemma SubmitMoves(s: State, t: State, l: Loop, w: Item, slow: bool)
    requires Home(s) && Submit(s, t, l, w, slow)
    ensures At(t, w, if slow then InPending else InWq)
  {
    assert Unsubmitted(s, w);
    PostCounts(s, t, Work(w), slow, w);
    CountIs(LoopQueue(s.loopQ, l), w);
    CountIs(LoopQueue(s.localQ, l), w);
    NotReported(t.done, w, true);
  }

  lemma SubmitLocated(s: State, t: State, l: Loop, w: Item, slow: bool, loc: map<Item, Place>)
    returns (loc': map<Item, Place>)
    requires Located(s, loc) && Submit(s, t, l, w, slow)
    ensures Located(t, loc')
  {
    loc' := loc[w := if slow then InPending else InWq];
    SubmitHome(s, t, l, w, slow);
    SubmitMoves(s, t, l, w, slow);
    forall v | v in loc' ensures At(t, v, loc'[v]) {
      if v != w {
        PostCounts(s, t, Work(w), slow, v);
        assert At(s, v, loc[v]);
        Unmoved(s, t, v, loc[v]);
      }
    }
  }

  lemma ShutdownLocated(s: State, t: State, loc: map<Item, Place>)
    requires Located(s, loc) && Shutdown(s, t)
    ensures Located(t, loc)
  {
    forall v
      ensures InQueue(t, v) == InQueue(s, v) && InSlow(t, v) == InSlow(s, v) && InWorkers(t, v) == InWorkers(s, v)
    {
      PostCounts(s, t, ExitMessage, false, v);
    }
    forall v | v !in t.loopOf ensures Unsubmitted(t, v) {
      assert Unsubmitted(s, v);
    }
    forall v | v in loc ensures At(t, v, loc[v]) {
      assert At(s, v, loc[v]);
      Unmoved(s, t, v, loc[v]);
    }
  }

  lemma SpuriousLocated(s: State, t: State, i: nat, loc: map<Item, Place>)
    requires Located(s, loc) && Spurious(s, t, i)
    ensures Located(t, loc)
  {
    forall v ensures InWorkers(t, v) == InWorkers(s, v) {
      CountUpdate(s.workers, i, Waiting(true), Runs(v));
    }
    forall v | v !in t.loopOf ensures Unsubmitted(t, v) {
      assert Unsubmitted(s, v);
    }
    forall v | v in loc ensures At(t, v, loc[v]) {
      assert At(s, v, loc[v]);
      Unmoved(s, t, v, loc[v]);
    }
  }

  // ----- a worker's turn -----

  /** Taking moves at most the one request it hands to the worker. */
  lemma {:induction false} TakeItems(q: Queues, limit: nat, v: Item)
    requires Messages(q.wq) <= 1
    ensures var t := Take(q, limit);
      && (!t.out.Run? || t.out.w != v ==>
            Count(t.q.wq, Is(Work(v))) == Count(q.wq, Is(Work(v)))
            && Count(t.q.pending, Is(v)) == Count(q.pending, Is(v)))
      && (t.out.Run? && t.out.w == v ==>
            && Count(t.q.wq, Is(Work(v))) + Count(t.q.pending, Is(v)) + 1
               == Count(q.wq, Is(Work(v))) + Count(q.pending, Is(v))
            && Count(t.q.wq, Is(Work(v))) <= Count(q.wq, Is(Work(v)))
            && Count(t.q.pending, Is(v)) <= Count(q.pending, Is(v)))
    decreases |q.wq|, if q.wq != [] && q.wq[0] == SlowMessage then 1 else 0
  {
    if !Blocked(q, limit) && q.wq[0] != ExitMessage {
      var rest := q.wq[1..];
      MessagesIn(rest);
      if q.wq[0] == SlowMessage {
        MessagesAppend(rest, [SlowMessage]);
        Appended(rest, SlowMessage, Is(Work(v)));
        if q.running >= limit {
          TakeItems(q.(wq := rest + [SlowMessage]), limit, v);
        } else if q.pending == [] {
          TakeItems(q.(wq := rest), limit, v);
        }
      }
    }
  }

  lemma TurnCounts(s: State, t: State, i: nat, v: Item)
    requires WorkerTurn(s, t, i)
    ensures var turn := Take(AfterLock(s, i), Limit(s));
      && InWorkers(t, v) == InWorkers(s, v) + (if turn.out.Run? && turn.out.w == v then 1 else 0)
      && (!turn.out.Run? || turn.out.w != v ==> InQueue(t, v) == InQueue(s, v) && InSlow(t, v) == InSlow(s, v))
      && (turn.out.Run? && turn.out.w == v ==> InQueue(t, v) + InSlow(t, v) + 1 == InQueue(s, v) + InSlow(s, v))
      && InQueue(t, v) <= InQueue(s, v) && InSlow(t, v) <= InSlow(s, v)
  {
    var turn := Take(AfterLock(s, i), Limit(s));
    var idle := if s.workers[i].Waiting? then s.idle - 1 else s.idle;
    TakeItems(AfterLock(s, i), Limit(s), v);
    CountUpdate(s.workers, i, Settle(turn.out), Runs(v));
    SignalItems(s.workers[i := Settle(turn.out)], t.workers, turn.signal && (turn.out.Exit? || idle > 0), v);
  }

  lemma TurnHome(s: State, t: State, i: nat)
    requires Home(s) && WorkerTurn(s, t, i)
    ensures Home(t)
  {
    forall v | v !in t.loopOf ensures Unsubmitted(t, v) {
      assert Unsubmitted(s, v);
      TurnCounts(s, t, i, v);
    }
  }

  lemma TurnMoves(s: State, t: State, i: nat, v: Item, p: Place)
    requires WorkerTurn(s, t, i) && v in s.loopOf && At(s, v, p)
    ensures var out := Take(AfterLock(s, i), Limit(s)).out;
      At(t, v, if out.Run? && out.w == v then Executing else p)
  {
    TurnCounts(s, t, i, v);
    var out := Take(AfterLock(s, i), Limit(s)).out;
    if out.Run? && out.w == v {
      NotReported(t.done, v, false);
    } else {
      Unmoved(s, t, v, p);
    }
  }

  lemma TurnLocated(s: State, t: State, i: nat, loc: map<Item, Place>) returns (loc': map<Item, Place>)
    requires Located(s, loc) && WorkerTurn(s, t, i)
    ensures Located(t, loc')
  {
    var out := Take(AfterLock(s, i), Limit(s)).out;
    TurnHome(s, t, i);
    loc' := loc;
    if out.Run? {
      TurnCounts(s, t, i, out.w);
      assert !Unsubmitted(s, out.w);
      loc' := loc[out.w := Executing];
    }
    forall v | v in loc' ensures At(t, v, loc'[v]) {
      assert At(s, v, loc[v]);
      TurnMoves(s, t, i, v, loc[v]);
    }
  }

  // ----- completion -----

  lemma CompleteMoves(s: State, t: State, i: nat, v: Item, p: Place)
    requires Complete(s, t, i) && v in s.loopOf && At(s, v, p)
    ensures At(t, v, if s.workers[i].w == v then InLoopQueue else p)
  {
    CountUpdate(s.workers, i, Finished(s.workers[i].slow), Runs(v));
    Appended(LoopQueue(s.loopQ, s.loopOf[v]), s.workers[i].w, Is(v));
    if s.workers[i].w != v {
      Unmoved(s, t, v, p);
    } else {
      assert InWorkers(s, v) == InWorkers(t, v) + 1;
    }
  }

  lemma CompleteHome(s: State, t: State, i: nat)
    requires Home(s) && Complete(s, t, i)
    ensures Home(t)
  {
    var w := s.workers[i].w;
    forall v | v !in t.loopOf ensures Unsubmitted(t, v) {
      assert Unsubmitted(s, v);
      CountUpdate(s.workers, i, Finished(s.workers[i].slow), Runs(v));
    }
    OwnQueuesUpdate(s.loopOf, s.loopQ, s.loopOf[w], LoopQueue(s.loopQ, s.loopOf[w]) + [w]);
  }

  lemma CompleteLocated(s: State, t: State, i: nat, loc: map<Item, Place>) returns (loc': map<Item, Place>)
    requires Located(s, loc) && Complete(s, t, i)
    ensures Located(t, loc')
  {
    CompleteHome(s, t, i);
    loc' := loc[s.workers[i].w := InLoopQueue];
    forall v | v in loc' ensures At(t, v, loc'[v]) {
      assert At(s, v, loc[v]);
      CompleteMoves(s, t, i, v, loc[v]);
    }
  }

  // ----- cancellation -----

  lemma CancelCounts(s: State, t: State, w: Item, v: Item)
    requires Cancel(s, t, w) && s.linked[w] && s.work[w] != Null && v in s.loopOf
    ensures InWorkers(t, v) == InWorkers(s, v) && InDone(t, v) == InDone(s, v)
    ensures InAgain(t, v) == InAgain(s, v) + (if v == w && !Queued(s, w) then 1 else 0)
    ensures v != w ==>
              InQueue(t, v) == InQueue(s, v) && InSlow(t, v) == InSlow(s, v) && InLoop(t, v) == InLoop(s, v)
              && InLocal(t, v) == InLocal(s, v)
    ensures v == w ==> InQueue(t, v) == (if InQueue(s, v) > 0 then InQueue(s, v) - 1 else 0)
    ensures v == w ==> InSlow(t, v) == (if InSlow(s, v) > 0 then InSlow(s, v) - 1 else 0)
    ensures v == w ==> InLoop(t, v) == (if InLoop(s, v) > 0 then InLoop(s, v) - 1 else 0)
    ensures v == w ==> InLocal(t, v) == (if InLocal(s, v) > 0 then InLocal(s, v) - 1 else 0)
  {
    var l := s.loopOf[v];
    Appended(s.again, w, Is(v));
    CountWithout(s.q.wq, Work(w), Is(Work(v)));
    CountWithout(s.q.pending, w, Is(v));
    CountWithout(LoopQueue(s.loopQ, l), w, Is(v));
    CountWithout(LoopQueue(s.localQ, l), w, Is(v));
    CountIs(s.q.wq, Work(v));
    CountIs(s.q.pending, v);
    CountIs(LoopQueue(s.loopQ, l), v);
    CountIs(LoopQueue(s.localQ, l), v);
  }

  /** Only a request that is done is in no queue when it can be cancelled. */
  lemma QueuedMeans(s: State, w: Item, p: Place)
    requires w in s.loopOf && At(s, w, p) && s.linked[w] && s.loopOf[w] !in s.cancelling
    ensures Queued(s, w) <==> p != Completed
  {
    CountIs(s.q.wq, Work(w));
    CountIs(s.q.pending, w);
    CountIs(LoopQueue(s.loopQ, s.loopOf[w]), w);
    CountIs(LoopQueue(s.localQ, s.loopOf[w]), w);
  }

  lemma CancelMoves(s: State, t: State, w: Item, v: Item, p: Place)
    requires Cancel(s, t, w) && s.linked[w] && s.work[w] != Null && v in s.loopOf && At(s, v, p)
    ensures At(t, v, if v == w then BeingCancelled else p)
  {
    CancelCounts(s, t, w, v);
    if v != w {
      Unmoved(s, t, v, p);
    } else {
      QueuedMeans(s, w, p);
    }
  }

  lemma CancelHome(s: State, t: State, w: Item)
    requires Home(s) && Cancel(s, t, w)
    ensures Home(t)
  {
    var l := s.loopOf[w];
    forall v | v !in t.loopOf ensures Unsubmitted(t, v) {
      assert Unsubmitted(s, v);
      Appended(s.again, w, Is(v));
      CountWithout(s.q.wq, Work(w), Is(Work(v)));
      CountWithout(s.q.pending, w, Is(v));
    }
    CountWithout(LoopQueue(s.loopQ, l), w, Is(w));
    CountWithout(LoopQueue(s.localQ, l), w, Is(w));
    OwnQueuesUpdate(s.loopOf, s.loopQ, l, Without(LoopQueue(s.loopQ, l), w));
    OwnQueuesUpdate(s.loopOf, s.localQ, l, Without(LoopQueue(s.localQ, l), w));
  }

  lemma CancelLocated(s: State, t: State, w: Item, loc: map<Item, Place>) returns (loc': map<Item, Place>)
    requires Located(s, loc) && Cancel(s, t, w)
    ensures Located(t, loc')
  {
    CancelHome(s, t, w);
    loc' := loc;
    if s.linked[w] && s.work[w] != Null {
      loc' := loc[w := BeingCancelled];
      forall v | v in loc' ensures At(t, v, loc'[v]) {
        assert At(s, v, loc[v]);
        CancelMoves(s, t, w, v, loc[v]);
      }
    }
  }

  lemma CancelPostMoves(s: State, t: State, l: Loop, v: Item, p: Place)
    requires CancelPost(s, t, l) && v in s.loopOf && At(s, v, p)
    requires s.cancelling[l] in s.loopOf && s.loopOf[s.cancelling[l]] == l
    ensures At(t, v, if s.cancelling[l] == v then InLoopQueue else p)
  {
    Appended(LoopQueue(s.loopQ, s.loopOf[v]), s.cancelling[l], Is(v));
    if s.cancelling[l] != v {
      Unmoved(s, t, v, p);
    } else {
      assert InCancel(s, v) == 1;
    }
  }

  lemma CancelPostHome(s: State, t: State, l: Loop)
    requires Home(s) && CancelPost(s, t, l)
    ensures Home(t)
  {
    forall v | v !in t.loopOf ensures Unsubmitted(t, v) {
      assert Unsubmitted(s, v);
    }
    OwnQueuesUpdate(s.loopOf, s.loopQ, l, LoopQueue(s.loopQ, l) + [s.cancelling[l]]);
  }

  lemma CancelPostLocated(s: State, t: State, l: Loop, loc: map<Item, Place>) returns (loc': map<Item, Place>)
    requires Located(s, loc) && CancelPost(s, t, l)
    ensures Located(t, loc')
  {
    CancelPostHome(s, t, l);
    loc' := loc[s.cancelling[l] := InLoopQueue];
    forall v | v in loc' ensures At(t, v, loc'[v]) {
      assert At(s, v, loc[v]);
      CancelPostMoves(s, t, l, v, loc[v]);
    }
  }

  // ----- the loop thread -----

  lemma DrainMoves(s: State, t: State, l: Loop, v: Item, p: Place)
    requires Drain(s, t, l) && v in s.loopOf && At(s, v, p)
    ensures At(t, v, if s.loopOf[v] == l && p == InLoopQueue then InLocalQueue else p)
  {
    if s.loopOf[v] != l || p != InLoopQueue {
      assert s.loopOf[v] == l ==> Count<Item>([], Is(v)) == 0;
      Unmoved(s, t, v, p);
    }
  }

  lemma DrainHome(s: State, t: State, l: Loop)
    requires Home(s) && Drain(s, t, l)
    ensures Home(t)
  {
    forall v | v !in t.loopOf ensures Unsubmitted(t, v) {
      assert Unsubmitted(s, v);
    }
    OwnQueuesUpdate(s.loopOf, s.loopQ, l, []);
    OwnQueuesUpdate(s.loopOf, s.localQ, l, LoopQueue(s.loopQ, l));
  }

  lemma DrainLocated(s: State, t: State, l: Loop, loc: map<Item, Place>) returns (loc': map<Item, Place>)
    requires Located(s, loc) && Drain(s, t, l)
    ensures Located(t, loc')
  {
    DrainHome(s, t, l);
    loc' := map v | v in loc :: if s.loopOf[v] == l && loc[v] == InLoopQueue then InLocalQueue else loc[v];
    forall v | v in loc' ensures At(t, v, loc'[v]) {
      assert At(s, v, loc[v]);
      DrainMoves(s, t, l, v, loc[v]);
    }
  }

  lemma DoneMoves(s: State, t: State, l: Loop, v: Item, p: Place)
    requires Done(s, t, l) && v in s.loopOf && At(s, v, p) && s.localQ[l][0] in s.loopOf
             && s.loopOf[s.localQ[l][0]] == l
    ensures At(t, v, if s.localQ[l][0] == v then Completed else p)
  {
    var w := s.localQ[l][0];
    assert s.localQ[l] == [w] + s.localQ[l][1..];
    Appended(s.done, (w, s.work[w] == Cancelled), ForItem(v));
    if w != v {
      Unmoved(s, t, v, p);
    } else {
      assert InLocal(s, v) > 0;
    }
  }

  lemma DoneHome(s: State, t: State, l: Loop)
    requires Home(s) && Done(s, t, l)
    ensures Home(t)
  {
    var w := s.localQ[l][0];
    assert w in s.localQ[l];
    assert forall v :: v in s.localQ[l][1..] ==> v in s.localQ[l];
    OwnQueuesUpdate(s.loopOf, s.localQ, l, s.localQ[l][1..]);
    forall v | v !in t.loopOf ensures Unsubmitted(t, v) {
      assert Unsubmitted(s, v);
      Appended(s.done, (w, s.work[w] == Cancelled), ForItem(v));
    }
  }

  lemma DoneLocated(s: State, t: State, l: Loop, loc: map<Item, Place>) returns (loc': map<Item, Place>)
    requires Located(s, loc) && Done(s, t, l)
    ensures Located(t, loc')
  {
    DoneHome(s, t, l);
    var w := s.localQ[l][0];
    assert w in s.localQ[l];
    loc' := loc[w := Completed];
    forall v | v in loc' ensures At(t, v, loc'[v]) {
      assert At(s, v, loc[v]);
      DoneMoves(s, t, l, v, loc[v]);
    }
  }

  lemma StepLocated(s: State, t: State, step: Step, loc: map<Item, Place>) returns (loc': map<Item, Place>)
    requires Located(s, loc) && NextStep(s, t, step)
    ensures Located(t, loc')
  {
    match step
    case SubmitStep(l, w, slow) => loc' := SubmitLocated(s, t, l, w, slow, loc);
    case ShutdownStep => ShutdownLocated(s, t, loc); loc' := loc;
    case SpuriousStep(i) => SpuriousLocated(s, t, i, loc); loc' := loc;
    case TurnStep(i) => loc' := TurnLocated(s, t, i, loc);
    case CompleteStep(i) => loc' := CompleteLocated(s, t, i, loc);
    case CancelStep(w) => loc' := CancelLocated(s, t, w, loc);
    case CancelPostStep(l) => loc' := CancelPostLocated(s, t, l, loc);
    case DrainStep(l) => loc' := DrainLocated(s, t, l, loc);
    case DoneStep(l) => loc' := DoneLocated(s, t, l, loc);
  }

  lemma {:induction false} RunLocated(run: seq<State>, k: nat) returns (loc: map<Item, Place>)
    requires IsRun(run) && k < |run|
    ensures Located(run[k], loc)
  {
    if k == 0 {
      InitLocated(run[0]);
      loc := map[];
    } else {
      var loc0 := RunLocated(run, k - 1);
      assert Next(run[k - 1], run[k]);
      var step :| NextStep(run[k - 1], run[k], step);
      loc := StepLocated(run[k - 1], run[k], step, loc0);
    }
  }

  // ----- a request that is cancelled again after it was reported -----

  /** uv__work_cancel reaches a request whose done callback has already been told that it was cancelled. */
  ghost predicate CancelsReported(s: State, t: State, w: Item) {
    Cancel(s, t, w) && (w, true) in s.done
  }

  ghost predicate EverCancelledAgain(run: seq<State>, k: nat, w: Item)
    requires k < |run|
  {
    exists i: nat {:trigger run[i]} :: i < k && CancelsReported(run[i], run[i + 1], w)
  }

  lemma CountDone(done: seq<(Item, bool)>, w: Item)
    ensures Count(done, ForItem(w)) > 0 <==> exists i :: 0 <= i < |done| && done[i].0 == w
  {
    CountZero(done, ForItem(w));
    assert forall i :: 0 <= i < |done| ==> (ForItem(w)(done[i]) <==> done[i].0 == w);
  }

  /** Only a cancel adds to the history of such cancels. */
  lemma AgainOnlyByCancel(s: State, t: State, step: Step)
    requires NextStep(s, t, step)
    ensures t.again == s.again
            || (step.CancelStep? && step.w in s.loopOf && t.again == s.again + [step.w] && !Queued(s, step.w))
  {
  }

  lemma CancelOfReported(s: State, t: State, w: Item, p: Place)
    requires CancelsReported(s, t, w) && w in s.loopOf && At(s, w, p)
    ensures w in t.again
  {
    CountDone(s.done, w);
    CountIs(s.again, w);
    QueuedMeans(s, w, p);
  }

  lemma CancelOutsideQueues(s: State, t: State, w: Item, p: Place)
    requires Cancel(s, t, w) && At(s, w, p) && !Queued(s, w) && t.again != s.again
    ensures (w, true) in s.done
  {
    QueuedMeans(s, w, p);
    CountDone(s.done, w);
    var i :| 0 <= i < |s.done| && s.done[i].0 == w;
    assert s.done[i] == (w, true);
  }

  /** Such a cancel is the one way for the history of them to grow. */
  lemma AgainStep(s: State, t: State, w: Item, p: Place)
    requires Next(s, t) && w in s.loopOf && At(s, w, p)
    ensures w in t.again <==> w in s.again || CancelsReported(s, t, w)
  {
    var step :| NextStep(s, t, step);
    AgainOnlyByCancel(s, t, step);
    if CancelsReported(s, t, w) {
      CancelOfReported(s, t, w, p);
    } else if t.again != s.again && step.w == w {
      CancelOutsideQueues(s, t, w, p);
    }
  }

  lemma NeverSubmitted(s: State, t: State, w: Item, loc: map<Item, Place>)
    requires Next(s, t) && Located(s, loc) && w !in s.loopOf
    ensures w !in s.again && w !in t.again && !CancelsReported(s, t, w)
  {
    assert Unsubmitted(s, w);
    CountIs(s.again, w);
    var step :| NextStep(s, t, step);
    AgainOnlyByCancel(s, t, step);
  }

  lemma EverStep(run: seq<State>, k: nat, w: Item)
    requires 0 < k < |run|
    ensures EverCancelledAgain(run, k, w) <==>
              EverCancelledAgain(run, k - 1, w) || CancelsReported(run[k - 1], run[k], w)
  {
    if EverCancelledAgain(run, k, w) {
      var i: nat :| i < k && CancelsReported(run[i], run[i + 1], w);
      if i < k - 1 {
        assert EverCancelledAgain(run, k - 1, w);
      }
    }
  }

  lemma {:induction false} AgainIff(run: seq<State>, k: nat, w: Item)
    requires IsRun(run) && k < |run|
    ensures w in run[k].again <==> EverCancelledAgain(run, k, w)
  {
    if k > 0 {
      AgainIff(run, k - 1, w);
      AgainRunStep(run, k, w);
      EverStep(run, k, w);
    }
  }

  lemma AgainRunStep(run: seq<State>, k: nat, w: Item)
    requires IsRun(run) && 0 < k < |run|
    ensures w in run[k].again <==> w in run[k - 1].again || CancelsReported(run[k - 1], run[k], w)
  {
    assert Next(run[k - 1], run[k]);
    var loc := RunLocated(run, k - 1);
    if w in run[k - 1].loopOf {
      assert At(run[k - 1], w, loc[w]);
      AgainStep(run[k - 1], run[k], w, loc[w]);
    } else {
      NeverSubmitted(run[k - 1], run[k], w, loc);
    }
  }

  // ----- main results -----

  /** The places where a submitted request is before it is done, counted over all of them. */
  function Held(s: State, w: Item): nat
    requires w in s.loopOf
  {
    InQueue(s, w) + InSlow(s, w) + InWorkers(s, w) + InCancel(s, w) + InLoop(s, w) + InLocal(s, w)
  }

  /** In every run, every submitted request is in exactly one place or done, and no other request is queued anywhere.
      The callbacks it has had and the one it is due are one more than the cancels that reached it in no queue. */
  lemma ExactlyOnePlace(run: seq<State>, k: nat, w: Item)
    requires IsRun(run) && k < |run|
    ensures w in run[k].loopOf ==>
              && Held(run[k], w) <= 1 && (Held(run[k], w) == 0 ==> InDone(run[k], w) >= 1)
              && Held(run[k], w) + InDone(run[k], w) == 1 + InAgain(run[k], w)
    ensures w !in run[k].loopOf ==> Unsubmitted(run[k], w)
  {
    var loc := RunLocated(run, k);
    if w in run[k].loopOf {
      assert At(run[k], w, loc[w]);
    }
  }

  /** In every run, a request has had, or is due, more than one done callback exactly when some cancel reached it
      after it had been reported cancelled. */
  lemma DoneOnceIff(run: seq<State>, k: nat, w: Item)
    requires IsRun(run) && k < |run| && w in run[k].loopOf
    ensures Held(run[k], w) + InDone(run[k], w) == 1 <==> !EverCancelledAgain(run, k, w)
  {
    ExactlyOnePlace(run, k, w);
    AgainIff(run, k, w);
    CountIs(run[k].again, w);
  }

  /** In every run, the status of a done callback is UV_ECANCELED exactly when the work function never ran, and a
      request that no cancel reaches after such a report is called back at most once. */
  lemma DoneOnceWithItsStatus(run: seq<State>, k: nat, i: nat, j: nat)
    requires IsRun(run) && k < |run| && i < |run[k].done| && j < |run[k].done|
    ensures run[k].done[i].1 <==> run[k].done[i].0 !in run[k].ran
    ensures run[k].done[i].0 == run[k].done[j].0 && !EverCancelledAgain(run, k, run[k].done[i].0) ==> i == j
  {
    var s := run[k];
    var loc := RunLocated(run, k);
    var w := s.done[i].0;
    CountDone(s.done, w);
    assert w in s.loopOf && At(s, w, loc[w]) by { assert !Unsubmitted(s, w); }
    if s.done[j].0 == w && !EverCancelledAgain(run, k, w) {
      DoneOnceIff(run, k, w);
      CountOne(s.done, ForItem(w), i, j);
    }
  }

  lemma {:induction false} CountOne<T(!new)>(s: seq<T>, p: T -> bool, i: nat, j: nat)
    requires Count(s, p) <= 1 && i < |s| && j < |s| && p(s[i]) && p(s[j])
    ensures i == j
  {
    CountZero(s[1..], p);
    if i > 0 && j > 0 {
      CountOne(s[1..], p, i - 1, j - 1);
    }
  }

  /** In every run, once every worker sleeps un-signalled, no cancellation is half done and the loops
      have emptied their queues, every submitted request has had its done callback. */
  lemma QuiescentMeansAllDone(run: seq<State>, k: nat, w: Item)
    requires IsRun(run) && k < |run| && w in run[k].loopOf && run[k].cancelling == map[]
    requires forall i :: 0 <= i < |run[k].workers| ==> run[k].workers[i] == Waiting(false)
    requires forall l :: LoopQueue(run[k].loopQ, l) == [] && LoopQueue(run[k].localQ, l) == []
    ensures exists i :: 0 <= i < |run[k].done| && run[k].done[i].0 == w
  {
    var s := run[k];
    AllAsleepMeansEmpty(run, k);
    ExactlyOnePlace(run, k, w);
    CountZero(s.workers, Runs(w));
    CountDone(s.done, w);
  }

  // ----- the run that calls back twice -----

  /** One request in an otherwise idle pool, with its loop 0. */
  function Lone(w: Item, wq: seq<Entry>, p: WorkPtr, held: map<Loop, Item>, loopQ: map<Loop, seq<Item>>,
      localQ: map<Loop, seq<Item>>, done: seq<(Item, bool)>, again: seq<Item>): State
  {
    State(Queues(wq, [], 0), 0, [Ready], map[w := 0], map[w := p], map[w := true], held, loopQ, localQ, {}, done, again)
  }

  lemma LoneCancel(w: Item, wq: seq<Entry>, p: WorkPtr, loopQ: map<Loop, seq<Item>>, localQ: map<Loop, seq<Item>>,
      done: seq<(Item, bool)>, again: seq<Item>)
    requires p != Null && LoopQueue(loopQ, 0) == [] && LoopQueue(localQ, 0) == [] && (wq == [] || wq == [Work(w)])
    ensures NextStep(Lone(w, wq, p, map[], loopQ, localQ, done, again),
                     Lone(w, [], p, map[0 := w], loopQ[0 := []], localQ[0 := []], done,
                          if wq == [] then again + [w] else again),
                     CancelStep(w))
  {
  }

  lemma LoneReport(w: Item, p: WorkPtr, done: seq<(Item, bool)>, again: seq<Item>)
    ensures var empty: map<Loop, seq<Item>>, full: map<Loop, seq<Item>> := map[0 := []], map[0 := [w]];
      && NextStep(Lone(w, [], p, map[0 := w], empty, empty, done, again),
                  Lone(w, [], Cancelled, map[], full, empty, done, again), CancelPostStep(0))
      && NextStep(Lone(w, [], Cancelled, map[], full, empty, done, again),
                  Lone(w, [], Cancelled, map[], empty, full, done, again), DrainStep(0))
      && NextStep(Lone(w, [], Cancelled, map[], empty, full, done, again),
                  Lone(w, [], Cancelled, map[], empty, empty, done + [(w, true)], again), DoneStep(0))
  {
    assert map[0 := w] - {0} == map[];
    assert [] + [w] == [w] && [w][1..] == [];
    assert map[w := p][w := Cancelled] == map[w := Cancelled] && map[w := true][w := true] == map[w := true];
    var empty: map<Loop, seq<Item>>, full: map<Loop, seq<Item>> := map[0 := []], map[0 := [w]];
    assert empty[0 := [w]] == full && full[0 := []] == empty;
  }

  /** An idle pool of one worker. */
  function Fresh(): State {
    State(Queues([], [], 0), 0, [Ready], map[], map[], map[], map[], map[], map[], {}, [], [])
  }

  lemma LoneSubmit(w: Item)
    ensures Init(Fresh())
            && NextStep(Fresh(), Lone(w, [Work(w)], User, map[], map[], map[], [], []), SubmitStep(0, w, false))
  {
    assert [] + [Work(w)] == [Work(w)];
  }

  /** The states of a run in which a request is cancelled, reported, and cancelled again. */
  function TwiceDone(w: Item): seq<State> {
    var none: map<Loop, Item>, held := map[], map[0 := w];
    var empty: map<Loop, seq<Item>>, full: map<Loop, seq<Item>> := map[0 := []], map[0 := [w]];
    [Fresh(),
     Lone(w, [Work(w)], User, none, map[], map[], [], []),
     Lone(w, [], User, held, empty, empty, [], []),
     Lone(w, [], Cancelled, none, full, empty, [], []),
     Lone(w, [], Cancelled, none, empty, full, [], []),
     Lone(w, [], Cancelled, none, empty, empty, [(w, true)], []),
     Lone(w, [], Cancelled, held, empty, empty, [(w, true)], [w]),
     Lone(w, [], Cancelled, none, full, empty, [(w, true)], [w]),
     Lone(w, [], Cancelled, none, empty, full, [(w, true)], [w]),
     Lone(w, [], Cancelled, none, empty, empty, [(w, true), (w, true)], [w])]
  }

  lemma FirstHalf(w: Item)
    ensures var r := TwiceDone(w); Init(r[0]) && Next(r[0], r[1]) && Next(r[1], r[2])
  {
    var none: map<Loop, seq<Item>> := map[];
    LoneSubmit(w);
    LoneCancel(w, [Work(w)], User, none, none, [], []);
    assert none[0 := []] == map[0 := []];
  }

  lemma FirstReport(w: Item)
    ensures var r := TwiceDone(w); Next(r[2], r[3]) && Next(r[3], r[4]) && Next(r[4], r[5])
  {
    LoneReport(w, User, [], []);
    assert [] + [(w, true)] == [(w, true)];
  }

  lemma SecondHalf(w: Item)
    ensures var r := TwiceDone(w); Next(r[5], r[6]) && Next(r[6], r[7]) && Next(r[7], r[8]) && Next(r[8], r[9])
  {
    var empty: map<Loop, seq<Item>> := map[0 := []];
    LoneCancel(w, [], Cancelled, empty, empty, [(w, true)], []);
    assert empty[0 := []] == empty && [] + [w] == [w];
    LoneReport(w, Cancelled, [(w, true)], [w]);
    assert [(w, true)] + [(w, true)] == [(w, true), (w, true)];
  }

  /** uv_cancel succeeds on a request that has been reported cancelled, and its callback is called once more. */
  lemma DoneTwice(w: Item)
    ensures IsRun(TwiceDone(w)) && TwiceDone(w)[9].done == [(w, true), (w, true)]
  {
    FirstHalf(w);
    FirstReport(w);
    SecondHalf(w);
  }
}
