/** The shared queues of threadpool.c: what one critical section of a worker or of a submitter does to them. Every
    function here is one stretch of code run under the pool's mutex. */
module PoolQueues {
  type Item = nat

  /** An element of wq: a work request, run_slow_work_message or exit_message. */
  datatype Entry = Work(w: Item) | SlowMessage | ExitMessage

  datatype Queues = Queues(wq: seq<Entry>, pending: seq<Item>, running: nat)

  /** How a worker leaves its critical section. */
  datatype Outcome = Wait | Exit | Run(w: Item, slow: bool)

  /** The queues after a worker's turn, its outcome, and whether it signalled the condition. */
  datatype Turn = Turn(q: Queues, out: Outcome, signal: bool)

  function Threshold(nthreads: nat): nat {
    (nthreads + 1) / 2
  }

  function Messages(wq: seq<Entry>): nat {
    if wq == [] then 0 else (if wq[0] == SlowMessage then 1 else 0) + Messages(wq[1..])
  }

  lemma {:induction false} MessagesAppend(a: seq<Entry>, b: seq<Entry>)
    ensures Messages(a + b) == Messages(a) + Messages(b)
  {
    if a == [] {
      assert a + b == b;
    } else {
      assert (a + b)[1..] == a[1..] + b;
      MessagesAppend(a[1..], b);
    }
  }

  lemma {:induction false} MessagesIn(wq: seq<Entry>)
    ensures Messages(wq) > 0 <==> SlowMessage in wq
    ensures Messages(wq) <= |wq|
  {
    if wq != [] {
      MessagesIn(wq[1..]);
    }
  }

  /** run_slow_work_message is queued at most once, and it is queued whenever slow work is pending. */
  ghost predicate WellQueued(q: Queues) {
    Messages(q.wq) <= 1 && (q.pending != [] ==> SlowMessage in q.wq)
  }

  /** post */
  function Post(q: Queues, e: Entry, slow: bool): (r: (Queues, bool))
    requires slow ==> e.Work?
  {
    if slow then
      var q1 := q.(pending := q.pending + [e.w]);
      if SlowMessage in q.wq then (q1, false) else (q1.(wq := q1.wq + [SlowMessage]), true)
    else (q.(wq := q.wq + [e]), true)
  }

  /** A worker may not go on: nothing is queued, or only slow work while enough of it is running. */
  predicate Blocked(q: Queues, limit: nat) {
    q.wq == [] || (q.wq == [SlowMessage] && q.running >= limit)
  }

  /** The worker's loop from the moment it holds the mutex until it waits, exits or has work to run. */
  function Take(q: Queues, limit: nat): Turn
    requires Messages(q.wq) <= 1
    decreases |q.wq|, if q.wq != [] && q.wq[0] == SlowMessage then 1 else 0
  {
    if Blocked(q, limit) then Turn(q, Wait, false)
    else if q.wq[0] == ExitMessage then Turn(q, Exit, true)
    else
      var rest := q.wq[1..];
      if q.wq[0].Work? then Turn(q.(wq := rest), Run(q.wq[0].w, false), false)
      else if q.running >= limit then
        MessagesAppend(rest, [SlowMessage]);
        MessagesIn(rest);
        Take(q.(wq := rest + [SlowMessage]), limit)
      else if q.pending == [] then Take(q.(wq := rest), limit)
      else
        var more := q.pending[1..];
        Turn(Queues(if more != [] then rest + [SlowMessage] else rest, more, q.running + 1), Run(q.pending[0], true),
             more != [])
  }

  /** How many queued entries a worker could take now: all of them, except the slow message while the
      slow work that is really under way (running, less those about to say they are finished) is at the limit. */
  ghost function Runnable(q: Queues, finished: nat, limit: nat): int {
    |q.wq| - (if SlowMessage in q.wq && q.running - finished >= limit then 1 else 0)
  }

  /** What a worker's turn does to the queues. */
  lemma {:induction false} TakeEffect(q: Queues, limit: nat, finished: nat)
    requires WellQueued(q)
    ensures var t := Take(q, limit);
      && WellQueued(t.q)
      && Runnable(t.q, finished, limit) + (if t.out.Run? then 1 else 0)
           <= Runnable(q, finished, limit) + (if t.signal && t.out.Run? then 1 else 0)
      && t.q.running == q.running + (if t.out.Run? && t.out.slow then 1 else 0)
      && (t.out.Run? && t.out.slow ==> q.running < limit)
      && (t.out.Exit? ==> t.signal && ExitMessage in q.wq)
      && (t.out.Wait? ==>
            !t.signal && Blocked(t.q, limit)
            && (Runnable(t.q, finished, limit) == 0 || (finished > 0 && Runnable(t.q, finished, limit) == 1)))
    decreases |q.wq|, if q.wq != [] && q.wq[0] == SlowMessage then 1 else 0
  {
    if !Blocked(q, limit) && q.wq[0] != ExitMessage {
      var rest := q.wq[1..];
      assert q.wq == [q.wq[0]] + rest;
      MessagesIn(rest);
      if q.wq[0] == SlowMessage {
        MessagesAppend(rest, [SlowMessage]);
        if q.running >= limit {
          TakeEffect(q.(wq := rest + [SlowMessage]), limit, finished);
        } else if q.pending == [] {
          TakeEffect(q.(wq := rest), limit, finished);
        }
      }
    }
  }

  lemma PostEffect(q: Queues, e: Entry, slow: bool, finished: nat, limit: nat)
    requires WellQueued(q) && (slow ==> e.Work?) && e != SlowMessage
    ensures var (r, signal) := Post(q, e, slow);
      && WellQueued(r) && r.running == q.running
      && Runnable(r, finished, limit) <= Runnable(q, finished, limit) + (if signal then 1 else 0)
  {
    MessagesIn(q.wq);
    MessagesAppend(q.wq, [SlowMessage]);
    MessagesAppend(q.wq, [e]);
  }
}
