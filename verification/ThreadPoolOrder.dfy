/** Requests are taken in the order they were submitted in, and none of the fast ones is left behind by the exit, in
    every run. */
module ThreadPoolOrder {
  import opened PoolQueues
  import opened ThreadPool
  import opened ThreadPoolItems

  // ----- runs with their steps -----

  ghost predicate IsRunOf(run: seq<State>, steps: seq<Step>) {
    && |run| == |steps| + 1 && Init(run[0])
    && forall i {:trigger Stepped(run, steps, i)} :: 0 <= i < |steps| ==> Stepped(run, steps, i)
  }

  ghost predicate Stepped(run: seq<State>, steps: seq<Step>, i: nat)
    requires |run| == |steps| + 1 && i < |steps|
  {
    NextStep(run[i], run[i + 1], steps[i])
  }

  /** Every run has its steps. */
  lemma {:induction false} StepsOf(run: seq<State>) returns (steps: seq<Step>)
    requires IsRun(run)
    ensures IsRunOf(run, steps)
    decreases |run|
  {
    if |run| == 1 {
      steps := [];
    } else {
      var n := |run| - 1;
      var before := StepsOf(run[..n]);
      assert Next(run[n - 1], run[n]);
      var step :| NextStep(run[n - 1], run[n], step);
      steps := before + [step];
      forall i | 0 <= i < n ensures Stepped(run, steps, i) {
        if i < n - 1 {
          assert Stepped(run[..n], before, i);
        }
      }
    }
  }

  /** The requests submitted, fast or slow ones. */
  function Submitted(steps: seq<Step>, slow: bool): seq<Item> {
    if steps == [] then []
    else
      var before, step := Submitted(steps[..|steps| - 1], slow), steps[|steps| - 1];
      if step.SubmitStep? && step.slow == slow then before + [step.w] else before
  }

  /** The k-th step is a cancel of w that succeeds. */
  ghost predicate Took(run: seq<State>, steps: seq<Step>, k: nat, w: Item)
    requires |run| == |steps| + 1 && k < |steps|
  {
    steps[k] == CancelStep(w) && run[k + 1].cancelling != run[k].cancelling
  }

  /** Before the n-th step no cancel of w has succeeded. */
  ghost predicate NeverTaken(run: seq<State>, steps: seq<Step>, n: nat, w: Item)
    requires |run| == |steps| + 1 && n <= |steps|
  {
    forall k :: 0 <= k < n ==> !Took(run, steps, k, w)
  }

  // ----- the queues -----

  function Works(wq: seq<Entry>): seq<Item> {
    if wq == [] then [] else if wq[0].Work? then [wq[0].w] + Works(wq[1..]) else Works(wq[1..])
  }

  lemma {:induction false} WorksAppend(a: seq<Entry>, b: seq<Entry>)
    ensures Works(a + b) == Works(a) + Works(b)
  {
    if a == [] {
      assert a + b == b;
    } else {
      assert (a + b)[1..] == a[1..] + b;
      WorksAppend(a[1..], b);
    }
  }

  /** What is queued ahead of exit_message. */
  function Ahead(wq: seq<Entry>): seq<Entry> {
    if wq == [] || wq[0] == ExitMessage then [] else [wq[0]] + Ahead(wq[1..])
  }

  lemma {:induction false} AheadAppend(a: seq<Entry>, b: seq<Entry>)
    ensures ExitMessage in a ==> Ahead(a + b) == Ahead(a)
    ensures ExitMessage !in a ==> Ahead(a + b) == a + Ahead(b)
  {
    if a == [] {
      assert a + b == b;
    } else {
      assert (a + b)[1..] == a[1..] + b;
      AheadAppend(a[1..], b);
    }
  }

  /** What a worker takes is the first in its queue. */
  ghost predicate TookFirst(q: Queues, t: Turn) {
    match t.out
    case Run(w, false) => Works(q.wq) != [] && w == Works(q.wq)[0] && Works(t.q.wq) == Works(q.wq)[1..]
                          && t.q.pending == q.pending
    case Run(w, true) => q.pending != [] && w == q.pending[0] && t.q.pending == q.pending[1..]
                         && Works(t.q.wq) == Works(q.wq)
    case _ => Works(t.q.wq) == Works(q.wq) && t.q.pending == q.pending
  }

  /** exit_message stays, with what is ahead of it but for a fast request taken; a worker exits when none is. */
  ghost predicate TookAhead(q: Queues, t: Turn) {
    && (ExitMessage in q.wq <==> ExitMessage in t.q.wq)
    && (t.out.Exit? ==> ExitMessage in q.wq && Works(Ahead(q.wq)) == [])
    && (ExitMessage in q.wq ==>
          if t.out.Run? && !t.out.slow then
            Works(Ahead(q.wq)) != [] && t.out.w == Works(Ahead(q.wq))[0]
            && Works(Ahead(t.q.wq)) == Works(Ahead(q.wq))[1..]
          else Works(Ahead(t.q.wq)) == Works(Ahead(q.wq)))
  }

  lemma {:induction false} TakeOrder(q: Queues, limit: nat)
    requires Messages(q.wq) <= 1
    ensures TookFirst(q, Take(q, limit)) && TookAhead(q, Take(q, limit))
    decreases |q.wq|, if q.wq != [] && q.wq[0] == SlowMessage then 1 else 0
  {
    if !Blocked(q, limit) && q.wq[0] != ExitMessage {
      var rest := q.wq[1..];
      assert q.wq == [q.wq[0]] + rest;
      WorksAppend(rest, [SlowMessage]);
      AheadAppend(rest, [SlowMessage]);
      WorksAppend(Ahead(rest), [SlowMessage]);
      if q.wq[0] == SlowMessage {
        MessagesAppend(rest, [SlowMessage]);
        MessagesIn(rest);
        if q.running >= limit {
          TakeOrder(q.(wq := rest + [SlowMessage]), limit);
        } else if q.pending == [] {
          TakeOrder(q.(wq := rest), limit);
        }
      }
    }
  }

  // ----- which are left -----

  /** Those that have neither been run nor cancelled, in order. */
  function LeftOf(all: seq<Item>, gone: set<Item>): seq<Item> {
    if all == [] then []
    else if all[0] in gone then LeftOf(all[1..], gone)
    else [all[0]] + LeftOf(all[1..], gone)
  }

  predicate Distinct(s: seq<Item>) {
    forall i, j :: 0 <= i < j < |s| ==> s[i] != s[j]
  }

  lemma {:induction false} LeftAppend(all: seq<Item>, w: Item, gone: set<Item>)
    ensures LeftOf(all + [w], gone) == LeftOf(all, gone) + (if w in gone then [] else [w])
  {
    if all == [] {
      assert [] + [w] == [w] && [w][1..] == [];
    } else {
      assert (all + [w])[1..] == all[1..] + [w];
      LeftAppend(all[1..], w, gone);
    }
  }

  lemma {:induction false} LeftIn(all: seq<Item>, gone: set<Item>)
    ensures forall w :: w in LeftOf(all, gone) <==> w in all && w !in gone
  {
    if all != [] {
      LeftIn(all[1..], gone);
      assert forall w :: w in all <==> w == all[0] || w in all[1..];
    }
  }

  lemma {:induction false} WithoutNone(s: seq<Item>, w: Item)
    requires w !in s
    ensures Without(s, w) == s
  {
    if s != [] {
      WithoutNone(s[1..], w);
    }
  }

  lemma WithoutHead<T>(x: T, s: seq<T>, y: T)
    ensures Without([x] + s, y) == if x == y then s else [x] + Without(s, y)
  {
    assert ([x] + s)[1..] == s;
  }

  /** One more is gone: it is left out, wherever it was. */
  lemma {:induction false} LeftLess(all: seq<Item>, gone: set<Item>, w: Item)
    requires Distinct(all)
    ensures LeftOf(all, gone + {w}) == Without(LeftOf(all, gone), w)
  {
    if all != [] {
      LeftLess(all[1..], gone, w);
      LeftIn(all[1..], gone);
      WithoutHead(all[0], LeftOf(all[1..], gone), w);
      if all[0] == w {
        assert w !in all[1..];
        WithoutNone(LeftOf(all[1..], gone), w);
      }
    }
  }

  /** Those before one that is left first are all gone. */
  lemma {:induction false} BeforeFirst(all: seq<Item>, gone: set<Item>, q: nat)
    requires LeftOf(all, gone) != [] && q < |all| && all[q] == LeftOf(all, gone)[0] && Distinct(all)
    ensures forall p :: 0 <= p < q ==> all[p] in gone
  {
    LeftIn(all, gone);
    if all[0] in gone {
      if q > 0 {
        BeforeFirst(all[1..], gone, q - 1);
        forall p | 0 <= p < q ensures all[p] in gone {
          if p > 0 {
            assert all[p] == all[1..][p - 1];
          }
        }
      }
    }
  }

  // ----- one queue -----

  /** What is queued is what is left of what was submitted, in order; and nothing has been run before what was
      submitted earlier. */
  ghost predicate InOrder(all: seq<Item>, queued: seq<Item>, ran: set<Item>, cancelled: set<Item>) {
    && Distinct(all) && queued == LeftOf(all, ran + cancelled)
    && forall p, q :: 0 <= p < q < |all| && all[q] in ran ==> all[p] in ran || all[p] in cancelled
  }

  lemma OrderSubmit(all: seq<Item>, queued: seq<Item>, ran: set<Item>, cancelled: set<Item>, w: Item)
    requires InOrder(all, queued, ran, cancelled) && w !in all && w !in ran && w !in cancelled
    ensures InOrder(all + [w], queued + [w], ran, cancelled)
  {
    LeftAppend(all, w, ran + cancelled);
  }

  lemma OrderRun(all: seq<Item>, queued: seq<Item>, ran: set<Item>, cancelled: set<Item>)
    requires InOrder(all, queued, ran, cancelled) && queued != []
    ensures InOrder(all, queued[1..], ran + {queued[0]}, cancelled)
  {
    var w := queued[0];
    LeftLess(all, ran + cancelled, w);
    assert ran + {w} + cancelled == ran + cancelled + {w};
    forall p, q | 0 <= p < q < |all| && all[q] in ran + {w} ensures all[p] in ran + {w} || all[p] in cancelled {
      if all[q] == w {
        BeforeFirst(all, ran + cancelled, q);
      }
    }
  }

  /** One that belongs to the other queue is run. */
  lemma OrderOther(all: seq<Item>, queued: seq<Item>, ran: set<Item>, cancelled: set<Item>, w: Item)
    requires InOrder(all, queued, ran, cancelled) && w !in all
    ensures InOrder(all, queued, ran + {w}, cancelled)
  {
    LeftLess(all, ran + cancelled, w);
    LeftIn(all, ran + cancelled);
    WithoutNone(queued, w);
    assert ran + {w} + cancelled == ran + cancelled + {w};
  }

  lemma OrderCancel(all: seq<Item>, queued: seq<Item>, ran: set<Item>, cancelled: set<Item>, w: Item)
    requires InOrder(all, queued, ran, cancelled)
    ensures InOrder(all, Without(queued, w), ran, cancelled + {w})
  {
    LeftLess(all, ran + cancelled, w);
    assert ran + (cancelled + {w}) == ran + cancelled + {w};
  }

  lemma {:induction false} WorksWithout(wq: seq<Entry>, w: Item)
    ensures Works(Without(wq, Work(w))) == Without(Works(wq), w)
  {
    if wq != [] {
      if wq[0].Work? {
        WithoutHead(wq[0].w, Works(wq[1..]), w);
      }
      if wq[0] != Work(w) {
        WorksWithout(wq[1..], w);
      }
    }
  }

  lemma {:induction false} AheadWithout(wq: seq<Entry>, w: Item)
    requires ExitMessage in wq
    ensures Ahead(Without(wq, Work(w))) == Without(Ahead(wq), Work(w)) && ExitMessage in Without(wq, Work(w))
  {
    assert wq == [wq[0]] + wq[1..];
    WithoutHead(wq[0], Ahead(wq[1..]), Work(w));
    if wq[0] != Work(w) && wq[0] != ExitMessage {
      AheadWithout(wq[1..], w);
    }
  }

  lemma {:induction false} NoExitWithout(wq: seq<Entry>, w: Item)
    requires ExitMessage !in wq
    ensures ExitMessage !in Without(wq, Work(w))
  {
    CountWithout(wq, Work(w), Is(ExitMessage));
  }

  // ----- every step keeps the order -----

  ghost predicate Known(s: State, items: seq<Item>) {
    forall w :: w in items ==> w in s.loopOf
  }

  ghost predicate Ordered(s: State, fast: seq<Item>, slow: seq<Item>, cancelled: set<Item>) {
    && InOrder(fast, Works(s.q.wq), s.ran, cancelled) && InOrder(slow, s.q.pending, s.ran, cancelled)
    && Known(s, fast) && Known(s, slow) && s.ran <= s.loopOf.Keys && cancelled <= s.loopOf.Keys
    && forall w :: w in fast ==> w !in slow
  }

  function After(items: seq<Item>, step: Step, slow: bool): seq<Item> {
    if step.SubmitStep? && step.slow == slow then items + [step.w] else items
  }

  ghost function AlsoTaken(cancelled: set<Item>, s: State, t: State, step: Step): set<Item> {
    if step.CancelStep? && t.cancelling != s.cancelling then cancelled + {step.w} else cancelled
  }

  lemma SubmitOrdered(s: State, t: State, l: Loop, w: Item, slow: bool, f: seq<Item>, g: seq<Item>, c: set<Item>)
    requires Ordered(s, f, g, c) && Submit(s, t, l, w, slow)
    ensures slow ==> Ordered(t, f, g + [w], c)
    ensures !slow ==> Ordered(t, f + [w], g, c)
  {
    WorksAppend(s.q.wq, [SlowMessage]);
    WorksAppend(s.q.wq, [Work(w)]);
    if slow {
      OrderSubmit(g, s.q.pending, s.ran, c, w);
    } else {
      OrderSubmit(f, Works(s.q.wq), s.ran, c, w);
    }
  }

  lemma TurnOrdered(s: State, t: State, i: nat, f: seq<Item>, g: seq<Item>, c: set<Item>)
    requires Ordered(s, f, g, c) && WorkerTurn(s, t, i)
    ensures Ordered(t, f, g, c)
  {
    var q := AfterLock(s, i);
    TakeOrder(q, Limit(s));
    LeftIn(f, s.ran + c);
    LeftIn(g, s.ran + c);
    match Take(q, Limit(s)).out
    case Run(w, false) =>
      OrderRun(f, Works(s.q.wq), s.ran, c);
      OrderOther(g, s.q.pending, s.ran, c, w);
    case Run(w, true) =>
      OrderRun(g, s.q.pending, s.ran, c);
      OrderOther(f, Works(s.q.wq), s.ran, c, w);
    case _ =>
  }

  lemma CancelOrdered(s: State, t: State, w: Item, f: seq<Item>, g: seq<Item>, c: set<Item>)
    requires Ordered(s, f, g, c) && Cancel(s, t, w)
    ensures Ordered(t, f, g, if t.cancelling != s.cancelling then c + {w} else c)
  {
    if s.linked[w] && s.work[w] != Null {
      OrderCancel(f, Works(s.q.wq), s.ran, c, w);
      OrderCancel(g, s.q.pending, s.ran, c, w);
      WorksWithout(s.q.wq, w);
      assert s.loopOf[w] in t.cancelling;
    }
  }

  lemma StepOrdered(s: State, t: State, step: Step, f: seq<Item>, g: seq<Item>, c: set<Item>)
    requires Ordered(s, f, g, c) && NextStep(s, t, step)
    ensures Ordered(t, After(f, step, false), After(g, step, true), AlsoTaken(c, s, t, step))
  {
    match step
    case SubmitStep(l, w, slow) => SubmitOrdered(s, t, l, w, slow, f, g, c);
    case ShutdownStep => WorksAppend(s.q.wq, [ExitMessage]);
    case TurnStep(i) => TurnOrdered(s, t, i, f, g, c);
    case CancelStep(w) => CancelOrdered(s, t, w, f, g, c);
    case _ =>
  }

  // ----- runs -----

  ghost function TakenBy(run: seq<State>, steps: seq<Step>, n: nat): set<Item>
    requires |run| == |steps| + 1 && n <= |steps|
  {
    if n == 0 then {} else AlsoTaken(TakenBy(run, steps, n - 1), run[n - 1], run[n], steps[n - 1])
  }

  lemma {:induction false} RunOrdered(run: seq<State>, steps: seq<Step>, n: nat)
    requires IsRunOf(run, steps) && n <= |steps|
    ensures Ordered(run[n], Submitted(steps[..n], false), Submitted(steps[..n], true), TakenBy(run, steps, n))
  {
    if n == 0 {
      assert steps[..0] == [];
    } else {
      RunOrdered(run, steps, n - 1);
      assert Stepped(run, steps, n - 1);
      var f, g := Submitted(steps[..n - 1], false), Submitted(steps[..n - 1], true);
      assert steps[..n][..n - 1] == steps[..n - 1] && steps[..n][n - 1] == steps[n - 1];
      StepOrdered(run[n - 1], run[n], steps[n - 1], f, g, TakenBy(run, steps, n - 1));
    }
  }

  lemma {:induction false} TakenIff(run: seq<State>, steps: seq<Step>, n: nat, w: Item)
    requires |run| == |steps| + 1 && n <= |steps|
    ensures w in TakenBy(run, steps, n) <==> !NeverTaken(run, steps, n, w)
  {
    if n > 0 {
      TakenIff(run, steps, n - 1, w);
      assert w in TakenBy(run, steps, n) <==> w in TakenBy(run, steps, n - 1) || Took(run, steps, n - 1, w);
    }
  }

  /** Where what the i-th step submits stands among all that was submitted. */
  lemma {:induction false} SubmittedAt(steps: seq<Step>, i: nat, slow: bool) returns (p: nat)
    requires i < |steps| && steps[i].SubmitStep? && steps[i].slow == slow
    ensures p == |Submitted(steps[..i], slow)| < |Submitted(steps, slow)| && Submitted(steps, slow)[p] == steps[i].w
    decreases |steps|
  {
    var n := |steps| - 1;
    p := |Submitted(steps[..i], slow)|;
    if i < n {
      var _ := SubmittedAt(steps[..n], i, slow);
      assert steps[..n][..i] == steps[..i];
    }
  }

  lemma {:induction false} SubmittedGrows(steps: seq<Step>, i: nat, j: nat, slow: bool)
    requires i <= j <= |steps|
    ensures |Submitted(steps[..i], slow)| <= |Submitted(steps[..j], slow)|
  {
    if i < j {
      SubmittedGrows(steps, i, j - 1, slow);
      assert steps[..j][..j - 1] == steps[..j - 1];
    }
  }

  /** Among the fast requests, and among the slow ones, whatever is run is run after all that was submitted before it
      and has not been cancelled. */
  lemma FirstComeFirstRun(run: seq<State>, steps: seq<Step>, i: nat, j: nat, n: nat, slow: bool)
    requires IsRunOf(run, steps) && i < j < n <= |steps|
    requires steps[i].SubmitStep? && steps[j].SubmitStep? && steps[i].slow == steps[j].slow == slow
    requires steps[j].w in run[n].ran && NeverTaken(run, steps, n, steps[i].w)
    ensures steps[i].w in run[n].ran
  {
    RunOrdered(run, steps, n);
    var before := steps[..n];
    var p := SubmittedAt(before, i, slow);
    var q := SubmittedAt(before, j, slow);
    assert before[..i] == steps[..i] && before[..j] == steps[..j] && before[..i + 1] == steps[..i + 1];
    SubmittedGrows(steps, i + 1, j, slow);
    assert steps[..i + 1][..i] == steps[..i];
    TakenIff(run, steps, n, steps[i].w);
  }

  // ----- the exit -----

  /** exit_message has not been posted. */
  ghost predicate Open(s: State) {
    ExitMessage !in s.q.wq && Exited !in s.workers
  }

  /** It has been, after all these fast requests; what is left of them is ahead of it, and if a worker has exited none
      is. */
  ghost predicate Closing(s: State, all: seq<Item>, c: set<Item>) {
    && Distinct(all) && ExitMessage in s.q.wq && Works(Ahead(s.q.wq)) == LeftOf(all, s.ran + c)
    && (Exited in s.workers ==> LeftOf(all, s.ran + c) == [])
  }

  lemma SignalExits(a: seq<Worker>, b: seq<Worker>, on: bool)
    requires Signalled(a, b, on)
    ensures Exited in b <==> Exited in a
  {
    if on && exists j :: 0 <= j < |a| && a[j] == Waiting(false) {
      var j :| 0 <= j < |a| && a[j] == Waiting(false) && b == a[j := Waiting(true)];
      assert forall i :: 0 <= i < |a| ==> (a[i] == Exited <==> b[i] == Exited);
      if Exited in a {
        var i :| 0 <= i < |a| && a[i] == Exited;
        assert b[i] == Exited;
      }
    }
  }

  lemma OneMoved(a: seq<Worker>, i: nat, x: Worker)
    requires i < |a| && a[i] != Exited
    ensures Exited in a[i := x] <==> Exited in a || x == Exited
  {
    if Exited in a {
      var j :| 0 <= j < |a| && a[j] == Exited;
      assert a[i := x][j] == Exited;
    }
    assert a[i := x][i] == x;
  }

  lemma StaysOpen(s: State, t: State, step: Step)
    requires Open(s) && NextStep(s, t, step) && !step.ShutdownStep?
    ensures Open(t)
  {
    match step
    case SubmitStep(_, _, slow) =>
      SignalExits(s.workers, t.workers, Post(s.q, Work(step.w), slow).1 && s.idle > 0);
    case TurnStep(i) =>
      var turn := Take(AfterLock(s, i), Limit(s));
      TakeOrder(AfterLock(s, i), Limit(s));
      OneMoved(s.workers, i, Settle(turn.out));
      var idle := if s.workers[i].Waiting? then s.idle - 1 else s.idle;
      SignalExits(s.workers[i := Settle(turn.out)], t.workers, turn.signal && (turn.out.Exit? || idle > 0));
    case SpuriousStep(i) => OneMoved(s.workers, i, Waiting(true));
    case CompleteStep(i) => OneMoved(s.workers, i, Finished(s.workers[i].slow));
    case CancelStep(w) => NoExitWithout(s.q.wq, w);
    case _ =>
  }

  lemma ShutdownCloses(s: State, t: State, f: seq<Item>, g: seq<Item>, c: set<Item>)
    requires Ordered(s, f, g, c) && Open(s) && Shutdown(s, t)
    ensures Closing(t, f, c)
  {
    AheadAppend(s.q.wq, [ExitMessage]);
    assert Ahead([ExitMessage]) == [] && s.q.wq + [] == s.q.wq;
    SignalExits(s.workers, t.workers, s.idle > 0);
  }

  lemma TurnClosing(s: State, t: State, i: nat, all: seq<Item>, f: seq<Item>, g: seq<Item>, c: set<Item>)
    requires Ordered(s, f, g, c) && Closing(s, all, c) && (forall w :: w in all ==> w in f) && WorkerTurn(s, t, i)
    ensures Closing(t, all, c)
  {
    var q := AfterLock(s, i);
    var turn := Take(q, Limit(s));
    TakeOrder(q, Limit(s));
    OneMoved(s.workers, i, Settle(turn.out));
    var idle := if s.workers[i].Waiting? then s.idle - 1 else s.idle;
    SignalExits(s.workers[i := Settle(turn.out)], t.workers, turn.signal && (turn.out.Exit? || idle > 0));
    if turn.out.Run? {
      TakenClosing(s, all, f, g, c, turn.out.w, turn.out.slow);
      assert s.ran + {turn.out.w} + c == s.ran + c + {turn.out.w};
    }
  }

  lemma TakenClosing(s: State, all: seq<Item>, f: seq<Item>, g: seq<Item>, c: set<Item>, w: Item, slow: bool)
    requires Ordered(s, f, g, c) && Closing(s, all, c) && (forall v :: v in all ==> v in f)
    requires if slow then s.q.pending != [] && w == s.q.pending[0]
             else Works(Ahead(s.q.wq)) != [] && w == Works(Ahead(s.q.wq))[0]
    ensures LeftOf(all, s.ran + c + {w}) == if slow then LeftOf(all, s.ran + c) else LeftOf(all, s.ran + c)[1..]
  {
    LeftLess(all, s.ran + c, w);
    if slow {
      LeftIn(g, s.ran + c);
      LeftIn(all, s.ran + c);
      WithoutNone(LeftOf(all, s.ran + c), w);
    }
  }

  lemma CancelClosing(s: State, t: State, w: Item, all: seq<Item>, c: set<Item>)
    requires Closing(s, all, c) && Cancel(s, t, w)
    ensures Closing(t, all, if t.cancelling != s.cancelling then c + {w} else c)
  {
    if s.linked[w] && s.work[w] != Null {
      AheadWithout(s.q.wq, w);
      WorksWithout(Ahead(s.q.wq), w);
      LeftLess(all, s.ran + c, w);
      assert s.ran + (c + {w}) == s.ran + c + {w};
      assert s.loopOf[w] in t.cancelling;
    }
  }

  lemma StepClosing(s: State, t: State, step: Step, all: seq<Item>, f: seq<Item>, g: seq<Item>, c: set<Item>)
    requires Ordered(s, f, g, c) && Closing(s, all, c) && (forall w :: w in all ==> w in f) && NextStep(s, t, step)
    ensures Closing(t, all, AlsoTaken(c, s, t, step))
  {
    match step
    case SubmitStep(_, w, slow) =>
      AheadAppend(s.q.wq, [SlowMessage]);
      AheadAppend(s.q.wq, [Work(w)]);
      SignalExits(s.workers, t.workers, Post(s.q, Work(w), slow).1 && s.idle > 0);
    case TurnStep(i) => TurnClosing(s, t, i, all, f, g, c);
    case SpuriousStep(i) => OneMoved(s.workers, i, Waiting(true));
    case CompleteStep(i) => OneMoved(s.workers, i, Finished(s.workers[i].slow));
    case CancelStep(w) => CancelClosing(s, t, w, all, c);
    case _ =>
  }

  /** No shutdown among the steps. */
  predicate NoShutdown(steps: seq<Step>) {
    forall i :: 0 <= i < |steps| ==> !steps[i].ShutdownStep?
  }

  lemma {:induction false} RunOpen(run: seq<State>, steps: seq<Step>, n: nat)
    requires IsRunOf(run, steps) && n <= |steps| && NoShutdown(steps[..n])
    ensures Open(run[n])
  {
    if n > 0 {
      assert forall i :: 0 <= i < n ==> steps[..n][i] == steps[i];
      RunOpen(run, steps, n - 1);
      assert Stepped(run, steps, n - 1);
      StaysOpen(run[n - 1], run[n], steps[n - 1]);
    }
  }

  lemma {:induction false} RunClosing(run: seq<State>, steps: seq<Step>, j: nat, n: nat)
    requires IsRunOf(run, steps) && j < n <= |steps| && steps[j] == ShutdownStep && NoShutdown(steps[..j])
    ensures Closing(run[n], Submitted(steps[..j], false), TakenBy(run, steps, n))
  {
    RunOrdered(run, steps, n - 1);
    assert Stepped(run, steps, n - 1);
    if n == j + 1 {
      RunOpen(run, steps, j);
      ShutdownCloses(run[j], run[n], Submitted(steps[..j], false), Submitted(steps[..j], true),
                     TakenBy(run, steps, j));
    } else {
      RunClosing(run, steps, j, n - 1);
      SubmittedStays(steps, j, n - 1);
      StepClosing(run[n - 1], run[n], steps[n - 1], Submitted(steps[..j], false), Submitted(steps[..n - 1], false),
                  Submitted(steps[..n - 1], true), TakenBy(run, steps, n - 1));
    }
  }

  lemma {:induction false} SubmittedStays(steps: seq<Step>, i: nat, j: nat)
    requires i <= j <= |steps|
    ensures forall w :: w in Submitted(steps[..i], false) ==> w in Submitted(steps[..j], false)
  {
    if i < j {
      SubmittedStays(steps, i, j - 1);
      assert steps[..j][..j - 1] == steps[..j - 1];
    }
  }

  /** exit_message is posted once. */
  lemma {:induction false} OneShutdown(run: seq<State>, steps: seq<Step>, j: nat)
    requires IsRunOf(run, steps) && j < |steps| && steps[j] == ShutdownStep
    ensures NoShutdown(steps[..j])
  {
    if i :| 0 <= i < j && steps[i] == ShutdownStep && NoShutdown(steps[..i]) {
      assert Stepped(run, steps, j);
      RunClosing(run, steps, i, j);
      assert false;
    }
    FirstShutdown(steps, j);
  }

  lemma {:induction false} FirstShutdown(steps: seq<Step>, n: nat)
    requires n <= |steps|
    ensures NoShutdown(steps[..n]) || exists i :: 0 <= i < n && steps[i] == ShutdownStep && NoShutdown(steps[..i])
  {
    if n > 0 {
      FirstShutdown(steps, n - 1);
      if NoShutdown(steps[..n - 1]) && !steps[n - 1].ShutdownStep? {
        assert forall i :: 0 <= i < n - 1 ==> steps[..n][i] == steps[..n - 1][i];
        assert steps[..n][n - 1] == steps[n - 1];
      }
    }
  }

  /** A worker exits only when every fast request submitted before exit_message has been run or cancelled. */
  lemma NoneLeftBehind(run: seq<State>, steps: seq<Step>, i: nat, j: nat, n: nat)
    requires IsRunOf(run, steps) && i < j < n <= |steps| && steps[i].SubmitStep? && !steps[i].slow
             && steps[j] == ShutdownStep
    requires Exited in run[n].workers && NeverTaken(run, steps, n, steps[i].w)
    ensures steps[i].w in run[n].ran
  {
    OneShutdown(run, steps, j);
    RunClosing(run, steps, j, n);
    var all := Submitted(steps[..j], false);
    var p := SubmittedAt(steps[..j], i, false);
    assert all[p] == steps[i].w;
    LeftIn(all, run[n].ran + TakenBy(run, steps, n));
    assert steps[i].w !in LeftOf(all, run[n].ran + TakenBy(run, steps, n));
    TakenIff(run, steps, n, steps[i].w);
  }

  // ----- slow requests that are left behind -----

  /** Two workers; a and b are slow requests of loop 0. */
  function Pair(wq: seq<Entry>, pending: seq<Item>, running: nat, workers: seq<Worker>, work: map<Item, WorkPtr>,
      linked: map<Item, bool>, loopQ: map<Loop, seq<Item>>, ran: set<Item>): State {
    State(Queues(wq, pending, running), 0, workers, map w | w in work :: 0, work, linked, map[], loopQ, map[], ran, [],
          [])
  }

  /** While a runs, b is pending behind it; exit_message comes, the second worker moves the slow message behind it and
      exits, and so does the first one when a is done. */
  function LeftRun(a: Item, b: Item): seq<State> {
    var exit := [ExitMessage, SlowMessage];
    [Pair([], [], 0, [Ready, Ready], map[], map[], map[], {}),
     Pair([SlowMessage], [a], 0, [Ready, Ready], map[a := User], map[a := true], map[], {}),
     Pair([], [], 1, [Running(a, true), Ready], map[a := User], map[a := false], map[], {a}),
     Pair([SlowMessage], [b], 1, [Running(a, true), Ready], map[a := User, b := User], map[a := false, b := true],
          map[], {a}),
     Pair([SlowMessage, ExitMessage], [b], 1, [Running(a, true), Ready], map[a := User, b := User],
          map[a := false, b := true], map[], {a}),
     Pair(exit, [b], 1, [Running(a, true), Exited], map[a := User, b := User], map[a := false, b := true], map[], {a}),
     Pair(exit, [b], 1, [Finished(true), Exited], map[a := Null, b := User], map[a := true, b := true], map[0 := [a]],
          {a}),
     Pair(exit, [b], 0, [Exited, Exited], map[a := Null, b := User], map[a := true, b := true], map[0 := [a]], {a})]
  }

  function LeftSteps(a: Item, b: Item): seq<Step> {
    [SubmitStep(0, a, true), TurnStep(0), SubmitStep(0, b, true), ShutdownStep, TurnStep(1), CompleteStep(0),
     TurnStep(0)]
  }

  lemma LeftBegins(a: Item, b: Item)
    requires a != b
    ensures Init(LeftRun(a, b)[0]) && Stepped(LeftRun(a, b), LeftSteps(a, b), 0)
  {
    var r := LeftRun(a, b);
    assert [] + [a] == [a];
    assert Submit(r[0], r[1], 0, a, true);
  }

  lemma LeftFirst(a: Item, b: Item)
    requires a != b
    ensures Stepped(LeftRun(a, b), LeftSteps(a, b), 1)
  {
    var r := LeftRun(a, b);
    assert [SlowMessage][1..] == [] && [a][1..] == [] && Messages([SlowMessage]) == 1;
    assert Take(r[1].q, 1) == Turn(Queues([], [], 1), Run(a, true), false);
    assert WorkerTurn(r[1], r[2], 0);
  }

  lemma LeftSecond(a: Item, b: Item)
    requires a != b
    ensures Stepped(LeftRun(a, b), LeftSteps(a, b), 2) && Stepped(LeftRun(a, b), LeftSteps(a, b), 3)
  {
    var r := LeftRun(a, b);
    assert [] + [b] == [b] && [SlowMessage] + [ExitMessage] == [SlowMessage, ExitMessage];
    assert r[3].loopOf == r[2].loopOf[b := 0];
    assert Submit(r[2], r[3], 0, b, true) && Shutdown(r[3], r[4]);
  }

  lemma LeftExit(a: Item, b: Item)
    requires a != b
    ensures Stepped(LeftRun(a, b), LeftSteps(a, b), 4)
  {
    var r := LeftRun(a, b);
    var moved := r[4].q.(wq := [ExitMessage, SlowMessage]);
    assert [SlowMessage, ExitMessage][1..] == [ExitMessage] && [ExitMessage] + [SlowMessage] == moved.wq;
    assert Messages([ExitMessage]) == 0 && Messages([SlowMessage, ExitMessage]) == 1;
    assert Take(moved, 1) == Turn(moved, Exit, true);
    assert Take(r[4].q, 1) == Turn(moved, Exit, true);
    assert WorkerTurn(r[4], r[5], 1);
  }

  lemma LeftEnd(a: Item, b: Item)
    requires a != b
    ensures Stepped(LeftRun(a, b), LeftSteps(a, b), 5) && Stepped(LeftRun(a, b), LeftSteps(a, b), 6)
  {
    var r := LeftRun(a, b);
    assert [] + [a] == [a];
    assert [ExitMessage, SlowMessage][1..] == [SlowMessage] && Messages([SlowMessage]) == 1;
    assert Take(r[6].q.(running := 0), 1) == Turn(r[6].q.(running := 0), Exit, true);
    assert Complete(r[5], r[6], 0) && WorkerTurn(r[6], r[7], 0);
  }

  ghost function LeftStep(r: seq<State>, t: seq<Step>): nat -> bool {
    (i: nat) => |r| == |t| + 1 && i < |t| && Stepped(r, t, i)
  }

  lemma Seven(p: nat -> bool)
    requires p(0) && p(1) && p(2) && p(3) && p(4) && p(5) && p(6)
    ensures forall i: nat :: i < 7 ==> p(i)
  {
  }

  /** With slow requests it is otherwise: b was submitted before exit_message and never cancelled, every worker has
      exited, and it has not been run. */
  lemma SlowLeftBehind(a: Item, b: Item)
    requires a != b
    ensures var r, t := LeftRun(a, b), LeftSteps(a, b);
      && IsRunOf(r, t) && t[2] == SubmitStep(0, b, true) && t[3] == ShutdownStep && NeverTaken(r, t, 7, b)
      && r[7].workers == [Exited, Exited] && b !in r[7].ran
  {
    LeftIsRun(a, b);
  }

  lemma LeftIsRun(a: Item, b: Item)
    requires a != b
    ensures IsRunOf(LeftRun(a, b), LeftSteps(a, b))
  {
    LeftBegins(a, b);
    LeftFirst(a, b);
    LeftSecond(a, b);
    LeftExit(a, b);
    LeftEnd(a, b);
    Seven(LeftStep(LeftRun(a, b), LeftSteps(a, b)));
  }
}
