/** Slow requests do not overtake fast ones, in every run in which no slow request is cancelled. */
module ThreadPoolFairness {
  import opened PoolQueues
  import opened ThreadPool
  import opened ThreadPoolOrder

  /** What is queued behind the slow message. */
  function Behind(wq: seq<Entry>): seq<Entry> {
    if wq == [] then [] else if wq[0] == SlowMessage then wq[1..] else Behind(wq[1..])
  }

  lemma {:induction false} BehindAppend(a: seq<Entry>, b: seq<Entry>)
    ensures SlowMessage in a ==> Behind(a + b) == Behind(a) + b
    ensures SlowMessage !in a ==> Behind(a + b) == Behind(b)
  {
    if a == [] {
      assert a + b == b;
    } else {
      assert (a + b)[1..] == a[1..] + b;
      BehindAppend(a[1..], b);
    }
  }

  /** A slow request is taken only when the slow message is first; then, and when it is put off, the message goes to the
      end. */
  ghost predicate TookInTurn(q: Queues, t: Turn) {
    if t.out.Run? && t.out.slow then
      && q.wq != [] && q.wq[0] == SlowMessage
      && (if t.q.pending == [] then SlowMessage !in t.q.wq else SlowMessage in t.q.wq && Behind(t.q.wq) == [])
    else
      && (q.pending != [] ==> (SlowMessage in t.q.wq <==> SlowMessage in q.wq))
      && (SlowMessage !in q.wq ==> SlowMessage !in t.q.wq)
      && (Behind(t.q.wq) == Behind(q.wq) || Behind(t.q.wq) == [])
  }

  lemma NoMessage(wq: seq<Entry>)
    requires wq != [] && wq[0] == SlowMessage && Messages(wq) <= 1
    ensures SlowMessage !in wq[1..]
  {
    MessagesIn(wq[1..]);
  }

  lemma {:induction false} NoneBehind(wq: seq<Entry>)
    requires SlowMessage !in wq
    ensures Behind(wq) == []
  {
    if wq != [] {
      NoneBehind(wq[1..]);
    }
  }

  lemma {:induction false} TakeInTurn(q: Queues, limit: nat)
    requires Messages(q.wq) <= 1
    ensures TookInTurn(q, Take(q, limit))
    decreases |q.wq|, if q.wq != [] && q.wq[0] == SlowMessage then 1 else 0
  {
    if !Blocked(q, limit) && q.wq[0] != ExitMessage {
      var rest := q.wq[1..];
      assert q.wq == [q.wq[0]] + rest;
      if q.wq[0] == SlowMessage {
        NoMessage(q.wq);
        NoneBehind(rest);
        BehindAppend(rest, [SlowMessage]);
        MessagesAppend(rest, [SlowMessage]);
        MessagesIn(rest);
        if q.running >= limit {
          TakeInTurn(q.(wq := rest + [SlowMessage]), limit);
        } else if q.pending == [] {
          TakeInTurn(q.(wq := rest), limit);
        }
      }
    }
  }

  // ----- what every step keeps -----

  ghost predicate Apart(a: seq<Item>, b: seq<Item>) {
    forall w :: w in a ==> w !in b
  }

  /** For each slow request, how many fast ones had been submitted before it. */
  function Marks(steps: seq<Step>): (marks: seq<nat>)
    ensures |marks| == |Submitted(steps, true)|
    ensures forall k :: 0 <= k < |marks| ==> marks[k] <= |Submitted(steps, false)|
  {
    if steps == [] then []
    else
      var before, step := Marks(steps[..|steps| - 1]), steps[|steps| - 1];
      if step.SubmitStep? && step.slow then before + [|Submitted(steps[..|steps| - 1], false)|] else before
  }

  /** The fast requests submitted before the first pending slow one are not behind the slow message, and those submitted
      before one that has been run have been run too, or cancelled. */
  ghost predicate Fair(s: State, f: seq<Item>, g: seq<Item>, marks: seq<nat>, c: set<Item>) {
    && |marks| == |g| && (forall k :: 0 <= k < |marks| ==> marks[k] <= |f|)
    && (s.q.pending == [] <==> SlowMessage !in s.q.wq)
    && (forall p {:trigger g[p]} ::
          0 <= p < |g| && s.q.pending != [] && g[p] == s.q.pending[0] ==>
            Apart(f[..marks[p]], Works(Behind(s.q.wq))))
    && (forall p, w {:trigger w in f[..marks[p]]} ::
          0 <= p < |g| && g[p] in s.ran && w in f[..marks[p]] ==> w in s.ran || w in c)
    && (forall w :: w in g ==> w !in c)
  }

  function MarksAfter(marks: seq<nat>, f: seq<Item>, step: Step): seq<nat> {
    if step.SubmitStep? && step.slow then marks + [|f|] else marks
  }

  lemma SubmitFair(s: State, t: State, step: Step, f: seq<Item>, g: seq<Item>, marks: seq<nat>, c: set<Item>)
    requires Ordered(s, f, g, c) && Fair(s, f, g, marks, c) && step.SubmitStep? && NextStep(s, t, step)
    ensures Fair(t, After(f, step, false), After(g, step, true), MarksAfter(marks, f, step), c)
  {
    if step.slow {
      SlowFair(s, t, step.l, step.w, f, g, marks, c);
    } else {
      FastFair(s, t, step.l, step.w, f, g, marks, c);
    }
  }

  lemma FastFair(s: State, t: State, l: Loop, w: Item, f: seq<Item>, g: seq<Item>, marks: seq<nat>, c: set<Item>)
    requires Ordered(s, f, g, c) && Fair(s, f, g, marks, c) && Submit(s, t, l, w, false)
    ensures Fair(t, f + [w], g, marks, c)
  {
    BehindAppend(s.q.wq, [Work(w)]);
    WorksAppend(Behind(s.q.wq), [Work(w)]);
    assert forall p :: 0 <= p < |g| ==> (f + [w])[..marks[p]] == f[..marks[p]];
    assert forall p, v :: 0 <= p < |g| && v in f[..marks[p]] ==> v in f;
  }

  lemma SlowFair(s: State, t: State, l: Loop, w: Item, f: seq<Item>, g: seq<Item>, marks: seq<nat>, c: set<Item>)
    requires Ordered(s, f, g, c) && Fair(s, f, g, marks, c) && Submit(s, t, l, w, true)
    ensures Fair(t, f, g + [w], marks + [|f|], c)
  {
    BehindAppend(s.q.wq, [SlowMessage]);
    var g', marks' := g + [w], marks + [|f|];
    LeftIn(g, s.ran + c);
    forall p | 0 <= p < |g'| && g'[p] == t.q.pending[0]
      ensures Apart(f[..marks'[p]], Works(Behind(t.q.wq)))
    {
      if s.q.pending != [] {
        assert p < |g| && g[p] == s.q.pending[0];
      }
    }
  }

  lemma TurnFair(s: State, t: State, i: nat, f: seq<Item>, g: seq<Item>, marks: seq<nat>, c: set<Item>)
    requires Ordered(s, f, g, c) && Fair(s, f, g, marks, c) && WorkerTurn(s, t, i)
    ensures Fair(t, f, g, marks, c)
  {
    var q := AfterLock(s, i);
    var out := Take(q, Limit(s)).out;
    TakeOrder(q, Limit(s));
    TakeInTurn(q, Limit(s));
    LeftIn(f, s.ran + c);
    LeftIn(g, s.ran + c);
    if out.Run? {
      RanFair(s, f, g, marks, c, out.w, out.slow);
    }
  }

  lemma RanFair(s: State, f: seq<Item>, g: seq<Item>, marks: seq<nat>, c: set<Item>, v: Item, slow: bool)
    requires Ordered(s, f, g, c) && Fair(s, f, g, marks, c)
    requires if slow then s.q.pending != [] && v == s.q.pending[0] && s.q.wq != [] && s.q.wq[0] == SlowMessage
             else Works(s.q.wq) != [] && v == Works(s.q.wq)[0]
    ensures forall p, w {:trigger w in f[..marks[p]]} ::
              0 <= p < |g| && g[p] in s.ran + {v} && w in f[..marks[p]] ==> w in s.ran || w in c
  {
    LeftIn(f, s.ran + c);
    if slow {
      SlowTaken(s, f, g, marks, c);
    } else {
      assert v in Works(s.q.wq) && v in f;
    }
    forall p, w | 0 <= p < |g| && g[p] in s.ran + {v} && w in f[..marks[p]] ensures w in s.ran || w in c {
      assert g[p] in s.ran || g[p] == v;
    }
  }

  /** When the slow message is first, all that was submitted before the first pending request is gone. */
  lemma SlowTaken(s: State, f: seq<Item>, g: seq<Item>, marks: seq<nat>, c: set<Item>)
    requires Ordered(s, f, g, c) && Fair(s, f, g, marks, c) && s.q.pending != []
             && s.q.wq != [] && s.q.wq[0] == SlowMessage
    ensures forall p, w {:trigger w in f[..marks[p]]} ::
              0 <= p < |g| && g[p] == s.q.pending[0] && w in f[..marks[p]] ==> w in s.ran || w in c
  {
    LeftIn(f, s.ran + c);
    assert Works(s.q.wq) == Works(Behind(s.q.wq));
    forall p, w | 0 <= p < |g| && g[p] == s.q.pending[0] && w in f[..marks[p]] ensures w in s.ran || w in c {
      assert w in f && w !in Works(Behind(s.q.wq));
    }
  }

  lemma ShutdownFair(s: State, t: State, f: seq<Item>, g: seq<Item>, marks: seq<nat>, c: set<Item>)
    requires Fair(s, f, g, marks, c) && Shutdown(s, t)
    ensures Fair(t, f, g, marks, c)
  {
    BehindAppend(s.q.wq, [ExitMessage]);
    WorksAppend(Behind(s.q.wq), [ExitMessage]);
  }

  /** Fair depends on the queues and on what has been run alone. */
  lemma SameFair(s: State, t: State, f: seq<Item>, g: seq<Item>, marks: seq<nat>, c: set<Item>)
    requires Fair(s, f, g, marks, c) && t.q.wq == s.q.wq && t.q.pending == s.q.pending && t.ran == s.ran
    ensures Fair(t, f, g, marks, c)
  {
  }

  lemma StepFair(s: State, t: State, step: Step, f: seq<Item>, g: seq<Item>, marks: seq<nat>, c: set<Item>)
    requires Ordered(s, f, g, c) && Fair(s, f, g, marks, c) && NextStep(s, t, step)
    requires step.CancelStep? ==> step.w !in g || t.cancelling == s.cancelling
    ensures Fair(t, After(f, step, false), After(g, step, true), MarksAfter(marks, f, step), AlsoTaken(c, s, t, step))
  {
    match step
    case SubmitStep(l, w, slow) => SubmitFair(s, t, step, f, g, marks, c);
    case ShutdownStep => ShutdownFair(s, t, f, g, marks, c);
    case TurnStep(i) => TurnFair(s, t, i, f, g, marks, c);
    case CancelStep(w) => CancelFair(s, t, w, f, g, marks, c);
    case _ => SameFair(s, t, f, g, marks, c);
  }

  lemma CancelFair(s: State, t: State, w: Item, f: seq<Item>, g: seq<Item>, marks: seq<nat>, c: set<Item>)
    requires Ordered(s, f, g, c) && Fair(s, f, g, marks, c) && Cancel(s, t, w)
    requires w !in g || t.cancelling == s.cancelling
    ensures Fair(t, f, g, marks, if t.cancelling != s.cancelling then c + {w} else c)
  {
    if s.linked[w] && s.work[w] != Null {
      assert s.loopOf[w] in t.cancelling;
      LeftIn(g, s.ran + c);
      WithoutNone(s.q.pending, w);
      BehindWithout(s.q.wq, w);
      WorksWithout(Behind(s.q.wq), w);
      Fewer(Works(Behind(s.q.wq)), w);
    }
  }

  lemma {:induction false} Fewer(s: seq<Item>, w: Item)
    ensures forall v :: v in Without(s, w) ==> v in s
  {
    if s != [] && s[0] != w {
      Fewer(s[1..], w);
    }
  }

  lemma {:induction false} BehindWithout(wq: seq<Entry>, w: Item)
    ensures SlowMessage in Without(wq, Work(w)) <==> SlowMessage in wq
    ensures Behind(Without(wq, Work(w))) in {Behind(wq), Without(Behind(wq), Work(w))}
  {
    if wq != [] {
      assert wq == [wq[0]] + wq[1..];
      BehindWithout(wq[1..], w);
      if wq[0] != Work(w) {
        assert ([wq[0]] + Without(wq[1..], Work(w)))[1..] == Without(wq[1..], Work(w));
      }
    }
  }

  // ----- runs -----

  /** None of the slow requests submitted is ever cancelled. */
  ghost predicate NoSlowTaken(run: seq<State>, steps: seq<Step>, n: nat)
    requires |run| == |steps| + 1 && n <= |steps|
  {
    var slow := Submitted(steps[..n], true);
    forall w :: w in slow ==> NeverTaken(run, steps, n, w)
  }

  lemma NoSlowBefore(run: seq<State>, steps: seq<Step>, n: nat)
    requires 0 < n <= |steps| && |run| == |steps| + 1 && NoSlowTaken(run, steps, n)
    ensures NoSlowTaken(run, steps, n - 1)
  {
    assert steps[..n][..n - 1] == steps[..n - 1];
    var slow := Submitted(steps[..n - 1], true);
    forall w | w in slow ensures NeverTaken(run, steps, n - 1, w) {
      assert w in Submitted(steps[..n], true) && NeverTaken(run, steps, n, w);
    }
  }

  /** What one more step adds to what was submitted and to the marks. */
  lemma OneMore(steps: seq<Step>, n: nat)
    requires n < |steps|
    ensures Submitted(steps[..n + 1], false) == After(Submitted(steps[..n], false), steps[n], false)
    ensures Submitted(steps[..n + 1], true) == After(Submitted(steps[..n], true), steps[n], true)
    ensures Marks(steps[..n + 1]) == MarksAfter(Marks(steps[..n]), Submitted(steps[..n], false), steps[n])
  {
    assert steps[..n + 1][..n] == steps[..n] && steps[..n + 1][n] == steps[n];
  }

  lemma {:induction false} RunFair(run: seq<State>, steps: seq<Step>, n: nat)
    requires IsRunOf(run, steps) && n <= |steps| && NoSlowTaken(run, steps, n)
    ensures Fair(run[n], Submitted(steps[..n], false), Submitted(steps[..n], true), Marks(steps[..n]),
                 TakenBy(run, steps, n))
  {
    if n == 0 {
      assert steps[..0] == [];
    } else {
      NoSlowBefore(run, steps, n);
      RunFair(run, steps, n - 1);
      RunOrdered(run, steps, n - 1);
      assert Stepped(run, steps, n - 1);
      OneMore(steps, n - 1);
      NotTaken(run, steps, n);
      StepFair(run[n - 1], run[n], steps[n - 1], Submitted(steps[..n - 1], false), Submitted(steps[..n - 1], true),
               Marks(steps[..n - 1]), TakenBy(run, steps, n - 1));
    }
  }

  lemma NotTaken(run: seq<State>, steps: seq<Step>, n: nat)
    requires 0 < n <= |steps| && |run| == |steps| + 1 && NoSlowTaken(run, steps, n)
    ensures var step := steps[n - 1];
      step.CancelStep? && step.w in Submitted(steps[..n - 1], true) ==> run[n].cancelling == run[n - 1].cancelling
  {
    OneMore(steps, n - 1);
    var w := if steps[n - 1].CancelStep? then steps[n - 1].w else 0;
    if steps[n - 1] == CancelStep(w) && w in Submitted(steps[..n - 1], true) {
      assert w in Submitted(steps[..n], true) && !Took(run, steps, n - 1, w);
    }
  }

  /** Where the i-th step's slow request stands, and its mark. */
  lemma {:induction false} MarkedAt(steps: seq<Step>, i: nat) returns (p: nat)
    requires i < |steps| && steps[i].SubmitStep? && steps[i].slow
    ensures p < |Marks(steps)| && Submitted(steps, true)[p] == steps[i].w
            && Marks(steps)[p] == |Submitted(steps[..i], false)|
    decreases |steps|
  {
    var n := |steps| - 1;
    if i < n {
      p := MarkedAt(steps[..n], i);
      assert steps[..n][..i] == steps[..i];
    } else {
      p := |Marks(steps)| - 1;
    }
  }

  /** A slow request is run after every fast one that was submitted before it and has not been cancelled, if no slow
      request is. */
  lemma SlowWaitItsTurn(run: seq<State>, steps: seq<Step>, i: nat, j: nat, n: nat)
    requires IsRunOf(run, steps) && i < j < n <= |steps| && NoSlowTaken(run, steps, n)
    requires steps[i].SubmitStep? && !steps[i].slow && steps[j].SubmitStep? && steps[j].slow
    requires steps[j].w in run[n].ran && NeverTaken(run, steps, n, steps[i].w)
    ensures steps[i].w in run[n].ran
  {
    RunFair(run, steps, n);
    var before := steps[..n];
    var f, g, marks := Submitted(before, false), Submitted(before, true), Marks(before);
    var p := SubmittedAt(before, i, false);
    var q := MarkedAt(before, j);
    assert before[..i] == steps[..i] && before[..j] == steps[..j] && before[..i + 1] == steps[..i + 1];
    SubmittedGrows(steps, i + 1, j, false);
    assert steps[..i + 1][..i] == steps[..i];
    assert f[..marks[q]][p] == steps[i].w && steps[i].w in f[..marks[q]];
    assert g[q] == steps[j].w && g[q] in run[n].ran;
    TakenIff(run, steps, n, steps[i].w);
  }

  // ----- a slow request that overtakes -----

  /** One worker; a and b are slow requests, w is a fast one. */
  function Lone(q: Queues, worker: Worker, loopOf: map<Item, Loop>, linked: map<Item, bool>, none: map<Loop, seq<Item>>,
      cancelling: map<Loop, Item>, ran: set<Item>): State {
    State(q, 0, [worker], loopOf, map w | w in loopOf :: User, linked, cancelling, none, none, ran, [], [])
  }

  /** a is cancelled and the slow message stays; then w comes, and b, which is taken first. */
  function OvertakingAt(a: Item, w: Item, b: Item, k: nat): State {
    var none, gone := map[0 := []], map[0 := a];
    match k
    case 0 => Lone(Queues([], [], 0), Ready, map[], map[], map[], map[], {})
    case 1 => Lone(Queues([SlowMessage], [a], 0), Ready, map[a := 0], map[a := true], map[], map[], {})
    case 2 => Lone(Queues([SlowMessage], [], 0), Ready, map[a := 0], map[a := true], none, gone, {})
    case 3 => Lone(Queues([SlowMessage, Work(w)], [], 0), Ready, map[a := 0, w := 1], map[a := true, w := true], none,
                   gone, {})
    case 4 => Lone(Queues([SlowMessage, Work(w)], [b], 0), Ready, map[a := 0, w := 1, b := 1],
                   map[a := true, w := true, b := true], none, gone, {})
    case _ => Lone(Queues([Work(w)], [], 1), Running(b, true), map[a := 0, w := 1, b := 1],
                   map[a := true, w := true, b := false], none, gone, {b})
  }

  function OvertakingRun(a: Item, w: Item, b: Item): seq<State> {
    seq(6, k requires 0 <= k < 6 => OvertakingAt(a, w, b, k))
  }

  function OvertakingSteps(a: Item, w: Item, b: Item): seq<Step> {
    [SubmitStep(0, a, true), CancelStep(a), SubmitStep(1, w, false), SubmitStep(1, b, true), TurnStep(0)]
  }

  lemma OvertakingBegins(a: Item, w: Item, b: Item)
    requires a != w && a != b && w != b
    ensures var s, t := OvertakingAt(a, w, b, 0), OvertakingAt(a, w, b, 1);
      Init(s) && NextStep(s, t, SubmitStep(0, a, true))
  {
    var s, t := OvertakingAt(a, w, b, 0), OvertakingAt(a, w, b, 1);
    assert [] + [a] == [a] && [] + [SlowMessage] == [SlowMessage];
    assert Submit(s, t, 0, a, true);
  }

  lemma OvertakingCancels(a: Item, w: Item, b: Item)
    requires a != w && a != b && w != b
    ensures var s, t := OvertakingAt(a, w, b, 1), OvertakingAt(a, w, b, 2); NextStep(s, t, CancelStep(a))
  {
    var s, t := OvertakingAt(a, w, b, 1), OvertakingAt(a, w, b, 2);
    assert Without([a], a) == [] && Without([SlowMessage], Work(a)) == [SlowMessage];
    assert s.q.pending == [a] && a in s.q.pending;
    assert Cancel(s, t, a);
  }

  lemma OvertakingSubmits(a: Item, w: Item, b: Item)
    requires a != w && a != b && w != b
    ensures var s, t := OvertakingAt(a, w, b, 2), OvertakingAt(a, w, b, 3); NextStep(s, t, SubmitStep(1, w, false))
  {
    var s, t := OvertakingAt(a, w, b, 2), OvertakingAt(a, w, b, 3);
    assert [SlowMessage] + [Work(w)] == [SlowMessage, Work(w)];
    assert t.loopOf == s.loopOf[w := 1];
    assert Submit(s, t, 1, w, false);
  }

  lemma OvertakingFollows(a: Item, w: Item, b: Item)
    requires a != w && a != b && w != b
    ensures var s, t := OvertakingAt(a, w, b, 3), OvertakingAt(a, w, b, 4); NextStep(s, t, SubmitStep(1, b, true))
  {
    var s, t := OvertakingAt(a, w, b, 3), OvertakingAt(a, w, b, 4);
    assert [] + [b] == [b] && SlowMessage in [SlowMessage, Work(w)];
    assert t.loopOf == s.loopOf[b := 1];
    assert Submit(s, t, 1, b, true);
  }

  lemma OvertakingEnds(a: Item, w: Item, b: Item)
    requires a != w && a != b && w != b
    ensures var s, t := OvertakingAt(a, w, b, 4), OvertakingAt(a, w, b, 5); NextStep(s, t, TurnStep(0))
  {
    var s, t := OvertakingAt(a, w, b, 4), OvertakingAt(a, w, b, 5);
    assert [SlowMessage, Work(w)][1..] == [Work(w)] && [b][1..] == [] && Messages([Work(w)]) == 0;
    assert Messages([SlowMessage, Work(w)]) == 1;
    assert Take(s.q, 1) == Turn(Queues([Work(w)], [], 1), Run(b, true), false);
    assert WorkerTurn(s, t, 0);
  }

  /** With a slow request cancelled it is otherwise: w was submitted before b and never cancelled, and b has been run
      without it. */
  lemma SlowOvertakes(a: Item, w: Item, b: Item)
    requires a != w && a != b && w != b
    ensures var r, t := OvertakingRun(a, w, b), OvertakingSteps(a, w, b);
      && IsRunOf(r, t) && t[2] == SubmitStep(1, w, false) && t[3] == SubmitStep(1, b, true)
      && NeverTaken(r, t, 5, w) && b in r[5].ran && w !in r[5].ran
  {
    OvertakingIsRun(a, w, b);
  }

  lemma OvertakingIsRun(a: Item, w: Item, b: Item)
    requires a != w && a != b && w != b
    ensures IsRunOf(OvertakingRun(a, w, b), OvertakingSteps(a, w, b))
  {
    OvertakingBegins(a, w, b);
    OvertakingCancels(a, w, b);
    OvertakingSubmits(a, w, b);
    OvertakingFollows(a, w, b);
    OvertakingEnds(a, w, b);
    FiveSteps(OvertakingRun(a, w, b), OvertakingSteps(a, w, b));
  }

  lemma FiveSteps(r: seq<State>, t: seq<Step>)
    requires |r| == 6 && |t| == 5 && Init(r[0]) && NextStep(r[0], r[1], t[0]) && NextStep(r[1], r[2], t[1])
    requires NextStep(r[2], r[3], t[2]) && NextStep(r[3], r[4], t[3]) && NextStep(r[4], r[5], t[4])
    ensures IsRunOf(r, t)
  {
    forall i | 0 <= i < 5 ensures Stepped(r, t, i) {
      assert i == 0 || i == 1 || i == 2 || i == 3 || i == 4;
    }
  }
}
