/** Async handles of async.c as interleaved steps: any number of sending threads and the loop thread,
    sharing each handle's pending field and one wakeup descriptor. Steps are sequentially consistent. */
module AsyncHandles {
  type Handle = nat

  /** A sender inside uv_async_send, after the named action. */
  datatype Sender = Outside | SawZero(h: Handle) | Claimed(h: Handle) | Wrote(h: Handle)

  /** The loop thread: waiting for events, emptying the descriptor in uv__async_io, going through the
      handles it moved aside, or spinning on one of them. */
  datatype Stage = Polling | Reading | Passing(todo: seq<Handle>) | Spinning(cur: Handle, rest: seq<Handle>)

  datatype Closing = NotClosing | ClosingHandle(h: Handle)

  datatype State = State(
    pending: map<Handle, int>,     // handle->pending, 0, 1 or 2
    handles: seq<Handle>,          // loop->async_handles
    bytes: nat,                    // what a read of the descriptor would find
    senders: seq<Sender>,
    stage: Stage,
    closing: Closing,
    aborted: bool,                 // uv_async_send reached abort()
    owed: set<Handle>)             // history: handles with a send that no callback has answered yet

  /** An eventfd is emptied by one read; a pipe gives up to 1024 bytes at a time and holds at most room. */
  datatype Descriptor = EventFd(room: nat) | Pipe(room: nat)

  ghost predicate Usable(fd: Descriptor) {
    fd.room > 0
  }

  function Min(a: nat, b: nat): nat {
    if a < b then a else b
  }

  /** The handles the current pass has still to look at. */
  function Todo(s: State): seq<Handle> {
    match s.stage
    case Passing(todo) => todo
    case Spinning(h, rest) => [h] + rest
    case _ => []
  }

  /** Open handles are exactly those on the loop's queue or moved aside by the pass. */
  ghost predicate IsOpen(s: State, h: Handle) {
    h in s.handles || h in Todo(s)
  }

  function Remove(q: seq<Handle>, h: Handle): seq<Handle> {
    if q == [] then [] else if q[0] == h then q[1..] else [q[0]] + Remove(q[1..], h)
  }

  // ----- steps -----

  ghost predicate Init(s: State) {
    && s.pending == map[] && s.handles == [] && s.bytes == 0 && s.stage == Polling && s.closing == NotClosing
    && (forall i :: 0 <= i < |s.senders| ==> s.senders[i] == Outside) && !s.aborted && s.owed == {}
  }

  /** uv_async_init, on the loop thread. */
  ghost predicate InitHandle(s: State, t: State, h: Handle) {
    && h !in s.pending && s.closing == NotClosing && !s.stage.Spinning?
    && t == s.(pending := s.pending[h := 0], handles := s.handles + [h])
  }

  /** The cheap read of uv_async_send; the caller vouches that the handle has not been closed. */
  ghost predicate SendRead(s: State, t: State, i: nat, h: Handle) {
    && i < |s.senders| && s.senders[i] == Outside && h in s.pending && IsOpen(s, h)
    && t == if s.pending[h] != 0 then s.(owed := s.owed + {h}) else s.(senders := s.senders[i := SawZero(h)])
  }

  /** cmpxchg(&pending, 0, 1) */
  ghost predicate SendClaim(s: State, t: State, i: nat) {
    && i < |s.senders| && s.senders[i].SawZero? && s.senders[i].h in s.pending
    && var h := s.senders[i].h;
    && t == if s.pending[h] == 0
            then s.(pending := s.pending[h := 1], senders := s.senders[i := Claimed(h)], owed := s.owed + {h})
            else s.(senders := s.senders[i := Outside], owed := s.owed + {h})
  }

  /** uv__async_send: one more byte, unless the descriptor is full (EAGAIN). */
  ghost predicate SendWrite(s: State, t: State, i: nat, fd: Descriptor) {
    && i < |s.senders| && s.senders[i].Claimed?
    && t ==
         s.(bytes := if s.bytes < fd.room then s.bytes + 1 else s.bytes,
            senders := s.senders[i := Wrote(s.senders[i].h)])
  }

  /** cmpxchg(&pending, 1, 2), with abort() when the old value was not 1. */
  ghost predicate SendDone(s: State, t: State, i: nat) {
    && i < |s.senders| && s.senders[i].Wrote? && s.senders[i].h in s.pending
    && var h := s.senders[i].h;
    && t == if s.pending[h] == 1 then s.(pending := s.pending[h := 2], senders := s.senders[i := Outside])
            else s.(aborted := true)
  }

  /** The poll reports the descriptor readable. */
  ghost predicate Wake(s: State, t: State) {
    s.stage == Polling && s.closing == NotClosing && s.bytes > 0 && t == s.(stage := Reading)
  }

  /** One read of uv__async_io; after a short one the handles are moved aside. */
  ghost predicate Read(s: State, t: State, fd: Descriptor) {
    && s.stage == Reading && s.closing == NotClosing
    && var got := if fd.EventFd? then s.bytes else Min(s.bytes, 1024);
    && t == if fd.Pipe? && got == 1024 then s.(bytes := s.bytes - got)
            else s.(bytes := s.bytes - got, stage := Passing(s.handles), handles := [])
  }

  /** The pass takes the next handle, putting it back at the end of the loop's queue, or ends. */
  ghost predicate Visit(s: State, t: State) {
    && s.stage.Passing? && s.closing == NotClosing
    && t == if s.stage.todo == [] then s.(stage := Polling)
            else s.(stage := Spinning(s.stage.todo[0], s.stage.todo[1..]))
  }

  /** One cmpxchg(&pending, 2, 0) of uv__async_spin during the pass; on 2 the callback follows. */
  ghost predicate Spin(s: State, t: State) {
    && s.stage.Spinning? && s.stage.cur in s.pending
    && var h := s.stage.cur;
    && t == if s.pending[h] == 1 then s
            else if s.pending[h] == 2 then
              s.(pending := s.pending[h := 0], stage := Passing(s.stage.rest), handles := s.handles + [h],
                 owed := s.owed - {h})
            else s.(stage := Passing(s.stage.rest), handles := s.handles + [h])
  }

  /** uv__async_close begins, on the loop thread. Nothing holds back a thread that has read pending == 0. */
  ghost predicate CloseBegin(s: State, t: State, h: Handle) {
    && s.closing == NotClosing && !s.stage.Spinning? && IsOpen(s, h)
    && t == s.(closing := ClosingHandle(h))
  }

  /** One cmpxchg of its uv__async_spin; anything but 1 lets the handle go. */
  ghost predicate CloseSpin(s: State, t: State) {
    && s.closing.ClosingHandle? && s.closing.h in s.pending
    && var h := s.closing.h;
    && t == if s.pending[h] == 1 then s
            else s.(pending := s.pending[h := 0], closing := NotClosing, handles := Remove(s.handles, h),
                    stage := if s.stage.Passing? then Passing(Remove(s.stage.todo, h)) else s.stage,
                    owed := s.owed - {h})
  }

  datatype Step = InitStep(h: Handle) | ReadPending(i: nat, h: Handle) | Claim(i: nat) | Write(i: nat) | Finish(i: nat)
    | WakeStep | ReadStep | VisitStep | SpinStep | CloseStep(h: Handle) | CloseSpinStep

  ghost predicate NextStep(s: State, t: State, fd: Descriptor, step: Step) {
    match step
    case InitStep(h) => InitHandle(s, t, h)
    case ReadPending(i, h) => SendRead(s, t, i, h)
    case Claim(i) => SendClaim(s, t, i)
    case Write(i) => SendWrite(s, t, i, fd)
    case Finish(i) => SendDone(s, t, i)
    case WakeStep => Wake(s, t)
    case ReadStep => Read(s, t, fd)
    case VisitStep => Visit(s, t)
    case SpinStep => Spin(s, t)
    case CloseStep(h) => CloseBegin(s, t, h)
    case CloseSpinStep => CloseSpin(s, t)
  }

  ghost predicate Next(s: State, t: State, fd: Descriptor) {
    exists step :: NextStep(s, t, fd, step)
  }

  ghost predicate IsRun(run: seq<State>, fd: Descriptor) {
    && |run| > 0 && Init(run[0]) && Usable(fd)
    && forall i :: 0 <= i < |run| - 1 ==> Next(run[i], run[i + 1], fd)
  }

  // ----- the invariant -----

  /** The sender is between its two exchanges on h. */
  predicate Between(x: Sender, h: Handle) {
    x == Claimed(h) || x == Wrote(h)
  }

  /** How many senders are between their two exchanges on h. */
  function Busy(senders: seq<Sender>, h: Handle): nat {
    if senders == [] then 0 else (if Between(senders[0], h) then 1 else 0) + Busy(senders[1..], h)
  }

  lemma {:induction false} BusyAfter(senders: seq<Sender>, i: nat, x: Sender, h: Handle)
    requires i < |senders|
    ensures Busy(senders[i := x], h) + (if Between(senders[i], h) then 1 else 0)
              == Busy(senders, h) + (if Between(x, h) then 1 else 0)
  {
    if i == 0 {
      assert senders[i := x][1..] == senders[1..];
    } else {
      assert senders[i := x][1..] == senders[1..][i - 1 := x];
      BusyAfter(senders[1..], i - 1, x, h);
    }
  }

  lemma {:induction false} NobodyBusy(senders: seq<Sender>, h: Handle)
    requires forall i :: 0 <= i < |senders| ==> !Between(senders[i], h)
    ensures Busy(senders, h) == 0
  {
    if senders != [] {
      forall i | 0 <= i < |senders[1..]| ensures !Between(senders[1..][i], h) {
        assert senders[1..][i] == senders[i + 1];
      }
      NobodyBusy(senders[1..], h);
    }
  }

  lemma {:induction false} SomebodyBusy(senders: seq<Sender>, h: Handle)
    requires Busy(senders, h) > 0
    ensures exists i :: 0 <= i < |senders| && Between(senders[i], h)
  {
    if !Between(senders[0], h) {
      SomebodyBusy(senders[1..], h);
      var i :| 0 <= i < |senders[1..]| && Between(senders[1..][i], h);
      assert Between(senders[i + 1], h);
    } else {
      assert 0 <= 0 < |senders| && Between(senders[0], h);
    }
  }

  /** pending is 1 exactly while one sender is between its two exchanges. */
  ghost predicate Exclusive(pending: map<Handle, int>, senders: seq<Sender>) {
    forall h {:trigger Busy(senders, h)} | h in pending ::
      0 <= pending[h] <= 2 && Busy(senders, h) == (if pending[h] == 1 then 1 else 0)
  }

  /** The handles of the senders inside uv_async_send have been initialised. */
  ghost predicate SendersKnown(s: State) {
    forall i :: 0 <= i < |s.senders| && !s.senders[i].Outside? ==> s.senders[i].h in s.pending
  }

  ghost predicate Distinct(q: seq<Handle>) {
    forall i, j :: 0 <= i < j < |q| ==> q[i] != q[j]
  }

  ghost predicate Disjoint(q: seq<Handle>, r: seq<Handle>) {
    forall h :: h in q ==> h !in r
  }

  /** No handle is queued twice, and every queued one is known. */
  ghost predicate Queued(s: State) {
    && Distinct(s.handles) && Distinct(Todo(s)) && Disjoint(s.handles, Todo(s))
    && (forall h :: h in s.handles ==> h in s.pending) && (forall h :: h in Todo(s) ==> h in s.pending)
  }

  ghost predicate ClosingKnown(s: State) {
    s.closing.ClosingHandle? ==> IsOpen(s, s.closing.h) && !s.stage.Spinning? && s.closing.h in s.pending
  }

  /** Someone will still get the loop to look at h: a sender about to write, a readable descriptor, a read that has
      not yet moved the handles aside, or a pass that has not come to h. */
  ghost predicate WillBeSeen(s: State, h: Handle) {
    Claimed(h) in s.senders || s.bytes > 0 || s.stage.Reading? || h in Todo(s)
  }

  ghost predicate Seen(s: State) {
    forall h {:trigger WillBeSeen(s, h)} {:trigger s.pending[h]} ::
      h in s.pending && IsOpen(s, h) && s.pending[h] != 0 ==> WillBeSeen(s, h)
  }

  ghost predicate Owed(s: State) {
    forall h :: h in s.owed ==> h in s.pending && (IsOpen(s, h) ==> s.pending[h] != 0)
  }

  ghost predicate Inv(s: State) {
    && Exclusive(s.pending, s.senders) && SendersKnown(s) && Queued(s) && ClosingKnown(s) && Seen(s) && Owed(s)
    && !s.aborted
  }

  // ----- every step keeps it -----

  lemma Start(s: State)
    requires Init(s)
    ensures Inv(s)
  {
  }

  lemma InitKeeps(s: State, t: State, h: Handle)
    requires Inv(s) && InitHandle(s, t, h)
    ensures Inv(t)
  {
    NobodyBusy(s.senders, h);
    forall k | k in t.pending
      ensures 0 <= t.pending[k] <= 2 && Busy(t.senders, k) == (if t.pending[k] == 1 then 1 else 0)
    {
      assert k != h ==> Busy(s.senders, k) == (if s.pending[k] == 1 then 1 else 0);
    }
  }

  lemma ReadPendingKeeps(s: State, t: State, i: nat, h: Handle)
    requires Inv(s) && SendRead(s, t, i, h)
    ensures Inv(t)
  {
    if s.pending[h] == 0 {
      assert Exclusive(t.pending, t.senders) by { SendersMove(s.pending, s.senders, i, SawZero(h)); }
      assert Seen(t) by { StillClaimed(s.senders, i, SawZero(h)); }
    }
  }

  /** A sender that does not enter or leave the stretch between the exchanges leaves the rest as it was. */
  lemma SendersMove(pending: map<Handle, int>, senders: seq<Sender>, i: nat, x: Sender)
    requires i < |senders| && Exclusive(pending, senders)
             && forall h :: h in pending ==> Between(senders[i], h) == Between(x, h)
    ensures Exclusive(pending, senders[i := x])
  {
    forall h | h in pending ensures Busy(senders[i := x], h) == Busy(senders, h) {
      BusyAfter(senders, i, x, h);
    }
  }

  lemma StillClaimed(senders: seq<Sender>, i: nat, x: Sender)
    requires i < |senders|
    ensures forall h :: Claimed(h) in senders && senders[i] != Claimed(h) ==> Claimed(h) in senders[i := x]
  {
    forall h | Claimed(h) in senders && senders[i] != Claimed(h) ensures Claimed(h) in senders[i := x] {
      var j :| 0 <= j < |senders| && senders[j] == Claimed(h);
      assert senders[i := x][j] == Claimed(h);
    }
  }

  lemma ClaimKeeps(s: State, t: State, i: nat)
    requires Inv(s) && SendClaim(s, t, i)
    ensures Inv(t)
  {
    var h := s.senders[i].h;
    if s.pending[h] == 0 {
      forall k | k in t.pending
        ensures 0 <= t.pending[k] <= 2 && Busy(t.senders, k) == (if t.pending[k] == 1 then 1 else 0)
      {
        BusyAfter(s.senders, i, Claimed(h), k);
      }
      StillClaimed(s.senders, i, Claimed(h));
      assert t.senders[i] == Claimed(h);
    } else {
      SendersMove(s.pending, s.senders, i, Outside);
      StillClaimed(s.senders, i, Outside);
    }
  }

  lemma WriteKeeps(s: State, t: State, i: nat, fd: Descriptor)
    requires Inv(s) && SendWrite(s, t, i, fd) && Usable(fd)
    ensures Inv(t)
  {
    SendersMove(s.pending, s.senders, i, t.senders[i]);
  }

  /** The second exchange always finds 1: abort() is never reached. */
  lemma FinishKeeps(s: State, t: State, i: nat)
    requires Inv(s) && SendDone(s, t, i)
    ensures Inv(t) && s.pending[s.senders[i].h] == 1
  {
    var h := s.senders[i].h;
    assert Busy(s.senders, h) == 1 by { BusyAfter(s.senders, i, Outside, h); }
    forall k | k in t.pending
      ensures 0 <= t.pending[k] <= 2 && Busy(t.senders, k) == (if t.pending[k] == 1 then 1 else 0)
    {
      BusyAfter(s.senders, i, Outside, k);
    }
    StillClaimed(s.senders, i, Outside);
  }

  lemma WakeKeeps(s: State, t: State)
    requires Inv(s) && Wake(s, t)
    ensures Inv(t)
  {
  }

  lemma ReadKeeps(s: State, t: State, fd: Descriptor)
    requires Inv(s) && Read(s, t, fd)
    ensures Inv(t)
  {
  }

  lemma VisitKeeps(s: State, t: State)
    requires Inv(s) && Visit(s, t)
    ensures Inv(t)
  {
    if s.stage.todo != [] {
      assert Todo(t) == Todo(s);
    }
  }

  lemma SpinKeeps(s: State, t: State)
    requires Inv(s) && Spin(s, t)
    ensures Inv(t)
  {
    var h := s.stage.cur;
    if s.pending[h] != 1 {
      Requeue(s, t);
      forall k | k in t.pending
        ensures 0 <= t.pending[k] <= 2 && Busy(t.senders, k) == (if t.pending[k] == 1 then 1 else 0)
      {
        assert Busy(s.senders, k) == (if s.pending[k] == 1 then 1 else 0);
      }
    }
  }

  /** Putting the visited handle back keeps the same handles queued. */
  lemma Requeue(s: State, t: State)
    requires Queued(s) && s.stage.Spinning? && t.handles == s.handles + [s.stage.cur]
             && t.stage == Passing(s.stage.rest) && t.pending.Keys == s.pending.Keys
    ensures Queued(t) && forall h :: IsOpen(s, h) == IsOpen(t, h)
    ensures forall h :: h in Todo(s) && h != s.stage.cur ==> h in Todo(t)
  {
    assert Todo(s)[0] == s.stage.cur && Todo(s)[1..] == s.stage.rest;
    assert s.stage.cur !in s.handles;
    assert forall i :: 0 <= i < |s.stage.rest| ==> Todo(s)[i + 1] == s.stage.rest[i];
  }

  lemma CloseBeginKeeps(s: State, t: State, h: Handle)
    requires Inv(s) && CloseBegin(s, t, h)
    ensures Inv(t)
  {
  }

  lemma Prepended(h: Handle, q: seq<Handle>)
    requires Distinct(q) && h !in q
    ensures Distinct([h] + q)
  {
    forall i, j | 0 <= i < j < |[h] + q| ensures ([h] + q)[i] != ([h] + q)[j] {
      assert ([h] + q)[j] == q[j - 1];
      if i > 0 {
        assert ([h] + q)[i] == q[i - 1];
      }
    }
  }

  lemma {:induction false} Removed(q: seq<Handle>, h: Handle)
    requires Distinct(q)
    ensures Distinct(Remove(q, h)) && forall x :: x in Remove(q, h) <==> x in q && x != h
  {
    if q == [] {
    } else if q[0] == h {
      assert forall i :: 0 <= i < |q[1..]| ==> q[1..][i] == q[i + 1];
    } else {
      assert forall i :: 0 <= i < |q[1..]| ==> q[1..][i] == q[i + 1];
      Removed(q[1..], h);
      assert q[0] !in Remove(q[1..], h);
      Prepended(q[0], Remove(q[1..], h));
    }
  }

  lemma CloseSpinKeeps(s: State, t: State)
    requires Inv(s) && CloseSpin(s, t)
    ensures Inv(t)
    ensures t.closing == NotClosing ==> !IsOpen(t, s.closing.h) && t.senders == s.senders
    ensures t.closing == NotClosing ==> forall x :: x in t.senders && !x.Outside? && x.h == s.closing.h ==> x.SawZero?
  {
    var h := s.closing.h;
    if s.pending[h] != 1 {
      Removed(s.handles, h);
      Removed(Todo(s), h);
      assert Busy(s.senders, h) == 0;
      forall i | 0 <= i < |s.senders| ensures !Between(s.senders[i], h) {
        BusyAfter(s.senders, i, Outside, h);
      }
      forall k | k in t.pending
        ensures 0 <= t.pending[k] <= 2 && Busy(t.senders, k) == (if t.pending[k] == 1 then 1 else 0)
      {
        assert Busy(s.senders, k) == (if s.pending[k] == 1 then 1 else 0);
      }
    }
  }

  lemma StepKeeps(s: State, t: State, fd: Descriptor, step: Step)
    requires Inv(s) && NextStep(s, t, fd, step) && Usable(fd)
    ensures Inv(t)
  {
    match step
    case InitStep(h) => InitKeeps(s, t, h);
    case ReadPending(i, h) => ReadPendingKeeps(s, t, i, h);
    case Claim(i) => ClaimKeeps(s, t, i);
    case Write(i) => WriteKeeps(s, t, i, fd);
    case Finish(i) => FinishKeeps(s, t, i);
    case WakeStep => WakeKeeps(s, t);
    case ReadStep => ReadKeeps(s, t, fd);
    case VisitStep => VisitKeeps(s, t);
    case SpinStep => SpinKeeps(s, t);
    case CloseStep(h) => CloseBeginKeeps(s, t, h);
    case CloseSpinStep => CloseSpinKeeps(s, t);
  }

  lemma {:induction false} RunKeeps(run: seq<State>, fd: Descriptor, k: nat)
    requires IsRun(run, fd) && k < |run|
    ensures Inv(run[k])
  {
    if k == 0 {
      Start(run[0]);
    } else {
      RunKeeps(run, fd, k - 1);
      assert Next(run[k - 1], run[k - 1 + 1], fd);
      var step :| NextStep(run[k - 1], run[k], fd, step);
      StepKeeps(run[k - 1], run[k], fd, step);
    }
  }

  // ----- main results -----

  /** In every run pending is 1 exactly when a sender is between its two exchanges, there is never more than
      one such sender, and the abort after the second exchange is not reached. */
  lemma OneSenderAtATime(run: seq<State>, fd: Descriptor, k: nat, h: Handle)
    requires IsRun(run, fd) && k < |run| && h in run[k].pending
    ensures run[k].pending[h] in {0, 1, 2} && !run[k].aborted
    ensures run[k].pending[h] == 1 <==> exists i :: 0 <= i < |run[k].senders| && Between(run[k].senders[i], h)
    ensures forall i, j ::
              (0 <= i < |run[k].senders| && 0 <= j < |run[k].senders| && Between(run[k].senders[i], h)
               && Between(run[k].senders[j], h)) ==>
                i == j
  {
    RunKeeps(run, fd, k);
    var senders := run[k].senders;
    assert Busy(senders, h) == (if run[k].pending[h] == 1 then 1 else 0);
    if run[k].pending[h] == 1 {
      SomebodyBusy(senders, h);
    }
    forall i | 0 <= i < |senders| && Between(senders[i], h) ensures run[k].pending[h] == 1 {
      BusyAfter(senders, i, Outside, h);
    }
    forall i, j | 0 <= i < |senders| && 0 <= j < |senders| && Between(senders[i], h) && Between(senders[j], h)
      ensures i == j
    {
      BusyAfter(senders, i, Outside, h);
      if i != j {
        BusyAfter(senders[i := Outside], j, Outside, h);
      }
    }
  }

  /** No send is lost: while a send on an open handle has not been followed by its callback, the handle is pending,
      and a sender is about to write, or the descriptor is readable, or the loop is on its way to the handle. */
  lemma NoSendLost(run: seq<State>, fd: Descriptor, k: nat, h: Handle)
    requires IsRun(run, fd) && k < |run| && h in run[k].owed && IsOpen(run[k], h)
    ensures h in run[k].pending && run[k].pending[h] != 0 && WillBeSeen(run[k], h)
  {
    RunKeeps(run, fd, k);
  }

  /** Some sender is inside uv_async_send of h. */
  ghost predicate Engaged(s: State, h: Handle) {
    exists x :: x in s.senders && !x.Outside? && x.h == h
  }

  /** When uv__async_close returns, the handle is on no queue, and no sender is still using it exactly when none had
      read pending as 0, and gone no further, by its last exchange. */
  lemma ClosedHandleIsLeftAlone(run: seq<State>, fd: Descriptor, k: nat)
    requires IsRun(run, fd) && k + 1 < |run| && CloseSpin(run[k], run[k + 1]) && run[k + 1].closing == NotClosing
    ensures !IsOpen(run[k + 1], run[k].closing.h)
    ensures !Engaged(run[k + 1], run[k].closing.h) <==> SawZero(run[k].closing.h) !in run[k].senders
  {
    RunKeeps(run, fd, k);
    CloseSpinKeeps(run[k], run[k + 1]);
    if SawZero(run[k].closing.h) in run[k].senders {
      assert !SawZero(run[k].closing.h).Outside?;
    }
  }

  /** A closed handle stays closed, and senders only leave it. */
  lemma StaysClosed(s: State, t: State, fd: Descriptor, h: Handle)
    requires Inv(s) && Next(s, t, fd) && h in s.pending && !IsOpen(s, h)
    ensures h in t.pending && !IsOpen(t, h) && (Engaged(t, h) ==> Engaged(s, h))
  {
    var step :| NextStep(s, t, fd, step);
    StaysOffQueues(s, t, fd, step, h);
    if Engaged(t, h) {
      var x :| x in t.senders && !x.Outside? && x.h == h;
      var i :| 0 <= i < |t.senders| && t.senders[i] == x;
      assert s.senders[i] in s.senders;
    }
  }

  lemma StaysOffQueues(s: State, t: State, fd: Descriptor, step: Step, h: Handle)
    requires Inv(s) && NextStep(s, t, fd, step) && h in s.pending && !IsOpen(s, h)
    ensures h in t.pending && !IsOpen(t, h)
  {
    if step.CloseSpinStep? {
      Removed(s.handles, s.closing.h);
      Removed(Todo(s), s.closing.h);
    } else if step.SpinStep? && t != s {
      Requeue(s, t);
    } else if step.VisitStep? && s.stage.todo != [] {
      assert Todo(t) == Todo(s);
    }
  }

  /** The handle is closed and no sender uses it, except where a late one was let in. */
  ghost predicate LeftAlone(s: State, h: Handle, late: bool) {
    h in s.pending && !IsOpen(s, h) && (late || !Engaged(s, h))
  }

  lemma LeftAloneStep(run: seq<State>, fd: Descriptor, j: nat, h: Handle, late: bool)
    requires IsRun(run, fd) && 0 < j < |run| && LeftAlone(run[j - 1], h, late)
    ensures LeftAlone(run[j], h, late)
  {
    RunKeeps(run, fd, j - 1);
    assert Next(run[j - 1], run[j - 1 + 1], fd);
    StaysClosed(run[j - 1], run[j], fd, h);
  }

  /** From the return of uv__async_close on, no sender uses the handle, unless one had read pending as 0 before. */
  lemma {:induction false} LeftAloneForEver(run: seq<State>, fd: Descriptor, k: nat, j: nat)
    requires IsRun(run, fd) && k < j < |run| && CloseSpin(run[k], run[k + 1]) && run[k + 1].closing == NotClosing
    ensures LeftAlone(run[j], run[k].closing.h, SawZero(run[k].closing.h) in run[k].senders)
  {
    if j == k + 1 {
      ClosedHandleIsLeftAlone(run, fd, k);
    } else {
      LeftAloneForEver(run, fd, k, j - 1);
      LeftAloneStep(run, fd, j, run[k].closing.h, SawZero(run[k].closing.h) in run[k].senders);
    }
  }

  /** One handle, one sender and a loop that waits for events. */
  function Lone(pending: map<Handle, int>, handles: seq<Handle>, sender: Sender, closing: Closing,
      owed: set<Handle>): State {
    State(pending, handles, 0, [sender], Polling, closing, false, owed)
  }

  /** The run in which a thread that has read pending as 0 claims the handle after it was closed. */
  function LateSender(h: Handle): seq<State> {
    [Lone(map[], [], Outside, NotClosing, {}),
     Lone(map[h := 0], [h], Outside, NotClosing, {}),
     Lone(map[h := 0], [h], SawZero(h), NotClosing, {}),
     Lone(map[h := 0], [h], SawZero(h), ClosingHandle(h), {}),
     Lone(map[h := 0], [], SawZero(h), NotClosing, {}),
     Lone(map[h := 1], [], Claimed(h), NotClosing, {h})]
  }

  lemma LateStart(h: Handle, fd: Descriptor)
    ensures var r := LateSender(h); Next(r[0], r[1], fd) && Next(r[1], r[2], fd)
  {
    var r := LateSender(h);
    var none: map<Handle, int> := map[];
    assert none[h := 0] == map[h := 0] && [] + [h] == [h];
    assert NextStep(r[0], r[1], fd, InitStep(h));
    assert NextStep(r[1], r[2], fd, ReadPending(0, h));
  }

  lemma LateSteps(h: Handle, fd: Descriptor)
    ensures var r := LateSender(h);
      && Next(r[2], r[3], fd) && CloseSpin(r[3], r[4]) && Next(r[4], r[5], fd)
  {
    var r := LateSender(h);
    var zero: map<Handle, int> := map[h := 0];
    assert zero[h := 0] == zero && zero[h := 1] == map[h := 1];
    assert Remove([h], h) == [] && {} - {h} == {} && {} + {h} == {h};
    assert NextStep(r[2], r[3], fd, CloseStep(h));
    assert NextStep(r[4], r[5], fd, Claim(0));
  }

  lemma ClosedHandleClaimed(h: Handle, fd: Descriptor)
    requires Usable(fd)
    ensures IsRun(LateSender(h), fd) && CloseSpin(LateSender(h)[3], LateSender(h)[4])
    ensures !IsOpen(LateSender(h)[5], h) && Engaged(LateSender(h)[5], h)
  {
    var r := LateSender(h);
    LateStart(h, fd);
    LateSteps(h, fd);
    assert NextStep(r[3], r[4], fd, CloseSpinStep);
    assert Claimed(h) in r[5].senders;
  }

  // ----- sends are answered once nothing new begins -----

  /** The steps that finish what has begun. */
  predicate Finishing(step: Step) {
    !step.InitStep? && !step.ReadPending? && !step.CloseStep?
  }

  function Weight(x: Sender, bound: nat): nat {
    match x
    case Outside => 0
    case Wrote(_) => 1
    case Claimed(_) => 2 * bound + 7
    case SawZero(_) => 2 * bound + 8
  }

  function Weights(senders: seq<Sender>, bound: nat): nat {
    if senders == [] then 0 else Weight(senders[0], bound) + Weights(senders[1..], bound)
  }

  lemma {:induction false} WeightsAfter(senders: seq<Sender>, i: nat, x: Sender, bound: nat)
    requires i < |senders|
    ensures Weights(senders[i := x], bound) + Weight(senders[i], bound) == Weights(senders, bound) + Weight(x, bound)
  {
    if i == 0 {
      assert senders[i := x][1..] == senders[1..];
    } else {
      assert senders[i := x][1..] == senders[1..][i - 1 := x];
      WeightsAfter(senders[1..], i - 1, x, bound);
    }
  }

  function StageWeight(s: State, bound: nat): nat {
    match s.stage
    case Polling => s.bytes * (2 * bound + 5)
    case Reading => (if s.bytes == 0 then 0 else (s.bytes - 1) * (2 * bound + 5)) + 2 * bound + 3
    case Passing(todo) => s.bytes * (2 * bound + 5) + 2 * |todo| + 1
    case Spinning(_, rest) => s.bytes * (2 * bound + 5) + 2 * |rest| + 2
  }

  /** Work left to do when there are at most bound handles. */
  function Work(s: State, bound: nat): nat {
    Weights(s.senders, bound) + StageWeight(s, bound) + (if s.closing.ClosingHandle? then 1 else 0)
  }

  lemma {:induction false} RemoveShortens(q: seq<Handle>, h: Handle)
    ensures |Remove(q, h)| <= |q|
  {
    if q != [] && q[0] != h {
      RemoveShortens(q[1..], h);
    }
  }

  lemma MoreBytes(a: nat, b: nat, m: nat)
    requires a < b
    ensures a * m + m <= b * m
  {
    assert (b - a - 1) * m >= 0;
    assert b * m == a * m + m + (b - a - 1) * m;
  }

  /** Every finishing step that changes anything leaves less work: nothing circulates for ever. */
  lemma FinishingDoesWork(s: State, t: State, fd: Descriptor, step: Step, bound: nat)
    requires Inv(s) && NextStep(s, t, fd, step) && Finishing(step) && s != t && |s.handles| + |Todo(s)| <= bound
    ensures Work(t, bound) < Work(s, bound) && |t.handles| + |Todo(t)| <= bound
  {
    match step
    case Claim(i) => WeightsAfter(s.senders, i, t.senders[i], bound);
    case Write(i) => WriteDoesWork(s, t, i, fd, bound);
    case Finish(i) => FinishKeeps(s, t, i); WeightsAfter(s.senders, i, Outside, bound);
    case WakeStep => MoreBytes(s.bytes - 1, s.bytes, 2 * bound + 5);
    case ReadStep => ReadDoesWork(s, t, fd, bound);
    case VisitStep =>
    case SpinStep =>
    case CloseSpinStep => CloseDoesWork(s, t, bound);
  }

  lemma CloseDoesWork(s: State, t: State, bound: nat)
    requires CloseSpin(s, t) && s != t && |s.handles| + |Todo(s)| <= bound && !s.stage.Spinning?
    ensures Work(t, bound) < Work(s, bound) && |t.handles| + |Todo(t)| <= bound
  {
    RemoveShortens(s.handles, s.closing.h);
    RemoveShortens(Todo(s), s.closing.h);
  }

  lemma WriteDoesWork(s: State, t: State, i: nat, fd: Descriptor, bound: nat)
    requires SendWrite(s, t, i, fd)
    ensures Work(t, bound) < Work(s, bound)
  {
    var m := 2 * bound + 5;
    WeightsAfter(s.senders, i, t.senders[i], bound);
    assert t.bytes * m <= s.bytes * m + m;
    if s.bytes > 0 {
      assert s.bytes * m == (s.bytes - 1) * m + m;
    }
  }

  lemma ReadDoesWork(s: State, t: State, fd: Descriptor, bound: nat)
    requires Read(s, t, fd) && |s.handles| <= bound
    ensures StageWeight(t, bound) < StageWeight(s, bound)
  {
    var m := 2 * bound + 5;
    if s.bytes > 0 && t.bytes < s.bytes - 1 {
      MoreBytes(t.bytes, s.bytes - 1, m);
    }
    if t.bytes > 0 {
      MoreBytes(t.bytes - 1, t.bytes, m);
    }
  }

  /** Some finishing step would change the state. */
  ghost predicate CanFinish(s: State, fd: Descriptor) {
    exists step, t :: Finishing(step) && NextStep(s, t, fd, step) && t != s
  }

  ghost predicate AllQuiet(s: State) {
    && (forall h :: h in s.owed ==> !IsOpen(s, h)) && s.stage == Polling && s.closing == NotClosing
    && forall i :: 0 <= i < |s.senders| ==> s.senders[i] == Outside
  }

  /** Short of the state where every send on an open handle has been answered and everyone is idle, some finishing step
      does work. */
  lemma UntilAllQuietWorkGoesOn(s: State, fd: Descriptor)
    requires Inv(s)
    ensures CanFinish(s, fd) || AllQuiet(s)
  {
    if i :| 0 <= i < |s.senders| && s.senders[i] != Outside {
      SenderCanFinish(s, fd, i);
    } else {
      forall h | h in s.pending ensures s.pending[h] != 1 {
        NobodyBusy(s.senders, h);
      }
      if s.closing.ClosingHandle? {
        var h := s.closing.h;
        var t := s.(pending := s.pending[h := 0], closing := NotClosing, handles := Remove(s.handles, h),
                    stage := if s.stage.Passing? then Passing(Remove(s.stage.todo, h)) else s.stage,
                        owed := s.owed - {h});
        assert NextStep(s, t, fd, CloseSpinStep) && t != s;
      } else if s.stage != Polling || s.bytes > 0 {
        LoopCanFinish(s, fd);
      } else {
        forall h | h in s.pending && IsOpen(s, h) ensures s.pending[h] == 0 {
          assert !WillBeSeen(s, h);
        }
      }
    }
  }

  lemma SenderCanFinish(s: State, fd: Descriptor, i: nat)
    requires Inv(s) && i < |s.senders| && s.senders[i] != Outside
    ensures CanFinish(s, fd)
  {
    match s.senders[i]
    case SawZero(h) =>
      var t := if s.pending[h] == 0 then s.(pending := s.pending[h := 1], senders := s.senders[i := Claimed(h)],
                                            owed := s.owed + {h})
               else s.(senders := s.senders[i := Outside], owed := s.owed + {h});
      assert NextStep(s, t, fd, Claim(i)) && t.senders[i] != SawZero(h);
    case Claimed(h) =>
      var t := s.(bytes := if s.bytes < fd.room then s.bytes + 1 else s.bytes, senders := s.senders[i := Wrote(h)]);
      assert NextStep(s, t, fd, Write(i)) && t.senders[i] != Claimed(h);
    case Wrote(h) =>
      var t := if s.pending[h] == 1 then s.(pending := s.pending[h := 2],
          senders := s.senders[i := Outside]) else s.(aborted := true);
      assert NextStep(s, t, fd, Finish(i)) && (t.aborted || t.senders[i] != Wrote(h));
  }

  lemma LoopCanFinish(s: State, fd: Descriptor)
    requires Inv(s) && s.closing == NotClosing && (forall h :: h in s.pending ==> s.pending[h] != 1)
             && (s.stage != Polling || s.bytes > 0)
    ensures CanFinish(s, fd)
  {
    match s.stage
    case Polling =>
      assert NextStep(s, s.(stage := Reading), fd, WakeStep);
    case Reading =>
      var got := if fd.EventFd? then s.bytes else Min(s.bytes, 1024);
      var t := if fd.Pipe? && got == 1024 then s.(bytes := s.bytes - got) else s.(bytes := s.bytes - got,
          stage := Passing(s.handles), handles := []);
      assert NextStep(s, t, fd, ReadStep);
    case Passing(todo) =>
      var t := if todo == [] then s.(stage := Polling) else s.(stage := Spinning(todo[0], todo[1..]));
      assert NextStep(s, t, fd, VisitStep);
    case Spinning(h, rest) =>
      assert h in Todo(s);
      var t := if s.pending[h] == 2 then s.(pending := s.pending[h := 0], stage := Passing(rest),
                                            handles := s.handles + [h], owed := s.owed - {h})
               else s.(stage := Passing(rest), handles := s.handles + [h]);
      assert NextStep(s, t, fd, SpinStep);
  }
}
