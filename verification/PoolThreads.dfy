/** The critical sections of threadpool.c as they run: post and the body of worker, on the shared variables. */
module PoolThreads {
  import opened PoolQueues

  class Pool {
    var wq: seq<Entry>
    var pending: seq<Item>      // slow_io_pending_wq
    var running: nat            // slow_io_work_running
    var idle: nat               // idle_threads
    const nthreads: nat

    constructor (nthreads: nat)
      ensures View() == Queues([], [], 0) && idle == 0 && this.nthreads == nthreads
    {
      wq, pending, running, idle := [], [], 0, 0;
      this.nthreads := nthreads;
    }

    ghost function View(): Queues
      reads this`wq, this`pending, this`running
    {
      Queues(wq, pending, running)
    }

    // post, for a request, for the slow message's sake, or for exit_message
    method PostEntry(e: Entry, slow: bool) returns (signal: bool)
      requires slow ==> e.Work?
      modifies this`wq, this`pending
      ensures View() == Post(old(View()), e, slow).0
      ensures signal == (Post(old(View()), e, slow).1 && idle > 0)
    {
      var q := e;
      if slow {
        pending := pending + [e.w];
        if SlowMessage in wq {
          return false;
        }
        q := SlowMessage;
      }
      wq := wq + [q];
      signal := idle > 0;
    }

    // The part of worker that starts slow work and schedules what slow work remains.
    method SlowRequest() returns (out: Outcome, signal: bool)
      requires pending != []
      modifies this`wq, this`pending, this`running
      ensures out == Run(old(pending)[0], true) && running == old(running) + 1 && pending == old(pending)[1..]
      ensures wq == if pending != [] then old(wq) + [SlowMessage] else old(wq)
      ensures signal == (pending != [] && idle > 0)
    {
      running := running + 1;
      var w := pending[0];
      pending := pending[1..];
      signal := false;
      if pending != [] {
        wq := wq + [SlowMessage];
        signal := idle > 0;
      }
      out := Run(w, true);
    }

    ghost function Rank(): (nat, nat)
      reads this`wq
    {
      (|wq|, if wq != [] && wq[0] == SlowMessage then 1 else 0)
    }

    // One pass of worker's loop, while not blocked: again says that it ended in `continue`.
    method Pass() returns (again: bool, out: Outcome, signal: bool)
      requires Messages(wq) <= 1 && !Blocked(View(), Threshold(nthreads))
      modifies this`wq, this`pending, this`running
      ensures again ==> Messages(wq) <= 1 && Take(View(), Threshold(nthreads)) == Take(old(View()), Threshold(nthreads))
      ensures again ==> Rank().0 < old(Rank().0) || (Rank().0 == old(Rank().0) && Rank().1 < old(Rank().1))
      ensures !again ==> var t := Take(old(View()), Threshold(nthreads));
        View() == t.q && out == t.out && signal == (t.signal && (t.out.Exit? || idle > 0)) && !out.Wait?
    {
      again, out, signal := false, Exit, true;
      var q := wq[0];
      if q == ExitMessage {
        return;
      }
      assert wq == [q] + wq[1..];
      MessagesIn(wq[1..]);
      wq := wq[1..];
      if q != SlowMessage {
        out, signal := Run(q.w, false), false;
      } else if running >= Threshold(nthreads) {
        MessagesAppend(wq, [SlowMessage]);
        wq := wq + [q];
        again := true;
      } else if pending == [] {
        again := true;
      } else {
        out, signal := SlowRequest();
      }
    }

    // The body of worker between two stretches without the mutex: resumed says that it comes from
    // uv_cond_wait, slowDone that it has just finished slow work.
    method WorkerSection(resumed: bool, slowDone: bool) returns (out: Outcome, signal: bool)
      requires Messages(wq) <= 1 && (resumed ==> idle > 0) && (slowDone ==> running > 0)
      modifies this
      ensures var q := old(View()).(running := if slowDone then old(running) - 1 else old(running));
        var t := Take(q, Threshold(nthreads));
        View() == t.q && out == t.out && signal == (t.signal && (t.out.Exit? || idle > 0))
      ensures idle == old(idle) - (if resumed then 1 else 0) + (if out.Wait? then 1 else 0)
    {
      if slowDone {
        running := running - 1;
      }
      if resumed {
        idle := idle - 1;
      }
      ghost var q0, idle0 := View(), idle;
      var again := true;
      out, signal := Wait, false;
      while again
        invariant idle == idle0
        invariant again ==> Messages(wq) <= 1 && Take(View(), Threshold(nthreads)) == Take(q0, Threshold(nthreads))
        invariant !again ==>
                    View() == Take(q0, Threshold(nthreads)).q && out == Take(q0, Threshold(nthreads)).out && !out.Wait?
        invariant !again ==> signal == (Take(q0, Threshold(nthreads)).signal && (out.Exit? || idle > 0))
        decreases again, Rank().0, Rank().1
      {
        if wq == [] || (wq[0] == SlowMessage && |wq| == 1 && running >= Threshold(nthreads)) {
          idle := idle + 1;
          return Wait, false;
        }
        again, out, signal := Pass();
      }
    }
  }
}
