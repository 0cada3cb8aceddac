/**
 No call is ever lost: whatever has happened, the threads can go on, without spurious wake-ups and
 without timeouts, so that a running call returns.
 */
module HandOffProgress {
  import opened HandOff
  import opened Latches
  import opened Options
  import opened QueueRuns

  /** A move that is neither a spurious wake-up nor a timeout. */
  predicate IsOrderly(move: Move) {
    match move
    case OnQueue(step) => !step.DoWakeSpuriously? && !step.DoAddExpire? && !step.DoPopExpire?
    case LatchSpuriously(_) => false
    case _ => true
  }

  ghost predicate AreOrderly(moves: seq<Move>) {
    forall i | 0 <= i < |moves| :: IsOrderly(moves[i])
  }

  /** Orderly moves lead from one state to the other. */
  ghost predicate Leads(callers: set<Tid>, s: Pool, s': Pool) {
    exists moves :: CanRun(callers, s, moves) && AfterRun(callers, s, moves) == s' && AreOrderly(moves)
  }

  lemma {:induction false} RunConcat(callers: set<Tid>, s: Pool, a: seq<Move>, b: seq<Move>)
    requires CanRun(callers, s, a) && CanRun(callers, AfterRun(callers, s, a), b)
    ensures CanRun(callers, s, a + b)
    ensures AfterRun(callers, s, a + b) == AfterRun(callers, AfterRun(callers, s, a), b)
    decreases |a|
  {
    hide CanMove, Moved;
    if a == [] {
      assert a + b == b;
    } else {
      RunConcat(callers, Moved(callers, s, a[0]), a[1..], b);
      assert (a + b)[0] == a[0] && (a + b)[1..] == a[1..] + b;
    }
  }

  lemma LeadsOn(callers: set<Tid>, s: Pool, s': Pool, s'': Pool)
    requires Leads(callers, s, s') && Leads(callers, s', s'')
    ensures Leads(callers, s, s'')
  {
    hide CanRun, AfterRun;
    var a :| CanRun(callers, s, a) && AfterRun(callers, s, a) == s' && AreOrderly(a);
    var b :| CanRun(callers, s', b) && AfterRun(callers, s', b) == s'' && AreOrderly(b);
    RunConcat(callers, s, a, b);
    assert AreOrderly(a + b);
  }

  lemma LeadsNowhere(callers: set<Tid>, s: Pool)
    ensures Leads(callers, s, s)
  {
    assert CanRun(callers, s, []) && AfterRun(callers, s, []) == s && AreOrderly([]);
  }

  lemma Goes(callers: set<Tid>, s: Pool, move: Move) returns (s': Pool)
    requires Kept(callers, s) && CanMove(callers, s, move) && IsOrderly(move)
    ensures s' == Moved(callers, s, move) && Kept(callers, s') && Leads(callers, s, s')
  {
    hide Kept, CanMove, Moved, IsOrderly;
    s' := Moved(callers, s, move);
    MoveKeeps(callers, s, move);
    assert [move][1..] == [];
    assert CanRun(callers, s', []) && AfterRun(callers, s', []) == s';
    assert CanRun(callers, s, [move]) && AfterRun(callers, s, [move]) == s' && AreOrderly([move]);
  }

  /** The calls are where they were, but for the context the worker holds. */
  ghost predicate SameCalls(s: Pool, s': Pool) {
    && s'.calls.Keys == s.calls.Keys
    && forall n | n in s.calls ::
      (s'.calls[n].at == Adding <==> s.calls[n].at == Adding) && s'.calls[n].caller == s.calls[n].caller
  }

  function StepsLeft(w: Worker): nat {
    match w
    case Looping => 0
    case Took(_) => 4
    case Published(_) => 3
    case Ran(_) => 2
    case Counted(_) => 1
  }

  lemma CountsOnce(callers: set<Tid>, s: Pool)
    requires Kept(callers, s) && s.worker.Ran?
    ensures s.worker.ctx in s.calls && Decremented(s.calls[s.worker.ctx].latch).1
  {
    HeldIsLive(callers, s);
    hide QueueKept, Numbered, InOrder, Executions, Answered, Parked, HasAnswer;
    assert Stage(s, s.worker.ctx, s.calls[s.worker.ctx]);
  }

  /** The worker's next step with the context it holds. */
  lemma WorkerStep(callers: set<Tid>, s: Pool) returns (s': Pool)
    requires Kept(callers, s) && !s.worker.Looping?
    ensures Kept(callers, s') && Leads(callers, s, s') && SameCalls(s, s') && s'.qs == s.qs
    ensures StepsLeft(s'.worker) == StepsLeft(s.worker) - 1
    ensures s'.done + Held(s'.worker) == s.done + Held(s.worker)
  {
    hide Kept, Leads, Decremented;
    HeldIsLive(callers, s);
    match s.worker
    case Took(_) => s' := Goes(callers, s, Publish);
    case Published(_) => s' := Goes(callers, s, Run(0));
    case Ran(_) => CountsOnce(callers, s); s' := Goes(callers, s, CountDown);
    case Counted(_) => s' := Goes(callers, s, Signal(true));
  }

  /** The worker finishes the context it holds. */
  lemma {:induction false} Finishes(callers: set<Tid>, s: Pool) returns (s': Pool)
    requires Kept(callers, s)
    ensures Kept(callers, s') && Leads(callers, s, s') && SameCalls(s, s') && s'.qs == s.qs
    ensures s'.worker.Looping? && s'.done == s.done + Held(s.worker)
    decreases StepsLeft(s.worker)
  {
    hide Kept, Leads;
    if s.worker.Looping? {
      LeadsNowhere(callers, s);
      s' := s;
    } else {
      var next := WorkerStep(callers, s);
      s' := Finishes(callers, next);
      LeadsOn(callers, s, next, s');
    }
  }

  lemma WorkerIsReady(callers: set<Tid>, s: Pool)
    requires Kept(callers, s) && s.qs.q.contents != []
    ensures WORKER in s.qs.parked ==>
      s.qs.parked[WORKER].ToPop? && s.qs.parked[WORKER].woken && s.qs.q.emptySignal
  {
    hide Numbered, InOrder, Staged, Executions, Answered, Parked, Safe, AddersServed;
  }

  /** A step by which the worker takes the first context from the queue, waking whom it likes. */
  lemma Takes(callers: set<Tid>, s: Pool, wakes: set<Tid>) returns (s': Pool)
    requires Kept(callers, s) && s.worker.Looping? && s.qs.q.contents != []
    requires MayWake(AsleepToAdd(s.qs.parked), wakes)
    ensures Kept(callers, s') && Leads(callers, s, s') && SameCalls(s, s') && s'.done == s.done
    ensures s'.worker == Took(s.qs.q.contents[0]) && s'.qs.q.contents == s.qs.q.contents[1..] && s'.qs.q.fullSignal
    ensures s'.qs.parked == Wake(s.qs.parked - {WORKER}, wakes)
  {
    WorkerIsReady(callers, s);
    hide Kept, Leads, MayWake, AsleepToAdd, Wake;
    var step := if WORKER in s.qs.parked then DoPopAgain(WORKER, wakes) else DoPop(WORKER, true, wakes);
    s' := Goes(callers, s, OnQueue(step));
  }

  /** One of the threads asleep, if there are any. */
  lemma Pick(asleep: set<Tid>) returns (wakes: set<Tid>)
    ensures MayWake(asleep, wakes) && |wakes| <= 1
  {
    wakes := {};
    if asleep != {} {
      var t :| t in asleep;
      wakes := {t};
    }
  }

  /** The worker comes to answer every context that it holds or that is queued. */
  lemma {:induction false} Answers(callers: set<Tid>, s: Pool, n: nat) returns (s': Pool)
    requires Kept(callers, s) && (n in Held(s.worker) || n in s.qs.q.contents)
    ensures Kept(callers, s') && Leads(callers, s, s') && SameCalls(s, s') && n in s'.done
    decreases |s.qs.q.contents|
  {
    hide Kept, Leads, MayWake, AsleepToAdd, Wake;
    s' := Finishes(callers, s);
    if n !in Held(s.worker) {
      var wakes := Pick(AsleepToAdd(s'.qs.parked));
      var taken := Takes(callers, s', wakes);
      LeadsOn(callers, s, s', taken);
      s' := Answers(callers, taken, n);
      LeadsOn(callers, s, taken, s');
    }
  }

  /** A call whose answer is there returns. */
  lemma Returns(callers: set<Tid>, s: Pool, n: nat) returns (s': Pool)
    requires Kept(callers, s) && n in s.calls && n in s.done && s.calls[n].at != Adding
    ensures Kept(callers, s') && Leads(callers, s, s') && n in s'.returned
  {
    assert s.calls[n].latch.signal && s.calls[n].at != AtLatch(false) by {
      assert Stage(s, n, s.calls[n]);
    }
    hide Kept, Leads;
    s' := Goes(callers, s, if s.calls[n].at == Accepted then LatchEnter(n) else LatchResume(n));
  }

  lemma AcceptedIsPending(callers: set<Tid>, s: Pool, n: nat)
    requires Kept(callers, s) && n in s.calls && s.calls[n].at != Adding
    ensures n in s.done || n in Held(s.worker) || n in s.qs.q.contents
  {
    DoneIsAdded(s, n);
  }

  /** An accepted call can return. */
  lemma AcceptedReturns(callers: set<Tid>, s: Pool, n: nat) returns (s': Pool)
    requires Kept(callers, s) && n in s.calls && s.calls[n].at != Adding
    ensures Kept(callers, s') && Leads(callers, s, s') && n in s'.returned
  {
    hide Kept, Leads;
    AcceptedIsPending(callers, s, n);
    var answered := s;
    LeadsNowhere(callers, s);
    if n !in s.done {
      answered := Answers(callers, s, n);
    }
    s' := Returns(callers, answered, n);
    LeadsOn(callers, s, answered, s');
  }

  /** The thread of call `n` is inside `add_block`, parked. */
  ghost predicate ParkedToAdd(s: Pool, n: nat) {
    && n in s.calls && s.calls[n].at == Adding && s.calls[n].caller in s.qs.parked
    && s.qs.parked[s.calls[n].caller].ToAdd? && s.qs.parked[s.calls[n].caller].val == n
  }

  lemma AddingIsParked(callers: set<Tid>, s: Pool, n: nat)
    requires Kept(callers, s) && n in s.calls
    ensures s.calls[n].at == Adding && s.calls[n].caller in s.qs.parked ==> ParkedToAdd(s, n)
  {
    hide InOrder, Staged, Executions, Answered, Safe, PromptPops, AddersServed;
  }

  lemma WakingPoppers<T>(parked: map<Tid, Wait<T>>, t: Tid, wakes: set<Tid>)
    requires wakes <= AsleepToPop(parked)
    ensures var after := Wake(parked - {t}, wakes);
      forall u | u in parked && parked[u].ToAdd? && u != t :: u in after && after[u] == parked[u]
  {
  }

  lemma SignalMeansRoom(callers: set<Tid>, s: Pool)
    requires Kept(callers, s)
    ensures s.qs.q.fullSignal ==> !s.qs.q.IsFull()
    ensures 1 <= s.qs.q.max
  {
  }

  /** A parked adder that is awake and finds the signal up adds its context. */
  lemma Adds(callers: set<Tid>, s: Pool, n: nat) returns (s': Pool)
    requires Kept(callers, s) && ParkedToAdd(s, n) && s.qs.parked[s.calls[n].caller].woken && s.qs.q.fullSignal
    ensures Kept(callers, s') && Leads(callers, s, s') && s'.qs.q.contents == s.qs.q.contents + [n]
    ensures s'.calls == s.calls[n := s.calls[n].(at := Accepted)]
    ensures forall t | t in s.qs.parked && s.qs.parked[t].ToAdd? && t != s.calls[n].caller ::
      t in s'.qs.parked && s'.qs.parked[t] == s.qs.parked[t]
  {
    hide Kept, Leads, Wake, AsleepToPop;
    SignalMeansRoom(callers, s);
    var t := s.calls[n].caller;
    var wakes := Pick(AsleepToPop(s.qs.parked));
    WakingPoppers(s.qs.parked, t, wakes);
    s' := Goes(callers, s, OnQueue(DoAddAgain(t, wakes)));
  }

  /** A caller that has not entered `add_block` adds its context or parks. */
  lemma Enters(callers: set<Tid>, s: Pool, n: nat) returns (s': Pool)
    requires Kept(callers, s) && n in s.calls && s.calls[n].at == Adding && s.calls[n].caller !in s.qs.parked
    ensures Kept(callers, s') && Leads(callers, s, s') && n in s'.calls
    ensures s'.calls[n].at != Adding || ParkedToAdd(s', n)
  {
    hide Leads, Wake, AsleepToPop, MayWake;
    var wakes := Pick(AsleepToPop(s.qs.parked));
    InCallers(callers, s, n);
    hide Kept;
    s' := Goes(callers, s, OnQueue(DoAdd(s.calls[n].caller, n, false, wakes)));
    AddingIsParked(callers, s', n);
  }

  lemma InCallers(callers: set<Tid>, s: Pool, n: nat)
    requires Kept(callers, s) && n in s.calls
    ensures s.calls[n].caller in callers
  {
  }

  lemma SameCallsKeepsParked(s: Pool, s': Pool, n: nat)
    requires ParkedToAdd(s, n) && SameCalls(s, s') && s.calls[n].caller in s'.qs.parked
    requires s'.qs.parked[s.calls[n].caller].ToAdd? && s'.qs.parked[s.calls[n].caller].val == n
    ensures ParkedToAdd(s', n)
  {
  }

  /** While the queue is empty, a parked adder is awake with the signal up. */
  lemma AwakeAdder(callers: set<Tid>, s: Pool, n: nat) returns (m: nat)
    requires Kept(callers, s) && ParkedToAdd(s, n) && s.qs.q.contents == []
    ensures s.qs.q.fullSignal && ParkedToAdd(s, m) && s.qs.parked[s.calls[m].caller].woken
  {
    hide Numbered, InOrder, Staged, Executions, Answered, Safe, PromptPops;
    var u :| u in s.qs.parked && s.qs.parked[u].ToAdd? && s.qs.parked[u].woken;
    m := s.qs.parked[u].val;
  }

  /** An item gets into the queue, by the call itself or by another one. */
  lemma FirstItem(callers: set<Tid>, s: Pool, n: nat) returns (s': Pool)
    requires Kept(callers, s) && ParkedToAdd(s, n)
    ensures Kept(callers, s') && Leads(callers, s, s') && n in s'.calls
    ensures s'.calls[n].at != Adding || (ParkedToAdd(s', n) && s'.qs.q.contents != [])
  {
    hide Kept, Leads;
    if s.qs.q.contents != [] {
      LeadsNowhere(callers, s);
      s' := s;
    } else {
      var m := AwakeAdder(callers, s, n);
      s' := Adds(callers, s, m);
    }
  }

  /** The worker makes room and wakes the thread of the call. */
  lemma MakesRoom(callers: set<Tid>, s: Pool, n: nat) returns (s': Pool)
    requires Kept(callers, s) && ParkedToAdd(s, n) && s.qs.q.contents != []
    ensures Kept(callers, s') && Leads(callers, s, s') && ParkedToAdd(s', n)
    ensures s'.qs.parked[s'.calls[n].caller].woken && s'.qs.q.fullSignal
  {
    hide Kept, Leads;
    var t := s.calls[n].caller;
    var free := Finishes(callers, s);
    SameCallsKeepsParked(s, free, n);
    assert t != WORKER by {
      WorkerIsReady(callers, free);
    }
    var wakes := Pick(AsleepToAdd(free.qs.parked));
    if t in AsleepToAdd(free.qs.parked) {
      wakes := {t};
    }
    s' := Takes(callers, free, wakes);
    SameCallsKeepsParked(free, s', n);
    LeadsOn(callers, s, free, s');
  }

  /** A parked call can be accepted. */
  lemma ParkedIsAccepted(callers: set<Tid>, s: Pool, n: nat) returns (s': Pool)
    requires Kept(callers, s) && ParkedToAdd(s, n)
    ensures Kept(callers, s') && Leads(callers, s, s') && n in s'.calls && s'.calls[n].at != Adding
  {
    hide Kept, Leads;
    s' := FirstItem(callers, s, n);
    if s'.calls[n].at == Adding {
      var room := MakesRoom(callers, s', n);
      LeadsOn(callers, s, s', room);
      s' := Adds(callers, room, n);
      LeadsOn(callers, s, room, s');
    }
  }

  /** From whatever state, a running call can return. */
  lemma CanReturn(callers: set<Tid>, s: Pool, n: nat) returns (s': Pool)
    requires Kept(callers, s) && n in s.calls
    ensures Kept(callers, s') && Leads(callers, s, s') && n in s'.returned
  {
    hide Kept, Leads;
    var entered, accepted := s, s;
    LeadsNowhere(callers, s);
    if s.calls[n].at == Adding {
      if s.calls[n].caller in s.qs.parked {
        AddingIsParked(callers, s, n);
      } else {
        entered := Enters(callers, s, n);
      }
      accepted := entered;
      if entered.calls[n].at == Adding {
        accepted := ParkedIsAccepted(callers, entered, n);
        LeadsOn(callers, s, entered, accepted);
      }
    }
    s' := AcceptedReturns(callers, accepted, n);
    LeadsOn(callers, s, accepted, s');
  }

  /**
   After every run, every call that is running can return, with the answer of its own execution, by
   moves among which there is no spurious wake-up and no timeout.
   */
  lemma EveryCallCanReturn(callers: set<Tid>, size: nat, moves: seq<Move>, n: nat)
    requires WORKER !in callers && CanRun(callers, Start(size), moves)
    requires n in AfterRun(callers, Start(size), moves).calls
    ensures exists more: seq<Move> ::
      && CanRun(callers, Start(size), moves + more) && AreOrderly(more)
      && var s := AfterRun(callers, Start(size), moves + more);
         && n < |s.asked| && n in s.returned
         && HasAnswer(s.executed, n, s.asked[n], s.returned[n])
  {
    Started(callers, size);
    RunKeepsAll(callers, Start(size), moves);
    var s := AfterRun(callers, Start(size), moves);
    hide CanRun, AfterRun, AreOrderly;
    var s' := CanReturn(callers, s, n);
    assert Answered(s');
    hide Kept;
    var more :| CanRun(callers, s, more) && AfterRun(callers, s, more) == s' && AreOrderly(more);
    RunConcat(callers, Start(size), moves, more);
  }
}
