/**
 The latch as a system of threads: decrements, the section that puts the signal up, and waits that
 park, wake spuriously and test the signal again, in any order.
 */
module LatchRuns {
  import opened Latches
  import Q = QueueRuns

  type Tid = Q.Tid

  /**
   The latch; the parked threads, with whether they are woken; the threads that got to 0 and have not
   put the signal up yet; and how many decrements, zeros and returned waits there have been.
   */
  datatype Countdown = Countdown(
    latch: LatchState, parked: map<Tid, bool>, releasing: set<Tid>, downs: nat, zeros: nat, returned: nat)

  function Init(n: uint32): Countdown {
    Countdown(NewLatch(n), map[], {}, 0, 0, 0)
  }

  function Asleep(parked: map<Tid, bool>): set<Tid> {
    set t | t in parked && !parked[t]
  }

  datatype Step =
    | Decrement(t: Tid)
    | Release(t: Tid, wakes: set<Tid>)
    | Wait(t: Tid)
    | WaitAgain(t: Tid)
    | WakeSpuriously(t: Tid)

  predicate IsFree(s: Countdown, t: Tid) {
    t !in s.parked && t !in s.releasing
  }

  /** Any thread may count down; only `waiters` wait. */
  predicate Enabled(waiters: set<Tid>, s: Countdown, step: Step) {
    match step
    case Decrement(t) => IsFree(s, t)
    case Release(t, wakes) => t in s.releasing && Q.MayWake(Asleep(s.parked), wakes)
    case Wait(t) => t in waiters && IsFree(s, t)
    case WaitAgain(t) => t in s.parked && s.parked[t]
    case WakeSpuriously(t) => t in s.parked
  }

  /** One test of the signal: the wait returns, or the thread parks. */
  function Test(s: Countdown, t: Tid): Countdown {
    if s.latch.signal then s.(parked := s.parked - {t}, returned := s.returned + 1)
    else s.(parked := s.parked[t := false])
  }

  function Wake(parked: map<Tid, bool>, wakes: set<Tid>): map<Tid, bool> {
    map t | t in parked :: parked[t] || t in wakes
  }

  function Apply(waiters: set<Tid>, s: Countdown, step: Step): Countdown
    requires Enabled(waiters, s, step)
  {
    match step
    case Decrement(t) =>
      var (latch, isZero) := Decremented(s.latch);
      if isZero then s.(latch := latch, releasing := s.releasing + {t}, downs := s.downs + 1, zeros := s.zeros + 1)
      else s.(latch := latch, downs := s.downs + 1)
    case Release(t, wakes) =>
      s.(latch := Released(s.latch), parked := Wake(s.parked, wakes), releasing := s.releasing - {t})
    case Wait(t) => Test(s, t)
    case WaitAgain(t) => Test(s, t)
    case WakeSpuriously(t) => s.(parked := Wake(s.parked, {t}))
  }

  ghost predicate Possible(waiters: set<Tid>, s: Countdown, steps: seq<Step>)
    decreases |steps|
  {
    steps == [] || (Enabled(waiters, s, steps[0]) && Possible(waiters, Apply(waiters, s, steps[0]), steps[1..]))
  }

  ghost function After(waiters: set<Tid>, s: Countdown, steps: seq<Step>): Countdown
    requires Possible(waiters, s, steps)
    decreases |steps|
  {
    if steps == [] then s else After(waiters, Apply(waiters, s, steps[0]), steps[1..])
  }

  // ---------------------------------------------------------------------------------------
  // The law of the latch
  // ---------------------------------------------------------------------------------------

  /** The counter has come to 0. */
  predicate IsOver(n: uint32, s: Countdown) {
    0 < n <= s.downs
  }

  /**
   As long as the counter has not wrapped around: exactly one thread gets to 0, with the decrement that
   makes them `n`; the signal is up when that thread has released, and a wait has returned only then.
   */
  ghost predicate Lawful(n: uint32, s: Countdown) {
    s.downs < UINT32_COUNT ==>
      && s.latch.count == (if s.downs <= n then n - s.downs else UINT32_COUNT + n - s.downs)
      && s.zeros == (if IsOver(n, s) then 1 else 0)
      && |s.releasing| + (if s.latch.signal then 1 else 0) == s.zeros
      && (s.returned > 0 ==> s.latch.signal)
  }

  lemma StepIsLawful(waiters: set<Tid>, n: uint32, s: Countdown, step: Step)
    requires Lawful(n, s) && Enabled(waiters, s, step)
    ensures Lawful(n, Apply(waiters, s, step)) && s.downs <= Apply(waiters, s, step).downs
  {
  }

  lemma {:induction false} RunIsLawful(waiters: set<Tid>, n: uint32, s: Countdown, steps: seq<Step>)
    requires Lawful(n, s) && Possible(waiters, s, steps)
    ensures Lawful(n, After(waiters, s, steps))
    decreases |steps|
  {
    hide Enabled, Apply, Lawful;
    if steps == [] {
    } else {
      StepIsLawful(waiters, n, s, steps[0]);
      RunIsLawful(waiters, n, Apply(waiters, s, steps[0]), steps[1..]);
    }
  }

  /**
   After any interleaving with fewer than 2 to the 32 decrements of a latch of `n`: the signal is up only
   if there were `n` of them, exactly one thread has then got to 0 and none before, it has released or is
   about to, and a wait has returned only if the signal is up.
   */
  lemma LatchLaw(waiters: set<Tid>, n: uint32, steps: seq<Step>)
    requires Possible(waiters, Init(n), steps) && After(waiters, Init(n), steps).downs < UINT32_COUNT
    ensures var s := After(waiters, Init(n), steps);
      && (s.latch.signal ==> 0 < n <= s.downs)
      && s.zeros == (if 0 < n <= s.downs then 1 else 0)
      && (0 < n <= s.downs ==> s.latch.signal || |s.releasing| == 1)
      && (s.returned > 0 ==> s.latch.signal)
  {
    RunIsLawful(waiters, n, Init(n), steps);
  }

  // ---------------------------------------------------------------------------------------
  // One waiter
  // ---------------------------------------------------------------------------------------

  /** A thread waits on, asleep, although the signal is up. */
  ghost predicate Strands(s: Countdown) {
    s.latch.signal && Asleep(s.parked) != {}
  }

  ghost predicate OnlyWaitersPark(waiters: set<Tid>, s: Countdown) {
    forall t | t in s.parked :: t in waiters
  }

  lemma StepStrandsNobody(waiters: set<Tid>, s: Countdown, step: Step)
    requires OnlyWaitersPark(waiters, s) && Enabled(waiters, s, step)
    ensures OnlyWaitersPark(waiters, Apply(waiters, s, step))
    ensures Q.AtMostOne(waiters) && !Strands(s) ==> !Strands(Apply(waiters, s, step))
  {
    if step.Release? && Q.AtMostOne(waiters) {
      Q.WakesTheOne(waiters, Asleep(s.parked), step.wakes);
    }
    assert forall t | t in s.parked && !s.parked[t] :: t in Asleep(s.parked);
  }

  lemma {:induction false} RunStrandsNobody(waiters: set<Tid>, s: Countdown, steps: seq<Step>)
    requires OnlyWaitersPark(waiters, s) && Q.AtMostOne(waiters) && !Strands(s) && Possible(waiters, s, steps)
    ensures !Strands(After(waiters, s, steps))
    decreases |steps|
  {
    hide Enabled, Apply, Strands, OnlyWaitersPark;
    if steps == [] {
    } else {
      StepStrandsNobody(waiters, s, steps[0]);
      RunStrandsNobody(waiters, Apply(waiters, s, steps[0]), steps[1..]);
    }
  }

  lemma {:induction false} RunOn(waiters: set<Tid>, s: Countdown, steps: seq<Step>, step: Step)
    requires Possible(waiters, s, steps) && Enabled(waiters, After(waiters, s, steps), step)
    ensures Possible(waiters, s, steps + [step])
    ensures After(waiters, s, steps + [step]) == Apply(waiters, After(waiters, s, steps), step)
    decreases |steps|
  {
    hide Enabled, Apply;
    if steps == [] {
      assert steps + [step] == [step] && [step][1..] == [];
    } else {
      RunOn(waiters, Apply(waiters, s, steps[0]), steps[1..], step);
      assert (steps + [step])[0] == steps[0] && (steps + [step])[1..] == steps[1..] + [step];
    }
  }

  lemma Extend(waiters: set<Tid>, s: Countdown, steps: seq<Step>, now: Countdown, step: Step)
      returns (longer: seq<Step>, next: Countdown)
    requires Possible(waiters, s, steps) && After(waiters, s, steps) == now && Enabled(waiters, now, step)
    ensures Possible(waiters, s, longer) && After(waiters, s, longer) == next == Apply(waiters, now, step)
  {
    RunOn(waiters, s, steps, step);
    longer, next := steps + [step], Apply(waiters, now, step);
  }

  /** A thread that takes the counter down to 0. */
  lemma {:induction false} CountToZero(waiters: set<Tid>, s: Countdown, steps: seq<Step>, now: Countdown, d: Tid)
      returns (longer: seq<Step>, over: Countdown)
    requires Possible(waiters, s, steps) && After(waiters, s, steps) == now
    requires IsFree(now, d) && now.latch.count > 0
    ensures Possible(waiters, s, longer) && After(waiters, s, longer) == over
    ensures over.parked == now.parked && over.releasing == now.releasing + {d}
    decreases now.latch.count
  {
    hide Possible, After;
    longer, over := Extend(waiters, s, steps, now, Decrement(d));
    if now.latch.count > 1 {
      longer, over := CountToZero(waiters, s, longer, over, d);
    }
  }

  /** Two waiters: the one signal wakes the first, and the second sleeps on. */
  lemma TwoWaiters(waiters: set<Tid>, n: uint32, a: Tid, b: Tid, d: Tid) returns (steps: seq<Step>)
    requires n > 0 && a in waiters && b in waiters && a != b && d !in waiters
    ensures Possible(waiters, Init(n), steps) && Strands(After(waiters, Init(n), steps))
  {
    hide Possible, After;
    var s0, s1, s2, s3, s4: Countdown;
    steps, s0 := [], Init(n);
    NoSteps(waiters, s0);
    steps, s1 := Extend(waiters, s0, steps, s0, Wait(a));
    steps, s2 := Extend(waiters, s0, steps, s1, Wait(b));
    assert a in Asleep(s2.parked);
    steps, s3 := CountToZero(waiters, s0, steps, s2, d);
    steps, s4 := Extend(waiters, s0, steps, s3, Release(d, {a}));
    assert b in Asleep(s4.parked);
  }

  lemma NoSteps(waiters: set<Tid>, s: Countdown)
    ensures Possible(waiters, s, []) && After(waiters, s, []) == s
  {
  }

  lemma FreshThread(ts: set<Tid>) returns (d: Tid)
    ensures d !in ts && forall t | t in ts :: t < d
  {
    if ts == {} {
      d := 0;
    } else {
      var t :| t in ts;
      d := FreshThread(ts - {t});
      assert forall u | u in ts :: u == t || u in ts - {t};
      d := if t < d then d else t + 1;
    }
  }

  /** The signal wakes one thread: no run leaves a waiter asleep beside it if and only if there is at most one. */
  lemma WaitersExact(waiters: set<Tid>, n: uint32)
    requires n > 0
    ensures (forall steps | Possible(waiters, Init(n), steps) :: !Strands(After(waiters, Init(n), steps)))
            <==> Q.AtMostOne(waiters)
  {
    hide Possible, After;
    if Q.AtMostOne(waiters) {
      forall steps | Possible(waiters, Init(n), steps)
        ensures !Strands(After(waiters, Init(n), steps))
      {
        RunStrandsNobody(waiters, Init(n), steps);
      }
    } else {
      var a, b :| a in waiters && b in waiters && a != b;
      var d := FreshThread(waiters);
      var _ := TwoWaiters(waiters, n, a, b, d);
    }
  }
}
