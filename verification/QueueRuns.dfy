/**
 The blocking queue of fqueue.hpp as a system of threads: the code between taking and releasing the
 mutex is one step, and threads parked on the two condition variables are part of the state.
 */
module QueueRuns {
  import opened Options

  // ---------------------------------------------------------------------------------------
  // The sections of add_block, pop_block and clear that hold the mutex
  // ---------------------------------------------------------------------------------------

  datatype Queue<T> = Queue(contents: seq<T>, max: nat, fullSignal: bool, emptySignal: bool) {
    predicate IsFull() {
      |contents| >= max
    }

    predicate IsEmpty() {
      contents == []
    }
  }

  const SIZE_MAX: nat := 0xFFFF_FFFF_FFFF_FFFF

  function NewQueue<T>(size: nat): Queue<T> {
    Queue([], if size == 0 then SIZE_MAX else size, false, false)
  }

  /** What a section ends with: the thread parks, or the call returns 0, -1 or 1. */
  datatype AddReply = AddParks | Added | AddFails | AddTimesOut
  datatype PopReply<T> = PopParks | Popped(node: Option<T>) | PopTimesOut

  /** Everything behind the wait loop of `add_block`. */
  function AddRest<T>(q: Queue<T>, val: T): (Queue<T>, AddReply) {
    if q.IsFull() then (q.(fullSignal := false, emptySignal := true), AddFails)
    else (q.(contents := q.contents + [val], fullSignal := false, emptySignal := true), Added)
  }

  function AddEnter<T>(q: Queue<T>, val: T): (Queue<T>, AddReply) {
    if q.IsFull() && !q.fullSignal then (q, AddParks) else AddRest(q, val)
  }

  /** The wait has returned: the loop tests the flag, not the queue. */
  function AddResume<T>(q: Queue<T>, val: T): (Queue<T>, AddReply) {
    if !q.fullSignal then (q, AddParks) else AddRest(q, val)
  }

  function AddExpire<T>(q: Queue<T>): (Queue<T>, AddReply) {
    (q.(fullSignal := false), AddTimesOut)
  }

  /** Everything behind the wait loop of `pop_block`. */
  function PopRest<T>(q: Queue<T>): (Queue<T>, PopReply<T>) {
    if q.IsEmpty() then (q.(fullSignal := true, emptySignal := false), Popped(None))
    else (q.(contents := q.contents[1..], fullSignal := true, emptySignal := false), Popped(Some(q.contents[0])))
  }

  function PopEnter<T>(q: Queue<T>): (Queue<T>, PopReply<T>) {
    if q.IsEmpty() && !q.emptySignal then (q, PopParks) else PopRest(q)
  }

  function PopResume<T>(q: Queue<T>): (Queue<T>, PopReply<T>) {
    if !q.emptySignal then (q, PopParks) else PopRest(q)
  }

  function PopExpire<T>(q: Queue<T>): (Queue<T>, PopReply<T>) {
    (q.(emptySignal := false), PopTimesOut)
  }

  function Clear<T>(q: Queue<T>): Queue<T> {
    q.(contents := [], fullSignal := true, emptySignal := true)
  }

  // ---------------------------------------------------------------------------------------
  // Threads
  // ---------------------------------------------------------------------------------------

  type Tid = nat

  /** A thread inside a condition wait; `woken` once the wait may return. */
  datatype Wait<T> = ToAdd(val: T, timed: bool, woken: bool) | ToPop(timed: bool, woken: bool)

  datatype Roles = Roles(producers: set<Tid>, consumers: set<Tid>)

  /**
   The queue, the parked threads, and what has happened: the values whose `add_block` returned 0 in
   order, the values popped or cleared in order, the calls of `clear`, the pops that returned 0 with
   a null node and the adds that returned -1.
   */
  datatype System<T> = System(
    q: Queue<T>, parked: map<Tid, Wait<T>>,
    added: seq<T>, removed: seq<T>, clears: nat, nullPops: nat, failedAdds: nat)

  function Init<T>(size: nat): System<T> {
    System(NewQueue(size), map[], [], [], 0, 0, 0)
  }

  /** The threads asleep on the condition of the adders, and on that of the poppers. */
  function AsleepToAdd<T>(parked: map<Tid, Wait<T>>): set<Tid> {
    set t | t in parked && parked[t].ToAdd? && !parked[t].woken
  }

  function AsleepToPop<T>(parked: map<Tid, Wait<T>>): set<Tid> {
    set t | t in parked && parked[t].ToPop? && !parked[t].woken
  }

  /** A signal wakes at least one of the threads asleep, if there are any. */
  predicate MayWake(asleep: set<Tid>, wakes: set<Tid>) {
    wakes <= asleep && (asleep != {} ==> wakes != {})
  }

  function Wake<T>(parked: map<Tid, Wait<T>>, wakes: set<Tid>): map<Tid, Wait<T>> {
    map t | t in parked :: if t in wakes then parked[t].(woken := true) else parked[t]
  }

  /** `wakes` and `alsoWakes` are the threads that the signals of the step wake. */
  datatype Step<T> =
    | DoAdd(t: Tid, val: T, timed: bool, wakes: set<Tid>)
    | DoAddAgain(t: Tid, wakes: set<Tid>)
    | DoAddExpire(t: Tid)
    | DoPop(t: Tid, timed: bool, wakes: set<Tid>)
    | DoPopAgain(t: Tid, wakes: set<Tid>)
    | DoPopExpire(t: Tid)
    | DoClear(t: Tid, wakes: set<Tid>, alsoWakes: set<Tid>)
    | DoWakeSpuriously(t: Tid)

  predicate Enabled<T>(roles: Roles, s: System<T>, step: Step<T>) {
    match step
    case DoAdd(t, _, _, wakes) => t in roles.producers && t !in s.parked && MayWake(AsleepToPop(s.parked), wakes)
    case DoAddAgain(t, wakes) =>
      t in s.parked && s.parked[t].ToAdd? && s.parked[t].woken && MayWake(AsleepToPop(s.parked), wakes)
    case DoAddExpire(t) => t in s.parked && s.parked[t].ToAdd? && s.parked[t].timed
    case DoPop(t, _, wakes) => t in roles.consumers && t !in s.parked && MayWake(AsleepToAdd(s.parked), wakes)
    case DoPopAgain(t, wakes) =>
      t in s.parked && s.parked[t].ToPop? && s.parked[t].woken && MayWake(AsleepToAdd(s.parked), wakes)
    case DoPopExpire(t) => t in s.parked && s.parked[t].ToPop? && s.parked[t].timed
    case DoClear(t, wakes, alsoWakes) =>
      t !in s.parked && MayWake(AsleepToPop(s.parked), wakes) && MayWake(AsleepToAdd(s.parked), alsoWakes)
    case DoWakeSpuriously(t) => t in s.parked
  }

  function AfterAdd<T>(s: System<T>, t: Tid, wait: Wait<T>, end: (Queue<T>, AddReply), wakes: set<Tid>): System<T>
    requires wait.ToAdd?
  {
    match end.1
    case AddParks => s.(q := end.0, parked := s.parked[t := wait.(woken := false)])
    case Added => s.(q := end.0, parked := Wake(s.parked - {t}, wakes), added := s.added + [wait.val])
    case AddFails => s.(q := end.0, parked := Wake(s.parked - {t}, wakes), failedAdds := s.failedAdds + 1)
    case AddTimesOut => s.(q := end.0, parked := s.parked - {t})
  }

  function AfterPop<T>(s: System<T>, t: Tid, wait: Wait<T>, end: (Queue<T>, PopReply<T>), wakes: set<Tid>): System<T>
    requires wait.ToPop?
  {
    match end.1
    case PopParks => s.(q := end.0, parked := s.parked[t := wait.(woken := false)])
    case Popped(Some(val)) => s.(q := end.0, parked := Wake(s.parked - {t}, wakes), removed := s.removed + [val])
    case Popped(None) => s.(q := end.0, parked := Wake(s.parked - {t}, wakes), nullPops := s.nullPops + 1)
    case PopTimesOut => s.(q := end.0, parked := s.parked - {t})
  }

  function Apply<T>(roles: Roles, s: System<T>, step: Step<T>): System<T>
    requires Enabled(roles, s, step)
  {
    match step
    case DoAdd(t, val, timed, wakes) => AfterAdd(s, t, ToAdd(val, timed, false), AddEnter(s.q, val), wakes)
    case DoAddAgain(t, wakes) => AfterAdd(s, t, s.parked[t], AddResume(s.q, s.parked[t].val), wakes)
    case DoAddExpire(t) => AfterAdd(s, t, s.parked[t], AddExpire(s.q), {})
    case DoPop(t, timed, wakes) => AfterPop(s, t, ToPop(timed, false), PopEnter(s.q), wakes)
    case DoPopAgain(t, wakes) => AfterPop(s, t, s.parked[t], PopResume(s.q), wakes)
    case DoPopExpire(t) => AfterPop(s, t, s.parked[t], PopExpire(s.q), {})
    case DoClear(t, wakes, alsoWakes) =>
      s.(q := Clear(s.q), parked := Wake(s.parked, wakes + alsoWakes),
         removed := s.removed + s.q.contents, clears := s.clears + 1)
    case DoWakeSpuriously(t) => s.(parked := Wake(s.parked, {t}))
  }

  /** The steps can be taken one after the other. */
  ghost predicate Possible<T>(roles: Roles, s: System<T>, steps: seq<Step<T>>)
    decreases |steps|
  {
    steps == [] || (Enabled(roles, s, steps[0]) && Possible(roles, Apply(roles, s, steps[0]), steps[1..]))
  }

  ghost function After<T>(roles: Roles, s: System<T>, steps: seq<Step<T>>): System<T>
    requires Possible(roles, s, steps)
    decreases |steps|
  {
    if steps == [] then s else After(roles, Apply(roles, s, steps[0]), steps[1..])
  }

  // ---------------------------------------------------------------------------------------
  // What every run keeps
  // ---------------------------------------------------------------------------------------

  /** No signal is up for a full queue, and one for an empty queue comes from a `clear` not yet used up. */
  ghost predicate Safe<T>(s: System<T>) {
    && 1 <= s.q.max && |s.q.contents| <= s.q.max
    && (s.q.IsFull() ==> !s.q.fullSignal)
    && s.failedAdds == 0
    && s.nullPops + (if s.q.IsEmpty() && s.q.emptySignal then 1 else 0) <= s.clears
    && s.added == s.removed + s.q.contents
  }

  lemma StepIsSafe<T>(roles: Roles, s: System<T>, step: Step<T>)
    requires Safe(s) && Enabled(roles, s, step)
    ensures Safe(Apply(roles, s, step)) && Apply(roles, s, step).q.max == s.q.max
  {
  }

  lemma {:induction false} RunIsSafe<T>(roles: Roles, s: System<T>, steps: seq<Step<T>>)
    requires Safe(s) && Possible(roles, s, steps)
    ensures Safe(After(roles, s, steps)) && After(roles, s, steps).q.max == s.q.max
    decreases |steps|
  {
    if steps == [] {
    } else {
      StepIsSafe(roles, s, steps[0]);
      RunIsSafe(roles, Apply(roles, s, steps[0]), steps[1..]);
    }
  }

  /**
   Over every run of any threads, with timeouts and spurious wake-ups: no `add_block` returns -1, the
   pops that return a null node are no more than the calls of `clear`, the queue never holds more
   than its size, and what was added is what was removed, in order, followed by the contents.
   */
  lemma EveryRun<T>(roles: Roles, size: nat, steps: seq<Step<T>>)
    requires Possible(roles, Init(size), steps)
    ensures var s := After(roles, Init(size), steps);
      && s.failedAdds == 0
      && s.nullPops <= s.clears
      && |s.q.contents| <= (if size == 0 then SIZE_MAX else size)
      && s.added == s.removed + s.q.contents
      && (s.q.IsFull() ==> !s.q.fullSignal)
  {
    RunIsSafe(roles, Init(size), steps);
  }

  // ---------------------------------------------------------------------------------------
  // No wake-up is lost with one thread on a side
  // ---------------------------------------------------------------------------------------

  /** A consumer waits although there is something to pop: it is asleep or will fall asleep again. */
  ghost predicate StrandsConsumer<T>(s: System<T>) {
    exists t :: t in s.parked && s.parked[t].ToPop? && !s.q.IsEmpty() && (!s.parked[t].woken || !s.q.emptySignal)
  }

  /** A producer waits although there is room. */
  ghost predicate StrandsProducer<T>(s: System<T>) {
    exists t :: t in s.parked && s.parked[t].ToAdd? && !s.q.IsFull() && (!s.parked[t].woken || !s.q.fullSignal)
  }

  /** Every parked thread waits on its own side. */
  ghost predicate InRole<T>(roles: Roles, s: System<T>) {
    forall t | t in s.parked :: t in if s.parked[t].ToAdd? then roles.producers else roles.consumers
  }

  /** A parked consumer without the signal has nothing to pop, and one asleep is without the signal. */
  ghost predicate PromptPops<T>(s: System<T>) {
    forall t | t in s.parked && s.parked[t].ToPop? ::
      && (!s.q.emptySignal ==> s.q.IsEmpty())
      && (!s.parked[t].woken ==> !s.q.emptySignal)
  }

  ghost predicate PromptAdds<T>(s: System<T>) {
    forall t | t in s.parked && s.parked[t].ToAdd? ::
      && (!s.q.fullSignal ==> s.q.IsFull())
      && (!s.parked[t].woken ==> !s.q.fullSignal)
  }

  ghost predicate AtMostOne(ts: set<Tid>) {
    forall a, b | a in ts && b in ts :: a == b
  }

  /** A signal to the only thread that may be asleep wakes it. */
  lemma WakesTheOne(ts: set<Tid>, asleep: set<Tid>, wakes: set<Tid>)
    requires AtMostOne(ts) && asleep <= ts && MayWake(asleep, wakes)
    ensures wakes == asleep
  {
    if asleep != {} {
      var t :| t in wakes;
      assert asleep == {t};
    }
  }

  lemma StepInRole<T>(roles: Roles, s: System<T>, step: Step<T>)
    requires InRole(roles, s) && Enabled(roles, s, step)
    ensures InRole(roles, Apply(roles, s, step))
  {
  }

  lemma StepIsPromptToPop<T>(roles: Roles, s: System<T>, step: Step<T>)
    requires InRole(roles, s) && AtMostOne(roles.consumers) && PromptPops(s) && Enabled(roles, s, step)
    ensures PromptPops(Apply(roles, s, step))
  {
    if step.DoAdd? || step.DoAddAgain? || step.DoClear? {
      WakesTheOne(roles.consumers, AsleepToPop(s.parked), step.wakes);
    }
  }

  lemma StepIsPromptToAdd<T>(roles: Roles, s: System<T>, step: Step<T>)
    requires InRole(roles, s) && AtMostOne(roles.producers) && PromptAdds(s) && Enabled(roles, s, step)
    ensures PromptAdds(Apply(roles, s, step))
  {
    if step.DoPop? || step.DoPopAgain? {
      WakesTheOne(roles.producers, AsleepToAdd(s.parked), step.wakes);
    } else if step.DoClear? {
      WakesTheOne(roles.producers, AsleepToAdd(s.parked), step.alsoWakes);
    }
  }

  lemma {:induction false} RunIsPrompt<T>(roles: Roles, s: System<T>, steps: seq<Step<T>>)
    requires InRole(roles, s) && Possible(roles, s, steps)
    ensures InRole(roles, After(roles, s, steps))
    ensures AtMostOne(roles.consumers) && PromptPops(s) ==> PromptPops(After(roles, s, steps))
    ensures AtMostOne(roles.producers) && PromptAdds(s) ==> PromptAdds(After(roles, s, steps))
    decreases |steps|
  {
    hide Enabled, Apply, PromptPops, PromptAdds, InRole;
    if steps == [] {
    } else {
      StepInRole(roles, s, steps[0]);
      if AtMostOne(roles.consumers) && PromptPops(s) {
        StepIsPromptToPop(roles, s, steps[0]);
      }
      if AtMostOne(roles.producers) && PromptAdds(s) {
        StepIsPromptToAdd(roles, s, steps[0]);
      }
      RunIsPrompt(roles, Apply(roles, s, steps[0]), steps[1..]);
    }
  }

  lemma OneConsumer<T>(roles: Roles, size: nat, steps: seq<Step<T>>)
    requires Possible(roles, Init(size), steps) && AtMostOne(roles.consumers)
    ensures !StrandsConsumer(After(roles, Init(size), steps))
  {
    RunIsPrompt(roles, Init(size), steps);
  }

  lemma OneProducer<T>(roles: Roles, size: nat, steps: seq<Step<T>>)
    requires Possible(roles, Init(size), steps) && AtMostOne(roles.producers)
    ensures !StrandsProducer(After(roles, Init(size), steps))
  {
    RunIsPrompt(roles, Init(size), steps);
  }

  /** With one thread on each side, the two are never both asleep. */
  lemma NeverBothAsleep<T>(roles: Roles, size: nat, steps: seq<Step<T>>)
    requires Possible(roles, Init(size), steps) && AtMostOne(roles.consumers) && AtMostOne(roles.producers)
    ensures var s := After(roles, Init(size), steps);
      AsleepToAdd(s.parked) == {} || AsleepToPop(s.parked) == {}
  {
    hide Possible, After;
    RunIsPrompt(roles, Init(size), steps);
    RunIsSafe(roles, Init(size), steps);
    var s := After(roles, Init(size), steps);
    assert AsleepToAdd(s.parked) != {} ==> s.q.IsFull();
    assert AsleepToPop(s.parked) != {} ==> s.q.IsEmpty();
  }

  /** One more step at the end of a run. */
  lemma {:induction false} RunOn<T>(roles: Roles, s: System<T>, steps: seq<Step<T>>, step: Step<T>)
    requires Possible(roles, s, steps) && Enabled(roles, After(roles, s, steps), step)
    ensures Possible(roles, s, steps + [step])
    ensures After(roles, s, steps + [step]) == Apply(roles, After(roles, s, steps), step)
    decreases |steps|
  {
    hide Enabled, Apply;
    if steps == [] {
      assert steps + [step] == [step] && [step][1..] == [];
    } else {
      RunOn(roles, Apply(roles, s, steps[0]), steps[1..], step);
      assert (steps + [step])[0] == steps[0] && (steps + [step])[1..] == steps[1..] + [step];
    }
  }

  lemma NoSteps<T>(roles: Roles, s: System<T>)
    ensures Possible(roles, s, []) && After(roles, s, []) == s
  {
  }

  lemma Extend<T>(roles: Roles, s: System<T>, steps: seq<Step<T>>, now: System<T>, step: Step<T>)
      returns (longer: seq<Step<T>>, next: System<T>)
    requires Possible(roles, s, steps) && After(roles, s, steps) == now && Enabled(roles, now, step)
    ensures Possible(roles, s, longer) && After(roles, s, longer) == next == Apply(roles, now, step)
  {
    RunOn(roles, s, steps, step);
    longer, next := steps + [step], Apply(roles, now, step);
  }

  /**
   Two consumers, both woken for one item: the timeout of one uses the signal up, and the other
   finds it down and goes back to sleep beside the item.
   */
  lemma TwoConsumers<T>(roles: Roles, size: nat, val: T, p: Tid, c: Tid, d: Tid) returns (steps: seq<Step<T>>)
    requires p in roles.producers && c in roles.consumers && d in roles.consumers && c != d && p !in roles.consumers
    ensures Possible(roles, Init(size), steps) && StrandsConsumer(After(roles, Init(size), steps))
    ensures var s := After(roles, Init(size), steps); AsleepToPop(s.parked) == {c} && s.q.contents == [val]
  {
    hide Possible, After;
    var s0, s1, s2, s3, s4, s5: System<T>;
    steps, s0 := [], Init(size);
    NoSteps(roles, s0);
    steps, s1 := Extend(roles, s0, steps, s0, DoPop(c, false, {}));
    steps, s2 := Extend(roles, s0, steps, s1, DoPop(d, true, {}));
    assert c in AsleepToPop(s2.parked) && d in AsleepToPop(s2.parked);
    steps, s3 := Extend(roles, s0, steps, s2, DoAdd(p, val, false, {c, d}));
    steps, s4 := Extend(roles, s0, steps, s3, DoPopExpire(d));
    steps, s5 := Extend(roles, s0, steps, s4, DoPopAgain(c, {}));
    assert c in s5.parked && !s5.parked[c].woken;
  }

  /** A producer that fills the queue. */
  lemma {:induction false} Fill<T>(roles: Roles, s: System<T>, steps: seq<Step<T>>, now: System<T>, p: Tid, val: T)
      returns (longer: seq<Step<T>>, full: System<T>)
    requires Possible(roles, s, steps) && After(roles, s, steps) == now && p in roles.producers
    requires now.parked == map[] && !now.q.fullSignal && |now.q.contents| <= now.q.max
    ensures Possible(roles, s, longer) && After(roles, s, longer) == full
    ensures full.parked == map[] && !full.q.fullSignal && |full.q.contents| == full.q.max == now.q.max
    decreases now.q.max - |now.q.contents|
  {
    hide Possible, After;
    longer, full := steps, now;
    if !now.q.IsFull() {
      var more, next := Extend(roles, s, steps, now, DoAdd(p, val, false, {}));
      longer, full := Fill(roles, s, more, next, p, val);
    }
  }

  /** Two producers waiting at a full queue, the second with a timeout. */
  lemma TwoWaitToAdd<T>(roles: Roles, size: nat, val: T, p: Tid, q: Tid) returns (steps: seq<Step<T>>)
    requires p in roles.producers && q in roles.producers && p != q
    ensures Possible(roles, Init(size), steps)
    ensures var s := After(roles, Init(size), steps);
      && s.parked == map[p := ToAdd(val, false, false)][q := ToAdd(val, true, false)]
      && !s.q.fullSignal && |s.q.contents| == s.q.max == if size == 0 then 0xFFFF_FFFF_FFFF_FFFF else size
  {
    hide Possible, After;
    var s0, s1, s2, s3: System<T>;
    s0 := Init(size);
    NoSteps(roles, s0);
    steps, s1 := Fill(roles, s0, [], s0, p, val);
    steps, s2 := Extend(roles, s0, steps, s1, DoAdd(p, val, false, {}));
    steps, s3 := Extend(roles, s0, steps, s2, DoAdd(q, val, true, {}));
  }

  /** The same for two producers of a full queue: one goes back to sleep beside a free place. */
  lemma TwoProducers<T>(roles: Roles, size: nat, val: T, c: Tid, p: Tid, q: Tid) returns (steps: seq<Step<T>>)
    requires c in roles.consumers && p in roles.producers && q in roles.producers && p != q && c !in roles.producers
    ensures Possible(roles, Init(size), steps) && StrandsProducer(After(roles, Init(size), steps))
    ensures var s := After(roles, Init(size), steps);
      AsleepToAdd(s.parked) == {p} && |s.q.contents| == (if size == 0 then 0xFFFF_FFFF_FFFF_FFFF else size) - 1
  {
    hide Possible, After;
    var s0, s3, s4, s5, s6: System<T>;
    s0 := Init(size);
    steps := TwoWaitToAdd(roles, size, val, p, q);
    s3 := After(roles, s0, steps);
    assert p in AsleepToAdd(s3.parked) && q in AsleepToAdd(s3.parked);
    steps, s4 := Extend(roles, s0, steps, s3, DoPop(c, false, {p, q}));
    steps, s5 := Extend(roles, s0, steps, s4, DoAddExpire(q));
    steps, s6 := Extend(roles, s0, steps, s5, DoAddAgain(p, {}));
    assert p in s6.parked && !s6.parked[p].woken;
  }

  /** No run strands a consumer exactly when there is at most one. */
  lemma ConsumersExact<T(!new)>(roles: Roles, size: nat, val: T)
    requires roles.producers !! roles.consumers && roles.producers != {}
    ensures (forall steps | Possible(roles, Init<T>(size), steps) ::
               !StrandsConsumer(After(roles, Init<T>(size), steps)))
            <==> AtMostOne(roles.consumers)
  {
    hide Possible, After;
    if AtMostOne(roles.consumers) {
      forall steps | Possible(roles, Init<T>(size), steps)
        ensures !StrandsConsumer(After(roles, Init<T>(size), steps))
      {
        OneConsumer(roles, size, steps);
      }
    } else {
      var c, d :| c in roles.consumers && d in roles.consumers && c != d;
      var p :| p in roles.producers;
      var _ := TwoConsumers(roles, size, val, p, c, d);
    }
  }

  /** No run strands a producer exactly when there is at most one. */
  lemma ProducersExact<T(!new)>(roles: Roles, size: nat, val: T)
    requires roles.producers !! roles.consumers && roles.consumers != {}
    ensures (forall steps | Possible(roles, Init<T>(size), steps) ::
               !StrandsProducer(After(roles, Init<T>(size), steps)))
            <==> AtMostOne(roles.producers)
  {
    hide Possible, After;
    if AtMostOne(roles.producers) {
      forall steps | Possible(roles, Init<T>(size), steps)
        ensures !StrandsProducer(After(roles, Init<T>(size), steps))
      {
        OneProducer(roles, size, steps);
      }
    } else {
      var p, q :| p in roles.producers && q in roles.producers && p != q;
      var c :| c in roles.consumers;
      var _ := TwoProducers(roles, size, val, c, p, q);
    }
  }

  // ---------------------------------------------------------------------------------------
  // What one step does after any run
  // ---------------------------------------------------------------------------------------

  /** After any run an `add_block` parks exactly when the queue holds as many values as it has places, or adds. */
  lemma AddAfterRun<T>(roles: Roles, size: nat, steps: seq<Step<T>>, t: Tid, val: T, timed: bool, wakes: set<Tid>)
    requires Possible(roles, Init(size), steps)
    requires Enabled(roles, After(roles, Init(size), steps), DoAdd(t, val, timed, wakes))
    ensures var s := After(roles, Init(size), steps); var s' := Apply(roles, s, DoAdd(t, val, timed, wakes));
      if |s.q.contents| == (if size == 0 then 0xFFFF_FFFF_FFFF_FFFF else size) then
        s' == s.(parked := s.parked[t := ToAdd(val, timed, false)])
      else
        && s'.added == s.added + [val] && s'.q.contents == s.q.contents + [val]
        && s'.q.emptySignal && !s'.q.fullSignal && s'.parked == Wake(s.parked, wakes)
  {
    hide Possible, After;
    RunIsSafe(roles, Init(size), steps);
    var s := After(roles, Init(size), steps);
    assert s.parked - {t} == s.parked;
  }

  /** After any run a `pop_block` takes the first value if there is one. */
  lemma PopAfterRun<T>(roles: Roles, size: nat, steps: seq<Step<T>>, t: Tid, timed: bool, wakes: set<Tid>)
    requires Possible(roles, Init(size), steps)
    requires Enabled(roles, After(roles, Init(size), steps), DoPop(t, timed, wakes))
    ensures var s := After(roles, Init(size), steps); var s' := Apply(roles, s, DoPop(t, timed, wakes));
      if s.q.contents != [] then
        && s'.removed == s.removed + [s.q.contents[0]] && s'.q.contents == s.q.contents[1..]
        && s'.q.fullSignal && !s'.q.emptySignal && s'.parked == Wake(s.parked, wakes)
      else if s.q.emptySignal then s'.nullPops == s.nullPops + 1 && t !in s'.parked
      else s' == s.(parked := s.parked[t := ToPop(timed, false)])
  {
    hide Possible, After;
    var s := After(roles, Init(size), steps);
    assert s.parked - {t} == s.parked;
  }

  /**
   A `clear` after any run lets a waiting consumer go: if any waits, one is awake, an only consumer
   in any case, and one that resumes next returns with a null node.
   */
  lemma ClearReleases<T>(roles: Roles, size: nat, steps: seq<Step<T>>, t: Tid, wakes: set<Tid>, alsoWakes: set<Tid>)
    requires Possible(roles, Init(size), steps)
    requires Enabled(roles, After(roles, Init(size), steps), DoClear(t, wakes, alsoWakes))
    ensures var s := Apply(roles, After(roles, Init(size), steps), DoClear(t, wakes, alsoWakes));
      && s.q.contents == []
      && ((exists c :: c in s.parked && s.parked[c].ToPop?) ==>
          exists c :: c in s.parked && s.parked[c].ToPop? && s.parked[c].woken)
      && (AtMostOne(roles.consumers) ==> forall c | c in s.parked && s.parked[c].ToPop? :: s.parked[c].woken)
      && forall c, next | Enabled(roles, s, DoPopAgain(c, next)) ::
        var s' := Apply(roles, s, DoPopAgain(c, next)); c !in s'.parked && s'.nullPops == s.nullPops + 1
  {
    hide Possible, After;
    var before := After(roles, Init(size), steps);
    RunIsPrompt(roles, Init(size), steps);
    var s := Apply(roles, before, DoClear(t, wakes, alsoWakes));
    if c :| c in s.parked && s.parked[c].ToPop? {
      var w := if before.parked[c].woken then c else assert c in AsleepToPop(before.parked); var w :| w in wakes; w;
      assert w in s.parked && s.parked[w].ToPop? && s.parked[w].woken;
    }
    if AtMostOne(roles.consumers) {
      WakesTheOne(roles.consumers, AsleepToPop(before.parked), wakes);
      forall c | c in s.parked && s.parked[c].ToPop?
        ensures s.parked[c].woken
      {
        assert !before.parked[c].woken ==> c in AsleepToPop(before.parked);
      }
    }
  }

  /** A waiting producer is let go as well, and adds its value. */
  lemma ClearMakesRoom<T>(roles: Roles, size: nat, steps: seq<Step<T>>, t: Tid, wakes: set<Tid>, alsoWakes: set<Tid>)
    requires Possible(roles, Init(size), steps)
    requires Enabled(roles, After(roles, Init(size), steps), DoClear(t, wakes, alsoWakes))
    ensures var s := Apply(roles, After(roles, Init(size), steps), DoClear(t, wakes, alsoWakes));
      && (AtMostOne(roles.producers) ==> forall p | p in s.parked && s.parked[p].ToAdd? :: s.parked[p].woken)
      && forall p, next | Enabled(roles, s, DoAddAgain(p, next)) ::
        var s' := Apply(roles, s, DoAddAgain(p, next)); p !in s'.parked && s'.q.contents == [s.parked[p].val]
  {
    hide Possible, After;
    var before := After(roles, Init(size), steps);
    RunIsPrompt(roles, Init(size), steps);
    RunIsSafe(roles, Init(size), steps);
    var s := Apply(roles, before, DoClear(t, wakes, alsoWakes));
    if AtMostOne(roles.producers) {
      WakesTheOne(roles.producers, AsleepToAdd(before.parked), alsoWakes);
      forall p | p in s.parked && s.parked[p].ToAdd?
        ensures s.parked[p].woken
      {
        assert !before.parked[p].woken ==> p in AsleepToAdd(before.parked);
      }
    }
  }

  /** The bound on null pops is reached: for every k there is a run with k calls of `clear` and k null pops. */
  lemma {:induction false} NullPopsTight<T>(roles: Roles, size: nat, c: Tid, k: nat) returns (steps: seq<Step<T>>)
    requires c in roles.consumers
    ensures Possible(roles, Init(size), steps)
    ensures var s := After(roles, Init(size), steps);
      s.clears == k && s.nullPops == k && s.parked == map[] && s.q.contents == [] && !s.q.emptySignal
  {
    hide Possible, After;
    var s0: System<T> := Init(size);
    if k == 0 {
      steps := [];
      NoSteps(roles, s0);
    } else {
      steps := NullPopsTight(roles, size, c, k - 1);
      var s, s1, s2: System<T>;
      s := After(roles, s0, steps);
      steps, s1 := Extend(roles, s0, steps, s, DoClear(c, {}, {}));
      assert s1.parked == map[];
      steps, s2 := Extend(roles, s0, steps, s1, DoPop(c, false, {}));
      assert s2.parked == map[];
    }
  }
}
