/**
 The hand-off between the callers of `execute` and the worker loop of mysql_simple_pool.cpp: a
 context in the caller's stack frame goes through the queue to the worker, which answers it and
 releases the caller by the latch of flatch.hpp.
 */
module HandOff {
  import opened Latches
  import opened Options
  import opened QueueRuns

  const WORKER: Tid := 0

  /** The result: published empty first, then filled in. */
  datatype Reply = Unfilled | Filled(answer: int)

  /** Where a call is: inside `add_block`, accepted by it, asleep at the latch, or awake there. */
  datatype Place = Adding | Accepted | AtLatch(woken: bool)

  /** A call of `execute`, with the context in its frame: statement, result pointer and latch. */
  datatype Call = Call(caller: Tid, sql: string, at: Place, result: Option<Reply>, latch: LatchState)

  /** The worker loop, by what it has last done with the context it holds. */
  datatype Worker = Looping | Took(ctx: nat) | Published(ctx: nat) | Ran(ctx: nat) | Counted(ctx: nat)

  datatype Execution = Execution(ctx: nat, sql: string, answer: int)

  /**
   The calls that have not returned, by context; contexts are numbered as they are made, and
   `asked[n]` is the statement of context `n`. The rest is history: the executions, the contexts
   whose `count_down` is over, what the calls have returned (None for a null result), and whether
   the worker has ever followed a context whose call had returned.
   */
  datatype Pool = Pool(
    qs: System<nat>, calls: map<nat, Call>, worker: Worker,
    asked: seq<string>, executed: seq<Execution>, done: seq<nat>, returned: map<nat, Option<Reply>>,
    dangling: bool)

  function Start(size: nat): Pool {
    Pool(QueueRuns.Init(size), map[], Looping, [], [], [], map[], false)
  }

  function RolesOf(callers: set<Tid>): Roles {
    Roles(callers, {WORKER})
  }

  datatype Move =
    | MakeCall(t: Tid, sql: string)
    | OnQueue(step: Step<nat>)
    | Publish
    | Run(answer: int)
    | CountDown
    | Signal(wakes: bool)
    | LatchEnter(n: nat)
    | LatchResume(n: nat)
    | LatchSpuriously(n: nat)

  predicate Busy(s: Pool, t: Tid) {
    exists n :: n in s.calls && s.calls[n].caller == t
  }

  /** Callers add the context of their call without a timeout, the worker pops with one; nobody clears. */
  predicate QueueMove(s: Pool, step: Step<nat>) {
    match step
    case DoAdd(t, n, timed, _) => n in s.calls && s.calls[n].caller == t && s.calls[n].at == Adding && !timed
    case DoPop(t, timed, _) => s.worker.Looping? && timed
    case DoClear(_, _, _) => false
    case _ => true
  }

  predicate CanMove(callers: set<Tid>, s: Pool, move: Move) {
    match move
    case MakeCall(t, _) => t in callers && !Busy(s, t)
    case OnQueue(step) => Enabled(RolesOf(callers), s.qs, step) && QueueMove(s, step)
    case Publish => s.worker.Took?
    case Run(_) => s.worker.Published?
    case CountDown => s.worker.Ran?
    case Signal(wakes) =>
      s.worker.Counted? &&
      (s.worker.ctx in s.calls && s.calls[s.worker.ctx].at == AtLatch(false) ==> wakes)
    case LatchEnter(n) => n in s.calls && s.calls[n].at == Accepted
    case LatchResume(n) => n in s.calls && s.calls[n].at == AtLatch(true)
    case LatchSpuriously(n) => n in s.calls && s.calls[n].at.AtLatch?
  }

  /** The worker follows its pointer to the context and changes it. */
  function Touch(s: Pool, call: Call -> Call, worker: Worker): Pool
    requires !s.worker.Looping?
  {
    var n := s.worker.ctx;
    if n in s.calls then s.(calls := s.calls[n := call(s.calls[n])], worker := worker)
    else s.(worker := worker, dangling := true)
  }

  /** The call returns and its frame is gone. */
  function Return(s: Pool, n: nat, result: Option<Reply>): Pool {
    s.(calls := s.calls - {n}, returned := s.returned[n := result])
  }

  function AfterAddBlock(s: Pool, n: nat, reply: AddReply): Pool {
    match reply
    case AddParks => s
    case Added => if n in s.calls then s.(calls := s.calls[n := s.calls[n].(at := Accepted)]) else s
    case _ => Return(s, n, None)
  }

  function AfterPopBlock(s: Pool, reply: PopReply<nat>): Pool {
    match reply
    case Popped(Some(n)) => s.(worker := Took(n))
    case _ => s
  }

  function AfterQueueStep(callers: set<Tid>, s: Pool, step: Step<nat>): Pool
    requires Enabled(RolesOf(callers), s.qs, step)
  {
    var next := s.(qs := Apply(RolesOf(callers), s.qs, step));
    match step
    case DoAdd(_, n, _, _) => AfterAddBlock(next, n, AddEnter(s.qs.q, n).1)
    case DoAddAgain(t, _) => AfterAddBlock(next, s.qs.parked[t].val, AddResume(s.qs.q, s.qs.parked[t].val).1)
    case DoAddExpire(t) => AfterAddBlock(next, s.qs.parked[t].val, AddExpire(s.qs.q).1)
    case DoPop(_, _, _) => AfterPopBlock(next, PopEnter(s.qs.q).1)
    case DoPopAgain(_, _) => AfterPopBlock(next, PopResume(s.qs.q).1)
    case DoPopExpire(_) => AfterPopBlock(next, PopExpire(s.qs.q).1)
    case _ => next
  }

  /** The latch's wait loop after a test of the signal. */
  function LatchTest(s: Pool, n: nat): Pool
    requires n in s.calls
  {
    if s.calls[n].latch.signal then Return(s, n, s.calls[n].result)
    else s.(calls := s.calls[n := s.calls[n].(at := AtLatch(false))])
  }

  function Moved(callers: set<Tid>, s: Pool, move: Move): Pool
    requires CanMove(callers, s, move)
  {
    match move
    case MakeCall(t, sql) =>
      s.(calls := s.calls[|s.asked| := Call(t, sql, Adding, None, NewLatch(1))], asked := s.asked + [sql])
    case OnQueue(step) => AfterQueueStep(callers, s, step)
    case Publish => Touch(s, (c: Call) => c.(result := Some(Unfilled)), Published(s.worker.ctx))
    case Run(answer) =>
      var n := s.worker.ctx;
      var sql := if n in s.calls then s.calls[n].sql else "";
      Touch(s, (c: Call) => c.(result := Some(Filled(answer))), Ran(n))
      .(executed := s.executed + [Execution(n, sql, answer)])
    case CountDown =>
      var n := s.worker.ctx;
      var isZero := n in s.calls && Decremented(s.calls[n].latch).1;
      Touch(s, (c: Call) => c.(latch := Decremented(c.latch).0), if isZero then Counted(n) else Looping)
    case Signal(wakes) =>
      var n := s.worker.ctx;
      Touch(s, (c: Call) => c.(latch := Released(c.latch), at := if wakes && c.at.AtLatch? then AtLatch(true) else c.at),
            Looping)
      .(done := s.done + [n])
    case LatchEnter(n) => LatchTest(s, n)
    case LatchResume(n) => LatchTest(s, n)
    case LatchSpuriously(n) => s.(calls := s.calls[n := s.calls[n].(at := AtLatch(true))])
  }

  ghost predicate CanRun(callers: set<Tid>, s: Pool, moves: seq<Move>)
    decreases |moves|
  {
    moves == [] || (CanMove(callers, s, moves[0]) && CanRun(callers, Moved(callers, s, moves[0]), moves[1..]))
  }

  ghost function AfterRun(callers: set<Tid>, s: Pool, moves: seq<Move>): Pool
    requires CanRun(callers, s, moves)
    decreases |moves|
  {
    if moves == [] then s else AfterRun(callers, Moved(callers, s, moves[0]), moves[1..])
  }

  // ---------------------------------------------------------------------------------------
  // What every run keeps
  // ---------------------------------------------------------------------------------------

  function Held(w: Worker): seq<nat> {
    if w.Looping? then [] else [w.ctx]
  }

  ghost predicate Distinct(s: seq<nat>) {
    forall i, j | 0 <= i < j < |s| :: s[i] != s[j]
  }

  function ContextsOf(executed: seq<Execution>): (ns: seq<nat>)
    ensures |ns| == |executed| && forall i | 0 <= i < |ns| :: ns[i] == executed[i].ctx
  {
    seq(|executed|, i requires 0 <= i < |executed| => executed[i].ctx)
  }

  /** Every context made so far belongs to one call, which is running or has returned. */
  ghost predicate Numbered(callers: set<Tid>, s: Pool) {
    && (forall n | n in s.calls :: n < |s.asked| && s.calls[n].sql == s.asked[n] && s.calls[n].caller in callers)
    && (forall a, b | a in s.calls && b in s.calls && s.calls[a].caller == s.calls[b].caller :: a == b)
    && (forall n | n in s.returned :: n < |s.asked| && n !in s.calls)
    && (forall n | 0 <= n < |s.asked| :: n in s.calls || n in s.returned)
  }

  /** The accepted contexts, in order: the finished ones, the one the worker holds, the queued ones. */
  ghost predicate InOrder(s: Pool) {
    && s.qs.removed == s.done + Held(s.worker)
    && Distinct(s.qs.added)
    && (forall n | n in s.qs.added :: n < |s.asked|)
    && (forall n | n in s.calls :: s.calls[n].at == Adding <==> n !in s.qs.added)
    && (forall n | n in s.returned :: n in s.done)
  }

  ghost predicate HasAnswer(executed: seq<Execution>, n: nat, sql: string, result: Option<Reply>) {
    result.Some? && result.value.Filled? && Execution(n, sql, result.value.answer) in executed
  }

  /** How far the answer of a call has come. */
  ghost predicate Stage(s: Pool, n: nat, c: Call) {
    if n in s.done then
      c.latch.signal && HasAnswer(s.executed, n, c.sql, c.result)
    else
      && !c.latch.signal
      && if s.worker.Looping? || s.worker.ctx != n || s.worker.Took? then c.result == None && c.latch.count == 1
         else if s.worker.Published? then c.result == Some(Unfilled) && c.latch.count == 1
         else HasAnswer(s.executed, n, c.sql, c.result) && (s.worker.Ran? ==> c.latch.count == 1)
  }

  ghost predicate Staged(s: Pool) {
    forall n | n in s.calls :: Stage(s, n, s.calls[n]) && (s.calls[n].at == AtLatch(false) ==> !s.calls[n].latch.signal)
  }

  ghost predicate Executions(s: Pool) {
    && ContextsOf(s.executed) == s.done + (if s.worker.Ran? || s.worker.Counted? then Held(s.worker) else [])
    && forall e | e in s.executed :: e.ctx < |s.asked| && e.sql == s.asked[e.ctx]
  }

  ghost predicate Answered(s: Pool) {
    forall n | n in s.returned :: n < |s.asked| && HasAnswer(s.executed, n, s.asked[n], s.returned[n])
  }

  /** A thread parked in the queue is the worker, or a caller with the context of its call. */
  ghost predicate Parked(s: Pool) {
    forall t | t in s.qs.parked ::
      match s.qs.parked[t]
      case ToAdd(n, timed, _) => n in s.calls && s.calls[n].caller == t && s.calls[n].at == Adding && !timed
      case ToPop(_, _) => s.worker.Looping?
  }

  ghost predicate QueueKept(callers: set<Tid>, qs: System<nat>) {
    && Safe(qs) && qs.clears == 0
    && InRole(RolesOf(callers), qs) && PromptPops(qs) && AddersServed(qs)
  }

  /** While adders are parked, the queue is not empty, or one of them is about to find the signal up. */
  ghost predicate AddersServed(qs: System<nat>) {
    forall t | t in qs.parked && qs.parked[t].ToAdd? ::
      || qs.q.contents != []
      || (qs.q.fullSignal && exists u :: u in qs.parked && qs.parked[u].ToAdd? && qs.parked[u].woken)
  }

  ghost predicate Kept(callers: set<Tid>, s: Pool) {
    && WORKER !in callers && !s.dangling
    && QueueKept(callers, s.qs) && Numbered(callers, s) && InOrder(s)
    && Staged(s) && Executions(s) && Answered(s) && Parked(s)
  }

  /** One running call changed, and possibly the worker. */
  ghost predicate Updates(s: Pool, s': Pool, n: nat) {
    && s'.qs == s.qs && s'.asked == s.asked && s'.returned == s.returned && s'.dangling == s.dangling
    && n in s.calls && n in s'.calls && s'.calls == s.calls[n := s'.calls[n]]
    && s'.calls[n].caller == s.calls[n].caller && s'.calls[n].sql == s.calls[n].sql
    && s.calls[n].at != Adding && s'.calls[n].at != Adding
  }

  lemma UpdateKeepsNumbers(callers: set<Tid>, s: Pool, s': Pool, n: nat)
    requires Numbered(callers, s) && Updates(s, s', n)
    ensures Numbered(callers, s')
  {
  }

  lemma UpdateKeepsOrder(s: Pool, s': Pool, n: nat)
    requires InOrder(s) && Updates(s, s', n)
    requires s'.done + Held(s'.worker) == s.done + Held(s.worker) && s.done <= s'.done
    ensures InOrder(s')
  {
    hide Distinct;
  }

  lemma UpdateKeepsParked(s: Pool, s': Pool, n: nat)
    requires Parked(s) && Updates(s, s', n) && (s.worker.Looping? ==> s'.worker.Looping?)
    ensures Parked(s')
  {
  }

  lemma UpdateKeepsAnswers(s: Pool, s': Pool, n: nat)
    requires Answered(s) && Updates(s, s', n) && s.executed <= s'.executed
    ensures Answered(s')
  {
  }

  lemma UpdateKeepsStages(s: Pool, s': Pool, n: nat)
    requires Staged(s) && Updates(s, s', n) && s.executed <= s'.executed
    requires forall m | m != n :: m in s'.done <==> m in s.done
    requires !s.worker.Looping? ==> s.worker.ctx == n
    requires !s'.worker.Looping? ==> s'.worker.ctx == n
    requires Stage(s', n, s'.calls[n]) && (s'.calls[n].at == AtLatch(false) ==> !s'.calls[n].latch.signal)
    ensures Staged(s')
  {
  }

  lemma UpdateKeeps(callers: set<Tid>, s: Pool, s': Pool, n: nat)
    requires Kept(callers, s) && Updates(s, s', n)
    requires s'.done + Held(s'.worker) == s.done + Held(s.worker) && s.done <= s'.done
    requires s.worker.Looping? ==> s'.worker.Looping?
    requires s.executed <= s'.executed
    requires Staged(s') && Executions(s')
    ensures Kept(callers, s')
  {
    UpdateKeepsNumbers(callers, s, s', n);
    UpdateKeepsOrder(s, s', n);
    UpdateKeepsParked(s, s', n);
    UpdateKeepsAnswers(s, s', n);
    hide Numbered, InOrder, Parked, Answered, Staged, Executions, QueueKept;
  }

  lemma DoneIsAdded(s: Pool, n: nat)
    requires Safe(s.qs) && InOrder(s)
    ensures n in s.done || n in Held(s.worker) || n in s.qs.q.contents <==> n in s.qs.added
  {
    assert s.qs.added == s.done + Held(s.worker) + s.qs.q.contents;
  }

  /** What the worker holds belongs to a call that is running and has been accepted. */
  lemma HeldIsLive(callers: set<Tid>, s: Pool)
    requires Kept(callers, s) && !s.worker.Looping?
    ensures s.worker.ctx in s.calls && s.worker.ctx !in s.done && s.worker.ctx in s.qs.added
    ensures s.calls[s.worker.ctx].at != Adding
  {
    var n := s.worker.ctx;
    assert s.qs.added == s.done + [n] + s.qs.q.contents;
    assert s.qs.added[|s.done|] == n;
    forall i | 0 <= i < |s.done|
      ensures s.done[i] != n
    {
      assert s.qs.added[i] == s.done[i];
    }
    assert n in s.qs.added;
    assert n < |s.asked|;
  }

  lemma PublishKeeps(callers: set<Tid>, s: Pool)
    requires Kept(callers, s) && s.worker.Took?
    ensures Kept(callers, Moved(callers, s, Publish))
  {
    hide QueueKept, Numbered, InOrder, Parked, Answered;
    HeldIsLive(callers, s);
    var s' := Moved(callers, s, Publish);
    UpdateKeepsStages(s, s', s.worker.ctx);
    UpdateKeeps(callers, s, s', s.worker.ctx);
  }

  lemma RunKeeps(callers: set<Tid>, s: Pool, answer: int)
    requires Kept(callers, s) && s.worker.Published?
    ensures Kept(callers, Moved(callers, s, Run(answer)))
  {
    hide QueueKept, InOrder, Parked, Answered;
    HeldIsLive(callers, s);
    var s' := Moved(callers, s, Run(answer));
    assert s'.executed[|s.executed|] == Execution(s.worker.ctx, s.calls[s.worker.ctx].sql, answer);
    UpdateKeepsStages(s, s', s.worker.ctx);
    UpdateKeeps(callers, s, s', s.worker.ctx);
  }

  lemma CountDownKeeps(callers: set<Tid>, s: Pool)
    requires Kept(callers, s) && s.worker.Ran?
    ensures Kept(callers, Moved(callers, s, CountDown))
  {
    hide QueueKept, Numbered, InOrder, Parked, Answered;
    HeldIsLive(callers, s);
    var s' := Moved(callers, s, CountDown);
    UpdateKeepsStages(s, s', s.worker.ctx);
    UpdateKeeps(callers, s, s', s.worker.ctx);
  }

  lemma SignalKeeps(callers: set<Tid>, s: Pool, wakes: bool)
    requires Kept(callers, s) && CanMove(callers, s, Signal(wakes))
    ensures Kept(callers, Moved(callers, s, Signal(wakes)))
  {
    hide QueueKept, Numbered, InOrder, Parked, Answered;
    HeldIsLive(callers, s);
    var s' := Moved(callers, s, Signal(wakes));
    UpdateKeepsStages(s, s', s.worker.ctx);
    UpdateKeeps(callers, s, s', s.worker.ctx);
  }

  lemma LatchSleepKeeps(callers: set<Tid>, s: Pool, n: nat, woken: bool)
    requires Kept(callers, s) && n in s.calls && s.calls[n].at != Adding && (woken || !s.calls[n].latch.signal)
    ensures Kept(callers, s.(calls := s.calls[n := s.calls[n].(at := AtLatch(woken))]))
  {
    hide QueueKept, Numbered, InOrder, Parked, Answered;
    var s' := s.(calls := s.calls[n := s.calls[n].(at := AtLatch(woken))]);
    forall m | m in s'.calls
      ensures Stage(s', m, s'.calls[m]) && (s'.calls[m].at == AtLatch(false) ==> !s'.calls[m].latch.signal)
    {
      assert Stage(s, m, s.calls[m]);
    }
    UpdateKeeps(callers, s, s', n);
  }

  lemma ReturnNumbers(callers: set<Tid>, s: Pool, n: nat, result: Option<Reply>)
    requires Numbered(callers, s) && n in s.calls
    ensures Numbered(callers, Return(s, n, result))
  {
  }

  lemma ReturnParked(s: Pool, n: nat, result: Option<Reply>)
    requires Parked(s) && n in s.calls && s.calls[n].at != Adding
    ensures Parked(Return(s, n, result))
  {
  }

  lemma ReturnOrder(s: Pool, n: nat, result: Option<Reply>)
    requires InOrder(s) && n in s.calls && n in s.done
    ensures InOrder(Return(s, n, result))
  {
    hide Distinct;
  }

  lemma ReturnStages(s: Pool, n: nat)
    requires Staged(s) && n in s.calls && s.calls[n].latch.signal
    ensures n in s.done && HasAnswer(s.executed, n, s.calls[n].sql, s.calls[n].result)
    ensures Staged(Return(s, n, s.calls[n].result))
  {
    hide HasAnswer;
    assert Stage(s, n, s.calls[n]);
    var s' := Return(s, n, s.calls[n].result);
    forall m | m in s'.calls
      ensures Stage(s', m, s'.calls[m]) && (s'.calls[m].at == AtLatch(false) ==> !s'.calls[m].latch.signal)
    {
      assert Stage(s, m, s.calls[m]);
    }
  }

  lemma ReturnAnswers(callers: set<Tid>, s: Pool, n: nat, result: Option<Reply>)
    requires Answered(s) && Numbered(callers, s) && n in s.calls
    requires HasAnswer(s.executed, n, s.calls[n].sql, result)
    ensures Answered(Return(s, n, result))
  {
    hide HasAnswer;
  }

  lemma ReturnKeeps(callers: set<Tid>, s: Pool, n: nat)
    requires Kept(callers, s) && n in s.calls && s.calls[n].at != Adding && s.calls[n].latch.signal
    ensures Kept(callers, Return(s, n, s.calls[n].result))
  {
    hide QueueKept, Numbered, InOrder, Parked, Answered, Staged, HasAnswer;
    ReturnStages(s, n);
    ReturnNumbers(callers, s, n, s.calls[n].result);
    ReturnParked(s, n, s.calls[n].result);
    ReturnOrder(s, n, s.calls[n].result);
    ReturnAnswers(callers, s, n, s.calls[n].result);
  }

  lemma LatchTestKeeps(callers: set<Tid>, s: Pool, n: nat)
    requires Kept(callers, s) && n in s.calls && s.calls[n].at != Adding
    ensures Kept(callers, LatchTest(s, n))
  {
    hide Kept;
    if s.calls[n].latch.signal {
      ReturnKeeps(callers, s, n);
    } else {
      LatchSleepKeeps(callers, s, n, false);
    }
  }

  lemma FreshContext(callers: set<Tid>, s: Pool)
    requires Kept(callers, s)
    ensures |s.asked| !in s.done && |s.asked| !in Held(s.worker) && |s.asked| !in s.qs.added
    ensures |s.asked| !in s.calls && |s.asked| !in s.returned
  {
    DoneIsAdded(s, |s.asked|);
  }

  lemma MakeCallNumbers(callers: set<Tid>, s: Pool, t: Tid, sql: string)
    requires Numbered(callers, s) && CanMove(callers, s, MakeCall(t, sql))
    ensures Numbered(callers, Moved(callers, s, MakeCall(t, sql)))
  {
  }

  lemma MakeCallStages(callers: set<Tid>, s: Pool, t: Tid, sql: string)
    requires Staged(s) && CanMove(callers, s, MakeCall(t, sql))
    requires |s.asked| !in s.done && |s.asked| !in Held(s.worker)
    ensures Staged(Moved(callers, s, MakeCall(t, sql)))
  {
    hide HasAnswer;
    var s' := Moved(callers, s, MakeCall(t, sql));
    forall m | m in s'.calls
      ensures Stage(s', m, s'.calls[m]) && (s'.calls[m].at == AtLatch(false) ==> !s'.calls[m].latch.signal)
    {
      if m != |s.asked| {
        assert Stage(s, m, s.calls[m]);
      }
    }
  }

  lemma MakeCallRest(callers: set<Tid>, s: Pool, t: Tid, sql: string)
    requires CanMove(callers, s, MakeCall(t, sql)) && |s.asked| !in s.calls
    requires InOrder(s) && Answered(s) && Parked(s) && |s.asked| !in s.qs.added
    ensures InOrder(Moved(callers, s, MakeCall(t, sql))) && Answered(Moved(callers, s, MakeCall(t, sql)))
    ensures Parked(Moved(callers, s, MakeCall(t, sql)))
  {
    hide Distinct, HasAnswer, Busy;
  }

  lemma MakeCallKeeps(callers: set<Tid>, s: Pool, t: Tid, sql: string)
    requires Kept(callers, s) && CanMove(callers, s, MakeCall(t, sql))
    ensures Kept(callers, Moved(callers, s, MakeCall(t, sql)))
  {
    hide QueueKept, Numbered, InOrder, Parked, Answered, Staged, HasAnswer, Busy;
    FreshContext(callers, s);
    MakeCallNumbers(callers, s, t, sql);
    MakeCallStages(callers, s, t, sql);
    MakeCallRest(callers, s, t, sql);
  }

  // ---------------------------------------------------------------------------------------
  // The steps on the queue
  // ---------------------------------------------------------------------------------------

  lemma QueueStepKeeps(callers: set<Tid>, s: Pool, step: Step<nat>)
    requires WORKER !in callers && QueueKept(callers, s.qs)
    requires Enabled(RolesOf(callers), s.qs, step) && !step.DoClear? && !step.DoAddExpire?
    ensures QueueKept(callers, Apply(RolesOf(callers), s.qs, step))
  {
    var roles := RolesOf(callers);
    StepIsSafe(roles, s.qs, step);
    StepInRole(roles, s.qs, step);
    StepIsPromptToPop(roles, s.qs, step);
    StepServesAdders(roles, s.qs, step);
    hide Safe, InRole, PromptPops, AddersServed;
  }

  lemma StepServesAdders(roles: Roles, qs: System<nat>, step: Step<nat>)
    requires Safe(qs) && AddersServed(qs) && Enabled(roles, qs, step) && !step.DoAddExpire? && !step.DoClear?
    ensures AddersServed(Apply(roles, qs, step))
  {
    var qs' := Apply(roles, qs, step);
    forall t | t in qs'.parked && qs'.parked[t].ToAdd? && qs'.q.contents == []
      ensures qs'.q.fullSignal && exists u :: u in qs'.parked && qs'.parked[u].ToAdd? && qs'.parked[u].woken
    {
      assert t in qs.parked && qs.parked[t].ToAdd?;
      if (step.DoPop? || step.DoPopAgain?) && qs'.parked == Wake(qs.parked - {step.t}, step.wakes) {
        assert !qs.parked[t].woken ==> t in AsleepToAdd(qs.parked);
        var u := if qs.parked[t].woken then t else var w :| w in step.wakes; w;
        assert qs.parked[t].woken || u in AsleepToAdd(qs.parked);
        assert u in qs'.parked && qs'.parked[u].ToAdd? && qs'.parked[u].woken;
      } else {
        var u :| u in qs.parked && qs.parked[u].ToAdd? && qs.parked[u].woken;
        assert u in qs'.parked && qs'.parked[u].ToAdd? && qs'.parked[u].woken;
      }
    }
  }

  /** The thread, and the context of an add. */
  lemma AddMover(callers: set<Tid>, s: Pool, step: Step<nat>) returns (n: nat)
    requires Kept(callers, s) && CanMove(callers, s, OnQueue(step)) && (step.DoAdd? || step.DoAddAgain?)
    ensures n in s.calls && s.calls[n].at == Adding && s.calls[n].caller == step.t
    ensures n == if step.DoAdd? then step.val else s.qs.parked[step.t].val
    ensures var qs' := Apply(RolesOf(callers), s.qs, step); var s' := Moved(callers, s, OnQueue(step));
      || (qs' == s.qs.(parked := s.qs.parked[step.t := ToAdd(n, false, false)]) && s' == s.(qs := qs'))
      || (qs'.added == s.qs.added + [n] && qs'.removed == s.qs.removed
          && qs'.parked == Wake(s.qs.parked - {step.t}, step.wakes)
          && s' == s.(qs := qs', calls := s.calls[n := s.calls[n].(at := Accepted)]))
  {
    hide Numbered, InOrder, Staged, Answered, Executions, PromptPops, InRole;
    n := if step.DoAdd? then step.val else s.qs.parked[step.t].val;
    StepIsSafe(RolesOf(callers), s.qs, step);
  }

  lemma AcceptNumbers(callers: set<Tid>, s: Pool, s': Pool, n: nat)
    requires Numbered(callers, s) && n in s.calls
    requires s'.calls == s.calls[n := s.calls[n].(at := Accepted)] && s'.asked == s.asked && s'.returned == s.returned
    ensures Numbered(callers, s')
  {
  }

  lemma AcceptOrder(s: Pool, s': Pool, n: nat)
    requires InOrder(s) && n in s.calls && n < |s.asked| && s.calls[n].at == Adding
    requires s'.qs.added == s.qs.added + [n] && s'.qs.removed == s.qs.removed
    requires s' == s.(qs := s'.qs, calls := s.calls[n := s.calls[n].(at := Accepted)])
    ensures InOrder(s')
  {
    assert n !in s.qs.added;
  }

  lemma AcceptStages(s: Pool, s': Pool, n: nat)
    requires Staged(s) && n in s.calls
    requires s' == s.(qs := s'.qs, calls := s.calls[n := s.calls[n].(at := Accepted)])
    ensures Staged(s')
  {
    hide HasAnswer;
    forall m | m in s'.calls
      ensures Stage(s', m, s'.calls[m]) && (s'.calls[m].at == AtLatch(false) ==> !s'.calls[m].latch.signal)
    {
      assert Stage(s, m, s.calls[m]);
    }
  }

  lemma AcceptParked(s: Pool, s': Pool, n: nat, t: Tid, wakes: set<Tid>)
    requires Parked(s) && n in s.calls && s.calls[n].caller == t
    requires s'.qs.parked == Wake(s.qs.parked - {t}, wakes)
    requires s' == s.(qs := s'.qs, calls := s.calls[n := s.calls[n].(at := Accepted)])
    ensures Parked(s')
  {
  }

  lemma AcceptKeeps(callers: set<Tid>, s: Pool, s': Pool, n: nat, t: Tid, wakes: set<Tid>)
    requires Kept(callers, s) && n in s.calls && s.calls[n].at == Adding && s.calls[n].caller == t
    requires QueueKept(callers, s'.qs) && s'.qs.parked == Wake(s.qs.parked - {t}, wakes)
    requires s'.qs.added == s.qs.added + [n] && s'.qs.removed == s.qs.removed
    requires s' == s.(qs := s'.qs, calls := s.calls[n := s.calls[n].(at := Accepted)])
    ensures Kept(callers, s')
  {
    hide QueueKept, HasAnswer, InOrder, Staged, Parked, Wake;
    AcceptNumbers(callers, s, s', n);
    AcceptOrder(s, s', n);
    AcceptStages(s, s', n);
    AcceptParked(s, s', n, t, wakes);
    hide Numbered, Stage;
  }

  /** Parked threads change, and nothing else but the flags. */
  lemma ParkingKeeps(callers: set<Tid>, s: Pool, s': Pool)
    requires Kept(callers, s) && QueueKept(callers, s'.qs) && Parked(s')
    requires s'.qs.added == s.qs.added && s'.qs.removed == s.qs.removed
    requires s' == s.(qs := s'.qs)
    ensures Kept(callers, s')
  {
    hide QueueKept, HasAnswer, Parked, ContextsOf, Distinct;
  }

  lemma AddKeeps(callers: set<Tid>, s: Pool, step: Step<nat>)
    requires Kept(callers, s) && CanMove(callers, s, OnQueue(step)) && (step.DoAdd? || step.DoAddAgain?)
    ensures Kept(callers, Moved(callers, s, OnQueue(step)))
  {
    var n := AddMover(callers, s, step);
    QueueStepKeeps(callers, s, step);
    hide Moved, Apply, CanMove, QueueKept, Numbered, InOrder, Staged, Answered, Executions;
    var qs' := Apply(RolesOf(callers), s.qs, step);
    var s' := Moved(callers, s, OnQueue(step));
    if s' == s.(qs := qs') {
      ParkingKeeps(callers, s, s');
    } else {
      AcceptKeeps(callers, s, s', n, step.t, step.wakes);
    }
  }

  /** Any other step: the worker takes the first context, or only parked threads and flags change. */
  lemma PopMover(callers: set<Tid>, s: Pool, step: Step<nat>)
    requires Kept(callers, s) && CanMove(callers, s, OnQueue(step)) && !step.DoAdd? && !step.DoAddAgain?
    ensures var qs' := Apply(RolesOf(callers), s.qs, step); var s' := Moved(callers, s, OnQueue(step));
      && qs'.added == s.qs.added && Parked(s')
      && if |qs'.removed| == |s.qs.removed| then s' == s.(qs := qs') && qs'.removed == s.qs.removed
         else
           && s.qs.q.contents != [] && s.worker.Looping?
           && qs'.removed == s.qs.removed + [s.qs.q.contents[0]]
           && s' == s.(qs := qs', worker := Took(s.qs.q.contents[0]))
  {
    hide Numbered, InOrder, Staged, Answered, Executions, PromptPops;
  }

  lemma TakeKeeps(callers: set<Tid>, s: Pool, s': Pool, n: nat)
    requires Kept(callers, s) && QueueKept(callers, s'.qs) && Parked(s') && s.worker.Looping?
    requires s'.qs.added == s.qs.added && s'.qs.removed == s.qs.removed + [n]
    requires s' == s.(qs := s'.qs, worker := Took(n))
    ensures Kept(callers, s')
  {
    hide QueueKept, HasAnswer, Parked, Distinct, ContextsOf;
  }

  lemma PopKeeps(callers: set<Tid>, s: Pool, step: Step<nat>)
    requires Kept(callers, s) && CanMove(callers, s, OnQueue(step)) && !step.DoAdd? && !step.DoAddAgain?
    ensures Kept(callers, Moved(callers, s, OnQueue(step)))
  {
    PopMover(callers, s, step);
    QueueStepKeeps(callers, s, step);
    hide Moved, Apply, CanMove, QueueKept, Numbered, InOrder, Staged, Answered, Executions, Parked;
    var s' := Moved(callers, s, OnQueue(step));
    if |s'.qs.removed| == |s.qs.removed| {
      ParkingKeeps(callers, s, s');
    } else {
      TakeKeeps(callers, s, s', s.qs.q.contents[0]);
    }
  }

  // ---------------------------------------------------------------------------------------
  // Over whole runs
  // ---------------------------------------------------------------------------------------

  lemma MoveKeeps(callers: set<Tid>, s: Pool, move: Move)
    requires Kept(callers, s) && CanMove(callers, s, move)
    ensures Kept(callers, Moved(callers, s, move))
  {
    hide Kept;
    match move
    case MakeCall(t, sql) => MakeCallKeeps(callers, s, t, sql);
    case OnQueue(step) =>
      if step.DoAdd? || step.DoAddAgain? {
        AddKeeps(callers, s, step);
      } else {
        PopKeeps(callers, s, step);
      }
    case Publish => PublishKeeps(callers, s);
    case Run(answer) => RunKeeps(callers, s, answer);
    case CountDown => CountDownKeeps(callers, s);
    case Signal(wakes) => SignalKeeps(callers, s, wakes);
    case LatchEnter(n) => LatchTestKeeps(callers, s, n);
    case LatchResume(n) => LatchTestKeeps(callers, s, n);
    case LatchSpuriously(n) => LatchSleepKeeps(callers, s, n, true);
  }

  lemma {:induction false} RunKeepsAll(callers: set<Tid>, s: Pool, moves: seq<Move>)
    requires Kept(callers, s) && CanRun(callers, s, moves)
    ensures Kept(callers, AfterRun(callers, s, moves))
    decreases |moves|
  {
    hide Kept, CanMove, Moved;
    if moves == [] {
    } else {
      MoveKeeps(callers, s, moves[0]);
      RunKeepsAll(callers, Moved(callers, s, moves[0]), moves[1..]);
    }
  }

  lemma Started(callers: set<Tid>, size: nat)
    requires WORKER !in callers
    ensures Kept(callers, Start(size))
  {
  }

  lemma PendingIsLive(callers: set<Tid>, s: Pool, n: nat)
    requires Kept(callers, s) && (n in Held(s.worker) || n in s.qs.q.contents)
    ensures n in s.calls && n !in s.returned && n !in s.done
  {
    hide Stage, HasAnswer, ContextsOf;
    var rest := Held(s.worker) + s.qs.q.contents;
    assert s.qs.added == s.done + rest;
    assert n in rest;
    var k :| 0 <= k < |rest| && rest[k] == n;
    assert s.qs.added[|s.done| + k] == n && n in s.qs.added;
    forall i | 0 <= i < |s.done|
      ensures s.done[i] != n
    {
      assert s.qs.added[i] == s.done[i];
    }
    assert n < |s.asked|;
  }

  /**
   In every run: the worker never follows a context whose call has returned; the accepted contexts
   are, in order and each once, the finished ones, the one the worker holds and the queued ones; and
   a context that is held or queued belongs to a call that is still running.
   */
  lemma OwnedOnce(callers: set<Tid>, size: nat, moves: seq<Move>)
    requires WORKER !in callers && CanRun(callers, Start(size), moves)
    ensures var s := AfterRun(callers, Start(size), moves);
      && !s.dangling
      && s.qs.added == s.done + Held(s.worker) + s.qs.q.contents
      && Distinct(s.qs.added)
      && forall n | n in Held(s.worker) || n in s.qs.q.contents :: n in s.calls && n !in s.returned
  {
    hide CanRun, AfterRun;
    Started(callers, size);
    RunKeepsAll(callers, Start(size), moves);
    var s := AfterRun(callers, Start(size), moves);
    forall n | n in Held(s.worker) || n in s.qs.q.contents
      ensures n in s.calls && n !in s.returned
    {
      PendingIsLive(callers, s, n);
    }
  }

  /**
   In every run: the worker executes the accepted contexts once each, in the order they were
   accepted, with their own statements; and a call never returns without the answer of its own
   execution.
   */
  lemma AnsweredInOrder(callers: set<Tid>, size: nat, moves: seq<Move>)
    requires WORKER !in callers && CanRun(callers, Start(size), moves)
    ensures var s := AfterRun(callers, Start(size), moves);
      && ContextsOf(s.executed) <= s.qs.added
      && (forall e | e in s.executed :: e.ctx < |s.asked| && e.sql == s.asked[e.ctx])
      && forall n | n in s.returned ::
        && n < |s.asked| && s.returned[n].Some? && s.returned[n].value.Filled?
        && Execution(n, s.asked[n], s.returned[n].value.answer) in s.executed
  {
    hide CanRun, AfterRun;
    Started(callers, size);
    RunKeepsAll(callers, Start(size), moves);
  }

  /**
   In every run, the result of the call whose context the worker holds: none when the worker has taken
   it, an empty one while the statement runs, then the answer of that execution; and the latch of a
   running call is up exactly when its context is finished.
   */
  lemma ResultOnTheWay(callers: set<Tid>, size: nat, moves: seq<Move>)
    requires WORKER !in callers && CanRun(callers, Start(size), moves)
    ensures var s := AfterRun(callers, Start(size), moves);
      && (forall n | n in s.calls :: n < |s.asked| && (s.calls[n].latch.signal <==> n in s.done))
      && match s.worker
         case Looping => true
         case Took(n) => n in s.calls && s.calls[n].result == None
         case Published(n) => n in s.calls && s.calls[n].result == Some(Unfilled)
         case Ran(n) => n in s.calls && HasAnswer(s.executed, n, s.asked[n], s.calls[n].result)
         case Counted(n) => n in s.calls && HasAnswer(s.executed, n, s.asked[n], s.calls[n].result)
  {
    hide CanRun, AfterRun;
    Started(callers, size);
    RunKeepsAll(callers, Start(size), moves);
    var s := AfterRun(callers, Start(size), moves);
    if !s.worker.Looping? {
      HeldIsLive(callers, s);
    }
    assert Staged(s);
    hide QueueKept, InOrder, Executions, Answered, Parked, HasAnswer;
  }

  /** The worker waits in `pop_block`, and without a timeout will wait on. */
  ghost predicate WorkerAsleep(s: Pool) {
    WORKER in s.qs.parked && (!s.qs.parked[WORKER].woken || !s.qs.q.emptySignal)
  }

  /** The call waits in `add_block` or at the latch, and will wait on. */
  ghost predicate CallAsleep(s: Pool, n: nat)
    requires n in s.calls
  {
    var t := s.calls[n].caller;
    match s.calls[n].at
    case Adding => t in s.qs.parked && (!s.qs.parked[t].woken || !s.qs.q.fullSignal)
    case Accepted => false
    case AtLatch(woken) => !woken || !s.calls[n].latch.signal
  }

  lemma WorkerAsleepIsIdle(callers: set<Tid>, s: Pool)
    requires Kept(callers, s) && WorkerAsleep(s)
    ensures s.worker.Looping? && s.qs.q.contents == []
  {
  }

  lemma SleepersAreAdding(callers: set<Tid>, s: Pool, n: nat)
    requires Kept(callers, s) && WorkerAsleep(s) && n in s.calls && CallAsleep(s, n)
    ensures s.calls[n].at == Adding && s.calls[n].caller in s.qs.parked && s.qs.parked[s.calls[n].caller].ToAdd?
  {
    WorkerAsleepIsIdle(callers, s);
    DoneIsAdded(s, n);
    assert Stage(s, n, s.calls[n]);
    hide PromptPops, AddersServed, Safe, ContextsOf, Distinct, HasAnswer;
  }

  /** In every run: while calls are running, the worker and all of them are never asleep together. */
  lemma NoDeadlock(callers: set<Tid>, size: nat, moves: seq<Move>)
    requires WORKER !in callers && CanRun(callers, Start(size), moves)
    ensures var s := AfterRun(callers, Start(size), moves);
      s.calls.Keys != {} && (forall n | n in s.calls :: CallAsleep(s, n)) ==> !WorkerAsleep(s)
  {
    hide CanRun, AfterRun;
    Started(callers, size);
    RunKeepsAll(callers, Start(size), moves);
    var s := AfterRun(callers, Start(size), moves);
    if s.calls.Keys != {} && WorkerAsleep(s) {
      SomeoneIsAwake(callers, s);
    }
  }

  lemma SomeoneIsAwake(callers: set<Tid>, s: Pool)
    requires Kept(callers, s) && WorkerAsleep(s) && s.calls.Keys != {}
    ensures exists n :: n in s.calls && !CallAsleep(s, n)
  {
    WorkerAsleepIsIdle(callers, s);
    var n :| n in s.calls;
    if CallAsleep(s, n) {
      SleepersAreAdding(callers, s, n);
      assert AddersServed(s.qs);
      var u :| u in s.qs.parked && s.qs.parked[u].ToAdd? && s.qs.parked[u].woken;
      var m := s.qs.parked[u].val;
      assert m in s.calls && !CallAsleep(s, m);
    }
  }
}
