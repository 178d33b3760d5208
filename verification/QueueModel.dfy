/**
 The transaction queue as a value: its steps, their durable states, the hashes it
 reports, and a trace of everything it did that others can observe.
 `TransactionQueue` proves the loops and field updates equal to this model.

 The signer and the network are inputs, one `Env` a step. Listeners do not throw
 and steps have no timeout. A submission, retries included, is one `Sent` action
 that either returns a hash or throws. `Save` hands a snapshot to the persistence adapter, which the
 queue does not wait for: `QueueStorage` says what storage may hold then.
 */
module QueueModel {
  import opened Outcomes

  datatype Status = Pending | Simulated | Submitted | Confirmed

  datatype StepState = StepState(xdr: string, status: Status, hash: Option<string>, fee: Option<string>)

  /** A callback the queue cannot see into; that it threw is ignored. */
  datatype Rollback = Rollback

  datatype QueueStep = QueueStep(xdr: string, rollback: Option<Rollback>)

  datatype EventStatus =
    | PendingEvent | SimulatedEvent | SubmittedEvent | ConfirmedEvent | FailedEvent | UnconfirmedEvent | LostEvent

  datatype Action =
    | Emit(index: nat, status: EventStatus, hash: Option<string>, dryRun: bool)
    | Save(snapshot: seq<StepState>)
    | Clear
    | Sent(index: nat)
    | RolledBack(index: nat)

  datatype SimOutcome = SimThrows | SimFails | SimSucceeds(fee: string)
  datatype SendOutcome = SendThrows | SendReturns(hash: string)
  datatype PollOutcome = PollSuccess | PollFailed | PollAgain | PollThrows

  datatype Env = Env(guardPasses: bool, signs: bool, sim: SimOutcome, send: SendOutcome, polls: seq<PollOutcome>)

  datatype Config = Config(persists: bool, guarded: bool, maxPollAttempts: nat)
  datatype Options = Options(dryRun: bool, skipSimulation: bool)

  datatype Queue = Queue(
    steps: seq<QueueStep>,
    states: seq<StepState>,
    submittedHashes: seq<string>,
    trace: seq<Action>)

  /** How a step, or a run of steps, ended; `completed` lists the steps a rollback would undo. */
  datatype End = End(q: Queue, completed: seq<nat>, ok: bool)

  // ---------------------------------------------------------------------
  // One step
  // ---------------------------------------------------------------------

  function Log(q: Queue, a: Action): Queue {
    q.(trace := q.trace + [a])
  }

  function SaveSnapshot(cfg: Config, q: Queue): Queue {
    if cfg.persists then Log(q, Save(q.states)) else q
  }

  function OrElse<T>(a: Option<T>, b: Option<T>): Option<T> {
    if a.Some? then a else b
  }

  function Mark(cfg: Config, q: Queue, i: nat, status: Status, hash: Option<string>, fee: Option<string>): (r: Queue)
    requires i < |q.steps| == |q.states|
    ensures r.steps == q.steps && |r.states| == |q.states| && r.submittedHashes == q.submittedHashes
  {
    var s := StepState(q.steps[i].xdr, status, OrElse(hash, q.states[i].hash), OrElse(fee, q.states[i].fee));
    SaveSnapshot(cfg, q.(states := q.states[i := s]))
  }

  /** The rollbacks of the completed steps, last first. */
  function Rollbacks(steps: seq<QueueStep>, completed: seq<nat>): seq<Action>
    requires forall k :: 0 <= k < |completed| ==> completed[k] < |steps|
  {
    if completed == [] then []
    else
      var last := completed[|completed| - 1];
      (if steps[last].rollback.Some? then [RolledBack(last)] else [])
      + Rollbacks(steps, completed[..|completed| - 1])
  }

  ghost predicate Ready(q: Queue, completed: seq<nat>) {
    && |q.steps| == |q.states|
    && (forall k :: 0 <= k < |completed| ==> completed[k] < |q.steps|)
  }

  function Fail(q: Queue, i: nat, hash: Option<string>, completed: seq<nat>): End
    requires Ready(q, completed)
  {
    var failed := Log(q, Emit(i, FailedEvent, hash, false));
    End(failed.(trace := failed.trace + Rollbacks(q.steps, completed)), completed, false)
  }

  /** Whether polling sees the transaction succeed; an answer that is not listed is "not yet". */
  predicate PollSucceeds(polls: seq<PollOutcome>, attempts: nat) {
    attempts > 0 && polls != [] &&
    match polls[0]
    case PollSuccess => true
    case PollAgain => PollSucceeds(polls[1..], attempts - 1)
    case _ => false
  }

  /** Some answer within the attempts is a success, and every one before it is "not yet". */
  lemma {:induction false} PollSucceedsExactly(polls: seq<PollOutcome>, attempts: nat)
    ensures PollSucceeds(polls, attempts) <==>
            exists k :: 0 <= k < attempts && k < |polls| && FirstSuccess(polls, k)
    decreases |polls|
  {
    if attempts > 0 && polls != [] {
      if polls[0].PollAgain? {
        PollSucceedsExactly(polls[1..], attempts - 1);
        forall k | 0 <= k < |polls| - 1
          ensures FirstSuccess(polls[1..], k) <==> FirstSuccess(polls, k + 1)
        {
          assert forall j :: 0 <= j < k ==> polls[1..][j] == polls[j + 1];
          assert forall j :: 0 < j < k + 1 ==> polls[j] == polls[1..][j - 1];
        }
        if exists k :: 0 <= k < attempts && k < |polls| && FirstSuccess(polls, k) {
          var k :| 0 <= k < attempts && k < |polls| && FirstSuccess(polls, k);
          assert FirstSuccess(polls[1..], k - 1);
        }
        if exists k :: 0 <= k < attempts - 1 && k < |polls[1..]| && FirstSuccess(polls[1..], k) {
          var k :| 0 <= k < attempts - 1 && k < |polls[1..]| && FirstSuccess(polls[1..], k);
          assert FirstSuccess(polls, k + 1);
        }
      } else if polls[0].PollSuccess? {
        assert FirstSuccess(polls, 0);
      }
    }
  }

  predicate FirstSuccess(polls: seq<PollOutcome>, k: nat)
    requires k < |polls|
  {
    polls[k].PollSuccess? && forall j :: 0 <= j < k ==> polls[j].PollAgain?
  }

  function Confirm(cfg: Config, q: Queue, i: nat, env: Env, hash: string, fee: Option<string>, completed: seq<nat>): End
    requires Ready(q, completed) && i < |q.steps|
  {
    if PollSucceeds(env.polls, cfg.maxPollAttempts) then
      var q1 := Mark(cfg, Log(q, Emit(i, ConfirmedEvent, Some(hash), false)), i, Confirmed, Some(hash), fee);
      End(q1.(submittedHashes := q1.submittedHashes + [hash]), completed + [i], true)
    else
      Fail(q, i, Some(hash), completed)
  }

  function Submit(cfg: Config, q: Queue, i: nat, env: Env, fee: Option<string>, completed: seq<nat>): End
    requires Ready(q, completed) && i < |q.steps|
  {
    var q1 := Log(q, Sent(i));
    match env.send
    case SendThrows => Fail(q1, i, None, completed)
    case SendReturns(hash) =>
      var q2 := Mark(cfg, Log(q1, Emit(i, SubmittedEvent, Some(hash), false)), i, Submitted, Some(hash), fee);
      Confirm(cfg, q2, i, env, hash, fee, completed)
  }

  function SubmitUnlessDry(cfg: Config, o: Options, q: Queue, i: nat, env: Env, fee: Option<string>,
                           completed: seq<nat>): End
    requires Ready(q, completed) && i < |q.steps|
  {
    if o.dryRun then End(Log(q, Emit(i, ConfirmedEvent, None, true)), completed + [i], true)
    else Submit(cfg, q, i, env, fee, completed)
  }

  function Execute(cfg: Config, o: Options, q: Queue, i: nat, env: Env, completed: seq<nat>): (r: End)
    requires Ready(q, completed) && i < |q.steps|
    ensures r.q.steps == q.steps && Ready(r.q, r.completed)
  {
    if cfg.guarded && !o.dryRun && !env.guardPasses then Fail(q, i, None, completed)
    else if !env.signs then Fail(q, i, None, completed)
    else if o.skipSimulation && !o.dryRun then SubmitUnlessDry(cfg, o, q, i, env, None, completed)
    else
      match env.sim
      case SimSucceeds(fee) =>
        var q1 := Log(Mark(cfg, q, i, Simulated, None, Some(fee)), Emit(i, SimulatedEvent, None, false));
        SubmitUnlessDry(cfg, o, q1, i, env, Some(fee), completed)
      case _ => Fail(q, i, None, completed)
  }

  /** The step gets as far as being sent. */
  predicate ReachesSend(cfg: Config, o: Options, env: Env) {
    && !o.dryRun
    && (cfg.guarded ==> env.guardPasses)
    && env.signs
    && (o.skipSimulation || env.sim.SimSucceeds?)
  }

  /** The step gets through: simulated in a dry run, sent and confirmed in a real one. */
  predicate Completes(cfg: Config, o: Options, env: Env) {
    if o.dryRun then env.signs && env.sim.SimSucceeds?
    else ReachesSend(cfg, o, env) && env.send.SendReturns? && PollSucceeds(env.polls, cfg.maxPollAttempts)
  }

  /** All steps before `j` get through and step `j` is sent. */
  predicate SendsStep(cfg: Config, o: Options, envs: seq<Env>, j: nat)
    requires j < |envs|
  {
    (forall i :: 0 <= i < j ==> Completes(cfg, o, envs[i])) && ReachesSend(cfg, o, envs[j])
  }

  // ---------------------------------------------------------------------
  // A run
  // ---------------------------------------------------------------------

  function RunFrom(cfg: Config, o: Options, q: Queue, i: nat, envs: seq<Env>, completed: seq<nat>): (r: End)
    requires Ready(q, completed) && i <= |q.steps| <= |envs|
    ensures r.q.steps == q.steps && Ready(r.q, r.completed)
    decreases |q.steps| - i
  {
    if i == |q.steps| then End(q, completed, true)
    else
      var r := Execute(cfg, o, Log(q, Emit(i, PendingEvent, None, false)), i, envs[i], completed);
      if r.ok then RunFrom(cfg, o, r.q, i + 1, envs, r.completed) else r
  }

  /** A run that got through forgets its steps and the stored state. */
  function Finish(cfg: Config, q: Queue): Queue {
    var done := q.(steps := [], states := []);
    if cfg.persists then Log(done, Clear) else done
  }

  function AfterRun(cfg: Config, o: Options, q: Queue, envs: seq<Env>): (Queue, bool)
    requires |q.steps| == |q.states| && |q.steps| <= |envs|
  {
    var r := RunFrom(cfg, o, q.(submittedHashes := []), 0, envs, []);
    (if r.ok then Finish(cfg, r.q) else r.q, r.ok)
  }

  function AfterEnqueue(cfg: Config, q: Queue, step: QueueStep): Queue {
    SaveSnapshot(cfg, q.(steps := q.steps + [step], states := q.states + [StepState(step.xdr, Pending, None, None)]))
  }

  // ---------------------------------------------------------------------
  // Resuming
  // ---------------------------------------------------------------------

  /** Marked as submitted or confirmed. */
  predicate Marked(s: StepState) {
    s.status.Submitted? || s.status.Confirmed?
  }

  /** Marked, with a hash; an empty hash counts as none. */
  predicate Recorded(s: StepState) {
    Marked(s) && s.hash.Some? && s.hash.value != ""
  }

  datatype Verdict = Recovered(hash: string) | LostWithHash(hash: string) | Requeued(xdr: string)

  function VerdictOf(cfg: Config, s: StepState, polls: seq<PollOutcome>): Verdict {
    if !Recorded(s) then Requeued(s.xdr)
    else if s.status.Confirmed? || PollSucceeds(polls, cfg.maxPollAttempts) then Recovered(s.hash.value)
    else LostWithHash(s.hash.value)
  }

  function VerdictEvents(cfg: Config, i: nat, s: StepState, polls: seq<PollOutcome>): seq<Action> {
    if !Recorded(s) then [Emit(i, LostEvent, None, false)]
    else if s.status.Confirmed? then []
    else [Emit(i, UnconfirmedEvent, s.hash, false),
          Emit(i, if PollSucceeds(polls, cfg.maxPollAttempts) then ConfirmedEvent else LostEvent, s.hash, false)]
  }

  /** Reconciles the first `n` stored steps; the queue's own steps become the re-queued ones. */
  function Reconcile(cfg: Config, q: Queue, stored: seq<StepState>, polls: seq<seq<PollOutcome>>, n: nat): Queue
    requires n <= |stored| <= |polls|
  {
    if n == 0 then q.(steps := [], states := [])
    else
      var q1 := Reconcile(cfg, q, stored, polls, n - 1);
      var s := stored[n - 1];
      var q2 := q1.(trace := q1.trace + VerdictEvents(cfg, n - 1, s, polls[n - 1]));
      match VerdictOf(cfg, s, polls[n - 1])
      case Recovered(hash) => q2.(submittedHashes := q2.submittedHashes + [hash])
      case LostWithHash(_) => q2
      case Requeued(xdr) =>
        q2.(steps := q2.steps + [QueueStep(xdr, None)], states := q2.states + [StepState(xdr, Pending, None, None)])
  }

  /** How many of the first `n` stored steps are queued again. */
  function RequeuedCount(stored: seq<StepState>, n: nat): (count: nat)
    requires n <= |stored|
    ensures count <= n
  {
    if n == 0 then 0 else RequeuedCount(stored, n - 1) + (if Recorded(stored[n - 1]) then 0 else 1)
  }

  lemma {:induction false} ReconcileShape(cfg: Config, q: Queue, stored: seq<StepState>, polls: seq<seq<PollOutcome>>,
                                          n: nat)
    requires n <= |stored| <= |polls|
    ensures var r := Reconcile(cfg, q, stored, polls, n); |r.steps| == |r.states| == RequeuedCount(stored, n) <= n
  {
    if n > 0 {
      ReconcileShape(cfg, q, stored, polls, n - 1);
    }
  }

  function AfterResume(cfg: Config, o: Options, q: Queue, stored: Option<seq<StepState>>, polls: seq<seq<PollOutcome>>,
                       envs: seq<Env>): (Queue, bool)
    requires stored.Some? ==> |stored.value| <= |polls| && |stored.value| <= |envs|
  {
    if !cfg.persists then (q, true)
    else
      var q1 := Log(q, Clear);
      if stored.None? || stored.value == [] then (q1, true)
      else
        ReconcileShape(cfg, q1, stored.value, polls, |stored.value|);
        var q2 := Reconcile(cfg, q1, stored.value, polls, |stored.value|);
        if q2.steps == [] then (q2, true)
        else
          var r := RunFrom(cfg, o, q2, 0, envs, []);
          (if r.ok then Finish(cfg, r.q) else r.q, r.ok)
  }
}
