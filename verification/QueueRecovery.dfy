/**
 Crash recovery of the transaction queue. The host may stop at any point of a
 run; here every write lands at once, so what survives is the last snapshot
 handed over. What that snapshot says about the steps already sent, and what
 `resume` makes of it; `QueueStorage` builds on this for writes that do not land.
 */
module QueueRecovery {
  import opened Outcomes
  import opened QueueModel
  import opened QueueProtocol

  /** The snapshot in storage after the actions from position `from` on; `initial` was there before. */
  function Stored(trace: seq<Action>, from: nat, initial: seq<StepState>): seq<StepState>
    decreases |trace|
  {
    if |trace| <= from then initial
    else if trace[|trace| - 1].Save? then trace[|trace| - 1].snapshot
    else Stored(trace[..|trace| - 1], from, initial)
  }

  /** The step sent since the last snapshot, if any. */
  function Unsaved(trace: seq<Action>, from: nat): Option<nat>
    decreases |trace|
  {
    if |trace| <= from || trace[|trace| - 1].Save? then None
    else if trace[|trace| - 1].Sent? then Some(trace[|trace| - 1].index)
    else Unsaved(trace[..|trace| - 1], from)
  }

  ghost predicate SameTransactions(s: seq<StepState>, steps: seq<QueueStep>) {
    |s| == |steps| && forall j :: 0 <= j < |s| ==> s[j].xdr == steps[j].xdr
  }

  /** Marked, with the hash the network answered for step `j` in this run. */
  ghost predicate MarkedAsAnswered(s: StepState, envs: seq<Env>, j: nat) {
    Marked(s) && j < |envs| && s.hash.Some? && envs[j].send == SendReturns(s.hash.value)
  }

  /**
   What a run makes of the states it starts from: the first `k` steps carry their answers, step `k` may
   have been simulated again, and the others are as they were.
   */
  ghost predicate MarksOver(s: seq<StepState>, initial: seq<StepState>, envs: seq<Env>, k: nat) {
    && k <= |s| == |initial|
    && (forall j :: 0 <= j < k ==> MarkedAsAnswered(s[j], envs, j))
    && (k < |s| ==> s[k] == initial[k] || s[k].status.Simulated?)
    && (forall j :: k < j < |s| ==> s[j] == initial[j])
  }

  /** Confirmed steps, one step at any status, and steps as they were. */
  ghost predicate ShapedOver(s: seq<StepState>, initial: seq<StepState>, at: nat) {
    && |s| == |initial|
    && forall j :: 0 <= j < |s| ==> (j < at ==> s[j].status.Confirmed?) && (j > at ==> s[j] == initial[j])
  }

  /** The first `k` steps have been sent and marked, and `k` too was sent if it is still unsaved. */
  ghost predicate SentAreMarked(sends: seq<nat>, k: nat, unsaved: Option<nat>) {
    (sends == Iota(k) && unsaved == None) || (sends == Iota(k + 1) && unsaved == Some(k))
  }

  /** How a run begins: where in the trace, from which states, and what it will be answered. */
  datatype Start = Start(from: nat, initial: seq<StepState>, envs: seq<Env>)

  /** What a crash right after `cut` leaves behind. */
  ghost predicate CrashSafe(steps: seq<QueueStep>, cut: seq<Action>, start: Start) {
    var s, unsaved := Stored(cut, start.from, start.initial), Unsaved(cut, start.from);
    && SameTransactions(s, steps)
    && (exists at :: ShapedOver(s, start.initial, at))
    && (exists k :: MarksOver(s, start.initial, start.envs, k) && SentAreMarked(Sends(cut, start.from), k, unsaved))
  }

  ghost predicate AlwaysSafe(steps: seq<QueueStep>, trace: seq<Action>, start: Start)
    decreases |trace|
  {
    && CrashSafe(steps, trace, start)
    && (|trace| > start.from ==> AlwaysSafe(steps, trace[..|trace| - 1], start))
  }

  // ---------------------------------------------------------------------
  // Every point of a real run is safe
  // ---------------------------------------------------------------------

  /** A running queue: storage mirrors its states, the first `k` steps are marked and sent. */
  ghost predicate Tracked(q: Queue, start: Start, at: nat, k: nat, inFlight: bool) {
    && start.from <= |q.trace| && |q.states| == |q.steps|
    && Stored(q.trace, start.from, start.initial) == q.states
    && SameTransactions(q.states, q.steps)
    && ShapedOver(q.states, start.initial, at) && MarksOver(q.states, start.initial, start.envs, k)
    && Sends(q.trace, start.from) == Iota(if inFlight then k + 1 else k)
    && Unsaved(q.trace, start.from) == (if inFlight then Some(k) else None)
    && AlwaysSafe(q.steps, q.trace, start)
  }

  lemma TraceAfter(trace: seq<Action>, from: nat, initial: seq<StepState>, a: Action)
    requires from <= |trace|
    ensures Stored(trace + [a], from, initial) == if a.Save? then a.snapshot else Stored(trace, from, initial)
    ensures Sends(trace + [a], from) == if a.Sent? then Sends(trace, from) + [a.index] else Sends(trace, from)
    ensures Unsaved(trace + [a], from) ==
            if a.Save? then None else if a.Sent? then Some(a.index) else Unsaved(trace, from)
  {
    assert (trace + [a])[..|trace|] == trace;
    assert Sends(trace, from) + [] == Sends(trace, from);
  }

  /** One more action of a tracked queue, whose states are `states` then. */
  lemma ActionKeepsSafe(q: Queue, start: Start, at: nat, k: nat, inFlight: bool, a: Action, next: Queue, at': nat,
                        k': nat, inFlight': bool)
    requires Tracked(q, start, at, k, inFlight)
    requires next.steps == q.steps && next.trace == q.trace + [a]
    requires next.states == if a.Save? then a.snapshot else q.states
    requires a.Sent? ==> !inFlight && a.index == k && k' == k && inFlight'
    requires a.Save? ==> !inFlight' && k' == if inFlight then k + 1 else k
    requires !a.Sent? && !a.Save? ==> k' == k && inFlight' == inFlight
    requires SameTransactions(next.states, next.steps)
    requires ShapedOver(next.states, start.initial, at') && MarksOver(next.states, start.initial, start.envs, k')
    ensures Tracked(next, start, at', k', inFlight')
  {
    hide ShapedOver, MarksOver;
    TraceAfter(q.trace, start.from, start.initial, a);
    assert next.trace[..|q.trace|] == q.trace;
    assert SentAreMarked(Sends(next.trace, start.from), k', Unsaved(next.trace, start.from));
  }

  lemma QuietKeepsTracked(q: Queue, start: Start, at: nat, k: nat, inFlight: bool, a: Action)
    requires Tracked(q, start, at, k, inFlight) && (a.Emit? || a.RolledBack?)
    ensures Tracked(Log(q, a), start, at, k, inFlight)
  {
    ActionKeepsSafe(q, start, at, k, inFlight, a, Log(q, a), at, k, inFlight);
  }

  lemma SentKeepsTracked(q: Queue, start: Start, at: nat, k: nat)
    requires Tracked(q, start, at, k, false)
    ensures Tracked(Log(q, Sent(k)), start, at, k, true)
  {
    ActionKeepsSafe(q, start, at, k, false, Sent(k), Log(q, Sent(k)), at, k, true);
  }

  /** A status change of step `i` is safe to save if it records what was sent and keeps the shape. */
  lemma MarkKeepsTracked(cfg: Config, q: Queue, start: Start, i: nat, k: nat, inFlight: bool,
                         status: Status, hash: Option<string>, fee: Option<string>, k': nat)
    requires cfg.persists && Tracked(q, start, i, k, inFlight) && i < |q.steps|
    requires k' == if inFlight then k + 1 else k
    requires MarksOver(Mark(cfg, q, i, status, hash, fee).states, start.initial, start.envs, k')
    ensures Tracked(Mark(cfg, q, i, status, hash, fee), start, i, k', false)
  {
    var next := Mark(cfg, q, i, status, hash, fee);
    assert ShapedOver(next.states, start.initial, i);
    ActionKeepsSafe(q, start, i, k, inFlight, Save(next.states), next, i, k', false);
  }

  lemma {:induction false} RollbacksKeepTracked(q: Queue, start: Start, at: nat, k: nat, inFlight: bool,
                                                completed: seq<nat>, r: Queue)
    requires Tracked(q, start, at, k, inFlight) && Ready(q, completed)
    requires r == q.(trace := q.trace + Rollbacks(q.steps, completed))
    ensures Tracked(r, start, at, k, inFlight)
    decreases |completed|
  {
    if completed == [] {
      assert q.trace + [] == q.trace;
    } else {
      var last, rest := completed[|completed| - 1], Rollbacks(q.steps, completed[..|completed| - 1]);
      if q.steps[last].rollback.Some? {
        QuietKeepsTracked(q, start, at, k, inFlight, RolledBack(last));
        assert q.trace + ([RolledBack(last)] + rest) == (q.trace + [RolledBack(last)]) + rest;
        RollbacksKeepTracked(Log(q, RolledBack(last)), start, at, k, inFlight, completed[..|completed| - 1], r);
      } else {
        assert [] + rest == rest;
        RollbacksKeepTracked(q, start, at, k, inFlight, completed[..|completed| - 1], r);
      }
    }
  }

  lemma FailIsSafe(q: Queue, start: Start, at: nat, k: nat, inFlight: bool,
                   i: nat, hash: Option<string>, completed: seq<nat>, r: End)
    requires Tracked(q, start, at, k, inFlight) && Ready(q, completed)
    requires r == Fail(q, i, hash, completed)
    ensures Tracked(r.q, start, at, k, inFlight)
  {
    QuietKeepsTracked(q, start, at, k, inFlight, Emit(i, FailedEvent, hash, false));
    RollbacksKeepTracked(Log(q, Emit(i, FailedEvent, hash, false)), start, at, k, inFlight, completed, r.q);
  }

  /** The queue is tracked, wherever it stands. */
  ghost predicate IsTracked(q: Queue, start: Start) {
    exists at: nat, k: nat, inFlight :: Tracked(q, start, at, k, inFlight)
  }

  /** The end of step `i` of a tracked run. */
  ghost predicate StepIsSafe(r: End, start: Start, i: nat) {
    IsTracked(r.q, start) && (r.ok ==> Tracked(r.q, start, i + 1, i + 1, false))
  }

  lemma ConfirmIsSafe(cfg: Config, q: Queue, i: nat, env: Env, hash: string, fee: Option<string>, completed: seq<nat>,
                      start: Start, r: End)
    requires cfg.persists && Ready(q, completed) && i < |q.steps|
    requires i < |start.envs| && env == start.envs[i] && env.send == SendReturns(hash)
    requires Tracked(q, start, i, i + 1, false)
    requires r == Confirm(cfg, q, i, env, hash, fee, completed)
    ensures StepIsSafe(r, start, i)
  {
    if PollSucceeds(env.polls, cfg.maxPollAttempts) {
      var q1 := Log(q, Emit(i, ConfirmedEvent, Some(hash), false));
      QuietKeepsTracked(q, start, i, i + 1, false, Emit(i, ConfirmedEvent, Some(hash), false));
      MarkKeepsTracked(cfg, q1, start, i, i + 1, false, Confirmed, Some(hash), fee, i + 1);
      ConfirmedShape(r.q.states, start.initial, i);
      assert Tracked(r.q, start, i + 1, i + 1, false);
    } else {
      FailIsSafe(q, start, i, i + 1, false, i, Some(hash), completed, r);
    }
  }

  lemma ConfirmedShape(s: seq<StepState>, initial: seq<StepState>, i: nat)
    requires ShapedOver(s, initial, i) && i < |s| && s[i].status.Confirmed?
    ensures ShapedOver(s, initial, i + 1)
  {
  }

  lemma SubmitIsSafe(cfg: Config, q: Queue, i: nat, env: Env, fee: Option<string>, completed: seq<nat>,
                     start: Start, r: End)
    requires cfg.persists && Ready(q, completed) && i < |q.steps|
    requires i < |start.envs| && env == start.envs[i] && Tracked(q, start, i, i, false)
    requires r == Submit(cfg, q, i, env, fee, completed)
    ensures StepIsSafe(r, start, i)
  {
    var q1 := Log(q, Sent(i));
    SentKeepsTracked(q, start, i, i);
    match env.send
    case SendThrows => FailIsSafe(q1, start, i, i, true, i, None, completed, r);
    case SendReturns(hash) =>
      var a := Emit(i, SubmittedEvent, Some(hash), false);
      QuietKeepsTracked(q1, start, i, i, true, a);
      MarkKeepsTracked(cfg, Log(q1, a), start, i, i, true, Submitted, Some(hash), fee, i + 1);
      var q2 := Mark(cfg, Log(q1, a), i, Submitted, Some(hash), fee);
      ConfirmIsSafe(cfg, q2, i, env, hash, fee, completed, start, r);
  }

  lemma ExecuteIsSafe(cfg: Config, o: Options, q: Queue, i: nat, env: Env, completed: seq<nat>, start: Start, r: End)
    requires cfg.persists && !o.dryRun && Ready(q, completed) && i < |q.steps|
    requires i < |start.envs| && env == start.envs[i] && Tracked(q, start, i, i, false)
    requires r == Execute(cfg, o, q, i, env, completed)
    ensures StepIsSafe(r, start, i)
  {
    if (cfg.guarded && !env.guardPasses) || !env.signs || (!o.skipSimulation && !env.sim.SimSucceeds?) {
      FailIsSafe(q, start, i, i, false, i, None, completed, r);
    } else if o.skipSimulation {
      SubmitIsSafe(cfg, q, i, env, None, completed, start, r);
    } else {
      var fee := Some(env.sim.fee);
      MarkKeepsTracked(cfg, q, start, i, i, false, Simulated, None, fee, i);
      var q1 := Mark(cfg, q, i, Simulated, None, fee);
      QuietKeepsTracked(q1, start, i, i, false, Emit(i, SimulatedEvent, None, false));
      SubmitIsSafe(cfg, Log(q1, Emit(i, SimulatedEvent, None, false)), i, env, fee, completed, start, r);
    }
  }

  lemma {:induction false} RunIsSafe(cfg: Config, o: Options, q: Queue, i: nat, completed: seq<nat>,
                                     start: Start, r: End)
    requires cfg.persists && !o.dryRun && Ready(q, completed) && i <= |q.steps| <= |start.envs|
    requires Tracked(q, start, i, i, false)
    requires r == RunFrom(cfg, o, q, i, start.envs, completed)
    ensures IsTracked(r.q, start)
    decreases |q.steps| - i
  {
    hide Tracked, Execute;
    if i < |q.steps| {
      var a := Emit(i, PendingEvent, None, false);
      QuietKeepsTracked(q, start, i, i, false, a);
      var first := Execute(cfg, o, Log(q, a), i, start.envs[i], completed);
      assert r == if first.ok then RunFrom(cfg, o, first.q, i + 1, start.envs, first.completed) else first;
      ExecuteIsSafe(cfg, o, Log(q, a), i, start.envs[i], completed, start, first);
      if first.ok {
        RunIsSafe(cfg, o, first.q, i + 1, first.completed, start, r);
      }
    }
  }

  /** A queue that has only been filled: nothing sent, everything stored as pending. */
  ghost predicate Filled(q: Queue) {
    SameTransactions(q.states, q.steps) && forall j :: 0 <= j < |q.states| ==> q.states[j].status.Pending?
  }

  lemma {:induction false} PrefixesAreSafe(steps: seq<QueueStep>, trace: seq<Action>, start: Start, p: nat)
    requires AlwaysSafe(steps, trace, start) && start.from <= p <= |trace|
    ensures CrashSafe(steps, trace[..p], start)
    decreases |trace|
  {
    if p == |trace| {
      assert trace[..p] == trace;
    } else {
      PrefixesAreSafe(steps, trace[..|trace| - 1], start, p);
      assert trace[..|trace| - 1][..p] == trace[..p];
    }
  }

  /**
   Wherever a real run is cut off, the queue's first or a later one, if every write lands at once: storage
   holds confirmed steps, one step in progress, and steps as the run found them. The steps sent are the
   first ones, they carry what the network answered, and only the last may not be saved yet.
   */
  lemma CrashAnywhereIsSafe(cfg: Config, o: Options, q: Queue, envs: seq<Env>, p: nat)
    requires cfg.persists && !o.dryRun && SameTransactions(q.states, q.steps) && |q.steps| <= |envs|
    requires |q.trace| <= p <= |RunFrom(cfg, o, q, 0, envs, []).q.trace|
    ensures CrashSafe(q.steps, RunFrom(cfg, o, q, 0, envs, []).q.trace[..p], Start(|q.trace|, q.states, envs))
  {
    var start, r := Start(|q.trace|, q.states, envs), RunFrom(cfg, o, q, 0, envs, []);
    assert ShapedOver(q.states, q.states, 0) && MarksOver(q.states, q.states, envs, 0);
    assert SentAreMarked(Sends(q.trace, |q.trace|), 0, Unsaved(q.trace, |q.trace|));
    assert Tracked(q, start, 0, 0, false);
    RunIsSafe(cfg, o, q, 0, [], start, r);
    PrefixesAreSafe(q.steps, r.q.trace, start, p);
  }

  /** Exactly the first `k` steps are marked as submitted or confirmed. */
  ghost predicate MarksFirst(s: seq<StepState>, k: nat) {
    k <= |s| && forall j :: 0 <= j < |s| ==> (Marked(s[j]) <==> j < k)
  }

  /** Confirmed steps, one step at any status, pending steps. */
  ghost predicate Shaped(s: seq<StepState>, at: nat) {
    forall j :: 0 <= j < |s| ==> (j < at ==> s[j].status.Confirmed?) && (j > at ==> s[j].status.Pending?)
  }

  lemma OverPending(s: seq<StepState>, initial: seq<StepState>, envs: seq<Env>, at: nat, k: nat)
    requires ShapedOver(s, initial, at) && MarksOver(s, initial, envs, k)
    requires forall j :: 0 <= j < |initial| ==> initial[j].status.Pending?
    ensures Shaped(s, at) && MarksFirst(s, k) && CarriesHashes(s, Answered(envs))
  {
  }

  /** What a crash of a first run leaves behind. */
  ghost predicate FirstCrashSafe(steps: seq<QueueStep>, cut: seq<Action>, from: nat, initial: seq<StepState>,
                                 envs: seq<Env>) {
    var s := Stored(cut, from, initial);
    && SameTransactions(s, steps)
    && (exists at :: Shaped(s, at))
    && (exists k :: MarksFirst(s, k) && SentAreMarked(Sends(cut, from), k, Unsaved(cut, from)))
    && CarriesHashes(s, Answered(envs))
  }

  /**
   Wherever a first real run is cut off, if every write lands at once: storage holds confirmed steps, one
   step in progress and pending steps. It marks exactly the steps that were sent, with the hashes the
   network answered, except possibly the one sent since the last snapshot.
   */
  lemma FirstCrashAnywhereIsSafe(cfg: Config, o: Options, q: Queue, envs: seq<Env>, p: nat)
    requires cfg.persists && !o.dryRun && Filled(q) && |q.steps| <= |envs|
    requires |q.trace| <= p <= |RunFrom(cfg, o, q, 0, envs, []).q.trace|
    ensures FirstCrashSafe(q.steps, RunFrom(cfg, o, q, 0, envs, []).q.trace[..p], |q.trace|, q.states, envs)
  {
    CrashAnywhereIsSafe(cfg, o, q, envs, p);
    var cut := RunFrom(cfg, o, q, 0, envs, []).q.trace[..p];
    var s := Stored(cut, |q.trace|, q.states);
    hide ShapedOver, MarksOver, Sends, Unsaved, Stored, RunFrom;
    var at :| ShapedOver(s, q.states, at);
    var k :| MarksOver(s, q.states, envs, k) && SentAreMarked(Sends(cut, |q.trace|), k, Unsaved(cut, |q.trace|));
    OverPending(s, q.states, envs, at, k);
  }

  // ---------------------------------------------------------------------
  // Resuming
  // ---------------------------------------------------------------------

  /** The stored steps that are queued again: those not recorded as submitted or confirmed. */
  function RequeuedIndices(s: seq<StepState>, n: nat): (r: seq<nat>)
    requires n <= |s|
    ensures |r| <= n
    ensures forall j :: 0 <= j < |r| ==> r[j] < n
    ensures forall j, k :: 0 <= j < k < |r| ==> r[j] < r[k]
  {
    if n == 0 then []
    else RequeuedIndices(s, n - 1) + (if Recorded(s[n - 1]) then [] else [n - 1])
  }

  /** The hashes recovered, in step order. */
  function RecoveredHashes(cfg: Config, s: seq<StepState>, polls: seq<seq<PollOutcome>>, n: nat): seq<string>
    requires n <= |s| <= |polls|
  {
    if n == 0 then []
    else RecoveredHashes(cfg, s, polls, n - 1)
         + (match VerdictOf(cfg, s[n - 1], polls[n - 1]) case Recovered(hash) => [hash] case _ => [])
  }

  /** The first `n` steps split between the three verdicts, nothing left over. */
  function LostCount(cfg: Config, s: seq<StepState>, polls: seq<seq<PollOutcome>>, n: nat): nat
    requires n <= |s| <= |polls|
  {
    if n == 0 then 0
    else LostCount(cfg, s, polls, n - 1) + (if VerdictOf(cfg, s[n - 1], polls[n - 1]).LostWithHash? then 1 else 0)
  }

  lemma VerdictSendsNothing(cfg: Config, trace: seq<Action>, from: nat, i: nat, s: StepState, polls: seq<PollOutcome>)
    requires from <= |trace|
    ensures Sends(trace + VerdictEvents(cfg, i, s, polls), from) == Sends(trace, from)
  {
    EventsSendNothing(trace, from, VerdictEvents(cfg, i, s, polls));
  }

  /** Reconciling sends nothing. */
  lemma {:induction false} ReconcileSendsNothing(cfg: Config, q: Queue, s: seq<StepState>, polls: seq<seq<PollOutcome>>,
                                                 n: nat, from: nat)
    requires n <= |s| <= |polls| && from <= |q.trace|
    ensures |Reconcile(cfg, q, s, polls, n).trace| >= |q.trace|
    ensures Sends(Reconcile(cfg, q, s, polls, n).trace, from) == Sends(q.trace, from)
  {
    hide VerdictOf, VerdictEvents, Sends;
    if n > 0 {
      ReconcileSendsNothing(cfg, q, s, polls, n - 1, from);
      VerdictSendsNothing(cfg, Reconcile(cfg, q, s, polls, n - 1).trace, from, n - 1, s[n - 1], polls[n - 1]);
    }
  }

  /** Reconciling re-queues exactly the unrecorded steps, in order, as pending. */
  lemma {:induction false} ReconcileRequeues(cfg: Config, q: Queue, s: seq<StepState>, polls: seq<seq<PollOutcome>>,
                                             n: nat)
    requires n <= |s| <= |polls|
    ensures var r, again := Reconcile(cfg, q, s, polls, n), RequeuedIndices(s, n);
            && |r.steps| == |r.states| == |again|
            && (forall j :: 0 <= j < |again| ==>
                  && r.steps[j] == QueueStep(s[again[j]].xdr, None)
                  && r.states[j] == StepState(s[again[j]].xdr, Pending, None, None))
  {
    if n > 0 {
      ReconcileRequeues(cfg, q, s, polls, n - 1);
    }
  }

  /** Every step gets exactly one verdict: its hash is recovered, it is lost with its hash, or it is queued again. */
  lemma {:induction false} EveryStepGetsOneVerdict(cfg: Config, q: Queue, s: seq<StepState>,
                                                   polls: seq<seq<PollOutcome>>, n: nat)
    requires n <= |s| <= |polls|
    ensures Reconcile(cfg, q, s, polls, n).submittedHashes == q.submittedHashes + RecoveredHashes(cfg, s, polls, n)
    ensures |RecoveredHashes(cfg, s, polls, n)| + LostCount(cfg, s, polls, n) + |RequeuedIndices(s, n)| == n
  {
    if n > 0 {
      EveryStepGetsOneVerdict(cfg, q, s, polls, n - 1);
    }
  }

  // ----- What a reconciliation reports ---------------------------------------

  /**
   The hash of a stored step is recovered: it is not empty, and the step was confirmed, or it was submitted
   and some poll within the attempts succeeds before any other answer than "not yet".
   */
  ghost predicate IsRecovered(cfg: Config, s: StepState, polls: seq<PollOutcome>) {
    && s.hash.Some? && s.hash.value != ""
    && (|| s.status.Confirmed?
        || (&& s.status.Submitted?
            && exists k :: 0 <= k < cfg.maxPollAttempts && k < |polls| && FirstSuccess(polls, k)))
  }

  /** The positions of the recovered steps among the first `n`, in order. */
  ghost predicate AreRecovered(cfg: Config, s: seq<StepState>, polls: seq<seq<PollOutcome>>, n: nat, at: seq<nat>)
    requires n <= |s| <= |polls|
  {
    && (forall j :: 0 <= j < |at| ==> at[j] < n && IsRecovered(cfg, s[at[j]], polls[at[j]]))
    && (forall i, j :: 0 <= i < j < |at| ==> at[i] < at[j])
    && (forall i :: 0 <= i < n && IsRecovered(cfg, s[i], polls[i]) ==> i in at)
  }

  ghost function HashesAt(s: seq<StepState>, at: seq<nat>): (r: seq<string>)
    requires forall j :: 0 <= j < |at| ==> at[j] < |s| && s[at[j]].hash.Some?
    ensures |r| == |at| && forall j :: 0 <= j < |at| ==> r[j] == s[at[j]].hash.value
  {
    seq(|at|, j requires 0 <= j < |at| => s[at[j]].hash.value)
  }

  lemma RecoveredExactly(cfg: Config, s: StepState, polls: seq<PollOutcome>)
    ensures VerdictOf(cfg, s, polls).Recovered? <==> IsRecovered(cfg, s, polls)
    ensures IsRecovered(cfg, s, polls) ==> VerdictOf(cfg, s, polls) == Recovered(s.hash.value)
  {
    PollSucceedsExactly(polls, cfg.maxPollAttempts);
  }

  /**
   The hashes a reconciliation adds are exactly those of the stored steps that are recovered, in order.
   */
  lemma {:induction false} RecoveredHashesExactly(cfg: Config, q: Queue, s: seq<StepState>,
                                                  polls: seq<seq<PollOutcome>>, n: nat) returns (at: seq<nat>)
    requires n <= |s| <= |polls|
    ensures AreRecovered(cfg, s, polls, n, at)
    ensures forall j :: 0 <= j < |at| ==> at[j] < |s| && s[at[j]].hash.Some?
    ensures Reconcile(cfg, q, s, polls, n).submittedHashes == q.submittedHashes + HashesAt(s, at)
  {
    hide IsRecovered, VerdictEvents, AreRecovered, VerdictOf;
    at := [];
    if n == 0 {
      NoneRecovered(cfg, s, polls);
    } else {
      var before := RecoveredHashesExactly(cfg, q, s, polls, n - 1);
      OneMoreRecovered(cfg, s, polls, n - 1, before);
      RecoveredExactly(cfg, s[n - 1], polls[n - 1]);
      if IsRecovered(cfg, s[n - 1], polls[n - 1]) {
        RecoveredHasHash(cfg, s[n - 1], polls[n - 1]);
        at := before + [n - 1];
        assert HashesAt(s, at) == HashesAt(s, before) + [s[n - 1].hash.value];
      } else {
        at := before;
      }
    }
  }

  lemma NoneRecovered(cfg: Config, s: seq<StepState>, polls: seq<seq<PollOutcome>>)
    requires |s| <= |polls|
    ensures AreRecovered(cfg, s, polls, 0, [])
  {
  }

  lemma OneMoreRecovered(cfg: Config, s: seq<StepState>, polls: seq<seq<PollOutcome>>, n: nat, at: seq<nat>)
    requires n < |s| <= |polls| && AreRecovered(cfg, s, polls, n, at)
    ensures if IsRecovered(cfg, s[n], polls[n]) then AreRecovered(cfg, s, polls, n + 1, at + [n])
            else AreRecovered(cfg, s, polls, n + 1, at)
  {
    hide IsRecovered;
    if IsRecovered(cfg, s[n], polls[n]) {
      var more := at + [n];
      forall i | 0 <= i < n + 1 && IsRecovered(cfg, s[i], polls[i])
        ensures i in more
      {
        assert i < n ==> i in at;
        assert more[|at|] == n;
      }
    }
  }

  lemma RecoveredHasHash(cfg: Config, s: StepState, polls: seq<PollOutcome>)
    requires IsRecovered(cfg, s, polls)
    ensures s.hash.Some?
  {
  }

  /**
   What listeners hear of stored step `i`: a submitted one is first unconfirmed and then confirmed if it
   is recovered and lost if it is not; a confirmed one is recovered silently; any other, and any without a
   hash, is lost and only that.
   */
  lemma EventsExactly(cfg: Config, i: nat, s: StepState, polls: seq<PollOutcome>)
    ensures VerdictEvents(cfg, i, s, polls) ==
            if s.hash == None || s.hash == Some("") || !(s.status.Submitted? || s.status.Confirmed?) then
              [Emit(i, LostEvent, None, false)]
            else if s.status.Confirmed? then []
            else
              [Emit(i, UnconfirmedEvent, s.hash, false),
               Emit(i, if IsRecovered(cfg, s, polls) then ConfirmedEvent else LostEvent, s.hash, false)]
  {
    PollSucceedsExactly(polls, cfg.maxPollAttempts);
  }

  lemma {:induction false} EventsSendNothing(trace: seq<Action>, from: nat, events: seq<Action>)
    requires from <= |trace| && forall k :: 0 <= k < |events| ==> events[k].Emit?
    ensures Sends(trace + events, from) == Sends(trace, from)
    decreases |events|
  {
    if events == [] {
      assert trace + events == trace;
    } else {
      var n := |events| - 1;
      assert trace + events == (trace + events[..n]) + [events[n]];
      EventsSendNothing(trace, from, events[..n]);
      TraceAfter(trace + events[..n], from, [], events[n]);
    }
  }

  /** Re-queued steps are exactly the unrecorded ones; after a crash of a first run, the tail from step `k`. */
  lemma {:induction false} RequeuedAreUnrecorded(s: seq<StepState>, n: nat, i: nat)
    requires i < n <= |s|
    ensures i in RequeuedIndices(s, n) <==> !Recorded(s[i])
  {
    if i < n - 1 {
      RequeuedAreUnrecorded(s, n - 1, i);
    }
  }

  lemma {:induction false} RequeuedTail(s: seq<StepState>, n: nat, k: nat)
    requires n <= |s| && MarksFirst(s, k)
    requires forall j :: 0 <= j < |s| && Marked(s[j]) ==> Recorded(s[j])
    ensures |RequeuedIndices(s, n)| == if n <= k then 0 else n - k
    ensures forall j :: 0 <= j < |RequeuedIndices(s, n)| ==> RequeuedIndices(s, n)[j] == k + j
  {
    if n > 0 {
      RequeuedTail(s, n - 1, k);
    }
  }

  lemma {:induction false} SendsSplit(trace: seq<Action>, mid: nat, from: nat)
    requires from <= mid <= |trace|
    ensures Sends(trace, from) == Sends(trace[..mid], from) + Sends(trace, mid)
    decreases |trace|
  {
    if mid == |trace| {
      assert trace[..mid] == trace;
    } else {
      SendsSplit(trace[..|trace| - 1], mid, from);
      assert trace[..|trace| - 1][..mid] == trace[..mid];
    }
  }

  /** A run that starts behind `from` sends its own steps in order. */
  lemma LaterRunSendsInOrder(cfg: Config, o: Options, q: Queue, envs: seq<Env>, r: End, from: nat)
    requires |q.steps| == |q.states| && |q.steps| <= |envs| && r == RunFrom(cfg, o, q, 0, envs, [])
    requires from <= |q.trace| && Sends(q.trace, from) == []
    ensures from <= |r.q.trace|
    ensures exists m: nat :: m <= |q.steps| && Sends(r.q.trace, from) == Iota(m)
  {
    RunSendsInOrder(cfg, o, q, envs, r);
    TraceKeepsPrefix(cfg, o, q, 0, envs, [], r);
    SendsSplit(r.q.trace, |q.trace|, from);
    assert [] + Sends(r.q.trace, |q.trace|) == Sends(r.q.trace, |q.trace|);
  }

  lemma ReconcileFrom(cfg: Config, q: Queue, s: seq<StepState>, polls: seq<seq<PollOutcome>>, q2: Queue)
    requires |s| <= |polls| && q2 == Reconcile(cfg, Log(q, Clear), s, polls, |s|)
    ensures |q.trace| <= |q2.trace| && Sends(q2.trace, |q.trace|) == []
    ensures |q2.steps| == |q2.states| == |RequeuedIndices(s, |s|)| <= |s|
  {
    TraceAfter(q.trace, |q.trace|, [], Clear);
    ReconcileSendsNothing(cfg, Log(q, Clear), s, polls, |s|, |q.trace|);
    ReconcileRequeues(cfg, Log(q, Clear), s, polls, |s|);
    ReconcileShape(cfg, Log(q, Clear), s, polls, |s|);
  }

  /**
   A resume reports the hashes it recovers, in order, and then those of the re-queued steps that it
   announces as confirmed; what was reported before stays in front.
   */
  lemma ResumeReportsExactly(cfg: Config, o: Options, q: Queue, s: seq<StepState>, polls: seq<seq<PollOutcome>>,
                             envs: seq<Env>, q2: Queue) returns (at: seq<nat>)
    requires cfg.persists && |s| <= |polls| && |s| <= |envs| && q2 == Reconcile(cfg, Log(q, Clear), s, polls, |s|)
    ensures AreRecovered(cfg, s, polls, |s|, at)
    ensures forall j :: 0 <= j < |at| ==> at[j] < |s| && s[at[j]].hash.Some?
    ensures var r := AfterResume(cfg, o, q, Some(s), polls, envs).0;
            r.submittedHashes == q.submittedHashes + HashesAt(s, at) + ConfirmedHashes(r.trace, |q2.trace|)
  {
    hide Execute, AreRecovered;
    at := RecoveredHashesExactly(cfg, Log(q, Clear), s, polls, |s|);
    ReconcileFrom(cfg, q, s, polls, q2);
    var earlier := q2.submittedHashes;
    assert earlier == q.submittedHashes + HashesAt(s, at);
    assert earlier + [] == earlier;
    if s == [] {
      assert ConfirmedHashes(Log(q, Clear).trace, |q2.trace|) == [];
    } else if q2.steps != [] {
      var ran := RunFrom(cfg, o, q2, 0, envs, []);
      RunAgrees(cfg, o, q2, 0, envs, [], |q2.trace|, earlier);
      HashesAfter(ran.q.trace, |q2.trace|, Clear);
    }
  }

  /** What `resume` sends: the re-queued steps in order, each at most once. */
  lemma ResumeSendsRequeuedOnce(cfg: Config, o: Options, q: Queue, s: seq<StepState>, polls: seq<seq<PollOutcome>>,
                                envs: seq<Env>, r: Queue)
    requires cfg.persists && |s| <= |polls| && |s| <= |envs|
    requires r == AfterResume(cfg, o, q, Some(s), polls, envs).0
    ensures exists m: nat :: m <= |RequeuedIndices(s, |s|)| && Sends(r.trace, |q.trace|) == Iota(m)
  {
    var from, q2 := |q.trace|, Reconcile(cfg, Log(q, Clear), s, polls, |s|);
    ReconcileFrom(cfg, q, s, polls, q2);
    if s == [] || q2.steps == [] {
      TraceAfter(q.trace, from, [], Clear);
      assert Sends(r.trace, from) == Iota(0);
    } else {
      var ran := RunFrom(cfg, o, q2, 0, envs, []);
      assert r == if ran.ok then Finish(cfg, ran.q) else ran.q;
      LaterRunSendsInOrder(cfg, o, q2, envs, ran, from);
      TraceAfter(ran.q.trace, from, [], Clear);
      assert Sends(r.trace, from) == Sends(ran.q.trace, from);
    }
  }

  lemma RunSendsInOrder(cfg: Config, o: Options, q: Queue, envs: seq<Env>, r: End)
    requires |q.steps| == |q.states| && |q.steps| <= |envs| && r == RunFrom(cfg, o, q, 0, envs, [])
    ensures exists m: nat :: m <= |q.steps| && Sends(r.q.trace, |q.trace|) == Iota(m)
  {
    RunFollowsProtocol(cfg, o, q, envs);
    ProtocolSendsKnownSteps(o, q.steps, r.q.trace, |q.trace|);
    ProtocolSendsOnce(o, q.steps, r.q.trace, |q.trace|);
    var sends := Sends(r.q.trace, |q.trace|);
    var m := |sends|;
    assert sends == Iota(m) by {
      if o.dryRun { assert sends == Iota(0); }
    }
    assert m > 0 ==> sends[m - 1] < |q.steps|;
  }

  ghost predicate KnownStage(st: Stage, n: nat) {
    match st
    case Started(i) => i < n
    case Checked(i) => i < n
    case InFlight(i) => i < n
    case Accepted(i, _) => i < n
    case _ => true
  }

  lemma {:induction false} ProtocolSendsKnownSteps(o: Options, steps: seq<QueueStep>, trace: seq<Action>, from: nat)
    requires !StageOf(o, steps, trace, from).Broken?
    ensures KnownStage(StageOf(o, steps, trace, from), |steps|)
    ensures forall j :: 0 <= j < |Sends(trace, from)| ==> Sends(trace, from)[j] < |steps|
    decreases |trace|
  {
    if |trace| > from {
      ProtocolSendsKnownSteps(o, steps, trace[..|trace| - 1], from);
    }
  }

  // ---------------------------------------------------------------------
  // What snapshots say of the hashes
  // ---------------------------------------------------------------------

  /** Whether a hash may stand at a step. */
  type Fits = (nat, string) -> bool

  /** Steps marked submitted or confirmed carry a hash that fits them. */
  ghost predicate CarriesHashes(s: seq<StepState>, fits: Fits) {
    forall j :: 0 <= j < |s| && Marked(s[j]) ==> s[j].hash.Some? && fits(j, s[j].hash.value)
  }

  /** So they do in the queue and in everything it saved from position `from` on. */
  ghost predicate SavesCarryHashes(q: Queue, from: nat, fits: Fits) {
    && from <= |q.trace|
    && CarriesHashes(q.states, fits)
    && (forall k :: from <= k < |q.trace| && q.trace[k].Save? ==> CarriesHashes(q.trace[k].snapshot, fits))
  }

  lemma {:induction false} RollbacksSaveNothing(steps: seq<QueueStep>, completed: seq<nat>)
    requires forall k :: 0 <= k < |completed| ==> completed[k] < |steps|
    ensures forall k :: 0 <= k < |Rollbacks(steps, completed)| ==> Rollbacks(steps, completed)[k].RolledBack?
  {
    if completed != [] {
      RollbacksSaveNothing(steps, completed[..|completed| - 1]);
    }
  }

  lemma FailCarries(q: Queue, i: nat, hash: Option<string>, completed: seq<nat>, from: nat, fits: Fits)
    requires SavesCarryHashes(q, from, fits) && Ready(q, completed)
    ensures SavesCarryHashes(Fail(q, i, hash, completed).q, from, fits)
  {
    RollbacksSaveNothing(q.steps, completed);
  }

  lemma MarkCarries(cfg: Config, q: Queue, i: nat, status: Status, hash: Option<string>, fee: Option<string>,
                    from: nat, fits: Fits)
    requires SavesCarryHashes(q, from, fits) && i < |q.steps| == |q.states|
    requires status.Submitted? || status.Confirmed? ==> hash.Some? && fits(i, hash.value)
    ensures SavesCarryHashes(Mark(cfg, q, i, status, hash, fee), from, fits)
  {
  }

  lemma SubmitCarries(cfg: Config, q: Queue, i: nat, env: Env, fee: Option<string>, completed: seq<nat>,
                      from: nat, fits: Fits, r: End)
    requires env.send.SendReturns? ==> fits(i, env.send.hash)
    requires SavesCarryHashes(q, from, fits) && Ready(q, completed) && i < |q.steps|
    requires r == Submit(cfg, q, i, env, fee, completed)
    ensures SavesCarryHashes(r.q, from, fits)
  {
    var q1 := Log(q, Sent(i));
    match env.send
    case SendThrows => FailCarries(q1, i, None, completed, from, fits);
    case SendReturns(hash) =>
      var q2 := Log(q1, Emit(i, SubmittedEvent, Some(hash), false));
      MarkCarries(cfg, q2, i, Submitted, Some(hash), fee, from, fits);
      var q3 := Mark(cfg, q2, i, Submitted, Some(hash), fee);
      if PollSucceeds(env.polls, cfg.maxPollAttempts) {
        var q4 := Log(q3, Emit(i, ConfirmedEvent, Some(hash), false));
        MarkCarries(cfg, q4, i, Confirmed, Some(hash), fee, from, fits);
      } else {
        FailCarries(q3, i, Some(hash), completed, from, fits);
      }
  }

  lemma ExecuteCarries(cfg: Config, o: Options, q: Queue, i: nat, env: Env, completed: seq<nat>,
                       from: nat, fits: Fits, r: End)
    requires env.send.SendReturns? ==> fits(i, env.send.hash)
    requires SavesCarryHashes(q, from, fits) && Ready(q, completed) && i < |q.steps|
    requires r == Execute(cfg, o, q, i, env, completed)
    ensures SavesCarryHashes(r.q, from, fits)
  {
    if (cfg.guarded && !o.dryRun && !env.guardPasses) || !env.signs {
      FailCarries(q, i, None, completed, from, fits);
    } else if o.skipSimulation && !o.dryRun {
      SubmitCarries(cfg, q, i, env, None, completed, from, fits, r);
    } else if !env.sim.SimSucceeds? {
      FailCarries(q, i, None, completed, from, fits);
    } else {
      var fee := Some(env.sim.fee);
      MarkCarries(cfg, q, i, Simulated, None, fee, from, fits);
      var q1 := Log(Mark(cfg, q, i, Simulated, None, fee), Emit(i, SimulatedEvent, None, false));
      if !o.dryRun {
        SubmitCarries(cfg, q1, i, env, fee, completed, from, fits, r);
      }
    }
  }

  lemma {:induction false} RunCarries(cfg: Config, o: Options, q: Queue, i: nat, envs: seq<Env>, completed: seq<nat>,
                                      from: nat, fits: Fits, r: End)
    requires forall j :: 0 <= j < |envs| && envs[j].send.SendReturns? ==> fits(j, envs[j].send.hash)
    requires SavesCarryHashes(q, from, fits) && Ready(q, completed) && i <= |q.steps| <= |envs|
    requires r == RunFrom(cfg, o, q, i, envs, completed)
    ensures SavesCarryHashes(r.q, from, fits)
    decreases |q.steps| - i
  {
    hide Execute;
    if i < |q.steps| {
      var started := Log(q, Emit(i, PendingEvent, None, false));
      var first := Execute(cfg, o, started, i, envs[i], completed);
      assert r == if first.ok then RunFrom(cfg, o, first.q, i + 1, envs, first.completed) else first;
      ExecuteCarries(cfg, o, started, i, envs[i], completed, from, fits, first);
      if first.ok {
        RunCarries(cfg, o, first.q, i + 1, envs, first.completed, from, fits, r);
      }
    }
  }

  lemma {:induction false} ReconcileCarries(cfg: Config, q: Queue, s: seq<StepState>, polls: seq<seq<PollOutcome>>,
                                            n: nat,
                                            from: nat, fits: Fits)
    requires SavesCarryHashes(q, from, fits) && n <= |s| <= |polls|
    ensures SavesCarryHashes(Reconcile(cfg, q, s, polls, n), from, fits)
  {
    if n > 0 {
      ReconcileCarries(cfg, q, s, polls, n - 1, from, fits);
    }
  }

  /** The hash the network answered for a step. */
  function Answered(envs: seq<Env>): Fits {
    (i: nat, hash: string) => i < |envs| && envs[i].send == SendReturns(hash)
  }

  // ---------------------------------------------------------------------
  // Crash and resume
  // ---------------------------------------------------------------------

  /**
   A first real run is cut off anywhere. Of the steps storage marks as submitted or confirmed, those
   queued again are exactly the ones the network answered with an empty hash.
   */
  lemma MarkedStepIsQueuedAgainExactly(cfg: Config, o: Options, q: Queue, envs: seq<Env>, p: nat, j: nat)
    requires cfg.persists && !o.dryRun && Filled(q) && |q.steps| <= |envs|
    requires |q.trace| <= p <= |RunFrom(cfg, o, q, 0, envs, []).q.trace|
    requires var s := Stored(RunFrom(cfg, o, q, 0, envs, []).q.trace[..p], |q.trace|, q.states);
             j < |s| && Marked(s[j])
    ensures var s := Stored(RunFrom(cfg, o, q, 0, envs, []).q.trace[..p], |q.trace|, q.states);
            && |s| == |q.steps|
            && envs[j].send.SendReturns? && s[j].hash == Some(envs[j].send.hash)
            && (j in RequeuedIndices(s, |s|) <==> envs[j].send == SendReturns(""))
  {
    var s := Stored(RunFrom(cfg, o, q, 0, envs, []).q.trace[..p], |q.trace|, q.states);
    FirstCrashAnywhereIsSafe(cfg, o, q, envs, p);
    RequeuedAreUnrecorded(s, |s|, j);
  }

  /** Which re-queued steps a resume sends. */
  lemma ResumeSendsExactly(cfg: Config, o: Options, q: Queue, s: seq<StepState>, polls: seq<seq<PollOutcome>>,
                           envs: seq<Env>, pos: nat)
    requires cfg.persists && |s| <= |polls| && |s| <= |envs|
    ensures pos in Sends(AfterResume(cfg, o, q, Some(s), polls, envs).0.trace, |q.trace|) <==>
            pos < |RequeuedIndices(s, |s|)| && SendsStep(cfg, o, envs, pos)
  {
    var from, q2 := |q.trace|, Reconcile(cfg, Log(q, Clear), s, polls, |s|);
    var r := AfterResume(cfg, o, q, Some(s), polls, envs).0;
    ReconcileFrom(cfg, q, s, polls, q2);
    if s == [] || q2.steps == [] {
      TraceAfter(q.trace, from, [], Clear);
    } else {
      var ran := RunFrom(cfg, o, q2, 0, envs, []);
      assert r == if ran.ok then Finish(cfg, ran.q) else ran.q;
      RunSendsFrom(cfg, o, q2, 0, envs, [], from, ran, pos);
      TraceKeepsPrefix(cfg, o, q2, 0, envs, [], ran);
      TraceAfter(ran.q.trace, from, [], Clear);
    }
  }

  /** The resume of snapshot `s` sends step `x` of the crashed run. */
  ghost predicate SentAgain(s: seq<StepState>, sends: seq<nat>, x: nat) {
    exists pos: nat :: pos < |RequeuedIndices(s, |s|)| && RequeuedIndices(s, |s|)[pos] == x && pos in sends
  }

  /** The resume reaches step `x` if it is queued again. */
  ghost predicate ReachesAgain(cfg: Config, o: Options, s: seq<StepState>, envs: seq<Env>, x: nat)
    requires |s| <= |envs|
  {
    exists pos: nat ::
      pos < |RequeuedIndices(s, |s|)| && RequeuedIndices(s, |s|)[pos] == x && SendsStep(cfg, o, envs, pos)
  }

  lemma SentAgainIsReachedAgain(cfg: Config, o: Options, q: Queue, s: seq<StepState>, polls: seq<seq<PollOutcome>>,
                                envs: seq<Env>, x: nat)
    requires cfg.persists && |s| <= |polls| && |s| <= |envs|
    ensures SentAgain(s, Sends(AfterResume(cfg, o, q, Some(s), polls, envs).0.trace, |q.trace|), x) <==>
            ReachesAgain(cfg, o, s, envs, x)
    ensures ReachesAgain(cfg, o, s, envs, x) ==> x in RequeuedIndices(s, |s|)
  {
    var again := RequeuedIndices(s, |s|);
    var sends := Sends(AfterResume(cfg, o, q, Some(s), polls, envs).0.trace, |q.trace|);
    forall pos: nat | pos < |again| && again[pos] == x
      ensures pos in sends <==> SendsStep(cfg, o, envs, pos)
    {
      ResumeSendsExactly(cfg, o, q, s, polls, envs, pos);
    }
  }

  /**
   Crash and resume of any real run, for every answer of the network, if every write lands at once. The
   run is cut off anywhere and resumed from what was stored. A step it had sent and saved is sent again
   exactly when the network had answered it with an empty hash. The one still in flight is sent again
   unless an earlier run left it recorded and it has not been simulated again: then it is taken for the
   transaction of that earlier run. Both only if the resume gets as far as the step.
   */
  lemma {:induction false} SentStepIsSentAgainExactly(cfg: Config, o: Options, q: Queue, envs: seq<Env>, p: nat,
                                                      cut: seq<Action>, o2: Options, queue2: Queue,
                                                      polls: seq<seq<PollOutcome>>, envs2: seq<Env>, x: nat)
    requires cfg.persists && !o.dryRun && SameTransactions(q.states, q.steps) && |q.steps| <= |envs|
    requires |q.trace| <= p <= |RunFrom(cfg, o, q, 0, envs, []).q.trace|
    requires cut == RunFrom(cfg, o, q, 0, envs, []).q.trace[..p]
    requires |q.steps| <= |polls| && |q.steps| <= |envs2|
    requires x in Sends(cut, |q.trace|)
    ensures var s := Stored(cut, |q.trace|, q.states);
            && |s| == |q.steps| && x < |s|
            && (SentAgain(s, Sends(AfterResume(cfg, o2, queue2, Some(s), polls, envs2).0.trace, |queue2.trace|), x) <==>
                && (if Unsaved(cut, |q.trace|) == Some(x) then !Recorded(q.states[x]) || s[x].status.Simulated?
                    else envs[x].send == SendReturns(""))
                && ReachesAgain(cfg, o2, s, envs2, x))
  {
    hide AfterResume, ReachesAgain, SentAgain;
    var s := Stored(cut, |q.trace|, q.states);
    CrashAnywhereIsSafe(cfg, o, q, envs, p);
    var k :| MarksOver(s, q.states, envs, k) && SentAreMarked(Sends(cut, |q.trace|), k, Unsaved(cut, |q.trace|));
    SentWithinSteps(cfg, o, q, envs, p, x);
    SentAgainIsReachedAgain(cfg, o2, queue2, s, polls, envs2, x);
    RequeuedAreUnrecorded(s, |s|, x);
  }

  /** Only steps of the queue are sent. */
  lemma SentWithinSteps(cfg: Config, o: Options, q: Queue, envs: seq<Env>, p: nat, x: nat)
    requires |q.steps| == |q.states| && |q.steps| <= |envs|
    requires |q.trace| <= p <= |RunFrom(cfg, o, q, 0, envs, []).q.trace|
    requires x in Sends(RunFrom(cfg, o, q, 0, envs, []).q.trace[..p], |q.trace|)
    ensures x < |q.steps| && SendsStep(cfg, o, envs, x)
  {
    var r := RunFrom(cfg, o, q, 0, envs, []);
    SendsSplit(r.q.trace, p, |q.trace|);
    RunSendsExactly(cfg, o, q, envs, x);
  }

  /** No send the run reaches is answered with an empty hash. */
  ghost predicate RealHashes(cfg: Config, o: Options, envs: seq<Env>, n: nat)
    requires n <= |envs|
  {
    forall i :: 0 <= i < n && SendsStep(cfg, o, envs, i) ==> envs[i].send != SendReturns("")
  }

  /**
   With real hashes, resuming sends a tail of the steps, each at most once and in order, and a step
   sent on both sides of the crash can only be the one sent since the last snapshot.
   */
  lemma {:induction false} ResumeSendsNoRecordedStepAgain(cfg: Config, o: Options, q: Queue, envs: seq<Env>, p: nat,
                                                          cut: seq<Action>,
                                       o2: Options, queue2: Queue, polls: seq<seq<PollOutcome>>, envs2: seq<Env>)
    returns (k: nat, m: nat)
    requires cfg.persists && !o.dryRun && Filled(q) && |q.steps| <= |envs| && RealHashes(cfg, o, envs, |q.steps|)
    requires |q.trace| <= p <= |RunFrom(cfg, o, q, 0, envs, []).q.trace|
    requires cut == RunFrom(cfg, o, q, 0, envs, []).q.trace[..p]
    requires |q.steps| <= |polls| && |q.steps| <= |envs2|
    ensures var s := Stored(cut, |q.trace|, q.states);
            && |s| == |q.steps| && k <= |s|
            && (forall j :: 0 <= j < |RequeuedIndices(s, |s|)| ==> RequeuedIndices(s, |s|)[j] == k + j)
            && k + m <= |s|
            && Sends(AfterResume(cfg, o2, queue2, Some(s), polls, envs2).0.trace, |queue2.trace|) == Iota(m)
    ensures forall x <- Sends(cut, |q.trace|) :: k <= x < k + m ==> x == k && Unsaved(cut, |q.trace|) == Some(k)
  {
    hide AfterResume, Stored, Unsaved, Sends, RunFrom, RequeuedIndices;
    FirstCrashAnywhereIsSafe(cfg, o, q, envs, p);
    var s := Stored(cut, |q.trace|, q.states);
    k :| MarksFirst(s, k) && SentAreMarked(Sends(cut, |q.trace|), k, Unsaved(cut, |q.trace|));
    forall j | 0 <= j < |s| && Marked(s[j])
      ensures Recorded(s[j])
    {
      assert Sends(cut, |q.trace|)[j] == j;
      SentWithinSteps(cfg, o, q, envs, p, j);
      MarkedStepIsQueuedAgainExactly(cfg, o, q, envs, p, j);
    }
    RequeuedTail(s, |s|, k);
    var r := AfterResume(cfg, o2, queue2, Some(s), polls, envs2).0;
    ResumeSendsRequeuedOnce(cfg, o2, queue2, s, polls, envs2, r);
    m :| m <= |RequeuedIndices(s, |s|)| && Sends(r.trace, |queue2.trace|) == Iota(m);
  }
}
