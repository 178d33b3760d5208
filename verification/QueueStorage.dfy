/**
 What storage holds when the adapter does not keep up. Saving is best-effort: the queue hands a
 snapshot over and goes on, so a write may be lost, land late or land out of order. After a
 restart storage holds what was there before, or any snapshot handed over since.
 `QueueRecovery` treats the case in which every write lands at once.
 */
module QueueStorage {
  import opened Outcomes
  import opened QueueModel
  import opened QueueProtocol
  import opened QueueRecovery

  /** The whole trace of a run, the final clearing of storage included. */
  function Ran(cfg: Config, o: Options, q: Queue, envs: seq<Env>): seq<Action>
    requires |q.steps| == |q.states| && |q.steps| <= |envs|
  {
    var r := RunFrom(cfg, o, q, 0, envs, []);
    if r.ok then Finish(cfg, r.q).trace else r.q.trace
  }

  /** `cut` is a prefix of a real run of `q`, its first or a later one: the host stopped, or the run ended. */
  ghost predicate IsCut(cfg: Config, o: Options, q: Queue, envs: seq<Env>, cut: seq<Action>) {
    && cfg.persists && !o.dryRun && SameTransactions(q.states, q.steps) && |q.steps| <= |envs|
    && |q.trace| <= |cut| && cut <= Ran(cfg, o, q, envs)
  }

  ghost predicate HandedOver(cut: seq<Action>, from: nat, s: seq<StepState>) {
    exists k :: from <= k < |cut| && cut[k] == Save(s)
  }

  /**
   What storage may hold after `cut` of a first run. While the queue was filled its writes were as
   unreliable, so before the run storage holds the states of some of the first steps, all pending, or none.
   */
  ghost predicate MayHold(q: Queue, cut: seq<Action>, s: seq<StepState>) {
    s <= q.states || HandedOver(cut, |q.trace|, s)
  }

  /** `s` lists the first transactions of the queue. */
  ghost predicate ListsFirst(s: seq<StepState>, steps: seq<QueueStep>) {
    |s| <= |steps| && forall j :: 0 <= j < |s| ==> s[j].xdr == steps[j].xdr
  }

  // ---------------------------------------------------------------------
  // Any snapshot
  // ---------------------------------------------------------------------

  lemma InIota(n: nat, x: nat)
    ensures x in Iota(n) <==> x < n
  {
    assert x < n ==> Iota(n)[x] == x;
  }

  /** Up to the final clearing, the cut is a cut of the steps. */
  lemma CutOfSteps(cfg: Config, o: Options, q: Queue, envs: seq<Env>, cut: seq<Action>) returns (steps: seq<Action>)
    requires IsCut(cfg, o, q, envs, cut)
    ensures |q.trace| <= |steps| && steps <= RunFrom(cfg, o, q, 0, envs, []).q.trace
    ensures steps <= cut && forall k :: |steps| <= k < |cut| ==> cut[k] == Clear
    ensures Sends(cut, |q.trace|) == Sends(steps, |q.trace|)
  {
    var r := RunFrom(cfg, o, q, 0, envs, []);
    TraceKeepsPrefix(cfg, o, q, 0, envs, [], r);
    if |cut| <= |r.q.trace| {
      steps := cut;
    } else {
      steps := r.q.trace;
      assert cut == steps + [Clear];
      SendsAfterQuiet(steps, |q.trace|, Clear);
    }
  }

  lemma SafeAfterASave(steps: seq<QueueStep>, before: seq<Action>, a: Action, start: Start)
    requires start.from <= |before| && a.Save? && CrashSafe(steps, before + [a], start)
    ensures SameTransactions(a.snapshot, steps) && exists i :: ShapedOver(a.snapshot, start.initial, i)
    ensures Sends(before, start.from) == Iota(|Sends(before, start.from)|)
    ensures MarksOver(a.snapshot, start.initial, start.envs, |Sends(before, start.from)|)
  {
    hide ShapedOver, MarksOver, SameTransactions;
    TraceAfter(before, start.from, start.initial, a);
  }

  /**
   In any run, a snapshot carries exactly the answers of the steps sent before it was handed over. The
   next step may have been simulated, the others are as the run found them.
   */
  lemma SnapshotMarksTheSent(cfg: Config, o: Options, q: Queue, envs: seq<Env>, cut: seq<Action>, at: nat)
    requires IsCut(cfg, o, q, envs, cut) && |q.trace| <= at < |cut| && cut[at].Save?
    ensures SameTransactions(cut[at].snapshot, q.steps)
    ensures MarksOver(cut[at].snapshot, q.states, envs, |Sends(cut[..at], |q.trace|)|)
    ensures Sends(cut[..at], |q.trace|) == Iota(|Sends(cut[..at], |q.trace|)|)
    ensures exists i :: ShapedOver(cut[at].snapshot, q.states, i)
  {
    hide RunFrom, Finish, ShapedOver, CrashSafe, MarksOver, Sends, Stored;
    var run := RunFrom(cfg, o, q, 0, envs, []).q.trace;
    var steps := CutOfSteps(cfg, o, q, envs, cut);
    assert run[..at + 1] == cut[..at] + [cut[at]];
    CrashAnywhereIsSafe(cfg, o, q, envs, at + 1);
    SafeAfterASave(q.steps, cut[..at], cut[at], Start(|q.trace|, q.states, envs));
  }

  lemma CutSendsInOrder(cfg: Config, o: Options, q: Queue, envs: seq<Env>, cut: seq<Action>)
    requires IsCut(cfg, o, q, envs, cut)
    ensures Sends(cut, |q.trace|) == Iota(|Sends(cut, |q.trace|)|)
    ensures forall x <- Sends(cut, |q.trace|) :: x < |q.steps| && SendsStep(cfg, o, envs, x)
  {
    var steps := CutOfSteps(cfg, o, q, envs, cut);
    assert steps == RunFrom(cfg, o, q, 0, envs, []).q.trace[..|steps|];
    CrashAnywhereIsSafe(cfg, o, q, envs, |steps|);
    forall x | x in Sends(cut, |q.trace|)
      ensures x < |q.steps| && SendsStep(cfg, o, envs, x)
    {
      SentWithinSteps(cfg, o, q, envs, |steps|, x);
    }
  }

  /**
   A first run, whichever writes landed: storage lists the first transactions of the queue, as confirmed steps, one
   step in progress and pending steps; it marks a first part of the steps sent, and each marked step
   carries the hash the network answered for it.
   */
  lemma AnySnapshotIsSafe(cfg: Config, o: Options, q: Queue, envs: seq<Env>, cut: seq<Action>, s: seq<StepState>)
    returns (k: nat)
    requires IsCut(cfg, o, q, envs, cut) && Filled(q) && MayHold(q, cut, s)
    ensures ListsFirst(s, q.steps) && (exists at :: Shaped(s, at))
    ensures MarksFirst(s, k) && Iota(k) <= Sends(cut, |q.trace|) == Iota(|Sends(cut, |q.trace|)|)
    ensures CarriesHashes(s, Answered(envs))
  {
    hide RunFrom, Finish, Sends, MarksOver, ShapedOver;
    CutSendsInOrder(cfg, o, q, envs, cut);
    if s <= q.states {
      k := 0;
      assert Shaped(s, 0);
    } else {
      var at :| |q.trace| <= at < |cut| && cut[at] == Save(s);
      SnapshotMarksTheSent(cfg, o, q, envs, cut, at);
      SendsSplit(cut, at, |q.trace|);
      k := |Sends(cut[..at], |q.trace|)|;
      var i :| ShapedOver(s, q.states, i);
      OverPending(s, q.states, envs, i, k);
    }
  }

  // ---------------------------------------------------------------------
  // Resuming from any snapshot
  // ---------------------------------------------------------------------

  /**
   Restart and resume after a first run, whichever writes landed and for every answer of the network. A
   step that was sent is sent again exactly when storage does not mark it, or the network had answered it with an
   empty hash, and the resume gets as far as it.
   */
  lemma SentAgainWhicheverLanded(cfg: Config, o: Options, q: Queue, envs: seq<Env>, cut: seq<Action>, s: seq<StepState>,
                                 o2: Options, queue2: Queue, polls: seq<seq<PollOutcome>>, envs2: seq<Env>, x: nat)
    requires IsCut(cfg, o, q, envs, cut) && Filled(q) && MayHold(q, cut, s)
    requires |q.steps| <= |polls| && |q.steps| <= |envs2|
    requires x in Sends(cut, |q.trace|)
    ensures |s| <= |q.steps| && x < |envs|
    ensures SentAgain(s, Sends(AfterResume(cfg, o2, queue2, Some(s), polls, envs2).0.trace, |queue2.trace|), x) <==>
              && x < |s|
              && (!Marked(s[x]) || envs[x].send == SendReturns(""))
              && ReachesAgain(cfg, o2, s, envs2, x)
  {
    CutSendsInOrder(cfg, o, q, envs, cut);
    var k := AnySnapshotIsSafe(cfg, o, q, envs, cut, s);
    SentAgainIsReachedAgain(cfg, o2, queue2, s, polls, envs2, x);
    if x < |s| {
      RequeuedAreUnrecorded(s, |s|, x);
    }
  }

  /**
   Any run, resumed from any snapshot it handed over. A step it had sent before that snapshot is sent again
   exactly when it had an empty hash; one sent later, unless an earlier run left it recorded and it was
   not simulated again by then. Both only if the resume gets as far as the step.
   */
  lemma SentAgainFromAnySnapshot(cfg: Config, o: Options, q: Queue, envs: seq<Env>, cut: seq<Action>, at: nat,
                                 o2: Options, queue2: Queue, polls: seq<seq<PollOutcome>>, envs2: seq<Env>, x: nat)
    requires IsCut(cfg, o, q, envs, cut) && |q.trace| <= at < |cut| && cut[at].Save?
    requires |q.steps| <= |polls| && |q.steps| <= |envs2|
    requires x in Sends(cut, |q.trace|)
    ensures var s := cut[at].snapshot;
            && |s| == |q.steps| == |q.states| && x < |s| && x < |envs|
            && (SentAgain(s, Sends(AfterResume(cfg, o2, queue2, Some(s), polls, envs2).0.trace, |queue2.trace|), x) <==>
                && (if x in Sends(cut[..at], |q.trace|) then envs[x].send == SendReturns("")
                    else !Recorded(q.states[x]) || s[x].status.Simulated?)
                && ReachesAgain(cfg, o2, s, envs2, x))
  {
    hide RunFrom, AfterResume, SentAgain, ReachesAgain, Sends;
    var s, k := cut[at].snapshot, |Sends(cut[..at], |q.trace|)|;
    SnapshotMarksTheSent(cfg, o, q, envs, cut, at);
    CutSendsInOrder(cfg, o, q, envs, cut);
    InIota(k, x);
    SentAgainIsReachedAgain(cfg, o2, queue2, s, polls, envs2, x);
    RequeuedAreUnrecorded(s, |s|, x);
  }

  /**
   With real hashes the resume sends `m` steps, in order and once each, from the first one storage does
   not mark. Of the `n` steps sent before, exactly those from `k` on that it gets to are sent twice.
   */
  lemma SentTwiceWhicheverLanded(cfg: Config, o: Options, q: Queue, envs: seq<Env>, cut: seq<Action>, s: seq<StepState>,
                                 o2: Options, queue2: Queue, polls: seq<seq<PollOutcome>>, envs2: seq<Env>)
    returns (k: nat, m: nat)
    requires IsCut(cfg, o, q, envs, cut) && Filled(q) && MayHold(q, cut, s) && RealHashes(cfg, o, envs, |q.steps|)
    requires |q.steps| <= |polls| && |q.steps| <= |envs2|
    ensures |s| <= |q.steps| && MarksFirst(s, k) && k + m <= |s|
    ensures Sends(AfterResume(cfg, o2, queue2, Some(s), polls, envs2).0.trace, |queue2.trace|) == Iota(m)
    ensures forall x: nat :: SentAgain(s, Iota(m), x) <==> k <= x < k + m
    ensures forall x: nat ::
              x in Sends(cut, |q.trace|) && SentAgain(s, Iota(m), x) <==>
              k <= x < k + m && x < |Sends(cut, |q.trace|)|
  {
    CutSendsInOrder(cfg, o, q, envs, cut);
    k := AnySnapshotIsSafe(cfg, o, q, envs, cut, s);
    forall j | 0 <= j < |s| && Marked(s[j])
      ensures Recorded(s[j])
    {
      assert Sends(cut, |q.trace|)[j] == j;
    }
    RequeuedTail(s, |s|, k);
    var r := AfterResume(cfg, o2, queue2, Some(s), polls, envs2).0;
    ResumeSendsRequeuedOnce(cfg, o2, queue2, s, polls, envs2, r);
    m :| m <= |RequeuedIndices(s, |s|)| && Sends(r.trace, |queue2.trace|) == Iota(m);
    TailIsSentAgain(s, k, m);
    forall x: nat
      ensures x in Sends(cut, |q.trace|) <==> x < |Sends(cut, |q.trace|)|
    {
      InIota(|Sends(cut, |q.trace|)|, x);
    }
  }

  lemma TailIsSentAgain(s: seq<StepState>, k: nat, m: nat)
    requires m <= |RequeuedIndices(s, |s|)|
    requires forall j :: 0 <= j < |RequeuedIndices(s, |s|)| ==> RequeuedIndices(s, |s|)[j] == k + j
    ensures forall x: nat :: SentAgain(s, Iota(m), x) <==> k <= x < k + m
  {
    var again := RequeuedIndices(s, |s|);
    forall x: nat
      ensures SentAgain(s, Iota(m), x) <==> k <= x < k + m
    {
      if k <= x < k + m {
        assert again[x - k] == x && Iota(m)[x - k] == x - k;
      }
    }
  }

  /**
   When no write lands after the queue is filled, every step sent is sent again as far as the resume
   gets, confirmed ones included, even after a run that ended well and cleared the storage first.
   */
  lemma NothingLanded(cfg: Config, o: Options, q: Queue, envs: seq<Env>, cut: seq<Action>,
                      o2: Options, queue2: Queue, polls: seq<seq<PollOutcome>>, envs2: seq<Env>, x: nat)
    requires IsCut(cfg, o, q, envs, cut) && Filled(q) && |q.steps| <= |polls| && |q.steps| <= |envs2|
    requires x in Sends(cut, |q.trace|)
    ensures x < |q.steps|
    ensures var sends2 := Sends(AfterResume(cfg, o2, queue2, Some(q.states), polls, envs2).0.trace, |queue2.trace|);
            SentAgain(q.states, sends2, x) <==> SendsStep(cfg, o2, envs2, x)
  {
    hide AfterResume, Sends, SendsStep;
    var s := q.states;
    CutSendsInOrder(cfg, o, q, envs, cut);
    assert MarksFirst(s, 0);
    RequeuedTail(s, |s|, 0);
    SentAgainIsReachedAgain(cfg, o2, queue2, s, polls, envs2, x);
    assert RequeuedIndices(s, |s|)[x] == x;
  }

  /** So of a run whose writes are all lost, both runs send the steps that both reach. */
  lemma LostWritesSendTwice(cfg: Config, o: Options, q: Queue, envs: seq<Env>,
                            o2: Options, queue2: Queue, polls: seq<seq<PollOutcome>>, envs2: seq<Env>, x: nat)
    requires cfg.persists && !o.dryRun && Filled(q) && |q.steps| <= |envs|
    requires |q.steps| <= |polls| && |q.steps| <= |envs2|
    ensures var sends2 := Sends(AfterResume(cfg, o2, queue2, Some(q.states), polls, envs2).0.trace, |queue2.trace|);
            x in Sends(Ran(cfg, o, q, envs), |q.trace|) && SentAgain(q.states, sends2, x) <==>
            x < |q.steps| && SendsStep(cfg, o, envs, x) && SendsStep(cfg, o2, envs2, x)
  {
    var cut, r := Ran(cfg, o, q, envs), RunFrom(cfg, o, q, 0, envs, []);
    TraceKeepsPrefix(cfg, o, q, 0, envs, [], r);
    SendsAfterQuiet(r.q.trace, |q.trace|, Clear);
    RunSendsExactly(cfg, o, q, envs, x);
    if x in Sends(cut, |q.trace|) {
      NothingLanded(cfg, o, q, envs, cut, o2, queue2, polls, envs2, x);
    }
  }

  // ---------------------------------------------------------------------
  // A crash during resume
  // ---------------------------------------------------------------------

  /** What a resume reports about the first `n` stored steps. */
  function Reports(cfg: Config, s: seq<StepState>, polls: seq<seq<PollOutcome>>, n: nat): seq<Action>
    requires n <= |s| <= |polls|
  {
    if n == 0 then [] else Reports(cfg, s, polls, n - 1) + VerdictEvents(cfg, n - 1, s[n - 1], polls[n - 1])
  }

  lemma VerdictsAreEmitted(cfg: Config, i: nat, s: StepState, polls: seq<PollOutcome>)
    ensures forall k :: 0 <= k < |VerdictEvents(cfg, i, s, polls)| ==> VerdictEvents(cfg, i, s, polls)[k].Emit?
  {
  }

  lemma {:induction false} ReconcileReports(cfg: Config, q: Queue, s: seq<StepState>, polls: seq<seq<PollOutcome>>,
                                            n: nat)
    requires n <= |s| <= |polls|
    ensures Reconcile(cfg, q, s, polls, n).trace == q.trace + Reports(cfg, s, polls, n)
    ensures forall k :: 0 <= k < |Reports(cfg, s, polls, n)| ==> Reports(cfg, s, polls, n)[k].Emit?
  {
    hide VerdictOf, VerdictEvents;
    if n > 0 {
      ReconcileReports(cfg, q, s, polls, n - 1);
      VerdictsAreEmitted(cfg, n - 1, s[n - 1], polls[n - 1]);
      var before, last := Reports(cfg, s, polls, n - 1), VerdictEvents(cfg, n - 1, s[n - 1], polls[n - 1]);
      assert (q.trace + before) + last == q.trace + (before + last);
    }
  }

  /** The queue after a resume has reconciled `s`, before it runs what is queued again. */
  function Reconciled(cfg: Config, q: Queue, s: seq<StepState>, polls: seq<seq<PollOutcome>>): Queue
    requires |s| <= |polls|
  {
    Reconcile(cfg, Log(q, Clear), s, polls, |s|)
  }

  /**
   What storage may hold when a resume that loaded `s` stops at `cut`: the first action clears it, and
   that is awaited; afterwards any write handed over may have landed.
   */
  ghost predicate MayHoldResuming(cut: seq<Action>, from: nat, s: seq<StepState>, held: Option<seq<StepState>>) {
    if |cut| <= from then held == Some(s) else held.None? || HandedOver(cut, from, held.value)
  }

  ghost predicate IsResumeCut(cfg: Config, o: Options, q: Queue, s: seq<StepState>, polls: seq<seq<PollOutcome>>,
                              envs: seq<Env>, cut: seq<Action>) {
    && cfg.persists && |s| <= |polls| && |s| <= |envs|
    && |q.trace| <= |cut| && cut <= AfterResume(cfg, o, q, Some(s), polls, envs).0.trace
  }

  lemma AgreeAt(a: seq<Action>, b: seq<Action>, k: nat)
    requires (a <= b || b <= a) && k < |a|
    ensures k < |b| ==> a[k] == b[k]
  {
  }

  lemma ResumeReconcilesFirst(cfg: Config, o: Options, q: Queue, s: seq<StepState>, polls: seq<seq<PollOutcome>>,
                              envs: seq<Env>, cut: seq<Action>)
    requires IsResumeCut(cfg, o, q, s, polls, envs, cut)
    ensures var q2 := Reconciled(cfg, q, s, polls);
            && q2.trace == q.trace + [Clear] + Reports(cfg, s, polls, |s|)
            && (forall k :: |q.trace| <= k < |q2.trace| ==> !q2.trace[k].Save?)
            && Filled(q2) && |q2.steps| <= |envs|
            && (cut <= q2.trace || (q2.trace <= cut && cut <= Ran(cfg, o, q2, envs)))
  {
    var q2 := Reconciled(cfg, q, s, polls);
    ReconcileReports(cfg, Log(q, Clear), s, polls, |s|);
    ReconcileRequeues(cfg, Log(q, Clear), s, polls, |s|);
    ReconcileShape(cfg, Log(q, Clear), s, polls, |s|);
    TraceKeepsPrefix(cfg, o, q2, 0, envs, [], RunFrom(cfg, o, q2, 0, envs, []));
  }

  /** While the verdicts go out storage is empty; after that the resume is a first run of the re-queued steps. */
  lemma ResumeIsARun(cfg: Config, o: Options, q: Queue, s: seq<StepState>, polls: seq<seq<PollOutcome>>,
                     envs: seq<Env>, cut: seq<Action>, held: Option<seq<StepState>>)
    requires IsResumeCut(cfg, o, q, s, polls, envs, cut) && MayHoldResuming(cut, |q.trace|, s, held)
    ensures var q2 := Reconciled(cfg, q, s, polls);
            && Filled(q2)
            && (|q.trace| < |cut| <= |q2.trace| ==> held.None?)
            && (|cut| > |q2.trace| && !o.dryRun ==> IsCut(cfg, o, q2, envs, cut))
            && (|cut| > |q2.trace| && held.Some? ==> MayHold(q2, cut, held.value))
  {
    hide Ran, Reports, Reconciled, AfterResume;
    var q2 := Reconciled(cfg, q, s, polls);
    ResumeReconcilesFirst(cfg, o, q, s, polls, envs, cut);
    if |cut| > |q.trace| && held.Some? {
      var k :| |q.trace| <= k < |cut| && cut[k] == Save(held.value);
      AgreeAt(cut, q2.trace, k);
      assert HandedOver(cut, |q2.trace|, held.value);
    }
  }

  // ---------------------------------------------------------------------
  // What a resume puts back
  // ---------------------------------------------------------------------

  /** All snapshots handed over since `from` list the transactions of the queue. */
  ghost predicate SavesList(q: Queue, from: nat, steps: seq<QueueStep>) {
    && from <= |q.trace| && q.steps == steps && SameTransactions(q.states, steps)
    && (forall k :: from <= k < |q.trace| && q.trace[k].Save? ==> SameTransactions(q.trace[k].snapshot, steps))
  }

  lemma FailLists(q: Queue, i: nat, hash: Option<string>, completed: seq<nat>, from: nat, steps: seq<QueueStep>)
    requires SavesList(q, from, steps) && Ready(q, completed)
    ensures SavesList(Fail(q, i, hash, completed).q, from, steps)
  {
    RollbacksSaveNothing(q.steps, completed);
  }

  lemma SubmitLists(cfg: Config, q: Queue, i: nat, env: Env, fee: Option<string>, completed: seq<nat>,
                    from: nat, steps: seq<QueueStep>)
    requires SavesList(q, from, steps) && Ready(q, completed) && i < |q.steps|
    ensures SavesList(Submit(cfg, q, i, env, fee, completed).q, from, steps)
  {
    var q1 := Log(q, Sent(i));
    match env.send
    case SendThrows => FailLists(q1, i, None, completed, from, steps);
    case SendReturns(hash) =>
      var q2 := Mark(cfg, Log(q1, Emit(i, SubmittedEvent, Some(hash), false)), i, Submitted, Some(hash), fee);
      FailLists(q2, i, Some(hash), completed, from, steps);
  }

  lemma ExecuteLists(cfg: Config, o: Options, q: Queue, i: nat, env: Env, completed: seq<nat>,
                     from: nat, steps: seq<QueueStep>)
    requires SavesList(q, from, steps) && Ready(q, completed) && i < |q.steps|
    ensures SavesList(Execute(cfg, o, q, i, env, completed).q, from, steps)
  {
    hide Submit, Fail;
    FailLists(q, i, None, completed, from, steps);
    SubmitLists(cfg, q, i, env, None, completed, from, steps);
    if env.sim.SimSucceeds? {
      var fee := Some(env.sim.fee);
      var q1 := Log(Mark(cfg, q, i, Simulated, None, fee), Emit(i, SimulatedEvent, None, false));
      SubmitLists(cfg, q1, i, env, fee, completed, from, steps);
    }
  }

  lemma {:induction false} RunLists(cfg: Config, o: Options, q: Queue, i: nat, envs: seq<Env>, completed: seq<nat>,
                                    from: nat, steps: seq<QueueStep>)
    requires SavesList(q, from, steps) && Ready(q, completed) && i <= |q.steps| <= |envs|
    ensures SavesList(RunFrom(cfg, o, q, i, envs, completed).q, from, steps)
    decreases |q.steps| - i
  {
    hide Execute;
    if i < |q.steps| {
      var started := Log(q, Emit(i, PendingEvent, None, false));
      var first := Execute(cfg, o, started, i, envs[i], completed);
      ExecuteLists(cfg, o, started, i, envs[i], completed, from, steps);
      if first.ok {
        RunLists(cfg, o, first.q, i + 1, envs, first.completed, from, steps);
      }
    }
  }

  /** The step is sent before anything is saved about it. */
  predicate SendsUnsaved(cfg: Config, o: Options, env: Env) {
    o.skipSimulation && ReachesSend(cfg, o, env)
  }

  /** What a run does before it hands over a snapshot, or fails its first step without one. */
  function Opening(cfg: Config, o: Options, env: Env): seq<Action> {
    [Emit(0, PendingEvent, None, false)]
    + (if !SendsUnsaved(cfg, o, env) then []
       else if env.send.SendThrows? then [Sent(0)]
       else [Sent(0), Emit(0, SubmittedEvent, Some(env.send.hash), false)])
  }

  /** The first step gets as far as a snapshot: simulated, or submitted where simulation is skipped. */
  predicate HandsOverFirst(cfg: Config, o: Options, env: Env) {
    && (cfg.guarded && !o.dryRun ==> env.guardPasses)
    && env.signs
    && (if o.skipSimulation && !o.dryRun then env.send.SendReturns? else env.sim.SimSucceeds?)
  }

  lemma ExecuteOpens(cfg: Config, o: Options, q: Queue, env: Env)
    requires cfg.persists && |q.steps| == |q.states| > 0
    ensures var begun := q.trace + Opening(cfg, o, env);
            var r := Execute(cfg, o, Log(q, Emit(0, PendingEvent, None, false)), 0, env, []);
            if HandsOverFirst(cfg, o, env)
            then |r.q.trace| > |begun| && begun <= r.q.trace && r.q.trace[|begun|].Save?
            else !r.ok && r.q.trace == begun + [Emit(0, FailedEvent, None, false)]
  {
    hide PollSucceeds;
    var q1 := Log(q, Emit(0, PendingEvent, None, false));
    if HandsOverFirst(cfg, o, env) {
      if o.skipSimulation && !o.dryRun {
        SubmitOpens(cfg, q1, env, None);
      } else {
        var q2 := Log(Mark(cfg, q1, 0, Simulated, None, Some(env.sim.fee)), Emit(0, SimulatedEvent, None, false));
        SubmitKeepsPrefix(cfg, q2, 0, env, Some(env.sim.fee), [], Submit(cfg, q2, 0, env, Some(env.sim.fee), []));
      }
    } else if SendsUnsaved(cfg, o, env) {
      assert Rollbacks(q.steps, []) == [];
    } else {
      assert Rollbacks(q.steps, []) == [];
    }
  }

  lemma SubmitOpens(cfg: Config, q: Queue, env: Env, fee: Option<string>)
    requires cfg.persists && |q.steps| == |q.states| > 0 && env.send.SendReturns?
    ensures var begun := q.trace + [Sent(0), Emit(0, SubmittedEvent, Some(env.send.hash), false)];
            var r := Submit(cfg, q, 0, env, fee, []);
            |r.q.trace| > |begun| && begun <= r.q.trace && r.q.trace[|begun|].Save?
  {
    hide PollSucceeds, Rollbacks;
  }

  lemma RunOpens(cfg: Config, o: Options, q: Queue, envs: seq<Env>)
    requires cfg.persists && |q.steps| == |q.states| > 0 && |q.steps| <= |envs|
    ensures var begun := q.trace + Opening(cfg, o, envs[0]);
            var ran := Ran(cfg, o, q, envs);
            if HandsOverFirst(cfg, o, envs[0])
            then |ran| > |begun| && begun <= ran && ran[|begun|].Save?
            else ran == begun + [Emit(0, FailedEvent, None, false)]
  {
    hide Execute, Opening, HandsOverFirst;
    ExecuteOpens(cfg, o, q, envs[0]);
    var first := Execute(cfg, o, Log(q, Emit(0, PendingEvent, None, false)), 0, envs[0], []);
    var r := RunFrom(cfg, o, q, 0, envs, []);
    assert r == if first.ok then RunFrom(cfg, o, first.q, 1, envs, first.completed) else first;
    if first.ok {
      TraceKeepsPrefix(cfg, o, first.q, 1, envs, first.completed, r);
      assert r.q.trace[..|first.q.trace|] == first.q.trace;
    }
  }

  ghost predicate SavesNothing(cut: seq<Action>, from: nat) {
    forall k :: from <= k < |cut| ==> !cut[k].Save?
  }

  /** Up to where a resume has handed over no snapshot. */
  lemma SavesNothingExactly(cfg: Config, o: Options, q: Queue, s: seq<StepState>, polls: seq<seq<PollOutcome>>,
                            envs: seq<Env>, cut: seq<Action>)
    requires IsResumeCut(cfg, o, q, s, polls, envs, cut) && Reconciled(cfg, q, s, polls).steps != [] && envs != []
    ensures var begun := Reconciled(cfg, q, s, polls).trace + Opening(cfg, o, envs[0]);
            && (SavesNothing(cut, |q.trace|) <==> |cut| <= |begun| || !HandsOverFirst(cfg, o, envs[0]))
            && (SavesNothing(cut, |q.trace|) ==> cut <= begun + [Emit(0, FailedEvent, None, false)])
  {
    hide Ran, Reports, Reconciled, AfterResume, HandsOverFirst;
    var q2 := Reconciled(cfg, q, s, polls);
    var begun := q2.trace + Opening(cfg, o, envs[0]);
    ResumeReconcilesFirst(cfg, o, q, s, polls, envs, cut);
    RunOpens(cfg, o, q2, envs);
    assert SavesNothing(begun + [Emit(0, FailedEvent, None, false)], |q.trace|);
    if |cut| > |begun| {
      AgreeAt(cut, Ran(cfg, o, q2, envs), |begun|);
    } else {
      assert cut <= begun;
    }
  }

  /** Storage lists the transaction. */
  ghost predicate Keeps(held: Option<seq<StepState>>, xdr: string) {
    held.Some? && exists k :: 0 <= k < |held.value| && held.value[k].xdr == xdr
  }

  /** Once a write of the resumed run has landed, storage lists every re-queued step, in order. */
  lemma StorageListsTheRequeued(cfg: Config, o: Options, q: Queue, s: seq<StepState>, polls: seq<seq<PollOutcome>>,
                                envs: seq<Env>, cut: seq<Action>, held: Option<seq<StepState>>)
    requires IsResumeCut(cfg, o, q, s, polls, envs, cut) && MayHoldResuming(cut, |q.trace|, s, held)
    requires |cut| > |q.trace| && held.Some?
    ensures SameTransactions(held.value, Reconciled(cfg, q, s, polls).steps)
  {
    hide Reports, Reconciled, AfterResume, RunFrom, Finish;
    var q2 := Reconciled(cfg, q, s, polls);
    ResumeReconcilesFirst(cfg, o, q, s, polls, envs, cut);
    var k :| |q.trace| <= k < |cut| && cut[k] == Save(held.value);
    AgreeAt(cut, q2.trace, k);
    RequeuedRunLists(cfg, o, q2, envs);
    AgreeAt(cut, Ran(cfg, o, q2, envs), k);
  }

  lemma RequeuedRunLists(cfg: Config, o: Options, q: Queue, envs: seq<Env>)
    requires Filled(q) && |q.steps| <= |envs|
    ensures forall k :: |q.trace| <= k < |Ran(cfg, o, q, envs)| && Ran(cfg, o, q, envs)[k].Save? ==>
              SameTransactions(Ran(cfg, o, q, envs)[k].snapshot, q.steps)
  {
    RunLists(cfg, o, q, 0, envs, [], |q.trace|, q.steps);
  }

  /** A re-queued step is one of those stored. */
  lemma RequeuedWasStored(cfg: Config, q: Queue, s: seq<StepState>, polls: seq<seq<PollOutcome>>, j: nat)
    requires |s| <= |polls| && j < |Reconciled(cfg, q, s, polls).steps|
    ensures Keeps(Some(s), Reconciled(cfg, q, s, polls).steps[j].xdr)
  {
    ReconcileRequeues(cfg, Log(q, Clear), s, polls, |s|);
    assert s[RequeuedIndices(s, |s|)[j]].xdr == Reconciled(cfg, q, s, polls).steps[j].xdr;
  }

  /**
   When a resume stops, a step it has queued again is certainly lost, whichever writes landed, exactly when
   the resume had cleared the storage and handed over no snapshot: it stopped before the first one, or
   its first step failed before that, however far it got.
   */
  lemma RequeuedIsLostExactly(cfg: Config, o: Options, q: Queue, s: seq<StepState>, polls: seq<seq<PollOutcome>>,
                              envs: seq<Env>, cut: seq<Action>, j: nat)
    requires IsResumeCut(cfg, o, q, s, polls, envs, cut) && envs != []
    requires j < |Reconciled(cfg, q, s, polls).steps|
    ensures var q2 := Reconciled(cfg, q, s, polls);
            (forall held :: MayHoldResuming(cut, |q.trace|, s, held) ==> !Keeps(held, q2.steps[j].xdr)) <==>
            && |cut| > |q.trace|
            && (|cut| <= |q2.trace| + |Opening(cfg, o, envs[0])| || !HandsOverFirst(cfg, o, envs[0]))
  {
    hide AfterResume, Reconciled, Opening, HandsOverFirst;
    var q2 := Reconciled(cfg, q, s, polls);
    SavesNothingExactly(cfg, o, q, s, polls, envs, cut);
    if |cut| <= |q.trace| {
      RequeuedWasStored(cfg, q, s, polls, j);
      assert MayHoldResuming(cut, |q.trace|, s, Some(s));
    } else if !SavesNothing(cut, |q.trace|) {
      var k :| |q.trace| <= k < |cut| && cut[k].Save?;
      var held := Some(cut[k].snapshot);
      assert MayHoldResuming(cut, |q.trace|, s, held);
      StorageListsTheRequeued(cfg, o, q, s, polls, envs, cut, held);
      assert held.value[j].xdr == q2.steps[j].xdr;
    }
  }

  /**
   Until then the resume has sent nothing, or only its first step: that one exactly where simulation is
   skipped and the step gets to its send. So every other lost step was never sent by it.
   */
  lemma LostResumeSendsAtMostOne(cfg: Config, o: Options, q: Queue, s: seq<StepState>, polls: seq<seq<PollOutcome>>,
                                 envs: seq<Env>, cut: seq<Action>)
    requires IsResumeCut(cfg, o, q, s, polls, envs, cut) && Reconciled(cfg, q, s, polls).steps != [] && envs != []
    requires SavesNothing(cut, |q.trace|)
    ensures Sends(cut, |q.trace|) ==
            if SendsUnsaved(cfg, o, envs[0]) && |cut| > |Reconciled(cfg, q, s, polls).trace| + 1 then [0] else []
  {
    hide AfterResume, HandsOverFirst, Reconciled, Opening, Sends, SendsUnsaved;
    SavesNothingExactly(cfg, o, q, s, polls, envs, cut);
    ReconciledSendsNothing(cfg, q, s, polls);
    OpeningSends(cfg, o, envs[0], Reconciled(cfg, q, s, polls).trace, |q.trace|, cut);
  }

  lemma OpeningSends(cfg: Config, o: Options, env: Env, trace: seq<Action>, from: nat, cut: seq<Action>)
    requires from <= |trace| && Sends(trace, from) == []
    requires from <= |cut| && cut <= trace + Opening(cfg, o, env) + [Emit(0, FailedEvent, None, false)]
    ensures Sends(cut, from) == if SendsUnsaved(cfg, o, env) && |cut| > |trace| + 1 then [0] else []
  {
    hide Sends, SendsUnsaved;
    if |cut| <= |trace| {
      assert cut == trace[..|cut|];
      SendsSplit(trace, |cut|, from);
    } else if |cut| == |trace| + 1 || !SendsUnsaved(cfg, o, env) {
      var events := cut[|trace|..];
      assert cut == trace + events;
      EventsSendNothing(trace, from, events);
    } else {
      var first := Emit(0, PendingEvent, None, false);
      var sent, events := trace + [first] + [Sent(0)], cut[|trace| + 2..];
      SendsAfterQuiet(trace, from, first);
      SendsAfter(trace + [first], from, Sent(0));
      assert cut == sent + events;
      EventsSendNothing(sent, from, events);
    }
  }

  lemma ReconciledSendsNothing(cfg: Config, q: Queue, s: seq<StepState>, polls: seq<seq<PollOutcome>>)
    requires |s| <= |polls|
    ensures |Reconciled(cfg, q, s, polls).trace| >= |q.trace|
    ensures Sends(Reconciled(cfg, q, s, polls).trace, |q.trace|) == []
  {
    ReconcileFrom(cfg, q, s, polls, Reconciled(cfg, q, s, polls));
  }
}
