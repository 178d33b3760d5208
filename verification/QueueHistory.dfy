/**
 Any number of calls on one transaction queue: what every snapshot keeps, which steps a later run
 sends a second time, and a run whose step is sent again after a crash.
 */
module QueueHistory {
  import opened Outcomes
  import opened QueueModel
  import opened QueueProtocol
  import opened QueueRecovery

  /** A call with what the outside answers it; `stored` is whatever the adapter loads. */
  datatype Call =
    | Enqueue(step: QueueStep)
    | Run(o: Options, envs: seq<Env>)
    | Resume(o: Options, stored: Option<seq<StepState>>, polls: seq<seq<PollOutcome>>, envs: seq<Env>)

  const EMPTY := Queue([], [], [], [])

  /** There is an answer for every step. */
  ghost predicate IsAnswered(q: Queue, call: Call) {
    && |q.steps| == |q.states|
    && match call
       case Enqueue(_) => true
       case Run(_, envs) => |q.steps| <= |envs|
       case Resume(_, stored, polls, envs) => stored.Some? ==> |stored.value| <= |polls| && |stored.value| <= |envs|
  }

  function AfterCall(cfg: Config, q: Queue, call: Call): Queue
    requires IsAnswered(q, call)
  {
    match call
    case Enqueue(step) => AfterEnqueue(cfg, q, step)
    case Run(o, envs) => AfterRun(cfg, o, q, envs).0
    case Resume(o, stored, polls, envs) => AfterResume(cfg, o, q, stored, polls, envs).0
  }

  ghost predicate IsHistory(cfg: Config, queues: seq<Queue>, calls: seq<Call>) {
    && |queues| == |calls| + 1
    && queues[0] == EMPTY
    && forall k :: 0 <= k < |calls| ==>
         IsAnswered(queues[k], calls[k]) && queues[k + 1] == AfterCall(cfg, queues[k], calls[k])
  }

  // ---------------------------------------------------------------------
  // Every snapshot
  // ---------------------------------------------------------------------

  function AnyHash(): Fits {
    (i: nat, hash: string) => true
  }

  lemma RunCallCarries(cfg: Config, o: Options, q: Queue, envs: seq<Env>)
    requires SavesCarryHashes(q, 0, AnyHash()) && |q.steps| == |q.states| && |q.steps| <= |envs|
    ensures SavesCarryHashes(AfterRun(cfg, o, q, envs).0, 0, AnyHash())
    ensures |AfterRun(cfg, o, q, envs).0.steps| == |AfterRun(cfg, o, q, envs).0.states|
  {
    var q0 := q.(submittedHashes := []);
    RunCarries(cfg, o, q0, 0, envs, [], 0, AnyHash(), RunFrom(cfg, o, q0, 0, envs, []));
  }

  lemma ResumeCallCarries(cfg: Config, o: Options, q: Queue, stored: Option<seq<StepState>>,
                          polls: seq<seq<PollOutcome>>, envs: seq<Env>)
    requires SavesCarryHashes(q, 0, AnyHash()) && |q.steps| == |q.states|
    requires stored.Some? ==> |stored.value| <= |polls| && |stored.value| <= |envs|
    ensures var r := AfterResume(cfg, o, q, stored, polls, envs).0;
            SavesCarryHashes(r, 0, AnyHash()) && |r.steps| == |r.states|
  {
    if cfg.persists && stored.Some? && stored.value != [] {
      var q1, n := Log(q, Clear), |stored.value|;
      ReconcileShape(cfg, q1, stored.value, polls, n);
      ReconcileCarries(cfg, q1, stored.value, polls, n, 0, AnyHash());
      var q2 := Reconcile(cfg, q1, stored.value, polls, n);
      RunCarries(cfg, o, q2, 0, envs, [], 0, AnyHash(), RunFrom(cfg, o, q2, 0, envs, []));
    }
  }

  /**
   After any calls in any order, with any answers, every step marked submitted or confirmed carries a
   hash: in the queue, and in every snapshot it ever saved.
   */
  lemma {:induction false} EverySnapshotCarriesHashes(cfg: Config, queues: seq<Queue>, calls: seq<Call>, n: nat)
    requires IsHistory(cfg, queues, calls) && n < |queues|
    ensures SavesCarryHashes(queues[n], 0, AnyHash()) && |queues[n].steps| == |queues[n].states|
  {
    if n > 0 {
      EverySnapshotCarriesHashes(cfg, queues, calls, n - 1);
      match calls[n - 1]
      case Enqueue(_) =>
      case Run(o, envs) => RunCallCarries(cfg, o, queues[n - 1], envs);
      case Resume(o, stored, polls, envs) => ResumeCallCarries(cfg, o, queues[n - 1], stored, polls, envs);
    }
  }

  // ---------------------------------------------------------------------
  // Sent by two runs
  // ---------------------------------------------------------------------

  /** The steps the `k`-th call sent. */
  function SentBy(queues: seq<Queue>, k: nat): seq<nat>
    requires k + 1 < |queues|
  {
    Sends(queues[k + 1].trace, |queues[k].trace|)
  }

  /** A run leaves its steps in the queue exactly when one of them does not get through. */
  lemma RunKeepsStepsExactly(cfg: Config, o: Options, q: Queue, envs: seq<Env>)
    requires |q.steps| == |q.states| && |q.steps| <= |envs|
    ensures var (after, ok) := AfterRun(cfg, o, q, envs);
            && (ok <==> AllComplete(cfg, o, envs, |q.steps|))
            && after.steps == if AllComplete(cfg, o, envs, |q.steps|) then [] else q.steps
  {
    RunSendsExactly(cfg, o, q.(submittedHashes := []), envs, 0);
  }

  lemma RunCallSends(cfg: Config, o: Options, q: Queue, envs: seq<Env>, j: nat)
    requires |q.steps| == |q.states| && |q.steps| <= |envs|
    ensures j in Sends(AfterRun(cfg, o, q, envs).0.trace, |q.trace|) <==> j < |q.steps| && SendsStep(cfg, o, envs, j)
  {
    var q0 := q.(submittedHashes := []);
    var r := RunFrom(cfg, o, q0, 0, envs, []);
    RunSendsExactly(cfg, o, q0, envs, j);
    TraceKeepsPrefix(cfg, o, q0, 0, envs, [], r);
    SendsAfterQuiet(r.q.trace, |q.trace|, Clear);
  }

  /** The call leaves the steps in place: it adds one, fails to run them all, or finds nothing to resume. */
  ghost predicate LeavesSteps(cfg: Config, q: Queue, call: Call)
    requires IsAnswered(q, call)
  {
    match call
    case Enqueue(_) => true
    case Run(o, envs) => !AllComplete(cfg, o, envs, |q.steps|)
    case Resume(_, stored, _, _) => !cfg.persists || stored.None? || stored.value == []
  }

  lemma {:induction false} StepsStay(cfg: Config, queues: seq<Queue>, calls: seq<Call>, k: nat, l: nat)
    requires IsHistory(cfg, queues, calls) && k <= l < |calls|
    requires forall m :: k <= m < l ==> LeavesSteps(cfg, queues[m], calls[m])
    ensures queues[k].steps <= queues[l].steps
    decreases l
  {
    if k < l {
      StepsStay(cfg, queues, calls, k, l - 1);
      var q, call := queues[l - 1], calls[l - 1];
      assert LeavesSteps(cfg, q, call) && queues[l] == AfterCall(cfg, q, call);
      if call.Run? {
        RunKeepsStepsExactly(cfg, call.o, q, call.envs);
      }
    }
  }

  /**
   A queue keeps the steps of a failed run, confirmed ones included, and its next run starts again at
   the first. So over any calls that leave the steps in place, a step is sent by both of two runs
   exactly when it was reached in each: all steps before it get through and it gets to its send.
   */
  lemma StepIsSentByBothRunsExactly(cfg: Config, queues: seq<Queue>, calls: seq<Call>, k: nat, l: nat, j: nat)
    requires IsHistory(cfg, queues, calls) && k < l < |calls| && calls[k].Run? && calls[l].Run?
    requires forall m :: k <= m < l ==> LeavesSteps(cfg, queues[m], calls[m])
    requires j < |queues[k].steps|
    ensures j < |queues[l].steps| && queues[l].steps[j] == queues[k].steps[j]
    ensures j in SentBy(queues, k) && j in SentBy(queues, l) <==>
            SendsStep(cfg, calls[k].o, calls[k].envs, j) && SendsStep(cfg, calls[l].o, calls[l].envs, j)
  {
    StepsStay(cfg, queues, calls, k, l);
    assert IsAnswered(queues[k], calls[k]) && IsAnswered(queues[l], calls[l]);
    RunCallSends(cfg, calls[k].o, queues[k], calls[k].envs, j);
    RunCallSends(cfg, calls[l].o, queues[l], calls[l].envs, j);
    assert queues[k + 1] == AfterCall(cfg, queues[k], calls[k]) && queues[l + 1] == AfterCall(cfg, queues[l], calls[l]);
  }

  // ---------------------------------------------------------------------
  // An empty hash
  // ---------------------------------------------------------------------

  const GUARDLESS := Config(true, false, 1)
  const UNSIMULATED := Options(false, true)
  const EMPTY_HASH := Env(true, true, SimThrows, SendReturns(""), [])

  const PENDING_TX := StepState("tx", Pending, None, None)
  const SUBMITTED_TX := StepState("tx", Submitted, Some(""), None)

  /** What the run does up to the snapshot that marks the step submitted. */
  const CUT := [
    Save([PENDING_TX]),
    Emit(0, PendingEvent, None, false),
    Sent(0),
    Emit(0, SubmittedEvent, Some(""), false),
    Save([SUBMITTED_TX])]

  lemma EmptyHashRun()
    ensures var q := AfterEnqueue(GUARDLESS, EMPTY, QueueStep("tx", None));
            var run := RunFrom(GUARDLESS, UNSIMULATED, q, 0, [EMPTY_HASH], []).q.trace;
            q.states == [PENDING_TX] && |q.trace| == 1 && |run| >= 5 && run[..5] == CUT
  {
    var q := AfterEnqueue(GUARDLESS, EMPTY, QueueStep("tx", None));
    assert q.states == [PENDING_TX] && q.trace == CUT[..1];
    var q1 := Log(q, CUT[1]);
    assert q1.trace == CUT[..2];
    var q2 := Log(q1, CUT[2]);
    assert q2.trace == CUT[..3];
    var q3 := Log(q2, CUT[3]);
    assert q3.trace == CUT[..4];
    var q4 := Mark(GUARDLESS, q3, 0, Submitted, Some(""), None);
    assert q4.states == [SUBMITTED_TX] && q4.trace == CUT;
    var r := Execute(GUARDLESS, UNSIMULATED, q1, 0, EMPTY_HASH, []);
    assert r == Fail(q4, 0, Some(""), []);
    assert r.q.trace == CUT + [Emit(0, FailedEvent, Some(""), false)];
    assert RunFrom(GUARDLESS, UNSIMULATED, q, 0, [EMPTY_HASH], []) == r;
  }

  lemma EmptyHashCut()
    ensures Sends(CUT, 1) == [0] && Unsaved(CUT, 1) == None && Stored(CUT, 1, [PENDING_TX]) == [SUBMITTED_TX]
  {
    assert Sends(CUT[..1], 1) == [];
    SendsAfterQuiet(CUT[..1], 1, CUT[1]);
    assert CUT[..1] + [CUT[1]] == CUT[..2];
    SendsAfter(CUT[..2], 1, CUT[2]);
    assert CUT[..2] + [CUT[2]] == CUT[..3];
    SendsAfterQuiet(CUT[..3], 1, CUT[3]);
    assert CUT[..3] + [CUT[3]] == CUT[..4];
    SendsAfterQuiet(CUT[..4], 1, CUT[4]);
    assert CUT[..4] + [CUT[4]] == CUT;
  }

  /**
   A step that the network answered with an empty hash, cut off after the snapshot that marks it
   submitted: nothing is in flight, and the resume sends it again.
   */
  lemma EmptyHashIsSentAgain()
    ensures var q := AfterEnqueue(GUARDLESS, EMPTY, QueueStep("tx", None));
            var run := RunFrom(GUARDLESS, UNSIMULATED, q, 0, [EMPTY_HASH], []).q.trace;
            && |run| >= 5 && |q.trace| == 1
            && Sends(run[..5], 1) == [0] && Unsaved(run[..5], 1) == None
            && Stored(run[..5], 1, q.states) == [SUBMITTED_TX]
            && var again := AfterResume(GUARDLESS, UNSIMULATED, EMPTY, Some([SUBMITTED_TX]), [[]], [EMPTY_HASH]).0;
               0 in Sends(again.trace, 0)
  {
    EmptyHashRun();
    EmptyHashCut();
    assert RequeuedIndices([SUBMITTED_TX], 1) == [0];
    ResumeSendsExactly(GUARDLESS, UNSIMULATED, EMPTY, [SUBMITTED_TX], [[]], [EMPTY_HASH], 0);
  }
}
