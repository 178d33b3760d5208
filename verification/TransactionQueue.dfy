/** The transaction queue's fields and loops, proved equal to `QueueModel`. */
module TransactionQueue {
  import opened Outcomes
  import opened QueueModel

  class TransactionQueue {
    const cfg: Config
    var steps: seq<QueueStep>
    var stepStates: seq<StepState>
    var submittedHashes: seq<string>
    /** What listeners, the persistence adapter and the network saw, in order. */
    var trace: seq<Action>

    constructor (cfg: Config)
      ensures this.cfg == cfg && Model() == Queue([], [], [], [])
    {
      this.cfg := cfg;
      steps, stepStates, submittedHashes, trace := [], [], [], [];
    }

    ghost function Model(): Queue
      reads this
    {
      Queue(steps, stepStates, submittedHashes, trace)
    }

    method EmitStatus(index: nat, status: EventStatus, hash: Option<string>, dryRun: bool)
      modifies this`trace
      ensures Model() == Log(old(Model()), Emit(index, status, hash, dryRun))
    {
      trace := trace + [Emit(index, status, hash, dryRun)];
    }

    method PersistSnapshot()
      modifies this`trace
      ensures Model() == SaveSnapshot(cfg, old(Model()))
    {
      if cfg.persists {
        trace := trace + [Save(stepStates)];
      }
    }

    method Enqueue(xdr: string, rollback: Option<Rollback>)
      modifies this
      ensures Model() == AfterEnqueue(cfg, old(Model()), QueueStep(xdr, rollback))
      ensures steps == old(steps) + [QueueStep(xdr, rollback)]
      ensures stepStates == old(stepStates) + [StepState(xdr, Pending, None, None)]
      ensures trace == old(trace) + if cfg.persists then [Save(stepStates)] else []
      ensures submittedHashes == old(submittedHashes)
    {
      steps := steps + [QueueStep(xdr, rollback)];
      stepStates := stepStates + [StepState(xdr, Pending, None, None)];
      PersistSnapshot();
    }

    method MarkPersisted(i: nat, status: Status, hash: Option<string>, fee: Option<string>)
      requires i < |steps| == |stepStates|
      modifies this`trace, this`stepStates
      ensures Model() == Mark(cfg, old(Model()), i, status, hash, fee)
      ensures stepStates == old(stepStates)[i := stepStates[i]]
      ensures stepStates[i].xdr == steps[i].xdr && stepStates[i].status == status
      ensures stepStates[i].hash == if hash.Some? then hash else old(stepStates)[i].hash
      ensures stepStates[i].fee == if fee.Some? then fee else old(stepStates)[i].fee
      ensures trace == old(trace) + if cfg.persists then [Save(stepStates)] else []
    {
      var previous := stepStates[i];
      var state := StepState(steps[i].xdr, status, OrElse(hash, previous.hash), OrElse(fee, previous.fee));
      stepStates := stepStates[i := state];
      PersistSnapshot();
    }

    /** Polls until success, failure, an exception or the attempts run out. */
    method PollConfirmation(polls: seq<PollOutcome>) returns (ok: bool)
      ensures ok <==> PollSucceeds(polls, cfg.maxPollAttempts)
    {
      var attempt := 0;
      while attempt < cfg.maxPollAttempts && attempt < |polls|
        invariant 0 <= attempt <= cfg.maxPollAttempts && attempt <= |polls|
        invariant PollSucceeds(polls, cfg.maxPollAttempts) <==>
                  PollSucceeds(polls[attempt..], cfg.maxPollAttempts - attempt)
      {
        assert polls[attempt..][1..] == polls[attempt + 1..];
        match polls[attempt]
        case PollSuccess => return true;
        case PollFailed => return false;
        case PollThrows => return false;
        case PollAgain =>
        attempt := attempt + 1;
      }
      return false;
    }

    method RunRollbacks(completed: seq<nat>)
      requires Ready(Model(), completed)
      modifies this`trace
      ensures Model() == old(Model()).(trace := old(trace) + Rollbacks(steps, completed))
    {
      var i := |completed|;
      assert completed[..i] == completed;
      while i > 0
        invariant 0 <= i <= |completed|
        invariant trace + Rollbacks(steps, completed[..i]) == old(trace) + Rollbacks(steps, completed)
      {
        i := i - 1;
        assert completed[..i + 1][..i] == completed[..i];
        ghost var rest, before := Rollbacks(steps, completed[..i]), trace;
        var step := steps[completed[i]];
        if step.rollback.Some? {
          trace := trace + [RolledBack(completed[i])];
          assert before + ([RolledBack(completed[i])] + rest) == trace + rest;
        } else {
          assert [] + rest == rest;
        }
      }
      assert trace + [] == trace;
    }

    method FailStep(i: nat, hash: Option<string>, completed: seq<nat>)
      requires Ready(Model(), completed)
      modifies this`trace
      ensures End(Model(), completed, false) == Fail(old(Model()), i, hash, completed)
    {
      EmitStatus(i, FailedEvent, hash, false);
      RunRollbacks(completed);
    }

    /** The sequence guard and the step itself; returns the completed steps and whether it went through. */
    method RunStep(i: nat, o: Options, env: Env, completed: seq<nat>) returns (completed': seq<nat>, ok: bool)
      requires Ready(Model(), completed) && i < |steps|
      modifies this
      ensures End(Model(), completed', ok) == Execute(cfg, o, old(Model()), i, env, completed)
    {
      if cfg.guarded && !o.dryRun && !env.guardPasses {
        FailStep(i, None, completed);
        return completed, false;
      }
      completed', ok := ExecuteStep(i, o, env, completed);
    }

    method ExecuteStep(i: nat, o: Options, env: Env, completed: seq<nat>) returns (completed': seq<nat>, ok: bool)
      requires Ready(Model(), completed) && i < |steps|
      requires !(cfg.guarded && !o.dryRun && !env.guardPasses)
      modifies this
      ensures End(Model(), completed', ok) == Execute(cfg, o, old(Model()), i, env, completed)
    {
      if !env.signs {
        FailStep(i, None, completed);
        return completed, false;
      }

      var resourceFee: Option<string> := None;
      if !o.skipSimulation || o.dryRun {
        if !env.sim.SimSucceeds? {
          FailStep(i, None, completed);
          return completed, false;
        }
        resourceFee := Some(env.sim.fee);
        MarkPersisted(i, Simulated, None, resourceFee);
        EmitStatus(i, SimulatedEvent, None, false);
      }

      if o.dryRun {
        EmitStatus(i, ConfirmedEvent, None, true);
        return completed + [i], true;
      }

      trace := trace + [Sent(i)];
      if env.send.SendThrows? {
        FailStep(i, None, completed);
        return completed, false;
      }
      var hash := env.send.hash;
      EmitStatus(i, SubmittedEvent, Some(hash), false);
      MarkPersisted(i, Submitted, Some(hash), resourceFee);

      var confirmed := PollConfirmation(env.polls);
      if !confirmed {
        FailStep(i, Some(hash), completed);
        return completed, false;
      }

      EmitStatus(i, ConfirmedEvent, Some(hash), false);
      MarkPersisted(i, Confirmed, Some(hash), resourceFee);
      submittedHashes := submittedHashes + [hash];
      return completed + [i], true;
    }

    /** The loop shared by `Run` and `Resume`; false where the source rethrows a step's failure. */
    method RunSteps(o: Options, envs: seq<Env>) returns (ok: bool)
      requires |steps| == |stepStates| && |steps| <= |envs|
      modifies this
      ensures Model() == if ok then Finish(cfg, RunFrom(cfg, o, old(Model()), 0, envs, []).q)
                         else RunFrom(cfg, o, old(Model()), 0, envs, []).q
      ensures ok == RunFrom(cfg, o, old(Model()), 0, envs, []).ok
    {
      var completed: seq<nat> := [];
      var i := 0;
      while i < |steps|
        invariant 0 <= i <= |steps| <= |envs|
        invariant Ready(Model(), completed)
        invariant RunFrom(cfg, o, old(Model()), 0, envs, []) == RunFrom(cfg, o, Model(), i, envs, completed)
      {
        EmitStatus(i, PendingEvent, None, false);
        completed, ok := RunStep(i, o, envs[i], completed);
        if !ok {
          return;
        }
        i := i + 1;
      }

      steps, stepStates := [], [];
      if cfg.persists {
        trace := trace + [Clear];
      }
      return true;
    }

    method Run(o: Options, envs: seq<Env>) returns (ok: bool)
      requires |steps| == |stepStates| && |steps| <= |envs|
      modifies this
      ensures (Model(), ok) == AfterRun(cfg, o, old(Model()), envs)
    {
      submittedHashes := [];
      ok := RunSteps(o, envs);
    }

    /** One stored step of `Resume`: its events, its hash if it is recovered, itself if it is re-queued. */
    method ReconcileStep(i: nat, persisted: StepState, polls: seq<PollOutcome>) returns (requeued: Option<QueueStep>)
      modifies this`trace, this`submittedHashes
      ensures trace == old(trace) + VerdictEvents(cfg, i, persisted, polls)
      ensures submittedHashes == match VerdictOf(cfg, persisted, polls)
                                 case Recovered(hash) => old(submittedHashes) + [hash]
                                 case _ => old(submittedHashes)
      ensures requeued == match VerdictOf(cfg, persisted, polls)
                          case Requeued(xdr) => Some(QueueStep(xdr, None))
                          case _ => None
    {
      requeued := None;
      if persisted.status.Submitted? && persisted.hash.Some? && persisted.hash.value != "" {
        EmitStatus(i, UnconfirmedEvent, persisted.hash, false);
        var confirmed := PollConfirmation(polls);
        if confirmed {
          EmitStatus(i, ConfirmedEvent, persisted.hash, false);
          submittedHashes := submittedHashes + [persisted.hash.value];
        } else {
          EmitStatus(i, LostEvent, persisted.hash, false);
        }
      } else if persisted.status.Confirmed? && persisted.hash.Some? && persisted.hash.value != "" {
        submittedHashes := submittedHashes + [persisted.hash.value];
      } else {
        EmitStatus(i, LostEvent, None, false);
        requeued := Some(QueueStep(persisted.xdr, None));
      }
    }

    /** The loop of `Resume` over the stored steps; the result is the steps it re-queues. */
    method ReconcileStored(stored: seq<StepState>, polls: seq<seq<PollOutcome>>) returns (unfinished: seq<QueueStep>)
      requires |stored| <= |polls|
      modifies this
      ensures |unfinished| <= |stored|
      ensures var r := Reconcile(cfg, old(Model()), stored, polls, |stored|);
              && submittedHashes == r.submittedHashes && trace == r.trace
              && unfinished == r.steps && PendingStates(unfinished) == r.states
    {
      hide VerdictEvents, VerdictOf, Recorded;
      ghost var begun := Model();
      unfinished := [];
      var i := 0;
      while i < |stored|
        invariant 0 <= i <= |stored|
        invariant |unfinished| <= i
        invariant var r := Reconcile(cfg, begun, stored, polls, i);
                  && submittedHashes == r.submittedHashes && trace == r.trace
                  && unfinished == r.steps && PendingStates(unfinished) == r.states
      {
        var requeued := ReconcileStep(i, stored[i], polls[i]);
        if requeued.Some? {
          unfinished := unfinished + [requeued.value];
        }
        i := i + 1;
      }
    }

    /**
     `stored` is what the adapter loads, `polls` what the network answers for each stored step. When it
     does not throw, the result is the number of steps queued again.
     */
    method Resume(o: Options, stored: Option<seq<StepState>>, polls: seq<seq<PollOutcome>>, envs: seq<Env>)
      returns (ok: bool, requeued: nat)
      requires stored.Some? ==> |stored.value| <= |polls| && |stored.value| <= |envs|
      modifies this
      ensures (Model(), ok) == AfterResume(cfg, o, old(Model()), stored, polls, envs)
      ensures ok ==> requeued == if cfg.persists && stored.Some? then RequeuedCount(stored.value, |stored.value|) else 0
    {
      if !cfg.persists {
        return true, 0;
      }
      trace := trace + [Clear];
      if stored.None? || stored.value == [] {
        return true, 0;
      }
      ReconcileShape(cfg, Model(), stored.value, polls, |stored.value|);
      var unfinished := ReconcileStored(stored.value, polls);
      steps := unfinished;
      stepStates := PendingStates(unfinished);
      if |steps| == 0 {
        return true, 0;
      }
      ok := RunSteps(o, envs);
      requeued := |unfinished|;
    }

    static function PendingStates(steps: seq<QueueStep>): (r: seq<StepState>)
      ensures |r| == |steps|
    {
      if steps == [] then []
      else PendingStates(steps[..|steps| - 1]) + [StepState(steps[|steps| - 1].xdr, Pending, None, None)]
    }
  }
}
