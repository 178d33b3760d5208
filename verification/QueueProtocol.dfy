/**
 What a run of the transaction queue promises its observers: an independent
 monitor of the trace, and consequences of passing it.
 */
module QueueProtocol {
  import opened Outcomes
  import opened QueueModel

  /** Where a run is, as seen from its trace alone. */
  datatype Stage =
    | AtRest(next: nat)
    | Started(i: nat)
    | Checked(i: nat)
    | InFlight(i: nat)
    | Accepted(i: nat, hash: string)
    | Undoing(below: nat)
    | Broken

  ghost predicate NoRollbackBetween(steps: seq<QueueStep>, lo: nat, hi: nat) {
    forall k :: lo <= k < hi && k < |steps| ==> steps[k].rollback.None?
  }

  /**
   The protocol: steps start in order, each only after the one before is
   confirmed; a step is simulated unless that is skipped, then sent, accepted and
   confirmed under one hash; a dry run confirms without sending; a failure is
   followed by the rollbacks of the earlier steps only, last first, each once.
   */
  ghost function Next(o: Options, steps: seq<QueueStep>, st: Stage, a: Action): Stage {
    match st
    case AtRest(n) => FromRest(steps, n, a)
    case Started(n) => FromStarted(o, n, a)
    case Checked(n) => FromChecked(o, n, a)
    case InFlight(n) => FromInFlight(n, a)
    case Accepted(n, hash) => FromAccepted(n, hash, a)
    case Undoing(n) => FromUndoing(steps, n, a)
    case Broken => Broken
  }

  ghost function FromRest(steps: seq<QueueStep>, n: nat, a: Action): Stage {
    if a == Emit(n, PendingEvent, None, false) && n < |steps| then Started(n)
    else if a.Save? && 0 < n <= |a.snapshot| && a.snapshot[n - 1].status.Confirmed? then AtRest(n)
    else Broken
  }

  ghost function FromStarted(o: Options, n: nat, a: Action): Stage {
    if a.Save? && n < |a.snapshot| && a.snapshot[n].status.Simulated? then Started(n)
    else if a == Emit(n, SimulatedEvent, None, false) then Checked(n)
    else if a == Sent(n) && o.skipSimulation && !o.dryRun then InFlight(n)
    else if a == Emit(n, FailedEvent, None, false) then Undoing(n)
    else Broken
  }

  ghost function FromChecked(o: Options, n: nat, a: Action): Stage {
    if a == Emit(n, ConfirmedEvent, None, true) && o.dryRun then AtRest(n + 1)
    else if a == Sent(n) && !o.dryRun then InFlight(n)
    else Broken
  }

  ghost function FromInFlight(n: nat, a: Action): Stage {
    if a.Emit? && a.hash.Some? && a == Emit(n, SubmittedEvent, a.hash, false) then Accepted(n, a.hash.value)
    else if a == Emit(n, FailedEvent, None, false) then Undoing(n)
    else Broken
  }

  ghost function FromAccepted(n: nat, hash: string, a: Action): Stage {
    if a.Save? && n < |a.snapshot| && a.snapshot[n].status.Submitted? && a.snapshot[n].hash == Some(hash)
    then Accepted(n, hash)
    else if a == Emit(n, ConfirmedEvent, Some(hash), false) then AtRest(n + 1)
    else if a == Emit(n, FailedEvent, Some(hash), false) then Undoing(n)
    else Broken
  }

  ghost function FromUndoing(steps: seq<QueueStep>, n: nat, a: Action): Stage {
    if a.RolledBack? && a.index < n && a.index < |steps| && steps[a.index].rollback.Some?
       && NoRollbackBetween(steps, a.index + 1, n)
    then Undoing(a.index)
    else Broken
  }

  /** The stage reached by the actions of a trace from position `from` on. */
  ghost function StageOf(o: Options, steps: seq<QueueStep>, trace: seq<Action>, from: nat): Stage
    decreases |trace|
  {
    if |trace| <= from then AtRest(0)
    else Next(o, steps, StageOf(o, steps, trace[..|trace| - 1], from), trace[|trace| - 1])
  }

  function Iota(n: nat): (r: seq<nat>)
    ensures |r| == n && forall k :: 0 <= k < n ==> r[k] == k
  {
    if n == 0 then [] else Iota(n - 1) + [n - 1]
  }

  lemma StageAfter(o: Options, steps: seq<QueueStep>, trace: seq<Action>, from: nat, a: Action)
    requires from <= |trace|
    ensures StageOf(o, steps, trace + [a], from) == Next(o, steps, StageOf(o, steps, trace, from), a)
  {
    assert (trace + [a])[..|trace|] == trace;
  }

  // ---------------------------------------------------------------------
  // Every run follows the protocol
  // ---------------------------------------------------------------------

  ghost function NextAll(o: Options, steps: seq<QueueStep>, st: Stage, actions: seq<Action>): Stage
    decreases |actions|
  {
    if actions == [] then st else NextAll(o, steps, Next(o, steps, st, actions[0]), actions[1..])
  }

  lemma {:induction false} StageAfterAll(o: Options, steps: seq<QueueStep>, trace: seq<Action>, from: nat,
                                         actions: seq<Action>)
    requires from <= |trace|
    ensures StageOf(o, steps, trace + actions, from) == NextAll(o, steps, StageOf(o, steps, trace, from), actions)
    decreases |actions|
  {
    hide Next;
    if actions == [] {
      assert trace + actions == trace;
    } else {
      StageAfter(o, steps, trace, from, actions[0]);
      StageAfterAll(o, steps, trace + [actions[0]], from, actions[1..]);
      assert trace + [actions[0]] + actions[1..] == trace + actions;
    }
  }

  lemma RollbackFollows(o: Options, steps: seq<QueueStep>, k: nat, b: nat)
    requires 0 < k <= b && k <= |steps| && NoRollbackBetween(steps, k, b) && steps[k - 1].rollback.Some?
    ensures Next(o, steps, Undoing(b), RolledBack(k - 1)) == Undoing(k - 1)
  {
  }

  lemma RollbacksOfFirst(steps: seq<QueueStep>, k: nat)
    requires 0 < k <= |steps|
    ensures Rollbacks(steps, Iota(k)) ==
            if steps[k - 1].rollback.Some? then [RolledBack(k - 1)] + Rollbacks(steps, Iota(k - 1))
            else Rollbacks(steps, Iota(k - 1))
  {
    assert Iota(k)[..k - 1] == Iota(k - 1);
    assert [] + Rollbacks(steps, Iota(k - 1)) == Rollbacks(steps, Iota(k - 1));
  }

  lemma NoRollbackStarts(steps: seq<QueueStep>, k: nat, b: nat)
    ensures NoRollbackBetween(steps, k, k) && NoRollbackBetween(steps, 0, 0)
    ensures 0 < k <= |steps| && NoRollbackBetween(steps, k, b) && steps[k - 1].rollback.None? ==>
              NoRollbackBetween(steps, k - 1, b)
  {
  }

  lemma UndoingNothing(o: Options, steps: seq<QueueStep>, b: nat)
    ensures NextAll(o, steps, Undoing(b), Rollbacks(steps, Iota(0))) == Undoing(b)
  {
  }

  lemma NextAllFirst(o: Options, steps: seq<QueueStep>, st: Stage, a: Action, rest: seq<Action>)
    ensures NextAll(o, steps, st, [a] + rest) == NextAll(o, steps, Next(o, steps, st, a), rest)
  {
    assert ([a] + rest)[1..] == rest;
  }

  lemma {:induction false} RollbacksFollow(o: Options, steps: seq<QueueStep>, k: nat, b: nat) returns (m: nat)
    requires k <= b && k <= |steps| && NoRollbackBetween(steps, k, b)
    ensures NextAll(o, steps, Undoing(b), Rollbacks(steps, Iota(k))) == Undoing(m)
    ensures m <= b && NoRollbackBetween(steps, 0, m)
    decreases k
  {
    hide Next, NextAll, NoRollbackBetween, Rollbacks, Iota;
    if k == 0 {
      m := b;
      UndoingNothing(o, steps, b);
    } else {
      RollbacksOfFirst(steps, k);
      if steps[k - 1].rollback.Some? {
        RollbackFollows(o, steps, k, b);
        NoRollbackStarts(steps, k - 1, b);
        m := RollbacksFollow(o, steps, k - 1, k - 1);
        NextAllFirst(o, steps, Undoing(b), RolledBack(k - 1), Rollbacks(steps, Iota(k - 1)));
      } else {
        NoRollbackStarts(steps, k, b);
        m := RollbacksFollow(o, steps, k - 1, b);
      }
    }
  }

  /** A step that can fail now is undone completely. */
  lemma FailFollows(o: Options, q: Queue, i: nat, hash: Option<string>, from: nat)
    requires |q.steps| == |q.states| && i < |q.steps| && from <= |q.trace|
    requires Next(o, q.steps, StageOf(o, q.steps, q.trace, from), Emit(i, FailedEvent, hash, false)) == Undoing(i)
    ensures Stopped(o, q.steps, Fail(q, i, hash, Iota(i)).q.trace, from)
  {
    var failed := q.trace + [Emit(i, FailedEvent, hash, false)];
    StageAfter(o, q.steps, q.trace, from, Emit(i, FailedEvent, hash, false));
    var m := RollbacksFollow(o, q.steps, i, i);
    StageAfterAll(o, q.steps, failed, from, Rollbacks(q.steps, Iota(i)));
  }

  /** A failed run: every rollback that was owed has been called. */
  ghost predicate Stopped(o: Options, steps: seq<QueueStep>, trace: seq<Action>, from: nat) {
    var st := StageOf(o, steps, trace, from);
    st.Undoing? && NoRollbackBetween(steps, 0, st.below)
  }

  /** The end of step `i`: through, or failed and undone. */
  ghost predicate StepFollowed(o: Options, steps: seq<QueueStep>, r: End, i: nat, from: nat) {
    && from <= |r.q.trace|
    && (r.ok ==> r.completed == Iota(i + 1) && StageOf(o, steps, r.q.trace, from) == AtRest(i + 1))
    && (!r.ok ==> Stopped(o, steps, r.q.trace, from))
  }

  /** Saving a snapshot the protocol allows does not move it. */
  lemma MarkFollows(cfg: Config, o: Options, q: Queue, i: nat, status: Status, hash: Option<string>,
                    fee: Option<string>, from: nat)
    requires i < |q.steps| == |q.states| && from <= |q.trace|
    requires var st := StageOf(o, q.steps, q.trace, from);
             Next(o, q.steps, st, Save(Mark(cfg, q, i, status, hash, fee).states)) == st
    ensures StageOf(o, q.steps, Mark(cfg, q, i, status, hash, fee).trace, from) == StageOf(o, q.steps, q.trace, from)
    ensures |Mark(cfg, q, i, status, hash, fee).trace| >= |q.trace|
  {
    StageAfter(o, q.steps, q.trace, from, Save(Mark(cfg, q, i, status, hash, fee).states));
  }

  lemma ConfirmFollows(cfg: Config, o: Options, q: Queue, i: nat, env: Env, hash: string, fee: Option<string>,
                       from: nat)
    requires |q.steps| == |q.states| && i < |q.steps| && from <= |q.trace|
    requires StageOf(o, q.steps, q.trace, from) == Accepted(i, hash)
    ensures StepFollowed(o, q.steps, Confirm(cfg, q, i, env, hash, fee, Iota(i)), i, from)
  {
    var a := Emit(i, ConfirmedEvent, Some(hash), false);
    StageAfter(o, q.steps, q.trace, from, a);
    if PollSucceeds(env.polls, cfg.maxPollAttempts) {
      MarkFollows(cfg, o, Log(q, a), i, Confirmed, Some(hash), fee, from);
    } else {
      FailFollows(o, q, i, Some(hash), from);
    }
  }

  lemma SubmitFollows(cfg: Config, o: Options, q: Queue, i: nat, env: Env, fee: Option<string>, from: nat)
    requires |q.steps| == |q.states| && i < |q.steps| && from <= |q.trace|
    requires Next(o, q.steps, StageOf(o, q.steps, q.trace, from), Sent(i)) == InFlight(i)
    ensures StepFollowed(o, q.steps, Submit(cfg, q, i, env, fee, Iota(i)), i, from)
  {
    var q1 := Log(q, Sent(i));
    StageAfter(o, q.steps, q.trace, from, Sent(i));
    match env.send
    case SendThrows => FailFollows(o, q1, i, None, from);
    case SendReturns(hash) =>
      var a := Emit(i, SubmittedEvent, Some(hash), false);
      StageAfter(o, q.steps, q1.trace, from, a);
      var q2 := Mark(cfg, Log(q1, a), i, Submitted, Some(hash), fee);
      MarkFollows(cfg, o, Log(q1, a), i, Submitted, Some(hash), fee, from);
      ConfirmFollows(cfg, o, q2, i, env, hash, fee, from);
  }

  lemma SimulatedFollows(cfg: Config, o: Options, q: Queue, i: nat, env: Env, fee: string, from: nat)
    requires |q.steps| == |q.states| && i < |q.steps| && from <= |q.trace|
    requires StageOf(o, q.steps, q.trace, from) == Started(i)
    ensures var q2 := Log(Mark(cfg, q, i, Simulated, None, Some(fee)), Emit(i, SimulatedEvent, None, false));
            StepFollowed(o, q.steps, SubmitUnlessDry(cfg, o, q2, i, env, Some(fee), Iota(i)), i, from)
  {
    var q1 := Mark(cfg, q, i, Simulated, None, Some(fee));
    MarkFollows(cfg, o, q, i, Simulated, None, Some(fee), from);
    StageAfter(o, q.steps, q1.trace, from, Emit(i, SimulatedEvent, None, false));
    var q2 := Log(q1, Emit(i, SimulatedEvent, None, false));
    if o.dryRun {
      StageAfter(o, q.steps, q2.trace, from, Emit(i, ConfirmedEvent, None, true));
    } else {
      SubmitFollows(cfg, o, q2, i, env, Some(fee), from);
    }
  }

  lemma ExecuteFollows(cfg: Config, o: Options, q: Queue, i: nat, env: Env, from: nat)
    requires |q.steps| == |q.states| && i < |q.steps| && from <= |q.trace|
    requires StageOf(o, q.steps, q.trace, from) == Started(i)
    ensures StepFollowed(o, q.steps, Execute(cfg, o, q, i, env, Iota(i)), i, from)
  {
    FailFollows(o, q, i, None, from);
    if o.skipSimulation && !o.dryRun {
      SubmitFollows(cfg, o, q, i, env, None, from);
    } else if env.sim.SimSucceeds? {
      SimulatedFollows(cfg, o, q, i, env, env.sim.fee, from);
    }
  }

  /** The end of a run: every step through, or a failed step and every rollback owed called. */
  ghost predicate RunFollowed(o: Options, steps: seq<QueueStep>, r: End, from: nat) {
    && (r.ok ==> StageOf(o, steps, r.q.trace, from) == AtRest(|steps|))
    && (!r.ok ==> Stopped(o, steps, r.q.trace, from))
  }

  lemma StartFollows(o: Options, q: Queue, i: nat, from: nat)
    requires i < |q.steps| && from <= |q.trace| && StageOf(o, q.steps, q.trace, from) == AtRest(i)
    ensures StageOf(o, q.steps, Log(q, Emit(i, PendingEvent, None, false)).trace, from) == Started(i)
  {
    StageAfter(o, q.steps, q.trace, from, Emit(i, PendingEvent, None, false));
  }

  /** From step `i` on, a run follows the protocol to the last step or to a complete undo. */
  lemma {:induction false} RunFollows(cfg: Config, o: Options, q: Queue, i: nat, envs: seq<Env>, from: nat, r: End)
    requires |q.steps| == |q.states| && i <= |q.steps| <= |envs| && from <= |q.trace|
    requires StageOf(o, q.steps, q.trace, from) == AtRest(i)
    requires r == RunFrom(cfg, o, q, i, envs, Iota(i))
    ensures RunFollowed(o, q.steps, r, from)
    decreases |q.steps| - i
  {
    if i < |q.steps| {
      var started := Log(q, Emit(i, PendingEvent, None, false));
      StartFollows(o, q, i, from);
      var first := Execute(cfg, o, started, i, envs[i], Iota(i));
      assert r == if first.ok then RunFrom(cfg, o, first.q, i + 1, envs, first.completed) else first;
      ExecuteFollows(cfg, o, started, i, envs[i], from);
      if first.ok {
        RunFollows(cfg, o, first.q, i + 1, envs, from, r);
      }
    }
  }

  /**
   A run from the start: the whole trace follows the protocol. It ends with every
   step through, or with a failed step and every rollback owed called.
   */
  lemma RunFollowsProtocol(cfg: Config, o: Options, q: Queue, envs: seq<Env>)
    requires |q.steps| == |q.states| && |q.steps| <= |envs|
    ensures RunFollowed(o, q.steps, RunFrom(cfg, o, q, 0, envs, []), |q.trace|)
  {
    RunFollows(cfg, o, q, 0, envs, |q.trace|, RunFrom(cfg, o, q, 0, envs, []));
  }

  // ---------------------------------------------------------------------
  // Consequences of following the protocol
  // ---------------------------------------------------------------------

  /** The steps sent from position `from` on, in order. */
  function Sends(trace: seq<Action>, from: nat): seq<nat>
    decreases |trace|
  {
    if |trace| <= from then []
    else
      var last := trace[|trace| - 1];
      Sends(trace[..|trace| - 1], from) + (if last.Sent? then [last.index] else [])
  }

  /** The hashes of the real confirmations from position `from` on, in order. */
  function ConfirmedHashes(trace: seq<Action>, from: nat): seq<string>
    decreases |trace|
  {
    if |trace| <= from then []
    else
      var last := trace[|trace| - 1];
      ConfirmedHashes(trace[..|trace| - 1], from)
      + (if last.Emit? && last.status.ConfirmedEvent? && last.hash.Some? then [last.hash.value] else [])
  }

  /** How many steps the protocol has let out when it is in a stage. */
  ghost predicate SendsFit(st: Stage, dryRun: bool, sends: seq<nat>) {
    if dryRun then sends == []
    else
      match st
      case AtRest(n) => sends == Iota(n)
      case Started(n) => sends == Iota(n)
      case Checked(n) => sends == Iota(n)
      case InFlight(n) => sends == Iota(n + 1)
      case Accepted(n, _) => sends == Iota(n + 1)
      case Undoing(_) => exists m :: sends == Iota(m)
      case Broken => true
  }

  lemma SendsFitNext(o: Options, steps: seq<QueueStep>, st: Stage, a: Action, sends: seq<nat>)
    requires SendsFit(st, o.dryRun, sends) && !Next(o, steps, st, a).Broken?
    ensures SendsFit(Next(o, steps, st, a), o.dryRun, sends + (if a.Sent? then [a.index] else []))
  {
    assert !a.Sent? ==> sends + [] == sends;
    if st.InFlight? || st.Accepted? {
      assert sends == Iota(st.i + 1) || o.dryRun;
    }
  }

  /** Any trace that keeps to the protocol sends steps 0, 1, 2, ... once each, and a dry run sends nothing. */
  lemma {:induction false} ProtocolSendsOnce(o: Options, steps: seq<QueueStep>, trace: seq<Action>, from: nat)
    requires !StageOf(o, steps, trace, from).Broken?
    ensures SendsFit(StageOf(o, steps, trace, from), o.dryRun, Sends(trace, from))
    decreases |trace|
  {
    if |trace| > from {
      ProtocolSendsOnce(o, steps, trace[..|trace| - 1], from);
      var before := trace[..|trace| - 1];
      SendsFitNext(o, steps, StageOf(o, steps, before, from), trace[|trace| - 1], Sends(before, from));
    }
  }

  lemma HashesAfter(trace: seq<Action>, from: nat, a: Action)
    requires from <= |trace|
    ensures ConfirmedHashes(trace + [a], from)
         == ConfirmedHashes(trace, from)
            + (if a.Emit? && a.status.ConfirmedEvent? && a.hash.Some? then [a.hash.value] else [])
  {
    assert (trace + [a])[..|trace|] == trace;
  }

  lemma {:induction false} RollbacksConfirmNothing(trace: seq<Action>, from: nat, steps: seq<QueueStep>,
                                                   completed: seq<nat>)
    requires from <= |trace| && forall k :: 0 <= k < |completed| ==> completed[k] < |steps|
    ensures ConfirmedHashes(trace + Rollbacks(steps, completed), from) == ConfirmedHashes(trace, from)
    decreases |completed|
  {
    if completed == [] {
      assert trace + [] == trace;
    } else {
      var last, rest := completed[|completed| - 1], Rollbacks(steps, completed[..|completed| - 1]);
      if steps[last].rollback.Some? {
        HashesAfter(trace, from, RolledBack(last));
        assert trace + ([RolledBack(last)] + rest) == (trace + [RolledBack(last)]) + rest;
        RollbacksConfirmNothing(trace + [RolledBack(last)], from, steps, completed[..|completed| - 1]);
      } else {
        assert [] + rest == rest;
        RollbacksConfirmNothing(trace, from, steps, completed[..|completed| - 1]);
      }
    }
  }

  /** The hashes a queue reports are those it has announced as confirmed. */
  ghost predicate HashesAgree(q: Queue, from: nat, earlier: seq<string>) {
    from <= |q.trace| && q.submittedHashes == earlier + ConfirmedHashes(q.trace, from)
  }

  lemma QuietActionAgrees(q: Queue, from: nat, earlier: seq<string>, a: Action)
    requires HashesAgree(q, from, earlier) && (a.Emit? && a.status.ConfirmedEvent? ==> a.hash.None?)
    ensures HashesAgree(Log(q, a), from, earlier)
  {
    HashesAfter(q.trace, from, a);
  }

  lemma MarkAgrees(cfg: Config, q: Queue, from: nat, earlier: seq<string>, i: nat, status: Status,
                  hash: Option<string>, fee: Option<string>)
    requires HashesAgree(q, from, earlier) && i < |q.steps| == |q.states|
    ensures HashesAgree(Mark(cfg, q, i, status, hash, fee), from, earlier)
  {
    QuietActionAgrees(q, from, earlier, Save(Mark(cfg, q, i, status, hash, fee).states));
  }

  lemma FailAgrees(q: Queue, from: nat, earlier: seq<string>, i: nat, hash: Option<string>, completed: seq<nat>)
    requires HashesAgree(q, from, earlier) && Ready(q, completed)
    ensures HashesAgree(Fail(q, i, hash, completed).q, from, earlier)
  {
    QuietActionAgrees(q, from, earlier, Emit(i, FailedEvent, hash, false));
    RollbacksConfirmNothing(q.trace + [Emit(i, FailedEvent, hash, false)], from, q.steps, completed);
  }

  lemma ConfirmAgrees(cfg: Config, q: Queue, i: nat, env: Env, hash: string, fee: Option<string>, completed: seq<nat>,
                      from: nat, earlier: seq<string>)
    requires HashesAgree(q, from, earlier) && Ready(q, completed) && i < |q.steps|
    ensures HashesAgree(Confirm(cfg, q, i, env, hash, fee, completed).q, from, earlier)
  {
    FailAgrees(q, from, earlier, i, Some(hash), completed);
    var a := Emit(i, ConfirmedEvent, Some(hash), false);
    HashesAfter(q.trace, from, a);
    var q1 := Log(q, a).(submittedHashes := q.submittedHashes + [hash]);
    MarkAgrees(cfg, q1, from, earlier, i, Confirmed, Some(hash), fee);
  }

  lemma SubmitAgrees(cfg: Config, q: Queue, i: nat, env: Env, fee: Option<string>, completed: seq<nat>, from: nat,
                     earlier: seq<string>)
    requires HashesAgree(q, from, earlier) && Ready(q, completed) && i < |q.steps|
    ensures HashesAgree(Submit(cfg, q, i, env, fee, completed).q, from, earlier)
  {
    var q1 := Log(q, Sent(i));
    QuietActionAgrees(q, from, earlier, Sent(i));
    match env.send
    case SendThrows => FailAgrees(q1, from, earlier, i, None, completed);
    case SendReturns(hash) =>
      var a := Emit(i, SubmittedEvent, Some(hash), false);
      QuietActionAgrees(q1, from, earlier, a);
      MarkAgrees(cfg, Log(q1, a), from, earlier, i, Submitted, Some(hash), fee);
      var q2 := Mark(cfg, Log(q1, a), i, Submitted, Some(hash), fee);
      ConfirmAgrees(cfg, q2, i, env, hash, fee, completed, from, earlier);
  }

  lemma ExecuteAgrees(cfg: Config, o: Options, q: Queue, i: nat, env: Env, completed: seq<nat>, from: nat,
                      earlier: seq<string>)
    requires HashesAgree(q, from, earlier) && Ready(q, completed) && i < |q.steps|
    ensures HashesAgree(Execute(cfg, o, q, i, env, completed).q, from, earlier)
  {
    FailAgrees(q, from, earlier, i, None, completed);
    SubmitAgrees(cfg, q, i, env, None, completed, from, earlier);
    if env.sim.SimSucceeds? {
      var fee := Some(env.sim.fee);
      MarkAgrees(cfg, q, from, earlier, i, Simulated, None, fee);
      var q1 := Mark(cfg, q, i, Simulated, None, fee);
      QuietActionAgrees(q1, from, earlier, Emit(i, SimulatedEvent, None, false));
      var q2 := Log(q1, Emit(i, SimulatedEvent, None, false));
      QuietActionAgrees(q2, from, earlier, Emit(i, ConfirmedEvent, None, true));
      SubmitAgrees(cfg, q2, i, env, fee, completed, from, earlier);
    }
  }

  lemma {:induction false} RunAgrees(cfg: Config, o: Options, q: Queue, i: nat, envs: seq<Env>, completed: seq<nat>,
                                     from: nat, earlier: seq<string>)
    requires HashesAgree(q, from, earlier) && Ready(q, completed) && i <= |q.steps| <= |envs|
    ensures HashesAgree(RunFrom(cfg, o, q, i, envs, completed).q, from, earlier)
    decreases |q.steps| - i
  {
    if i < |q.steps| {
      var started := Log(q, Emit(i, PendingEvent, None, false));
      QuietActionAgrees(q, from, earlier, Emit(i, PendingEvent, None, false));
      ExecuteAgrees(cfg, o, started, i, envs[i], completed, from, earlier);
      var r := Execute(cfg, o, started, i, envs[i], completed);
      if r.ok {
        RunAgrees(cfg, o, r.q, i + 1, envs, r.completed, from, earlier);
      }
    }
  }

  /**
   A run reports exactly the hashes it has announced as confirmed, in order, and none of an earlier run.
   It sends steps 0, 1, 2, ... once each, a dry run none. A real or dry run that got through has cleared
   the steps and, as its last action, the storage; one that did not has cleared neither.
   */
  lemma RunReportsConfirmedHashes(cfg: Config, o: Options, q: Queue, envs: seq<Env>)
    requires |q.steps| == |q.states| && |q.steps| <= |envs|
    ensures var (r, ok) := AfterRun(cfg, o, q, envs);
            && r.submittedHashes == ConfirmedHashes(r.trace, |q.trace|)
            && (exists m :: Sends(r.trace, |q.trace|) == Iota(m))
            && (o.dryRun ==> Sends(r.trace, |q.trace|) == [])
            && |q.trace| <= |r.trace|
            && (ok ==> r.steps == [] && r.states == [])
            && (ok && cfg.persists ==> |q.trace| < |r.trace| && r.trace[|r.trace| - 1] == Clear)
            && (forall k :: |q.trace| <= k < |r.trace| && r.trace[k] == Clear ==>
                  ok && cfg.persists && k == |r.trace| - 1)
  {
    var q0 := q.(submittedHashes := []);
    RunAgrees(cfg, o, q0, 0, envs, [], |q.trace|, []);
    RunFollowsProtocol(cfg, o, q0, envs);
    var r := RunFrom(cfg, o, q0, 0, envs, []);
    ProtocolSendsOnce(o, q.steps, r.q.trace, |q.trace|);
    if o.dryRun {
      assert Sends(r.q.trace, |q.trace|) == Iota(0);
    }
    TraceKeepsPrefix(cfg, o, q0, 0, envs, [], r);
    ProtocolClearsNothing(o, q.steps, r.q.trace, |q.trace|);
    HashesAfter(r.q.trace, |q.trace|, Clear);
    SendsAfterQuiet(r.q.trace, |q.trace|, Clear);
  }

  lemma {:induction false} ProtocolClearsNothing(o: Options, steps: seq<QueueStep>, trace: seq<Action>, from: nat)
    requires !StageOf(o, steps, trace, from).Broken?
    ensures forall k :: from <= k < |trace| ==> trace[k] != Clear
    decreases |trace|
  {
    if |trace| > from {
      ProtocolClearsNothing(o, steps, trace[..|trace| - 1], from);
    }
  }

  // ---------------------------------------------------------------------
  // A trace only grows
  // ---------------------------------------------------------------------

  ghost predicate Extends(longer: seq<Action>, shorter: seq<Action>) {
    |shorter| <= |longer| && longer[..|shorter|] == shorter
  }

  lemma ExtendsChains(c: seq<Action>, b: seq<Action>, a: seq<Action>)
    requires Extends(c, b) && Extends(b, a)
    ensures Extends(c, a)
  {
    assert c[..|b|][..|a|] == c[..|a|];
  }

  lemma SubmitKeepsPrefix(cfg: Config, q: Queue, i: nat, env: Env, fee: Option<string>, completed: seq<nat>, r: End)
    requires Ready(q, completed) && i < |q.steps| && r == Submit(cfg, q, i, env, fee, completed)
    ensures Extends(r.q.trace, q.trace)
  {
    hide PollSucceeds, Rollbacks;
  }

  lemma ExecuteKeepsPrefix(cfg: Config, o: Options, q: Queue, i: nat, env: Env, completed: seq<nat>, r: End)
    requires Ready(q, completed) && i < |q.steps| && r == Execute(cfg, o, q, i, env, completed)
    ensures Extends(r.q.trace, q.trace)
  {
    hide Submit, Rollbacks;
    SubmitKeepsPrefix(cfg, q, i, env, None, completed, Submit(cfg, q, i, env, None, completed));
    if env.sim.SimSucceeds? {
      var fee := Some(env.sim.fee);
      var q1 := Log(Mark(cfg, q, i, Simulated, None, fee), Emit(i, SimulatedEvent, None, false));
      SubmitKeepsPrefix(cfg, q1, i, env, fee, completed, Submit(cfg, q1, i, env, fee, completed));
    }
  }

  lemma {:induction false} TraceKeepsPrefix(cfg: Config, o: Options, q: Queue, i: nat, envs: seq<Env>,
                                            completed: seq<nat>, r: End)
    requires Ready(q, completed) && i <= |q.steps| <= |envs| && r == RunFrom(cfg, o, q, i, envs, completed)
    ensures Extends(r.q.trace, q.trace)
    decreases |q.steps| - i
  {
    hide Execute;
    if i < |q.steps| {
      var started := Log(q, Emit(i, PendingEvent, None, false));
      var first := Execute(cfg, o, started, i, envs[i], completed);
      assert r == if first.ok then RunFrom(cfg, o, first.q, i + 1, envs, first.completed) else first;
      ExecuteKeepsPrefix(cfg, o, started, i, envs[i], completed, first);
      assert started.trace[..|q.trace|] == q.trace;
      ExtendsChains(first.q.trace, started.trace, q.trace);
      if first.ok {
        TraceKeepsPrefix(cfg, o, first.q, i + 1, envs, first.completed, r);
        ExtendsChains(r.q.trace, first.q.trace, q.trace);
      }
    }
  }

  // ---------------------------------------------------------------------
  // Exactly which steps a run sends
  // ---------------------------------------------------------------------

  lemma SendsAfter(trace: seq<Action>, from: nat, a: Action)
    requires from <= |trace|
    ensures Sends(trace + [a], from) == Sends(trace, from) + (if a.Sent? then [a.index] else [])
  {
    assert (trace + [a])[..|trace|] == trace;
  }

  lemma SendsAfterQuiet(trace: seq<Action>, from: nat, a: Action)
    requires from <= |trace| && !a.Sent?
    ensures Sends(trace + [a], from) == Sends(trace, from)
  {
    SendsAfter(trace, from, a);
    assert Sends(trace, from) + [] == Sends(trace, from);
  }

  lemma {:induction false} RollbacksSendNothing(trace: seq<Action>, from: nat, steps: seq<QueueStep>,
                                                completed: seq<nat>)
    requires from <= |trace| && forall k :: 0 <= k < |completed| ==> completed[k] < |steps|
    ensures Sends(trace + Rollbacks(steps, completed), from) == Sends(trace, from)
    decreases |completed|
  {
    if completed == [] {
      assert trace + [] == trace;
    } else {
      var last, rest := completed[|completed| - 1], Rollbacks(steps, completed[..|completed| - 1]);
      if steps[last].rollback.Some? {
        SendsAfterQuiet(trace, from, RolledBack(last));
        assert trace + ([RolledBack(last)] + rest) == (trace + [RolledBack(last)]) + rest;
        RollbacksSendNothing(trace + [RolledBack(last)], from, steps, completed[..|completed| - 1]);
      } else {
        assert [] + rest == rest;
        RollbacksSendNothing(trace, from, steps, completed[..|completed| - 1]);
      }
    }
  }

  lemma MarkSendsNothing(cfg: Config, q: Queue, i: nat, status: Status, hash: Option<string>, fee: Option<string>,
                         from: nat)
    requires from <= |q.trace| && i < |q.steps| == |q.states|
    ensures Sends(Mark(cfg, q, i, status, hash, fee).trace, from) == Sends(q.trace, from)
    ensures |Mark(cfg, q, i, status, hash, fee).trace| >= |q.trace|
  {
    var s := StepState(q.steps[i].xdr, status, OrElse(hash, q.states[i].hash), OrElse(fee, q.states[i].fee));
    SendsAfterQuiet(q.trace, from, Save(q.states[i := s]));
  }

  lemma FailSendsNothing(q: Queue, i: nat, hash: Option<string>, completed: seq<nat>, from: nat)
    requires Ready(q, completed) && from <= |q.trace|
    ensures Sends(Fail(q, i, hash, completed).q.trace, from) == Sends(q.trace, from)
  {
    SendsAfterQuiet(q.trace, from, Emit(i, FailedEvent, hash, false));
    RollbacksSendNothing(q.trace + [Emit(i, FailedEvent, hash, false)], from, q.steps, completed);
  }

  lemma SubmitSends(cfg: Config, q: Queue, i: nat, env: Env, fee: Option<string>, completed: seq<nat>, from: nat,
                    r: End)
    requires Ready(q, completed) && i < |q.steps| && from <= |q.trace|
    requires r == Submit(cfg, q, i, env, fee, completed)
    ensures Sends(r.q.trace, from) == Sends(q.trace, from) + [i]
    ensures r.ok <==> env.send.SendReturns? && PollSucceeds(env.polls, cfg.maxPollAttempts)
  {
    var q1 := Log(q, Sent(i));
    SendsAfter(q.trace, from, Sent(i));
    match env.send
    case SendThrows => FailSendsNothing(q1, i, None, completed, from);
    case SendReturns(hash) =>
      var a, b := Emit(i, SubmittedEvent, Some(hash), false), Emit(i, ConfirmedEvent, Some(hash), false);
      SendsAfterQuiet(q1.trace, from, a);
      MarkSendsNothing(cfg, Log(q1, a), i, Submitted, Some(hash), fee, from);
      var q3 := Mark(cfg, Log(q1, a), i, Submitted, Some(hash), fee);
      if PollSucceeds(env.polls, cfg.maxPollAttempts) {
        SendsAfterQuiet(q3.trace, from, b);
        MarkSendsNothing(cfg, Log(q3, b), i, Confirmed, Some(hash), fee, from);
      } else {
        FailSendsNothing(q3, i, Some(hash), completed, from);
      }
  }

  /** A step is sent exactly when it reaches the send, and gets through exactly when it completes. */
  lemma ExecuteSends(cfg: Config, o: Options, q: Queue, i: nat, env: Env, completed: seq<nat>, from: nat, r: End)
    requires Ready(q, completed) && i < |q.steps| && from <= |q.trace|
    requires r == Execute(cfg, o, q, i, env, completed)
    ensures Sends(r.q.trace, from) == Sends(q.trace, from) + (if ReachesSend(cfg, o, env) then [i] else [])
    ensures r.ok <==> Completes(cfg, o, env)
  {
    assert Sends(q.trace, from) + [] == Sends(q.trace, from);
    if (cfg.guarded && !o.dryRun && !env.guardPasses) || !env.signs {
      FailSendsNothing(q, i, None, completed, from);
    } else if o.skipSimulation && !o.dryRun {
      SubmitSends(cfg, q, i, env, None, completed, from, r);
    } else if !env.sim.SimSucceeds? {
      FailSendsNothing(q, i, None, completed, from);
    } else {
      var fee, a := Some(env.sim.fee), Emit(i, SimulatedEvent, None, false);
      MarkSendsNothing(cfg, q, i, Simulated, None, fee, from);
      var q1 := Log(Mark(cfg, q, i, Simulated, None, fee), a);
      SendsAfterQuiet(Mark(cfg, q, i, Simulated, None, fee).trace, from, a);
      if o.dryRun {
        SendsAfterQuiet(q1.trace, from, Emit(i, ConfirmedEvent, None, true));
      } else {
        SubmitSends(cfg, q1, i, env, fee, completed, from, r);
      }
    }
  }

  predicate AllComplete(cfg: Config, o: Options, envs: seq<Env>, n: nat)
    requires n <= |envs|
  {
    forall i :: 0 <= i < n ==> Completes(cfg, o, envs[i])
  }

  lemma {:induction false} RunSendsFrom(cfg: Config, o: Options, q: Queue, i: nat, envs: seq<Env>, completed: seq<nat>,
                                        from: nat, r: End, j: nat)
    requires Ready(q, completed) && i <= |q.steps| <= |envs| && from <= |q.trace|
    requires AllComplete(cfg, o, envs, i) && r == RunFrom(cfg, o, q, i, envs, completed)
    ensures j in Sends(r.q.trace, from) <==>
            j in Sends(q.trace, from) || (i <= j < |q.steps| && SendsStep(cfg, o, envs, j))
    ensures r.ok <==> AllComplete(cfg, o, envs, |q.steps|)
    decreases |q.steps| - i
  {
    hide Execute, Completes, ReachesSend;
    if i < |q.steps| {
      var a := Emit(i, PendingEvent, None, false);
      var first := Execute(cfg, o, Log(q, a), i, envs[i], completed);
      assert r == if first.ok then RunFrom(cfg, o, first.q, i + 1, envs, first.completed) else first;
      SendsAfterQuiet(q.trace, from, a);
      ExecuteSends(cfg, o, Log(q, a), i, envs[i], completed, from, first);
      ExecuteKeepsPrefix(cfg, o, Log(q, a), i, envs[i], completed, first);
      if first.ok {
        RunSendsFrom(cfg, o, first.q, i + 1, envs, first.completed, from, r, j);
      }
    }
  }

  /** Which steps a run sends, and when it gets through. */
  lemma RunSendsExactly(cfg: Config, o: Options, q: Queue, envs: seq<Env>, j: nat)
    requires |q.steps| == |q.states| && |q.steps| <= |envs|
    ensures var r := RunFrom(cfg, o, q, 0, envs, []);
            && (j in Sends(r.q.trace, |q.trace|) <==> j < |q.steps| && SendsStep(cfg, o, envs, j))
            && (r.ok <==> AllComplete(cfg, o, envs, |q.steps|))
  {
    RunSendsFrom(cfg, o, q, 0, envs, [], |q.trace|, RunFrom(cfg, o, q, 0, envs, []), j);
  }

  /**
   A step is only sent in a real run, past its sequence guard, signed, and simulated unless that is
   skipped; and only after every earlier step was sent and polled to a success.
   */
  lemma SentOnlyWhenCleared(cfg: Config, o: Options, q: Queue, envs: seq<Env>, j: nat)
    requires |q.steps| == |q.states| && |q.steps| <= |envs|
    requires j in Sends(RunFrom(cfg, o, q, 0, envs, []).q.trace, |q.trace|)
    ensures !o.dryRun && j < |q.steps|
    ensures (cfg.guarded ==> envs[j].guardPasses) && envs[j].signs
    ensures o.skipSimulation || envs[j].sim.SimSucceeds?
    ensures forall i :: 0 <= i < j ==>
              && envs[i].send.SendReturns?
              && exists k :: 0 <= k < cfg.maxPollAttempts && k < |envs[i].polls| && FirstSuccess(envs[i].polls, k)
  {
    RunSendsExactly(cfg, o, q, envs, j);
    forall i | 0 <= i < j
      ensures exists k :: 0 <= k < cfg.maxPollAttempts && k < |envs[i].polls| && FirstSuccess(envs[i].polls, k)
    {
      assert Completes(cfg, o, envs[i]);
      PollSucceedsExactly(envs[i].polls, cfg.maxPollAttempts);
    }
  }

  /**
   What a step that gets through leaves in its state: confirmed under the hash the network answered, a dry
   run only simulated; with the fee of its simulation if it had one. No other state changes.
   */
  lemma StateExactly(cfg: Config, o: Options, q: Queue, i: nat, env: Env, completed: seq<nat>)
    requires Ready(q, completed) && i < |q.steps|
    ensures var r := Execute(cfg, o, q, i, env, completed);
            && |r.q.states| == |q.states|
            && (forall j :: 0 <= j < |q.states| && j != i ==> r.q.states[j] == q.states[j])
            && (r.ok ==>
                  && r.q.states[i].xdr == q.steps[i].xdr
                  && r.q.states[i].status == (if o.dryRun then Simulated else Confirmed)
                  && r.q.states[i].hash == (if o.dryRun then q.states[i].hash else Some(env.send.hash))
                  && r.q.states[i].fee == if o.skipSimulation && !o.dryRun then q.states[i].fee else Some(env.sim.fee))
  {
    hide Rollbacks, PollSucceeds;
  }
}
