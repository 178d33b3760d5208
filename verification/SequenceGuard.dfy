/**
 The account-sequence guard of the transaction queue: inside the lock of its
 account, a step reads the ledger sequence, refuses a transaction that does not
 carry the next one, and sends the rest.

 One `Account` is one lock key. A transaction reaches the ledger only with the
 sequence after the ledger's: while its step holds the lock (`Land`), after the step
 gave it up (`LandLate`), or from somebody who does not use the lock (`OtherLands`).
 A read of the account may lag behind the ledger.
 */
module SequenceGuard {
  import opened Outcomes
  import opened SequenceLock

  datatype Work =
    | Idle
    | Read(sequence: int)
    | Refused
    | Approved
    | Sent
    | Landed

  /** The first send of a step, and the ledger sequence at that moment. */
  datatype Send = Send(call: nat, sequence: int, ledger: int)

  datatype Account = Account(
    lock: Lock,
    ledger: int,
    transactions: seq<int>,
    work: seq<Work>,
    sends: seq<Send>,
    landed: seq<int>)

  datatype Action =
    | Request(sequence: int)
    | Start(call: nat)
    | ReadAccount(call: nat, sequence: int)
    | CheckSequence(call: nat)
    | FirstSend(call: nat)
    | Land(call: nat)
    | Finish(call: nat)
    | LandLate(call: nat)
    | OtherLands

  function Fresh(ledger: int): Account {
    Account(UNUSED, ledger, [], [], [], [])
  }

  ghost predicate WellFormed(a: Account) {
    |a.transactions| == |a.work| == |a.lock.calls|
  }

  predicate Holds(a: Account, i: nat) {
    i < |a.lock.calls| && i < |a.work| && i < |a.transactions| && a.lock.calls[i].phase.Inside?
  }

  /**
   Actions allowed; retries of a send leave no trace here. The ledger takes a transaction only with
   the next sequence: while its step holds the lock, or late, after the step gave it up.
   */
  predicate Allowed(a: Account, act: Action) {
    match act
    case Request(_) => true
    case Start(i) => Enabled(a.lock, Enter(i))
    case ReadAccount(i, sequence) => Holds(a, i) && a.work[i].Idle? && sequence <= a.ledger
    case CheckSequence(i) => Holds(a, i) && a.work[i].Read?
    case FirstSend(i) => Holds(a, i) && a.work[i].Approved?
    case Land(i) => Holds(a, i) && a.work[i].Sent? && a.transactions[i] == a.ledger + 1
    case Finish(i) => Holds(a, i)
    case LandLate(i) =>
      && i < |a.lock.calls| && i < |a.work| && i < |a.transactions|
      && a.lock.calls[i].phase.Done? && a.work[i].Sent? && a.transactions[i] == a.ledger + 1
    case OtherLands => true
  }

  function Apply(a: Account, act: Action): Account {
    match act
    case Request(sequence) =>
      a.(lock := After(a.lock, Arrive), transactions := a.transactions + [sequence], work := a.work + [Idle])
    case Start(i) => if Enabled(a.lock, Enter(i)) then a.(lock := After(a.lock, Enter(i))) else a
    case ReadAccount(i, sequence) => if Holds(a, i) then a.(work := a.work[i := Read(sequence)]) else a
    case CheckSequence(i) =>
      if Holds(a, i) && a.work[i].Read?
      then a.(work := a.work[i := if a.transactions[i] != a.work[i].sequence + 1 then Refused else Approved])
      else a
    case FirstSend(i) =>
      if Holds(a, i)
      then a.(work := a.work[i := Sent], sends := a.sends + [Send(i, a.transactions[i], a.ledger)])
      else a
    case Land(i) =>
      if Holds(a, i)
      then a.(work := a.work[i := Landed], ledger := a.transactions[i], landed := a.landed + [a.transactions[i]])
      else a
    case Finish(i) => if Holds(a, i) then a.(lock := After(a.lock, Leave(i))) else a
    case LandLate(i) =>
      if i < |a.transactions| && i < |a.work|
      then a.(work := a.work[i := Landed], ledger := a.transactions[i], landed := a.landed + [a.transactions[i]])
      else a
    case OtherLands => a.(ledger := a.ledger + 1, landed := a.landed + [a.ledger + 1])
  }

  function Run(ledger: int, acts: seq<Action>): Account
    decreases |acts|
  {
    if acts == [] then Fresh(ledger) else Apply(Run(ledger, acts[..|acts| - 1]), acts[|acts| - 1])
  }

  ghost predicate AllAllowed(ledger: int, acts: seq<Action>)
    decreases |acts|
  {
    acts != [] ==>
      && AllAllowed(ledger, acts[..|acts| - 1])
      && Allowed(Run(ledger, acts[..|acts| - 1]), acts[|acts| - 1])
  }

  // ---------------------------------------------------------------------
  // The guard
  // ---------------------------------------------------------------------

  /** The ledger moves, and no holder of the lock moved it. */
  predicate LandsOutside(act: Action) {
    act.LandLate? || act.OtherLands?
  }

  predicate Reads(act: Action, i: nat) {
    act.ReadAccount? && act.call == i
  }

  /** Landings outside the lock since call `i` last read the account. */
  function OutsideSinceRead(acts: seq<Action>, i: nat): nat
    decreases |acts|
  {
    if acts == [] || Reads(acts[|acts| - 1], i) then 0
    else OutsideSinceRead(acts[..|acts| - 1], i) + (if LandsOutside(acts[|acts| - 1]) then 1 else 0)
  }

  /** How far the last read of call `i` was behind the ledger at that moment. */
  function ReadLag(ledger: int, acts: seq<Action>, i: nat): int
    decreases |acts|
  {
    if acts == [] then 0
    else if Reads(acts[|acts| - 1], i) then Run(ledger, acts[..|acts| - 1]).ledger - acts[|acts| - 1].sequence
    else ReadLag(ledger, acts[..|acts| - 1], i)
  }

  /** How far what call `i` has read is behind the ledger now. */
  function Behind(ledger: int, acts: seq<Action>, i: nat): int {
    ReadLag(ledger, acts, i) + OutsideSinceRead(acts, i)
  }

  /** What the holder of the lock has read is the ledger, but for the lag of the read and the landings since. */
  ghost predicate HolderGuarded(a: Account, behind: int, i: nat)
    requires WellFormed(a) && i < |a.work|
  {
    && (a.work[i].Read? ==> a.work[i].sequence + behind == a.ledger)
    && (a.work[i].Approved? ==> a.transactions[i] + behind == a.ledger + 1)
  }

  ghost predicate Guarded(a: Account, initial: int, acts: seq<Action>) {
    && a == Run(initial, acts) && WellFormed(a)
    && Inv(a.lock)
    && (forall i :: 0 <= i < |a.work| ==> a.lock.calls[i].phase.Waiting? ==> a.work[i].Idle?)
    && (forall i :: 0 <= i < |a.work| && a.lock.calls[i].phase.Inside? ==>
          HolderGuarded(a, Behind(initial, acts, i), i))
    && a.ledger == initial + |a.landed|
    && (forall k :: 0 <= k < |a.landed| ==> a.landed[k] == initial + k + 1)
  }

  lemma BehindOneMore(initial: int, acts: seq<Action>, act: Action, i: nat)
    ensures Behind(initial, acts + [act], i) ==
            if Reads(act, i) then Run(initial, acts).ledger - act.sequence
            else Behind(initial, acts, i) + (if LandsOutside(act) then 1 else 0)
  {
    assert (acts + [act])[..|acts|] == acts;
  }

  lemma HolderStaysGuarded(a: Account, initial: int, acts: seq<Action>, act: Action, i: nat)
    requires Guarded(a, initial, acts) && Allowed(a, act) && WellFormed(Apply(a, act)) && Inv(Apply(a, act).lock)
    requires i < |Apply(a, act).work| && Apply(a, act).lock.calls[i].phase.Inside?
    ensures HolderGuarded(Apply(a, act), Behind(initial, acts + [act], i), i)
  {
    hide Behind, Run;
    BehindOneMore(initial, acts, act, i);
    if act.Land? {
      assert act.call == i;
    }
  }

  lemma ActionKeepsLock(a: Account, act: Action)
    requires WellFormed(a) && Inv(a.lock) && Allowed(a, act)
    ensures WellFormed(Apply(a, act)) && Inv(Apply(a, act).lock)
  {
    hide Inv;
    match act {
      case Request(_) => StepKeepsInv(a.lock, Arrive);
      case Start(i) => StepKeepsInv(a.lock, Enter(i));
      case Finish(i) => StepKeepsInv(a.lock, Leave(i));
      case _ =>
    }
  }

  lemma ActionKeepsGuard(a: Account, initial: int, acts: seq<Action>, act: Action)
    requires Guarded(a, initial, acts) && Allowed(a, act)
    ensures Guarded(Apply(a, act), initial, acts + [act])
  {
    hide HolderGuarded, Behind, Inv;
    ActionKeepsLock(a, act);
    OneMoreAction(initial, acts, act);
    var next := Apply(a, act);
    forall i | 0 <= i < |next.work| && next.lock.calls[i].phase.Inside?
      ensures HolderGuarded(next, Behind(initial, acts + [act], i), i)
    {
      HolderStaysGuarded(a, initial, acts, act, i);
    }
  }

  lemma {:induction false} RunsAreGuarded(initial: int, acts: seq<Action>)
    requires AllAllowed(initial, acts)
    ensures Guarded(Run(initial, acts), initial, acts)
    decreases |acts|
  {
    if acts != [] {
      var before, act := acts[..|acts| - 1], acts[|acts| - 1];
      RunsAreGuarded(initial, before);
      ActionKeepsGuard(Run(initial, before), initial, before, act);
      assert acts == before + [act];
    }
  }

  lemma {:induction false} NoReadIsAhead(initial: int, acts: seq<Action>, i: nat)
    requires AllAllowed(initial, acts)
    ensures ReadLag(initial, acts, i) >= 0
    decreases |acts|
  {
    if acts != [] {
      NoReadIsAhead(initial, acts[..|acts| - 1], i);
    }
  }

  /**
   However many queues share the account, whatever lands late, whatever others land on the same account
   and however the reads lag: a step that may send carries the ledger sequence plus one if and only if its
   read of the account was current and nothing has landed outside the lock since. Otherwise it is behind
   by the lag and one for each such landing.
   */
  lemma FirstSendIsNextExactly(initial: int, acts: seq<Action>, i: nat)
    requires AllAllowed(initial, acts) && Allowed(Run(initial, acts), FirstSend(i))
    ensures var a := Run(initial, acts);
            && (a.transactions[i] == a.ledger + 1 <==>
                ReadLag(initial, acts, i) == 0 && OutsideSinceRead(acts, i) == 0)
            && a.transactions[i] + ReadLag(initial, acts, i) + OutsideSinceRead(acts, i) == a.ledger + 1
  {
    RunsAreGuarded(initial, acts);
    NoReadIsAhead(initial, acts, i);
    assert HolderGuarded(Run(initial, acts), Behind(initial, acts, i), i);
  }

  /** The landed transactions carry consecutive sequences from the initial one, those of others included. */
  lemma LandedSequencesAreConsecutive(initial: int, acts: seq<Action>)
    requires AllAllowed(initial, acts)
    ensures var a := Run(initial, acts);
            && a.ledger == initial + |a.landed|
            && (forall k :: 0 <= k < |a.landed| ==> a.landed[k] == initial + k + 1)
  {
    RunsAreGuarded(initial, acts);
  }

  ghost predicate NothingLandsOutside(acts: seq<Action>) {
    forall k :: 0 <= k < |acts| ==> !LandsOutside(acts[k])
  }

  lemma {:induction false} NoneOutside(acts: seq<Action>, i: nat)
    requires NothingLandsOutside(acts)
    ensures OutsideSinceRead(acts, i) == 0
    decreases |acts|
  {
    if acts != [] {
      NoneOutside(acts[..|acts| - 1], i);
    }
  }

  ghost predicate ReadsAreCurrent(initial: int, acts: seq<Action>) {
    forall k :: 0 <= k < |acts| && acts[k].ReadAccount? ==> acts[k].sequence == Run(initial, acts[..k]).ledger
  }

  lemma PrefixReadsAreCurrent(initial: int, acts: seq<Action>, n: nat)
    requires ReadsAreCurrent(initial, acts) && n <= |acts|
    ensures ReadsAreCurrent(initial, acts[..n])
  {
    assert forall k :: 0 <= k < n ==> acts[..n][..k] == acts[..k];
  }

  lemma {:induction false} NoLag(initial: int, acts: seq<Action>, i: nat)
    requires ReadsAreCurrent(initial, acts)
    ensures ReadLag(initial, acts, i) == 0
    decreases |acts|
  {
    if acts != [] {
      PrefixReadsAreCurrent(initial, acts, |acts| - 1);
      NoLag(initial, acts[..|acts| - 1], i);
    }
  }

  /**
   Where every read is current and nothing lands outside the lock, every first send ever made carried
   the ledger sequence plus one.
   */
  lemma {:induction false} FirstSendsCarryTheNextSequence(initial: int, acts: seq<Action>)
    requires AllAllowed(initial, acts) && NothingLandsOutside(acts) && ReadsAreCurrent(initial, acts)
    ensures forall k :: 0 <= k < |Run(initial, acts).sends| ==>
              Run(initial, acts).sends[k].sequence == Run(initial, acts).sends[k].ledger + 1
    decreases |acts|
  {
    hide ReadsAreCurrent, ReadLag, OutsideSinceRead, Enabled;
    if acts != [] {
      var before, act := acts[..|acts| - 1], acts[|acts| - 1];
      PrefixReadsAreCurrent(initial, acts, |acts| - 1);
      FirstSendsCarryTheNextSequence(initial, before);
      if act.FirstSend? {
        FirstSendIsNextExactly(initial, before, act.call);
        NoneOutside(before, act.call);
        NoLag(initial, before, act.call);
      }
    }
  }

  /**
   A step is approved exactly when its transaction is the next one after what it has read; after a current
   read and without a landing outside the lock since, that is the next one when it is checked.
   */
  lemma RefusedExactlyWhenStale(initial: int, acts: seq<Action>, i: nat)
    requires AllAllowed(initial, acts) && Allowed(Run(initial, acts), CheckSequence(i))
    ensures var a := Run(initial, acts);
            Apply(a, CheckSequence(i)).work[i] ==
            if a.transactions[i] + Behind(initial, acts, i) == a.ledger + 1 then Approved else Refused
  {
    RunsAreGuarded(initial, acts);
    assert HolderGuarded(Run(initial, acts), Behind(initial, acts, i), i);
  }

  lemma OneMoreAction(initial: int, acts: seq<Action>, act: Action)
    ensures Run(initial, acts + [act]) == Apply(Run(initial, acts), act)
    ensures AllAllowed(initial, acts + [act]) <==> AllAllowed(initial, acts) && Allowed(Run(initial, acts), act)
  {
    assert (acts + [act])[..|acts|] == acts;
  }

  /** A step sends the next sequence and is given up before the transaction lands. */
  lemma GivenUpSend() returns (acts: seq<Action>)
    ensures AllAllowed(7, acts)
    ensures Run(7, acts) == Account(Lock(None, [Call(None, Done)], [0]), 7, [8], [Sent], [Send(0, 8, 7)], [])
  {
    acts := [];
    OneMoreAction(7, acts, Request(8));
    acts := acts + [Request(8)];
    OneMoreAction(7, acts, Start(0));
    acts := acts + [Start(0)];
    OneMoreAction(7, acts, ReadAccount(0, 7));
    acts := acts + [ReadAccount(0, 7)];
    OneMoreAction(7, acts, CheckSequence(0));
    acts := acts + [CheckSequence(0)];
    OneMoreAction(7, acts, FirstSend(0));
    acts := acts + [FirstSend(0)];
    OneMoreAction(7, acts, Finish(0));
    acts := acts + [Finish(0)];
  }

  /** A run that meets the condition: the transaction given up lands late, and the next step sends a used sequence. */
  lemma LateLandingBreaksTheGuard() returns (acts: seq<Action>)
    ensures AllAllowed(7, acts)
    ensures Run(7, acts).sends == [Send(0, 8, 7), Send(1, 8, 8)]
  {
    acts := GivenUpSend();
    OneMoreAction(7, acts, Request(8));
    acts := acts + [Request(8)];
    OneMoreAction(7, acts, Start(1));
    acts := acts + [Start(1)];
    OneMoreAction(7, acts, ReadAccount(1, 7));
    acts := acts + [ReadAccount(1, 7)];
    OneMoreAction(7, acts, CheckSequence(1));
    acts := acts + [CheckSequence(1)];
    OneMoreAction(7, acts, LandLate(0));
    acts := acts + [LandLate(0)];
    OneMoreAction(7, acts, FirstSend(1));
    acts := acts + [FirstSend(1)];
  }
}
