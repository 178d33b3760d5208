/**
 The promise-chain lock that serialises the sends of one account.

 A call is identified by its position in the arrival order of its key, and so is
 the promise it leaves for its successor: promise `i` is resolved once call `i`
 is done. `tail` is the map entry of the key.
 */
module SequenceLock {
  import opened Outcomes

  datatype Phase = Waiting | Inside | Done

  /** A call: the promise it awaits (`None` for an already resolved one) and how far it is. */
  datatype Call = Call(previous: Option<nat>, phase: Phase)

  /** One key: its map entry, its calls in arrival order, and the order in which they entered `work`. */
  datatype Lock = Lock(tail: Option<nat>, calls: seq<Call>, entered: seq<nat>)

  datatype Step = Arrive | Enter(call: nat) | Leave(call: nat)

  const UNUSED := Lock(None, [], [])

  predicate Resolved(l: Lock, promise: Option<nat>) {
    promise.None? || (promise.value < |l.calls| && l.calls[promise.value].phase.Done?)
  }

  /** The steps the event loop may take next; what happens inside `work` is between `Enter` and `Leave`. */
  predicate Enabled(l: Lock, s: Step) {
    match s
    case Arrive => true
    case Enter(i) => i < |l.calls| && l.calls[i].phase.Waiting? && Resolved(l, l.calls[i].previous)
    case Leave(i) => i < |l.calls| && l.calls[i].phase.Inside?
  }

  function After(l: Lock, s: Step): Lock
    requires Enabled(l, s)
  {
    match s
    case Arrive => l.(calls := l.calls + [Call(l.tail, Waiting)], tail := Some(|l.calls|))
    case Enter(i) => l.(calls := l.calls[i := l.calls[i].(phase := Inside)], entered := l.entered + [i])
    case Leave(i) =>
      l.(calls := l.calls[i := l.calls[i].(phase := Done)], tail := if l.tail == Some(i) then None else l.tail)
  }

  // ---------------------------------------------------------------------
  // What every interleaving keeps
  // ---------------------------------------------------------------------

  /** Call `i` awaits the promise of the call before it, or that call is done already. */
  ghost predicate Follows(calls: seq<Call>, i: nat)
    requires i < |calls|
  {
    match calls[i].previous
    case None => i == 0 || calls[i - 1].phase.Done?
    case Some(p) => p == i - 1
  }

  /** Calls done, then at most one inside, then calls waiting for the one before them. */
  ghost predicate Inv(l: Lock) {
    var n := |l.entered|;
    && n <= |l.calls|
    && (forall i :: 0 <= i < n ==> l.entered[i] == i)
    && (forall i :: 0 <= i < n - 1 ==> l.calls[i].phase.Done?)
    && (n > 0 ==> !l.calls[n - 1].phase.Waiting?)
    && (forall i :: n <= i < |l.calls| ==> l.calls[i].phase.Waiting?)
    && (forall i :: 0 <= i < |l.calls| ==> Follows(l.calls, i))
    && (match l.tail
        case None => n == |l.calls| && (n > 0 ==> l.calls[n - 1].phase.Done?)
        case Some(t) => t == |l.calls| - 1 && !l.calls[t].phase.Done?)
  }

  lemma StepKeepsInv(l: Lock, s: Step)
    requires Inv(l) && Enabled(l, s)
    ensures Inv(After(l, s))
  {
    var n, l' := |l.entered|, After(l, s);
    match s {
      case Arrive =>
      case Enter(i) => NextToEnter(l, i);
      case Leave(i) => assert i == n - 1;
    }
    forall i | 0 <= i < |l'.calls| ensures Follows(l'.calls, i) {
      if i < |l.calls| {
        assert Follows(l.calls, i);
      }
    }
  }

  /** Only the oldest waiting call can enter, and only when the calls before it are done. */
  lemma NextToEnter(l: Lock, i: nat)
    requires Inv(l) && i < |l.calls| && l.calls[i].phase.Waiting?
    ensures Enabled(l, Enter(i)) <==> i == |l.entered| && (i > 0 ==> l.calls[i - 1].phase.Done?)
  {
    assert Follows(l.calls, i);
  }

  /** All locks: keys never used have no entry. */
  type Locks = map<string, Lock>

  function Of(ls: Locks, key: string): Lock {
    if key in ls then ls[key] else UNUSED
  }

  /** A run of steps on any keys, each enabled when it is taken. */
  ghost predicate IsRun(steps: seq<(string, Step)>, ls: Locks)
    decreases |steps|
  {
    if steps == [] then ls == map[]
    else
      var (key, s) := steps[|steps| - 1];
      exists before: Locks ::
        && IsRun(steps[..|steps| - 1], before)
        && Enabled(Of(before, key), s)
        && ls == before[key := After(Of(before, key), s)]
  }

  lemma {:induction false} RunKeepsInv(steps: seq<(string, Step)>, ls: Locks, key: string)
    requires IsRun(steps, ls)
    ensures Inv(Of(ls, key))
    decreases |steps|
  {
    if steps != [] {
      var (k, s) := steps[|steps| - 1];
      var before: Locks :|
        && IsRun(steps[..|steps| - 1], before)
        && Enabled(Of(before, k), s)
        && ls == before[k := After(Of(before, k), s)];
      RunKeepsInv(steps[..|steps| - 1], before, key);
      if key == k {
        StepKeepsInv(Of(before, k), s);
      }
    }
  }

  ghost predicate AtMostOneInside(calls: seq<Call>) {
    forall i, j :: 0 <= i < j < |calls| ==> !(calls[i].phase.Inside? && calls[j].phase.Inside?)
  }

  /** However the calls interleave: one caller at a time, in arrival order, and no entry outlives its callers. */
  lemma MutualExclusionInArrivalOrder(steps: seq<(string, Step)>, ls: Locks, key: string)
    requires IsRun(steps, ls)
    ensures var l := Of(ls, key);
            && AtMostOneInside(l.calls)
            && (forall i :: 0 <= i < |l.entered| ==> l.entered[i] == i)
            && (l.tail.None? <==> forall i :: 0 <= i < |l.calls| ==> l.calls[i].phase.Done?)
  {
    RunKeepsInv(steps, ls, key);
  }

  /** A waiter is let in exactly when all its predecessors are done. */
  lemma GrantedWhenPredecessorsAreDone(steps: seq<(string, Step)>, ls: Locks, key: string, i: nat)
    requires IsRun(steps, ls) && i < |Of(ls, key).calls| && Of(ls, key).calls[i].phase.Waiting?
    ensures Enabled(Of(ls, key), Enter(i)) <==> forall j :: 0 <= j < i ==> Of(ls, key).calls[j].phase.Done?
  {
    RunKeepsInv(steps, ls, key);
    var l := Of(ls, key);
    NextToEnter(l, i);
    if i > 0 && l.calls[i - 1].phase.Done? {
      assert i - 1 < |l.entered|;
    }
  }

  /** Steps the first `i` calls still have to take. */
  function StepsAhead(calls: seq<Call>, i: nat): nat
    requires i <= |calls|
  {
    if i == 0 then 0
    else StepsAhead(calls, i - 1) + (match calls[i - 1].phase case Waiting => 2 case Inside => 1 case Done => 0)
  }

  lemma {:induction false} StepsAheadUpdate(calls: seq<Call>, j: nat, c: Call, i: nat)
    requires j < |calls| && i <= |calls|
    requires (calls[j].phase.Waiting? && c.phase.Inside?) || (calls[j].phase.Inside? && c.phase.Done?)
    ensures StepsAhead(calls[j := c], i) == StepsAhead(calls, i) - (if j < i then 1 else 0)
  {
    if i > 0 {
      StepsAheadUpdate(calls, j, c, i - 1);
    }
  }

  lemma {:induction false} StepsAheadAppend(calls: seq<Call>, c: Call, i: nat)
    requires i <= |calls|
    ensures StepsAhead(calls + [c], i) == StepsAhead(calls, i)
  {
    if i > 0 {
      StepsAheadAppend(calls, c, i - 1);
    }
  }

  lemma {:induction false} NoStepsAhead(calls: seq<Call>, i: nat)
    requires i <= |calls|
    ensures StepsAhead(calls, i) == 0 <==> forall j :: 0 <= j < i ==> calls[j].phase.Done?
  {
    if i > 0 {
      NoStepsAhead(calls, i - 1);
    }
  }

  /**
   Progress: until a waiter is let in, no arrival sets it back, and any other step
   on its key brings it one step closer.
   */
  lemma WaitersMakeProgress(l: Lock, i: nat, s: Step)
    requires Inv(l) && i < |l.calls| && l.calls[i].phase.Waiting? && Enabled(l, s) && s != Enter(i)
    ensures StepsAhead(After(l, s).calls, i) == StepsAhead(l.calls, i) - (if s.Arrive? then 0 else 1)
  {
    match s
    case Arrive => StepsAheadAppend(l.calls, Call(l.tail, Waiting), i);
    case Enter(j) =>
      NextToEnter(l, j);
      StepsAheadUpdate(l.calls, j, l.calls[j].(phase := Inside), i);
    case Leave(j) => StepsAheadUpdate(l.calls, j, l.calls[j].(phase := Done), i);
  }

  /** With no steps ahead of it a waiter's turn has come. */
  lemma TurnHasCome(l: Lock, i: nat)
    requires Inv(l) && i < |l.calls| && l.calls[i].phase.Waiting?
    ensures StepsAhead(l.calls, i) == 0 <==> Enabled(l, Enter(i))
  {
    NoStepsAhead(l.calls, i);
    NextToEnter(l, i);
    if i > 0 && l.calls[i - 1].phase.Done? {
      assert i - 1 < |l.entered|;
    }
  }

  /** More steps on any keys, each enabled when it is taken. */
  ghost predicate Continues(ls: Locks, more: seq<(string, Step)>, next: Locks)
    decreases |more|
  {
    if more == [] then next == ls
    else
      var (key, s) := more[0];
      Enabled(Of(ls, key), s) && Continues(ls[key := After(Of(ls, key), s)], more[1..], next)
  }

  /** The steps on a key that are no arrivals. */
  function StepsOn(more: seq<(string, Step)>, key: string): nat {
    if more == [] then 0
    else StepsOn(more[1..], key) + (if more[0].0 == key && !more[0].1.Arrive? then 1 else 0)
  }

  /** A caller inside or done does not wait again. */
  lemma {:induction false} StillWaiting(ls: Locks, more: seq<(string, Step)>, next: Locks, key: string, i: nat)
    requires Continues(ls, more, next) && i < |Of(ls, key).calls|
    requires i < |Of(next, key).calls| && Of(next, key).calls[i].phase.Waiting?
    ensures Of(ls, key).calls[i].phase.Waiting?
    decreases |more|
  {
    if more != [] {
      var (k, s) := more[0];
      StillWaiting(ls[k := After(Of(ls, k), s)], more[1..], next, key, i);
    }
  }

  lemma {:induction false} StepsAheadCountDown(ls: Locks, more: seq<(string, Step)>, next: Locks, key: string, i: nat)
    requires Inv(Of(ls, key)) && Continues(ls, more, next)
    requires i < |Of(ls, key).calls|
    requires i < |Of(next, key).calls| && Of(next, key).calls[i].phase.Waiting?
    ensures Inv(Of(next, key))
    ensures StepsAhead(Of(next, key).calls, i) + StepsOn(more, key) == StepsAhead(Of(ls, key).calls, i)
    decreases |more|
  {
    if more != [] {
      var (k, s) := more[0];
      var follow := ls[k := After(Of(ls, k), s)];
      StillWaiting(ls, more, next, key, i);
      StillWaiting(follow, more[1..], next, key, i);
      if k == key {
        StepKeepsInv(Of(ls, k), s);
        WaitersMakeProgress(Of(ls, k), i, s);
      }
      StepsAheadCountDown(follow, more[1..], next, key, i);
    }
  }

  /**
   Every waiter is granted: in any run, as long as it still waits, it can enter exactly when as many
   steps other than arrivals were taken on its key as its predecessors had left. That number is fixed
   when the waiting starts; no later arrival adds to it.
   */
  lemma GrantedAfterStepsAhead(steps: seq<(string, Step)>, ls: Locks, more: seq<(string, Step)>, next: Locks,
                               key: string, i: nat)
    requires IsRun(steps, ls) && Continues(ls, more, next) && i < |Of(ls, key).calls|
    requires i < |Of(next, key).calls| && Of(next, key).calls[i].phase.Waiting?
    ensures StepsOn(more, key) <= StepsAhead(Of(ls, key).calls, i)
    ensures Enabled(Of(next, key), Enter(i)) <==> StepsOn(more, key) == StepsAhead(Of(ls, key).calls, i)
  {
    RunKeepsInv(steps, ls, key);
    StepsAheadCountDown(ls, more, next, key, i);
    TurnHasCome(Of(next, key), i);
  }

  /** A waiter whose turn has not come has a predecessor that can move. */
  lemma WaitersAreNeverStuck(l: Lock, i: nat) returns (j: nat)
    requires Inv(l) && i < |l.calls| && l.calls[i].phase.Waiting? && !Enabled(l, Enter(i))
    ensures j < i && (Enabled(l, Enter(j)) || Enabled(l, Leave(j)))
  {
    var n := |l.entered|;
    NextToEnter(l, i);
    if n > 0 && l.calls[n - 1].phase.Inside? {
      j := n - 1;
    } else {
      NextToEnter(l, n);
      j := n;
    }
  }

  // ---------------------------------------------------------------------
  // The lock table
  // ---------------------------------------------------------------------

  /** The module-level map of the source, with the promises its entries refer to. */
  class AccountSequenceLocks {
    /** The promise of the last caller of each key that still has one. */
    var locks: map<string, nat>
    /** The calls of each key, in arrival order. */
    var calls: map<string, seq<Call>>
    ghost var entered: map<string, seq<nat>>

    constructor ()
      ensures forall key :: LockOf(key) == UNUSED
    {
      locks, calls, entered := map[], map[], map[];
    }

    ghost function LockOf(key: string): Lock
      reads this
    {
      Lock(if key in locks then Some(locks[key]) else None,
           if key in calls then calls[key] else [],
           if key in entered then entered[key] else [])
    }

    /** Everything a call does before it first yields; returns its promise. */
    method Request(key: string) returns (current: nat)
      modifies this
      ensures LockOf(key) == After(old(LockOf(key)), Arrive) && current == |old(LockOf(key)).calls|
      ensures locks == old(locks)[key := current]
      ensures LockOf(key).calls ==
              old(LockOf(key)).calls + [Call(if key in old(locks) then Some(old(locks)[key]) else None, Waiting)]
      ensures forall k :: k != key ==> LockOf(k) == old(LockOf(k))
    {
      var previous := if key in locks then Some(locks[key]) else None;
      var earlier := if key in calls then calls[key] else [];
      current := |earlier|;
      calls := calls[key := earlier + [Call(previous, Waiting)]];
      locks := locks[key := current];
    }

    /** The awaited promise has resolved and `work` starts. */
    method Start(key: string, current: nat)
      requires Enabled(LockOf(key), Enter(current))
      modifies this
      ensures LockOf(key) == After(old(LockOf(key)), Enter(current))
      ensures locks == old(locks) && LockOf(key).entered == old(LockOf(key)).entered + [current]
      ensures LockOf(key).calls == old(LockOf(key)).calls[current := old(LockOf(key)).calls[current].(phase := Inside)]
      ensures forall k :: k != key ==> LockOf(k) == old(LockOf(k))
    {
      calls := calls[key := calls[key][current := calls[key][current].(phase := Inside)]];
      entered := entered[key := (if key in entered then entered[key] else []) + [current]];
    }

    /** The `finally` block: release the promise, and drop the entry if no later caller replaced it. */
    method Finish(key: string, current: nat)
      requires Enabled(LockOf(key), Leave(current))
      modifies this
      ensures LockOf(key) == After(old(LockOf(key)), Leave(current))
      ensures locks == if key in old(locks) && old(locks)[key] == current then old(locks) - {key} else old(locks)
      ensures LockOf(key).calls == old(LockOf(key)).calls[current := old(LockOf(key)).calls[current].(phase := Done)]
      ensures forall k :: k != key ==> LockOf(k) == old(LockOf(k))
    {
      calls := calls[key := calls[key][current := calls[key][current].(phase := Done)]];
      if key in locks && locks[key] == current {
        locks := locks - {key};
      }
    }
  }
}
