/**
 The idempotency keys of the DM relay. A claim is two separate statements, an
 insert that does nothing on a conflict and then a read, and other requests and
 the hourly pruning may run between them. A completion updates whatever row the
 key has at that moment.

 `IdempotencyStore` is the table and its statements; `State`, `Step` and `After`
 are every interleaving of them, with a log of what each one did.
 */
module Idempotency {
  import opened Outcomes

  /** IDEMPOTENCY_PENDING_STATUS. */
  const PENDING_STATUS := 0

  /** (sender address, client-generated key). */
  type Key = (string, string)

  datatype Row = Row(status: int, body: string, fingerprint: string)
  type Table = map<Key, Row>

  datatype Answer =
    | Claimed
    | InProgress
    | Cached(status: int, body: string)
    | Conflict

  // ----- The statements ------------------------------------------------------

  /** What the second query of a claim makes of the row it finds. */
  function AnswerFrom(table: Table, key: Key, fingerprint: string): (answer: Answer)
    ensures !answer.Claimed?
    ensures answer.Cached? <==>
            key in table && table[key].fingerprint == fingerprint && table[key].status != PENDING_STATUS
    ensures answer.Cached? ==> answer.status == table[key].status && answer.body == table[key].body
    ensures answer.Conflict? <==> key in table && table[key].fingerprint != fingerprint
    ensures answer.InProgress? <==>
            key in table ==> table[key].fingerprint == fingerprint && table[key].status == PENDING_STATUS
  {
    if key !in table then InProgress
    else if table[key].fingerprint != fingerprint then Conflict
    else if table[key].status == PENDING_STATUS then InProgress
    else Cached(table[key].status, table[key].body)
  }

  function PendingRow(fingerprint: string): Row {
    Row(PENDING_STATUS, "{}", fingerprint)
  }

  /** INSERT ... ON CONFLICT DO NOTHING. */
  function Inserted(table: Table, key: Key, fingerprint: string): Table {
    if key in table then table else table[key := PendingRow(fingerprint)]
  }

  function Completed(table: Table, key: Key, status: int, body: string): Table {
    if key in table then table[key := table[key].(status := status, body := body)] else table
  }

  class IdempotencyStore {
    var rows: Table

    constructor ()
      ensures rows == map[]
    {
      rows := map[];
    }

    /** The insert of a claim: true when this request now owns the key. */
    method InsertIfAbsent(key: Key, fingerprint: string) returns (inserted: bool)
      modifies this
      ensures inserted <==> key !in old(rows)
      ensures rows == Inserted(old(rows), key, fingerprint)
      ensures rows == if inserted then old(rows)[key := Row(0, "{}", fingerprint)] else old(rows)
    {
      inserted := key !in rows;
      if inserted {
        rows := rows[key := PendingRow(fingerprint)];
      }
    }

    method GetIdempotencyRecord(key: Key) returns (record: Option<Row>)
      ensures record == if key in rows then Some(rows[key]) else None
    {
      record := if key in rows then Some(rows[key]) else None;
    }

    /**
     `meanwhile` is what everybody else does to the table between the two queries.
     The caller owns the key exactly when nobody held it at the insert. Every other answer speaks of
     the table after `meanwhile`: a conflict exactly for a row of another payload, the response exactly
     for a finished row of the same one, and otherwise the key is in progress.
     */
    method ClaimIdempotencyKey(key: Key, fingerprint: string, meanwhile: Table -> Table)
      returns (answer: Answer)
      modifies this
      ensures answer.Claimed? <==> key !in old(rows)
      ensures answer.Claimed? ==> rows == Inserted(old(rows), key, fingerprint)
      ensures answer.Claimed? ==> rows == old(rows)[key := Row(0, "{}", fingerprint)]
      ensures !answer.Claimed? ==> rows == meanwhile(old(rows)) && answer == AnswerFrom(rows, key, fingerprint)
      ensures !answer.Claimed? ==>
                && (answer.Conflict? <==> key in rows && rows[key].fingerprint != fingerprint)
                && (answer.InProgress? <==>
                      key !in rows || (rows[key].fingerprint == fingerprint && rows[key].status == 0))
                && (answer.Cached? ==> rows[key] == Row(answer.status, answer.body, fingerprint) && answer.status != 0)
    {
      var inserted := InsertIfAbsent(key, fingerprint);
      if inserted {
        return Claimed;
      }
      rows := meanwhile(rows);
      var existing := GetIdempotencyRecord(key);
      match existing
      case None =>
        return InProgress;
      case Some(row) =>
        if row.fingerprint != fingerprint {
          return Conflict;
        }
        if row.status == PENDING_STATUS {
          return InProgress;
        }
        return Cached(row.status, row.body);
    }

    /** The query behind the replay of a finished request. */
    method GetIdempotencyResponse(key: Key) returns (response: Option<(int, string)>)
      ensures response.Some? <==> key in rows && rows[key].status != PENDING_STATUS
      ensures response.Some? ==> response.value == (rows[key].status, rows[key].body)
    {
      response := None;
      if key in rows && rows[key].status != PENDING_STATUS {
        response := Some((rows[key].status, rows[key].body));
      }
    }

    method CompleteIdempotencyKey(key: Key, status: int, body: string)
      modifies this
      ensures rows == Completed(old(rows), key, status, body)
      ensures rows == if key in old(rows) then old(rows)[key := Row(status, body, old(rows)[key].fingerprint)]
                      else old(rows)
    {
      if key in rows {
        rows := rows[key := rows[key].(status := status, body := body)];
      }
    }
  }

  // ----- Every interleaving --------------------------------------------------

  datatype Phase = Reading | Processing(claim: nat) | Finished
  datatype Request = Request(key: Key, fingerprint: string, phase: Phase)

  datatype Event =
    | Claim(who: nat, key: Key, fingerprint: string)
    | Waiting(who: nat)
    | Answered(who: nat, key: Key, fingerprint: string, answer: Answer)
    | Completion(who: nat, key: Key, status: int, body: string)
    | Pruned(keys: set<Key>)

  datatype Step =
    | Insert(who: nat, key: Key, fingerprint: string)
    | Read(who: nat)
    | Complete(who: nat, status: int, body: string)
    | Prune(keys: set<Key>)

  /** `claimOf` remembers which event of the log created the row of a key. */
  datatype State = State(
    table: Table,
    claimOf: map<Key, nat>,
    requests: map<nat, Request>,
    log: seq<Event>)

  const INITIAL := State(map[], map[], map[], [])

  /** A claimer completes its key once, with an HTTP status. */
  predicate Enabled(s: State, step: Step) {
    match step
    case Insert(who, _, _) => who !in s.requests
    case Read(who) => who in s.requests && s.requests[who].phase == Reading
    case Complete(who, status, _) =>
      who in s.requests && s.requests[who].phase.Processing? && status != PENDING_STATUS
    case Prune(_) => true
  }

  function AfterInsert(s: State, who: nat, key: Key, fingerprint: string): State {
    if key in s.table then
      s.(requests := s.requests[who := Request(key, fingerprint, Reading)], log := s.log + [Waiting(who)])
    else
      State(
        Inserted(s.table, key, fingerprint),
        s.claimOf[key := |s.log|],
        s.requests[who := Request(key, fingerprint, Processing(|s.log|))],
        s.log + [Claim(who, key, fingerprint)])
  }

  function AfterRead(s: State, who: nat): State
    requires who in s.requests
  {
    var request := s.requests[who];
    var answer := AnswerFrom(s.table, request.key, request.fingerprint);
    s.(requests := s.requests[who := request.(phase := Finished)],
       log := s.log + [Answered(who, request.key, request.fingerprint, answer)])
  }

  function AfterComplete(s: State, who: nat, status: int, body: string): State
    requires who in s.requests
  {
    var request := s.requests[who];
    s.(table := Completed(s.table, request.key, status, body),
       requests := s.requests[who := request.(phase := Finished)],
       log := s.log + [Completion(who, request.key, status, body)])
  }

  function AfterPrune(s: State, keys: set<Key>): State {
    s.(table := s.table - keys, claimOf := s.claimOf - keys, log := s.log + [Pruned(keys)])
  }

  function After(s: State, step: Step): State
    requires Enabled(s, step)
  {
    match step
    case Insert(who, key, fingerprint) => AfterInsert(s, who, key, fingerprint)
    case Read(who) => AfterRead(s, who)
    case Complete(who, status, body) => AfterComplete(s, who, status, body)
    case Prune(keys) => AfterPrune(s, keys)
  }

  /** `states` is a run: it starts empty and every next state is one step on. */
  ghost predicate IsRun(states: seq<State>, steps: seq<Step>) {
    && |states| == |steps| + 1
    && states[0] == INITIAL
    && forall i :: 0 <= i < |steps| ==> Enabled(states[i], steps[i]) && states[i + 1] == After(states[i], steps[i])
  }

  // ----- What a log can say --------------------------------------------------

  ghost predicate NoPrune(log: seq<Event>, key: Key, from: int, to: int)
    requires 0 <= from && to <= |log|
  {
    forall p :: from <= p < to && log[p].Pruned? ==> key !in log[p].keys
  }

  ghost predicate ClaimsKey(event: Event, key: Key) {
    event.Claim? && event.key == key
  }

  /** Two claims of one key have a prune of that key between them. */
  ghost predicate ClaimsSeparated(log: seq<Event>) {
    forall i, j ::
      0 <= i < j < |log| && log[i].Claim? && log[j].Claim? && log[i].key == log[j].key ==>
      !NoPrune(log, log[i].key, i + 1, j)
  }

  /** Event `claim` made the row that a reader of `key` saw at `j`. */
  ghost predicate RowClaimedAt(log: seq<Event>, key: Key, fingerprint: string, claim: int, j: int)
    requires 0 <= j <= |log|
  {
    && 0 <= claim < j
    && ClaimsKey(log[claim], key)
    && log[claim].fingerprint == fingerprint
    && NoPrune(log, key, claim, j)
  }

  /** The claimer of that row completed it with this response before `j`. */
  ghost predicate CompletedByItsClaimer(log: seq<Event>, claim: int, j: int, status: int, body: string)
    requires 0 <= claim < j <= |log|
    requires log[claim].Claim?
  {
    exists c :: claim < c < j && log[c] == Completion(log[claim].who, log[claim].key, status, body)
  }

  /** Event `j`, if a replayed response, is the one the claimer of the row gave, for the same payload. */
  ghost predicate FromClaimer(log: seq<Event>, j: int)
    requires 0 <= j < |log|
  {
    log[j].Answered? && log[j].answer.Cached? ==>
      exists claim ::
        && RowClaimedAt(log, log[j].key, log[j].fingerprint, claim, j)
        && CompletedByItsClaimer(log, claim, j, log[j].answer.status, log[j].answer.body)
  }

  // ----- Invariants ----------------------------------------------------------

  ghost predicate RowsHaveClaims(s: State) {
    && s.claimOf.Keys == s.table.Keys
    && forall k :: k in s.table ==> RowClaimedAt(s.log, k, s.table[k].fingerprint, s.claimOf[k], |s.log|)
  }

  /** Only the claim of the present row has had no prune since. */
  ghost predicate OldClaimsPruned(s: State) {
    forall i :: 0 <= i < |s.log| && s.log[i].Claim? && NoPrune(s.log, s.log[i].key, i, |s.log|) ==>
      s.log[i].key in s.claimOf && s.claimOf[s.log[i].key] == i
  }

  ghost predicate ClaimersAreLogged(s: State) {
    && (forall w :: w in s.requests && s.requests[w].phase.Processing? ==>
          && s.requests[w].phase.claim < |s.log|
          && s.log[s.requests[w].phase.claim] == Claim(w, s.requests[w].key, s.requests[w].fingerprint))
    && (forall c :: 0 <= c < |s.log| && (s.log[c].Completion? || s.log[c].Claim?) ==>
          s.log[c].who in s.requests)
    && (forall c :: 0 <= c < |s.log| && s.log[c].Claim? && s.requests[s.log[c].who].phase.Processing? ==>
          s.requests[s.log[c].who].phase.claim == c)
  }

  ghost predicate Inv(s: State) {
    RowsHaveClaims(s) && OldClaimsPruned(s) && ClaimersAreLogged(s) && ClaimsSeparated(s.log)
  }

  /** Every request still processing owns the row of its key. */
  ghost predicate NoStaleClaimer(s: State) {
    forall w :: w in s.requests && s.requests[w].phase.Processing? ==>
      s.requests[w].key in s.claimOf && s.claimOf[s.requests[w].key] == s.requests[w].phase.claim
  }

  /** Every row is pending or holds the response of its claimer. */
  ghost predicate RowsAreTheirClaimers(s: State)
    requires RowsHaveClaims(s)
  {
    forall k :: k in s.table && s.table[k].status != PENDING_STATUS ==>
      CompletedByItsClaimer(s.log, s.claimOf[k], |s.log|, s.table[k].status, s.table[k].body)
  }

  lemma LogGrows(log: seq<Event>, event: Event, key: Key, from: int, to: int)
    requires 0 <= from && to <= |log|
    ensures NoPrune(log + [event], key, from, to) <==> NoPrune(log, key, from, to)
  {
    assert forall p :: from <= p < to ==> (log + [event])[p] == log[p];
  }

  lemma OneMoreEvent(log: seq<Event>, event: Event, key: Key, from: int)
    requires 0 <= from <= |log|
    ensures NoPrune(log + [event], key, from, |log| + 1) <==>
            NoPrune(log, key, from, |log|) && (event.Pruned? ==> key !in event.keys)
  {
    var grown := log + [event];
    assert forall p :: from <= p < |log| ==> grown[p] == log[p];
    assert grown[|log|] == event;
  }

  lemma ClaimStillStands(log: seq<Event>, event: Event, key: Key, fingerprint: string, claim: int)
    requires RowClaimedAt(log, key, fingerprint, claim, |log|)
    requires event.Pruned? ==> key !in event.keys
    ensures RowClaimedAt(log + [event], key, fingerprint, claim, |log| + 1)
  {
    OneMoreEvent(log, event, key, claim);
  }

  lemma SeparationSurvives(s: State, event: Event)
    requires ClaimsSeparated(s.log) && OldClaimsPruned(s)
    requires event.Claim? ==> event.key !in s.claimOf
    ensures ClaimsSeparated(s.log + [event])
  {
    var log := s.log + [event];
    forall i, j | 0 <= i < j < |log| && log[i].Claim? && log[j].Claim? && log[i].key == log[j].key
      ensures !NoPrune(log, log[i].key, i + 1, j)
    {
      LogGrows(s.log, event, log[i].key, i + 1, j);
      if j == |s.log| {
        assert !NoPrune(s.log, s.log[i].key, i, j);
      } else {
        assert log[i] == s.log[i] && log[j] == s.log[j];
      }
    }
  }

  lemma OldClaimsStayPruned(s: State, event: Event, claimOf: map<Key, nat>, next: State)
    requires OldClaimsPruned(s)
    requires next.log == s.log + [event] && next.claimOf == claimOf
    requires event.Claim? ==> event.key !in s.claimOf && event.key in claimOf && claimOf[event.key] == |s.log|
    requires forall k :: k in s.claimOf && (event.Pruned? ==> k !in event.keys) ==>
               k in claimOf && claimOf[k] == s.claimOf[k]
    ensures OldClaimsPruned(next)
  {
    forall i | 0 <= i < |next.log| && next.log[i].Claim? && NoPrune(next.log, next.log[i].key, i, |next.log|)
      ensures next.log[i].key in claimOf && claimOf[next.log[i].key] == i
    {
      if i < |s.log| {
        OneMoreEvent(s.log, event, next.log[i].key, i);
      }
    }
  }

  lemma WaitingKeepsInv(s: State, who: nat, key: Key, fingerprint: string)
    requires Inv(s) && who !in s.requests && key in s.table
    ensures Inv(AfterInsert(s, who, key, fingerprint))
  {
    hide RowClaimedAt, OldClaimsPruned, ClaimsSeparated;
    var next := AfterInsert(s, who, key, fingerprint);
    forall k | k in next.table
      ensures RowClaimedAt(next.log, k, next.table[k].fingerprint, next.claimOf[k], |next.log|)
    {
      ClaimStillStands(s.log, Waiting(who), k, s.table[k].fingerprint, s.claimOf[k]);
    }
    SeparationSurvives(s, Waiting(who));
    OldClaimsStayPruned(s, Waiting(who), next.claimOf, next);
  }

  lemma ClaimedRowsHaveClaims(s: State, who: nat, key: Key, fingerprint: string)
    requires RowsHaveClaims(s) && key !in s.table
    ensures RowsHaveClaims(AfterInsert(s, who, key, fingerprint))
  {
    var next := AfterInsert(s, who, key, fingerprint);
    forall k | k in next.table
      ensures RowClaimedAt(next.log, k, next.table[k].fingerprint, next.claimOf[k], |next.log|)
    {
      if k != key {
        ClaimStillStands(s.log, Claim(who, key, fingerprint), k, s.table[k].fingerprint, s.claimOf[k]);
      }
    }
  }

  lemma ClaimingKeepsInv(s: State, who: nat, key: Key, fingerprint: string)
    requires Inv(s) && who !in s.requests && key !in s.table
    ensures Inv(AfterInsert(s, who, key, fingerprint))
  {
    var next := AfterInsert(s, who, key, fingerprint);
    ClaimedRowsHaveClaims(s, who, key, fingerprint);
    SeparationSurvives(s, Claim(who, key, fingerprint));
    OldClaimsStayPruned(s, Claim(who, key, fingerprint), next.claimOf, next);
    ClaimersStayLogged(s, who, key, fingerprint);
  }

  lemma ClaimersStayLogged(s: State, who: nat, key: Key, fingerprint: string)
    requires ClaimersAreLogged(s) && who !in s.requests && key !in s.table
    ensures ClaimersAreLogged(AfterInsert(s, who, key, fingerprint))
  {
    var next := AfterInsert(s, who, key, fingerprint);
    forall w | w in next.requests && next.requests[w].phase.Processing?
      ensures && next.requests[w].phase.claim < |next.log|
              && next.log[next.requests[w].phase.claim] == Claim(w, next.requests[w].key, next.requests[w].fingerprint)
    {
      if w != who {
        assert next.requests[w] == s.requests[w];
      }
    }
  }

  lemma QuietStepKeepsInv(s: State, event: Event, table: Table, requests: map<nat, Request>, who: nat)
    requires Inv(s) && !event.Claim? && !event.Pruned?
    requires event.Completion? ==> event.who in s.requests
    requires table.Keys == s.table.Keys
    requires forall k :: k in s.table ==> table[k].fingerprint == s.table[k].fingerprint
    requires who in s.requests && requests == s.requests[who := s.requests[who].(phase := Finished)]
    ensures Inv(State(table, s.claimOf, requests, s.log + [event]))
  {
    var next := State(table, s.claimOf, requests, s.log + [event]);
    forall k | k in next.table
      ensures RowClaimedAt(next.log, k, next.table[k].fingerprint, next.claimOf[k], |next.log|)
    {
      ClaimStillStands(s.log, event, k, s.table[k].fingerprint, s.claimOf[k]);
    }
    SeparationSurvives(s, event);
    OldClaimsStayPruned(s, event, next.claimOf, next);
  }

  lemma PruneKeepsInv(s: State, keys: set<Key>)
    requires Inv(s)
    ensures Inv(AfterPrune(s, keys))
  {
    var next := AfterPrune(s, keys);
    forall k | k in next.table
      ensures RowClaimedAt(next.log, k, next.table[k].fingerprint, next.claimOf[k], |next.log|)
    {
      ClaimStillStands(s.log, Pruned(keys), k, s.table[k].fingerprint, s.claimOf[k]);
    }
    SeparationSurvives(s, Pruned(keys));
    OldClaimsStayPruned(s, Pruned(keys), next.claimOf, next);
  }

  lemma StepKeepsInv(s: State, step: Step)
    requires Inv(s) && Enabled(s, step)
    ensures Inv(After(s, step))
  {
    match step
    case Insert(who, key, fingerprint) =>
      if key in s.table {
        WaitingKeepsInv(s, who, key, fingerprint);
      } else {
        ClaimingKeepsInv(s, who, key, fingerprint);
      }
    case Read(who) =>
      var next := After(s, step);
      QuietStepKeepsInv(s, next.log[|s.log|], next.table, next.requests, who);
    case Complete(who, status, body) =>
      var next := After(s, step);
      QuietStepKeepsInv(s, next.log[|s.log|], next.table, next.requests, who);
    case Prune(keys) =>
      PruneKeepsInv(s, keys);
  }

  lemma {:induction false} RunKeepsInv(states: seq<State>, steps: seq<Step>, n: nat)
    requires IsRun(states, steps) && n < |states|
    ensures Inv(states[n])
  {
    if n > 0 {
      RunKeepsInv(states, steps, n - 1);
      StepKeepsInv(states[n - 1], steps[n - 1]);
    }
  }

  // ----- Theorems ------------------------------------------------------------

  /** Over every interleaving, two `claimed` answers for a key have a prune of that key between them. */
  lemma ClaimsAreSeparatedByAPrune(states: seq<State>, steps: seq<Step>, n: nat, i: nat, j: nat)
    requires IsRun(states, steps) && n < |states|
    requires i < j < |states[n].log| && states[n].log[i].Claim? && states[n].log[j].Claim?
    requires states[n].log[i].key == states[n].log[j].key
    ensures exists p :: i < p < j && states[n].log[p].Pruned? && states[n].log[i].key in states[n].log[p].keys
  {
    RunKeepsInv(states, steps, n);
    assert !NoPrune(states[n].log, states[n].log[i].key, i + 1, j);
  }

  ghost predicate GoodRows(s: State) {
    RowsHaveClaims(s) && RowsAreTheirClaimers(s)
  }

  lemma CompletionsGrow(log: seq<Event>, event: Event, claim: int, status: int, body: string)
    requires 0 <= claim < |log| && log[claim].Claim?
    ensures CompletedByItsClaimer(log + [event], claim, |log| + 1, status, body) <==>
            || CompletedByItsClaimer(log, claim, |log|, status, body)
            || event == Completion(log[claim].who, log[claim].key, status, body)
  {
    var grown := log + [event];
    assert forall c :: 0 <= c < |log| ==> grown[c] == log[c];
    assert grown[|log|] == event;
  }

  /** The response a request stores in a row is that of the row's claimer when it owns the row. */
  lemma OwnCompletionFillsItsRow(s: State, who: nat, status: int, body: string)
    requires Inv(s) && NoStaleClaimer(s) && who in s.requests && s.requests[who].phase.Processing?
    ensures s.requests[who].key in s.table
    ensures CompletedByItsClaimer(s.log + [Completion(who, s.requests[who].key, status, body)],
                                  s.claimOf[s.requests[who].key], |s.log| + 1, status, body)
  {
    var log := s.log + [Completion(who, s.requests[who].key, status, body)];
    assert log[|s.log|] == Completion(who, s.requests[who].key, status, body);
  }

  lemma UntouchedRowKeepsItsResponse(s: State, event: Event, k: Key)
    requires RowsHaveClaims(s) && RowsAreTheirClaimers(s)
    requires k in s.table && s.table[k].status != PENDING_STATUS
    ensures CompletedByItsClaimer(s.log + [event], s.claimOf[k], |s.log| + 1, s.table[k].status, s.table[k].body)
  {
    CompletionsGrow(s.log, event, s.claimOf[k], s.table[k].status, s.table[k].body);
  }

  lemma CompleteKeepsRows(s: State, who: nat, status: int, body: string)
    requires Inv(s) && NoStaleClaimer(s) && RowsAreTheirClaimers(s)
    requires who in s.requests && s.requests[who].phase.Processing?
    requires RowsHaveClaims(AfterComplete(s, who, status, body))
    ensures RowsAreTheirClaimers(AfterComplete(s, who, status, body))
  {
    var next, key := AfterComplete(s, who, status, body), s.requests[who].key;
    OwnCompletionFillsItsRow(s, who, status, body);
    forall k | k in next.table && next.table[k].status != PENDING_STATUS
      ensures CompletedByItsClaimer(next.log, next.claimOf[k], |next.log|, next.table[k].status, next.table[k].body)
    {
      if k != key {
        UntouchedRowKeepsItsResponse(s, Completion(who, key, status, body), k);
      }
    }
  }

  lemma OtherStepKeepsRows(s: State, event: Event, next: State)
    requires RowsHaveClaims(s) && RowsAreTheirClaimers(s) && RowsHaveClaims(next)
    requires next.log == s.log + [event]
    requires forall k :: k in next.table && next.table[k].status != PENDING_STATUS ==>
               k in s.table && next.table[k] == s.table[k] && next.claimOf[k] == s.claimOf[k]
    ensures RowsAreTheirClaimers(next)
  {
    forall k | k in next.table && next.table[k].status != PENDING_STATUS
      ensures CompletedByItsClaimer(next.log, next.claimOf[k], |next.log|, next.table[k].status, next.table[k].body)
    {
      UntouchedRowKeepsItsResponse(s, event, k);
    }
  }

  lemma InsertKeepsRows(s: State, who: nat, key: Key, fingerprint: string)
    requires RowsHaveClaims(s) && RowsAreTheirClaimers(s) && RowsHaveClaims(AfterInsert(s, who, key, fingerprint))
    ensures RowsAreTheirClaimers(AfterInsert(s, who, key, fingerprint))
  {
    OtherStepKeepsRows(s, if key in s.table then Waiting(who) else Claim(who, key, fingerprint),
                       AfterInsert(s, who, key, fingerprint));
  }

  lemma ReadKeepsRows(s: State, who: nat)
    requires RowsHaveClaims(s) && RowsAreTheirClaimers(s)
    requires who in s.requests && RowsHaveClaims(AfterRead(s, who))
    ensures RowsAreTheirClaimers(AfterRead(s, who))
  {
    OtherStepKeepsRows(s, AfterRead(s, who).log[|s.log|], AfterRead(s, who));
  }

  lemma PruneKeepsRows(s: State, keys: set<Key>)
    requires RowsHaveClaims(s) && RowsAreTheirClaimers(s) && RowsHaveClaims(AfterPrune(s, keys))
    ensures RowsAreTheirClaimers(AfterPrune(s, keys))
  {
    OtherStepKeepsRows(s, Pruned(keys), AfterPrune(s, keys));
  }

  /** A step from a state without stale claimers leaves every row pending or its own claimer's. */
  lemma StepKeepsRows(s: State, step: Step)
    requires Inv(s) && Enabled(s, step) && NoStaleClaimer(s) && RowsAreTheirClaimers(s)
    ensures GoodRows(After(s, step))
  {
    StepKeepsInv(s, step);
    match step
    case Insert(who, key, fingerprint) => InsertKeepsRows(s, who, key, fingerprint);
    case Read(who) => ReadKeepsRows(s, who);
    case Complete(who, status, body) => CompleteKeepsRows(s, who, status, body);
    case Prune(keys) => PruneKeepsRows(s, keys);
  }

  /** No row is pruned before its claimer completes. */
  ghost predicate SparesClaimers(s: State, step: Step) {
    step.Prune? ==>
      forall w :: w in s.requests && s.requests[w].phase.Processing? ==> s.requests[w].key !in step.keys
  }

  /** A step makes a stale claimer exactly when it prunes the row of a request still processing. */
  lemma StaleExactlyByAnEarlyPrune(s: State, step: Step)
    requires Inv(s) && NoStaleClaimer(s) && Enabled(s, step)
    ensures NoStaleClaimer(After(s, step)) <==> SparesClaimers(s, step)
  {
    var next := After(s, step);
    if SparesClaimers(s, step) {
      forall w | w in next.requests && next.requests[w].phase.Processing?
        ensures && next.requests[w].key in next.claimOf
                && next.claimOf[next.requests[w].key] == next.requests[w].phase.claim
      {
        if w in s.requests {
          assert next.requests[w] == s.requests[w];
        }
      }
    } else {
      var w :| w in s.requests && s.requests[w].phase.Processing? && s.requests[w].key in step.keys;
      assert next.requests[w] == s.requests[w] && s.requests[w].key !in next.claimOf;
    }
  }

  lemma {:induction false} RunKeepsRows(states: seq<State>, steps: seq<Step>, n: nat)
    requires IsRun(states, steps) && n < |states|
    requires forall m :: 0 <= m < n ==> SparesClaimers(states[m], steps[m])
    ensures Inv(states[n]) && NoStaleClaimer(states[n]) && GoodRows(states[n])
  {
    RunKeepsInv(states, steps, n);
    if n > 0 {
      RunKeepsRows(states, steps, n - 1);
      StepKeepsRows(states[n - 1], steps[n - 1]);
      StaleExactlyByAnEarlyPrune(states[n - 1], steps[n - 1]);
    }
  }

  /**
   Over every interleaving in which no row is pruned before its claimer completes, each
   `cached` answer is the response of the claimer of the row, which had the same payload.
   */
  lemma CachedAnswersAreTheClaimers(states: seq<State>, steps: seq<Step>, n: nat)
    requires IsRun(states, steps) && n < |steps|
    requires forall m :: 0 <= m < n ==> SparesClaimers(states[m], steps[m])
    ensures |states[n + 1].log| == |states[n].log| + 1
    ensures FromClaimer(states[n + 1].log, |states[n].log|)
  {
    RunKeepsRows(states, steps, n);
    ReadersGetTheClaimers(states[n], steps[n]);
  }

  lemma ReadersGetTheClaimers(s: State, step: Step)
    requires Inv(s) && RowsAreTheirClaimers(s) && Enabled(s, step)
    ensures After(s, step).log == s.log + [After(s, step).log[|s.log|]]
    ensures FromClaimer(After(s, step).log, |s.log|)
  {
    var next := After(s, step);
    var event := next.log[|s.log|];
    if step.Read? && event.answer.Cached? {
      var key := event.key;
      var claim := s.claimOf[key];
      LogGrows(s.log, event, key, claim, |s.log|);
      assert next.log[claim] == s.log[claim];
      assert RowClaimedAt(next.log, key, event.fingerprint, claim, |s.log|);
      var c :| claim < c < |s.log| &&
               s.log[c] == Completion(s.log[claim].who, key, event.answer.status, event.answer.body);
      assert next.log[c] == s.log[c];
    }
  }

  /** Event `j`, if a replayed response, was read from a row claimed with the payload of the reader. */
  ghost predicate FromSamePayload(log: seq<Event>, j: int)
    requires 0 <= j < |log|
  {
    log[j].Answered? && log[j].answer.Cached? ==>
      exists claim :: RowClaimedAt(log, log[j].key, log[j].fingerprint, claim, j)
  }

  /** Whatever was pruned, a `cached` answer never crosses payloads. */
  lemma CachedAnswersMatchThePayload(states: seq<State>, steps: seq<Step>, n: nat)
    requires IsRun(states, steps) && n < |steps|
    ensures |states[n + 1].log| == |states[n].log| + 1
    ensures FromSamePayload(states[n + 1].log, |states[n].log|)
  {
    RunKeepsInv(states, steps, n);
    var s, next := states[n], states[n + 1];
    var event := next.log[|s.log|];
    assert next.log == s.log + [event];
    if event.Answered? && event.answer.Cached? {
      LogGrows(s.log, event, event.key, s.claimOf[event.key], |s.log|);
      assert RowClaimedAt(next.log, event.key, event.fingerprint, s.claimOf[event.key], |s.log|);
    }
  }

  // ----- What every answer says ----------------------------------------------

  /** Nobody has completed `key` after event `claim` and before `j`. */
  ghost predicate NoCompletion(log: seq<Event>, key: Key, claim: int, j: int)
    requires 0 <= claim && j <= |log|
  {
    forall c :: claim < c < j && log[c].Completion? ==> log[c].key != key
  }

  /** Event `c` is the last completion of `key` after event `claim` and before `j`, whoever made it. */
  ghost predicate LastCompletion(log: seq<Event>, key: Key, claim: int, j: int, c: int)
    requires 0 <= claim && j <= |log|
  {
    claim < c < j && log[c].Completion? && log[c].key == key && NoCompletion(log, key, c, j)
  }

  /** The row that event `claim` made is as its last completion left it, or as it was made. */
  ghost predicate RowIsLogged(log: seq<Event>, key: Key, claim: int, row: Row)
    requires 0 <= claim
  {
    if row.status == PENDING_STATUS then row.body == "{}" && NoCompletion(log, key, claim, |log|)
    else exists c ::
           LastCompletion(log, key, claim, |log|, c) && log[c].status == row.status && log[c].body == row.body
  }

  ghost predicate TableIsLogged(s: State)
    requires RowsHaveClaims(s)
  {
    forall k :: k in s.table ==> RowIsLogged(s.log, k, s.claimOf[k], s.table[k])
  }

  lemma RowStaysLogged(log: seq<Event>, event: Event, key: Key, claim: int, row: Row)
    requires 0 <= claim < |log| && RowIsLogged(log, key, claim, row)
    requires event.Completion? ==> event.key != key
    ensures RowIsLogged(log + [event], key, claim, row)
  {
    var grown := log + [event];
    assert forall c :: 0 <= c < |log| ==> grown[c] == log[c];
    if row.status != PENDING_STATUS {
      var c :| LastCompletion(log, key, claim, |log|, c) && log[c].status == row.status && log[c].body == row.body;
      assert LastCompletion(grown, key, claim, |grown|, c);
    }
  }

  lemma CompletedRowIsLogged(log: seq<Event>, who: nat, key: Key, claim: int, row: Row)
    requires 0 <= claim < |log| && row.status != PENDING_STATUS
    ensures RowIsLogged(log + [Completion(who, key, row.status, row.body)], key, claim, row)
  {
    var grown := log + [Completion(who, key, row.status, row.body)];
    assert LastCompletion(grown, key, claim, |grown|, |log|);
  }

  lemma StepKeepsRowLogged(s: State, step: Step, k: Key)
    requires RowsHaveClaims(s) && TableIsLogged(s) && Enabled(s, step)
    requires RowsHaveClaims(After(s, step)) && k in After(s, step).table
    ensures RowIsLogged(After(s, step).log, k, After(s, step).claimOf[k], After(s, step).table[k])
  {
    hide RowIsLogged, RowClaimedAt;
    var next := After(s, step);
    if k in s.table {
      assert RowIsLogged(s.log, k, s.claimOf[k], s.table[k]);
      ClaimIsLogged(s, k);
    }
    match step
    case Insert(who, key, fingerprint) =>
      if k in s.table {
        RowStaysLogged(s.log, next.log[|s.log|], k, s.claimOf[k], s.table[k]);
      } else {
        NewRowIsLogged(next.log, k, next.claimOf[k], next.table[k]);
      }
    case Read(who) => RowStaysLogged(s.log, next.log[|s.log|], k, s.claimOf[k], s.table[k]);
    case Complete(who, status, body) =>
      if s.requests[who].key == k {
        CompletedRowIsLogged(s.log, who, k, s.claimOf[k], next.table[k]);
      } else {
        RowStaysLogged(s.log, next.log[|s.log|], k, s.claimOf[k], s.table[k]);
      }
    case Prune(keys) => RowStaysLogged(s.log, Pruned(keys), k, s.claimOf[k], s.table[k]);
  }

  lemma ClaimIsLogged(s: State, k: Key)
    requires RowsHaveClaims(s) && k in s.table
    ensures s.claimOf[k] < |s.log|
  {
  }

  lemma StepKeepsTableLogged(s: State, step: Step)
    requires Inv(s) && TableIsLogged(s) && Enabled(s, step)
    ensures RowsHaveClaims(After(s, step)) && TableIsLogged(After(s, step))
  {
    hide RowIsLogged;
    StepKeepsInv(s, step);
    forall k | k in After(s, step).table
      ensures RowIsLogged(After(s, step).log, k, After(s, step).claimOf[k], After(s, step).table[k])
    {
      StepKeepsRowLogged(s, step, k);
    }
  }

  lemma NewRowIsLogged(log: seq<Event>, key: Key, claim: int, row: Row)
    requires 0 <= claim == |log| - 1 && row.status == PENDING_STATUS && row.body == "{}"
    ensures RowIsLogged(log, key, claim, row)
  {
  }

  lemma {:induction false} RunKeepsTableLogged(states: seq<State>, steps: seq<Step>, n: nat)
    requires IsRun(states, steps) && n < |states|
    ensures RowsHaveClaims(states[n]) && TableIsLogged(states[n])
  {
    RunKeepsInv(states, steps, n);
    if n > 0 {
      RunKeepsInv(states, steps, n - 1);
      RunKeepsTableLogged(states, steps, n - 1);
      StepKeepsTableLogged(states[n - 1], steps[n - 1]);
    }
  }

  /** Event `claim` claimed the key and no prune has removed its row before `j`. */
  ghost predicate Standing(log: seq<Event>, key: Key, claim: int, j: int)
    requires 0 <= j <= |log|
  {
    0 <= claim < j && ClaimsKey(log[claim], key) && NoPrune(log, key, claim, j)
  }

  /**
   What the answer at `j` must be by the events before it: no standing claim or one of this payload that
   nobody completed, in progress; one of another payload, a conflict; one of this payload, the last
   completion of the key since.
   */
  ghost predicate IsRightAnswer(log: seq<Event>, key: Key, fingerprint: string, j: int, answer: Answer)
    requires 0 <= j <= |log|
  {
    if forall claim :: !Standing(log, key, claim, j) then answer == InProgress
    else
      exists claim ::
        && Standing(log, key, claim, j)
        && if log[claim].fingerprint != fingerprint then answer == Conflict
           else if NoCompletion(log, key, claim, j) then answer == InProgress
           else exists c :: LastCompletion(log, key, claim, j, c) && answer == Cached(log[c].status, log[c].body)
  }

  /** Over every interleaving, every answer is decided by the events before it; there is only one right answer. */
  lemma EveryAnswerIsRight(states: seq<State>, steps: seq<Step>, n: nat)
    requires IsRun(states, steps) && n < |steps| && steps[n].Read?
    ensures var log, request := states[n].log, states[n].requests[steps[n].who];
            exists answer ::
              && states[n + 1].log == log + [Answered(steps[n].who, request.key, request.fingerprint, answer)]
              && IsRightAnswer(log, request.key, request.fingerprint, |log|, answer)
  {
    var s, request := states[n], states[n].requests[steps[n].who];
    RunKeepsInv(states, steps, n);
    RunKeepsTableLogged(states, steps, n);
    var answer := AnswerFrom(s.table, request.key, request.fingerprint);
    AnswerIsRight(s, request.key, request.fingerprint);
    assert states[n + 1].log == s.log + [Answered(steps[n].who, request.key, request.fingerprint, answer)];
  }

  lemma AnswerIsRight(s: State, key: Key, fingerprint: string)
    requires Inv(s) && TableIsLogged(s)
    ensures IsRightAnswer(s.log, key, fingerprint, |s.log|, AnswerFrom(s.table, key, fingerprint))
  {
    if key in s.table {
      assert Standing(s.log, key, s.claimOf[key], |s.log|);
      assert RowIsLogged(s.log, key, s.claimOf[key], s.table[key]);
    } else {
      forall claim
        ensures !Standing(s.log, key, claim, |s.log|)
      {
      }
    }
  }

  lemma RightAnswerIsUnique(log: seq<Event>, key: Key, fingerprint: string, j: int, a: Answer, b: Answer)
    requires 0 <= j <= |log| && ClaimsSeparated(log)
    requires IsRightAnswer(log, key, fingerprint, j, a) && IsRightAnswer(log, key, fingerprint, j, b)
    ensures a == b
  {
    if exists claim :: Standing(log, key, claim, j) {
      forall x, y | Standing(log, key, x, j) && Standing(log, key, y, j)
        ensures x == y
      {
        if x < y {
          assert NoPrune(log, key, x + 1, y);
        } else if y < x {
          assert NoPrune(log, key, y + 1, x);
        }
      }
    }
  }

  // ----- The condition is exact ----------------------------------------------

  /** `next` follows `s` in the steps given. */
  ghost predicate Follows(s: State, steps: seq<Step>, next: State)
    decreases |steps|
  {
    if steps == [] then next == s
    else Enabled(s, steps[0]) && Follows(After(s, steps[0]), steps[1..], next)
  }

  ghost predicate PruneFree(steps: seq<Step>) {
    forall i :: 0 <= i < |steps| ==> !steps[i].Prune?
  }

  ghost predicate LastAnswerIsTheClaimers(s: State) {
    |s.log| > 0 ==> FromClaimer(s.log, |s.log| - 1)
  }

  lemma OnlyThePresentClaim(s: State, event: Event, key: Key, fingerprint: string, claim: int)
    requires OldClaimsPruned(s)
    requires RowClaimedAt(s.log + [event], key, fingerprint, claim, |s.log|)
    ensures key in s.claimOf && claim == s.claimOf[key]
  {
    LogGrows(s.log, event, key, claim, |s.log|);
    assert (s.log + [event])[claim] == s.log[claim];
  }

  lemma CompletedBefore(log: seq<Event>, event: Event, claim: int, status: int, body: string)
    requires 0 <= claim < |log| && log[claim].Claim?
    ensures (log + [event])[claim].Claim?
    ensures CompletedByItsClaimer(log + [event], claim, |log|, status, body) <==>
            CompletedByItsClaimer(log, claim, |log|, status, body)
  {
    assert forall c :: 0 <= c < |log| ==> (log + [event])[c] == log[c];
  }

  /** A reader is served the row as it is, also when the claimer of that row never gave that response. */
  lemma ForeignRowIsServed(s: State, reader: nat, key: Key)
    requires RowsHaveClaims(s) && OldClaimsPruned(s)
    requires reader in s.requests && s.requests[reader].phase == Reading && key in s.table
    requires s.requests[reader].key == key && s.requests[reader].fingerprint == s.table[key].fingerprint
    requires s.table[key].status != PENDING_STATUS
    requires !CompletedByItsClaimer(s.log, s.claimOf[key], |s.log|, s.table[key].status, s.table[key].body)
    ensures !LastAnswerIsTheClaimers(After(s, Read(reader)))
  {
    var row := s.table[key];
    var event := Answered(reader, key, row.fingerprint, Cached(row.status, row.body));
    var log := s.log + [event];
    assert After(s, Read(reader)).log == log;
    forall claim | RowClaimedAt(log, key, row.fingerprint, claim, |s.log|)
      ensures !CompletedByItsClaimer(log, claim, |s.log|, row.status, row.body)
    {
      OnlyThePresentClaim(s, event, key, row.fingerprint, claim);
      CompletedBefore(s.log, event, claim, row.status, row.body);
    }
  }

  /** Completing somebody else's row leaves it with a response its claimer did not give. */
  lemma StaleCompletionIsForeign(s: State, stale: nat, status: int, body: string)
    requires Inv(s) && stale in s.requests && s.requests[stale].phase.Processing? && status != PENDING_STATUS
    requires s.requests[stale].key in s.table
    requires s.claimOf[s.requests[stale].key] != s.requests[stale].phase.claim
    requires !CompletedByItsClaimer(s.log, s.claimOf[s.requests[stale].key], |s.log|, status, body)
    ensures var key, next := s.requests[stale].key, After(s, Complete(stale, status, body));
            && key in next.table && next.table[key] == Row(status, body, s.table[key].fingerprint)
            && next.claimOf == s.claimOf && RowsHaveClaims(next)
            && !CompletedByItsClaimer(next.log, next.claimOf[key], |next.log|, status, body)
  {
    var key, next := s.requests[stale].key, After(s, Complete(stale, status, body));
    StepKeepsInv(s, Complete(stale, status, body));
    var claim := s.claimOf[key];
    assert s.log[claim].who != stale;
    CompletionsGrow(s.log, Completion(stale, key, status, body), claim, status, body);
  }

  /**
   A request whose row is no longer its own poisons the row that replaced it: it completes,
   and the next duplicate of that row's payload is answered with a response its claimer
   never gave. No further prune is needed.
   */
  lemma StaleClaimerPoisonsTheRow(s: State, stale: nat, reader: nat, status: int, body: string)
    returns (next: State)
    requires Inv(s) && stale in s.requests && s.requests[stale].phase.Processing? && status != PENDING_STATUS
    requires s.requests[stale].key in s.table
    requires s.claimOf[s.requests[stale].key] != s.requests[stale].phase.claim
    requires !CompletedByItsClaimer(s.log, s.claimOf[s.requests[stale].key], |s.log|, status, body)
    requires reader !in s.requests
    ensures Follows(s, [Complete(stale, status, body),
                        Insert(reader, s.requests[stale].key, s.table[s.requests[stale].key].fingerprint),
                        Read(reader)], next)
    ensures !LastAnswerIsTheClaimers(next)
  {
    var key := s.requests[stale].key;
    var complete := Complete(stale, status, body);
    var insert := Insert(reader, key, s.table[key].fingerprint);
    var one := After(s, complete);
    StaleCompletionIsForeign(s, stale, status, body);
    StepKeepsInv(s, complete);
    var two := After(one, insert);
    StepKeepsInv(one, insert);
    ForeignStaysForeign(one, Waiting(reader), one.claimOf[key], status, body);
    ForeignRowIsServed(two, reader, key);
    next := After(two, Read(reader));
    assert [complete, insert, Read(reader)][1..] == [insert, Read(reader)];
    assert [insert, Read(reader)][1..] == [Read(reader)];
    assert Follows(two, [Read(reader)], next);
    assert Follows(one, [insert, Read(reader)], next);
  }

  lemma ForeignStaysForeign(s: State, event: Event, claim: int, status: int, body: string)
    requires 0 <= claim < |s.log| && s.log[claim].Claim? && !event.Completion?
    requires !CompletedByItsClaimer(s.log, claim, |s.log|, status, body)
    ensures (s.log + [event])[claim].Claim?
    ensures !CompletedByItsClaimer(s.log + [event], claim, |s.log| + 1, status, body)
  {
    CompletionsGrow(s.log, event, claim, status, body);
  }

  lemma {:induction false} FreshClaimersStayServed(s: State, steps: seq<Step>, next: State)
    requires Inv(s) && RowsAreTheirClaimers(s) && NoStaleClaimer(s)
    requires Follows(s, steps, next) && PruneFree(steps) && steps != []
    ensures LastAnswerIsTheClaimers(next)
    decreases |steps|
  {
    hide After, Enabled, FromClaimer;
    var follow := After(s, steps[0]);
    StepKeepsInv(s, steps[0]);
    StepKeepsRows(s, steps[0]);
    ReadersGetTheClaimers(s, steps[0]);
    if |steps| > 1 {
      StaleExactlyByAnEarlyPrune(s, steps[0]);
      FreshClaimersStayServed(follow, steps[1..], next);
    }
  }

  lemma {:induction false} UnusedId(ids: set<nat>) returns (id: nat)
    ensures forall i :: i in ids ==> i < id
    decreases |ids|
  {
    if ids == {} {
      id := 0;
    } else {
      var some :| some in ids;
      var below := UnusedId(ids - {some});
      id := if some < below then below else some + 1;
      assert forall i :: i in ids ==> i == some || i in ids - {some};
    }
  }

  /** A response body longer than all that were stored. */
  lemma {:induction false} UnusedBody(log: seq<Event>) returns (body: string)
    ensures forall i :: 0 <= i < |log| && log[i].Completion? ==> |log[i].body| < |body|
  {
    if log == [] {
      body := "";
    } else {
      var last := log[|log| - 1];
      var before := UnusedBody(log[..|log| - 1]);
      body := if last.Completion? && |last.body| >= |before| then last.body + "x" else before;
      assert forall i :: 0 <= i < |log| - 1 ==> log[i] == log[..|log| - 1][i];
    }
  }

  /** With no row in its way, a stale claimer poisons the next claim of the key. */
  lemma StaleClaimerPoisonsTheNextClaim(s: State, stale: nat, id: nat, status: int, body: string)
    returns (steps: seq<Step>, next: State)
    requires Inv(s) && stale in s.requests && s.requests[stale].phase.Processing?
    requires s.requests[stale].key !in s.table && status != PENDING_STATUS
    requires id !in s.requests && id + 1 !in s.requests
    ensures Follows(s, steps, next) && PruneFree(steps) && steps != []
    ensures !LastAnswerIsTheClaimers(next)
  {
    var key := s.requests[stale].key;
    var claim := Insert(id, key, "");
    var follow := After(s, claim);
    StepKeepsInv(s, claim);
    next := StaleClaimerPoisonsTheRow(follow, stale, id + 1, status, body);
    var rest := [Complete(stale, status, body), Insert(id + 1, key, ""), Read(id + 1)];
    steps := [claim] + rest;
    assert steps[1..] == rest;
  }

  /** A stale claimer always has a prune-free continuation that serves a foreign response. */
  lemma StaleClaimerHasAVictim(s: State, stale: nat) returns (steps: seq<Step>, next: State)
    requires Inv(s) && stale in s.requests && s.requests[stale].phase.Processing?
    requires s.requests[stale].key in s.claimOf ==>
               s.claimOf[s.requests[stale].key] != s.requests[stale].phase.claim
    ensures Follows(s, steps, next) && PruneFree(steps) && steps != []
    ensures !LastAnswerIsTheClaimers(next)
  {
    var key := s.requests[stale].key;
    var id := UnusedId(s.requests.Keys);
    var body := UnusedBody(s.log);
    if key in s.table {
      next := StaleClaimerPoisonsTheRow(s, stale, id, 200, body);
      steps := [Complete(stale, 200, body), Insert(id, key, s.table[key].fingerprint), Read(id)];
    } else {
      steps, next := StaleClaimerPoisonsTheNextClaim(s, stale, id, 200, body);
    }
  }

  /** A row that already holds a response its claimer did not give is served to the next duplicate. */
  lemma ForeignRowHasAVictim(s: State, key: Key) returns (steps: seq<Step>, next: State)
    requires Inv(s) && key in s.table && s.table[key].status != PENDING_STATUS
    requires !CompletedByItsClaimer(s.log, s.claimOf[key], |s.log|, s.table[key].status, s.table[key].body)
    ensures Follows(s, steps, next) && PruneFree(steps) && steps != []
    ensures !LastAnswerIsTheClaimers(next)
  {
    var reader := UnusedId(s.requests.Keys);
    var row := s.table[key];
    var insert := Insert(reader, key, row.fingerprint);
    var read := After(s, insert);
    StepKeepsInv(s, insert);
    ForeignStaysForeign(s, Waiting(reader), s.claimOf[key], row.status, row.body);
    ForeignRowIsServed(read, reader, key);
    next := After(read, Read(reader));
    steps := [insert, Read(reader)];
    assert steps[1..] == [Read(reader)];
    assert Follows(read, [Read(reader)], next);
  }

  /**
   The exact condition, in every state that keeps the invariant, and so in every state a run reaches:
   as long as nothing more is pruned, every replayed response is the claimer's own if and only if every
   request still processing holds the row of its key and every finished row holds its claimer's response.
   */
  lemma NoStaleClaimerIsExact(s: State)
    requires Inv(s)
    ensures NoStaleClaimer(s) && RowsAreTheirClaimers(s) <==>
            (forall steps, next :: Follows(s, steps, next) && PruneFree(steps) && steps != [] ==>
               LastAnswerIsTheClaimers(next))
  {
    if NoStaleClaimer(s) && RowsAreTheirClaimers(s) {
      forall steps, next | Follows(s, steps, next) && PruneFree(steps) && steps != []
        ensures LastAnswerIsTheClaimers(next)
      {
        FreshClaimersStayServed(s, steps, next);
      }
    } else {
      var steps, next := SomeoneIsServedWrongly(s);
    }
  }

  lemma SomeoneIsServedWrongly(s: State) returns (steps: seq<Step>, next: State)
    requires Inv(s) && !(NoStaleClaimer(s) && RowsAreTheirClaimers(s))
    ensures Follows(s, steps, next) && PruneFree(steps) && steps != []
    ensures !LastAnswerIsTheClaimers(next)
  {
    hide Follows, PruneFree, LastAnswerIsTheClaimers, CompletedByItsClaimer;
    if !NoStaleClaimer(s) {
      var stale :| && stale in s.requests && s.requests[stale].phase.Processing?
                   && !(s.requests[stale].key in s.claimOf &&
                        s.claimOf[s.requests[stale].key] == s.requests[stale].phase.claim);
      steps, next := StaleClaimerHasAVictim(s, stale);
    } else {
      var key :| && key in s.table && s.table[key].status != PENDING_STATUS
                 && !CompletedByItsClaimer(s.log, s.claimOf[key], |s.log|, s.table[key].status, s.table[key].body);
      steps, next := ForeignRowHasAVictim(s, key);
    }
  }
}
